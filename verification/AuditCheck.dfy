/** The pass and fail counters behind audit/audit_check.hpp. */
module AuditCheck {

  class Counters {
    var pass: nat
    var fail: nat

    constructor ()
      ensures pass == 0 && fail == 0
    {
      pass, fail := 0, 0;
    }

    /** The `CHECK` macro. */
    method Check(cond: bool)
      modifies this
      ensures pass == old(pass) + (if cond then 1 else 0)
      ensures fail == old(fail) + (if cond then 0 else 1)
    {
      if cond {
        pass := pass + 1;
      } else {
        fail := fail + 1;
      }
    }
  }
}
