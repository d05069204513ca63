/** The byte-wise comparisons of audit/audit_scalar.cpp and audit/audit_field.cpp, for byte
    strings of any equal length. */
module BigEndian {
  import opened AuditCheck

  type Byte = x: int | 0 <= x < 256

  /** The number a byte string spells, most significant byte first. */
  function Value(s: seq<Byte>): nat {
    if s == [] then 0 else 256 * Value(s[..|s| - 1]) + s[|s| - 1]
  }

  lemma ValueStep(s: seq<Byte>, j: nat)
    requires j < |s|
    ensures Value(s[..j + 1]) == 256 * Value(s[..j]) + s[j]
  {
    assert s[..j + 1][..j] == s[..j];
  }

  /** Once a prefix is smaller, no later byte can make up for it. */
  lemma {:induction false} SmallerPrefixDecides(a: seq<Byte>, b: seq<Byte>, j: nat)
    requires |a| == |b| && j <= |a| && Value(a[..j]) < Value(b[..j])
    ensures Value(a) < Value(b)
    decreases |a| - j
  {
    if j == |a| {
      assert a[..j] == a && b[..j] == b;
    } else {
      ValueStep(a, j);
      ValueStep(b, j);
      SmallerPrefixDecides(a, b, j + 1);
    }
  }

  /** The first differing byte decides the numeric order. */
  lemma {:induction false} FirstDifferenceDecides(a: seq<Byte>, b: seq<Byte>, j: nat)
    requires |a| == |b| && j < |a| && a[..j] == b[..j] && a[j] < b[j]
    ensures Value(a) < Value(b)
  {
    ValueStep(a, j);
    ValueStep(b, j);
    SmallerPrefixDecides(a, b, j + 1);
  }

  /** Equal numbers of equal length are equal byte strings. */
  lemma {:induction false} ValueIsInjective(a: seq<Byte>, b: seq<Byte>)
    requires |a| == |b| && Value(a) == Value(b)
    ensures a == b
  {
    if a == [] {
    } else {
      var n := |a| - 1;
      ValueIsInjective(a[..n], b[..n]);
      assert a == a[..n] + [a[n]] && b == b[..n] + [b[n]];
    }
  }

  lemma {:induction false} ZeroBytes(s: seq<Byte>)
    ensures Value(s) == 0 <==> forall k :: 0 <= k < |s| ==> s[k] == 0
  {
    if s == [] {
    } else {
      ZeroBytes(s[..|s| - 1]);
    }
  }

  /** One round of the scalar audit on a serialised scalar and the group order. A value above
      the order fails twice, the order itself once, and a value below leaves no trace, not even
      a pass. */
  method CheckScalarReduced(out: seq<Byte>, n: seq<Byte>, g: Counters)
    requires |out| == |n|
    modifies g
    ensures Value(out) < Value(n) ==> g.fail == old(g.fail) && g.pass == old(g.pass)
    ensures Value(out) == Value(n) > 0 ==> g.fail == old(g.fail) + 1 && g.pass == old(g.pass)
    ensures Value(out) == Value(n) == 0 ==> g.fail == old(g.fail) && g.pass == old(g.pass) + 1
    ensures Value(out) > Value(n) ==> g.fail == old(g.fail) + 2 && g.pass == old(g.pass)
  {
    var less := false;
    var j := 0;
    while j < |out|
      invariant 0 <= j <= |out|
      invariant !less && out[..j] == n[..j]
      invariant g.fail == old(g.fail) && g.pass == old(g.pass)
    {
      if out[j] < n[j] {
        FirstDifferenceDecides(out, n, j);
        less := true;
        break;
      }
      if out[j] > n[j] {
        FirstDifferenceDecides(n, out, j);
        g.Check(false);
        break;
      }
      j := j + 1;
    }
    assert j == |out| ==> out == out[..j] && n == n[..j];
    if !less {
      ZeroBytes(out);
      var allZero := true;
      for k := 0 to |out|
        invariant allZero && forall i :: 0 <= i < k ==> out[i] == 0
      {
        if out[k] != 0 { allZero := false; break; }
      }
      g.Check(allZero);
    }
  }

  /** One round of the field audit on a serialised element and the prime. Both checks reject
      exactly the values above the prime, so the prime itself passes. */
  method CheckFieldCanonical(bytes: seq<Byte>, p: seq<Byte>, g: Counters)
    requires |bytes| == |p|
    modifies g
    ensures Value(bytes) <= Value(p) ==> g.pass == old(g.pass) + 2 && g.fail == old(g.fail)
    ensures Value(bytes) > Value(p) ==> g.pass == old(g.pass) && g.fail == old(g.fail) + 2
  {
    var greater := false;
    var j := 0;
    while j < |bytes|
      invariant 0 <= j <= |bytes|
      invariant !greater && bytes[..j] == p[..j]
    {
      if bytes[j] < p[j] {
        FirstDifferenceDecides(bytes, p, j);
        break;
      }
      if bytes[j] > p[j] {
        FirstDifferenceDecides(p, bytes, j);
        greater := true;
        break;
      }
      j := j + 1;
    }
    assert j == |bytes| ==> bytes == bytes[..j] && p == p[..j];
    g.Check(!greater);
    g.Check(!greater);
  }
}
