/** The cross-platform verdict of ci/audit_verdict.py, which reads the JSON reports that the runner
    prints. */
module CiVerdict {
  import opened AuditRunner
  import opened JsonDocument
  import opened JsonReport
  import opened PrintedPieces
  import opened Wrappers

  // ---------------------------------------------------------------- one report

  /** What loading a report ends in. Only parsing is guarded: looking a key up in a value that is no
      object raises. */
  datatype Loaded = Found(verdict: string) | Absent | Raised

  /** `dict.get`: of members with one key the last counts. */
  function Get(ms: seq<Member>, key: string): Option<Value> {
    if ms == [] then None
    else if ms[|ms| - 1].key == key then Some(ms[|ms| - 1].value)
    else Get(ms[..|ms| - 1], key)
  }

  /** Python's truth of a JSON value. A number is false if its digits before the exponent are zeros. */
  predicate Truthy(v: Value) {
    match v
    case Obj(ms) => ms != []
    case Arr(xs) => xs != []
    case Txt(s) => s != ""
    case Atom(w) => w == "true" || exists k :: 0 <= k < |w| && '1' <= w[k] <= '9' && BeforeExponent(w, k)
  }

  predicate BeforeExponent(w: string, k: nat)
    requires k < |w|
  {
    forall j :: 0 <= j < k ==> w[j] != 'e' && w[j] != 'E'
  }

  function LoadVerdict(doc: Option<Value>): Loaded {
    if doc.None? then Absent
    else if !doc.value.Obj? then Raised
    else
      var ms := doc.value.members;
      var canonical := Get(ms, "audit_verdict");
      var verdict := if canonical.Some? && Truthy(canonical.value) then canonical else Get(ms, "verdict");
      if verdict.Some? && verdict.value.Txt? then Found(verdict.value.value)
      else NestedVerdict(Get(ms, "summary"))
  }

  function NestedVerdict(summary: Option<Value>): Loaded {
    if summary.None? || !Truthy(summary.value) then Absent
    else if !summary.value.Obj? then Raised
    else
      var verdict := Get(summary.value.members, "audit_verdict");
      if verdict.Some? && verdict.value.Txt? then Found(verdict.value.value) else Absent
  }

  predicate Accepted(l: Loaded) {
    l.Found? && l.verdict in {"PASS", "pass", "AUDIT-READY", "AUDIT-READY-DEGRADED"}
  }

  lemma GetInPlainTerms(ms: seq<Member>, key: string, m: Member)
    ensures Get([], key) == None
    ensures Get(ms + [m], key) == if m.key == key then Some(m.value) else Get(ms, key)
  {
    assert (ms + [m])[..|ms|] == ms;
  }

  lemma TruthInPlainTerms()
    ensures forall v :: v in {Atom("null"), Atom("false"), Atom("0"), Atom("-0.0"), Txt(""), Arr([]), Obj([])} ==>
              !Truthy(v)
    ensures Truthy(Atom("true")) && forall s :: s != "" ==> Truthy(Txt(s))
    ensures Truthy(Atom("0.5")) && !Truthy(Atom("0e5")) && !Truthy(Atom("0E5"))
    ensures forall c | '1' <= c <= '9' :: Truthy(Atom([c]))
  {
    forall c | '1' <= c <= '9' ensures Truthy(Atom([c])) {
      assert [c][0] == c && BeforeExponent([c], 0);
    }
    assert "0.5"[2] == '5' && BeforeExponent("0.5", 2);
    assert "0e5"[1] == 'e' && "0E5"[1] == 'E';
  }

  lemma AcceptedInPlainTerms(v: string)
    ensures Accepted(Found(v)) <==> v == "PASS" || v == "pass" || v == "AUDIT-READY" || v == "AUDIT-READY-DEGRADED"
    ensures !Accepted(Absent) && !Accepted(Raised)
  {}

  /** A verdict at the top comes before the nested one, `audit_verdict` before `verdict`, unless
      what is there counts as false. */
  lemma TopLevelDecides(ms: seq<Member>, v: string)
    ensures Get(ms, "audit_verdict") == Some(Txt(v)) && v != "" ==> LoadVerdict(Some(Obj(ms))) == Found(v)
    ensures Get(ms, "verdict") == Some(Txt(v))
            && (Get(ms, "audit_verdict") == None || Get(ms, "audit_verdict") == Some(Atom("null"))
                || Get(ms, "audit_verdict") == Some(Txt(""))) ==>
              LoadVerdict(Some(Obj(ms))) == Found(v)
    ensures Get(ms, "verdict") == None && Get(ms, "audit_verdict") == None && Get(ms, "summary") == None ==>
              LoadVerdict(Some(Obj(ms))) == Absent
    ensures LoadVerdict(None) == Absent && LoadVerdict(Some(Arr([]))) == Raised
  {
    hide Get;
  }

  /** The last of the members with a key is found. */
  lemma {:induction false} GetAt(ms: seq<Member>, key: string, i: nat)
    requires i < |ms| && ms[i].key == key && forall j :: i < j < |ms| ==> ms[j].key != key
    ensures Get(ms, key) == Some(ms[i].value)
  {
    if i < |ms| - 1 {
      GetAt(ms[..|ms| - 1], key, i);
    }
  }

  lemma {:induction false} GetNone(ms: seq<Member>, key: string)
    requires forall j :: 0 <= j < |ms| ==> ms[j].key != key
    ensures Get(ms, key) == None
  {
    if ms != [] {
      GetNone(ms[..|ms| - 1], key);
    }
  }

  /** The keys of the printed report and of its summary. */
  lemma PrintedKeys(
    p: Platform, rs: seq<ModuleResult>, sections: seq<SectionInfo>, selftest: bool, selftestMs: real, totalMs: real)
    ensures var ms := Intended(p, rs, sections, selftest, selftestMs, totalMs).members;
            && Get(ms, "audit_verdict") == None && Get(ms, "verdict") == None
            && |ms| == 10 && Get(ms, "summary") == Some(ms[7].value)
            && ms[7].value.Obj?
            && var m := ms[7].value.members;
               |m| == 9 && Get(m, "audit_verdict") == Some(m[8].value)
  {
    hide TotalsOf, VerdictOf, SummariesOf, SectionValues, Get, SummaryMembers, PlatformMembers, SelftestMembers;
    var ms := Intended(p, rs, sections, selftest, selftestMs, totalMs).members;
    GetNone(ms, "audit_verdict");
    GetNone(ms, "verdict");
    GetAt(ms, "summary", 7);
    PrintedVerdict(p, rs, sections, selftest, selftestMs, totalMs);
    GetAt(ms[7].value.members, "audit_verdict", 8);
  }

  /** From run to verdict: the verdict found in a printed report is blocked, ready or degraded as
      the run was, and it is accepted exactly when the selftest passed and no mandatory module
      failed. */
  lemma PrintedReportIsAcceptedExactly(
    text: string, p: Platform, rs: seq<ModuleResult>, sections: seq<SectionInfo>, selftest: bool, selftestMs: real,
    totalMs: real)
    requires ParseText(text) == Some(Intended(p, rs, sections, selftest, selftestMs, totalMs))
    ensures var l := LoadVerdict(ParseText(text));
            && l.Found?
            && (Accepted(l) <==> selftest && forall r <- rs :: r.passed || r.advisory)
            && (l.verdict == "AUDIT-READY"
                <==> selftest && forall r <- rs :: r.passed || (r.advisory && r.returnCode == 77))
  {
    hide Get, ParseText, Intended;
    PrintedKeys(p, rs, sections, selftest, selftestMs, totalMs);
    PrintedVerdict(p, rs, sections, selftest, selftestMs, totalMs);
    PrintedHeader(p, rs, sections, selftest, selftestMs, totalMs);
  }

  // ---------------------------------------------------------------- all platforms

  /** A platform that CI ran: its name, the result of its job and the text of its report, if the
      artifact holds one. */
  datatype Spec = Spec(platform: string, jobResult: string, report: Option<string>)

  datatype Ending = Exit(code: int) | Crash

  function Hyphenated(s: string): (t: string)
    ensures |t| == |s| && forall i :: 0 <= i < |s| ==> t[i] == if s[i] == '_' then '-' else s[i]
  {
    seq(|s|, i requires 0 <= i < |s| => if s[i] == '_' then '-' else s[i])
  }

  function LoadedFrom(s: Spec): Loaded
    requires s.report.Some?
  {
    LoadVerdict(ParseText(s.report.value))
  }

  /** A report must be accepted; without one the platform must be optional and its job cancelled
      or skipped. */
  predicate Fine(s: Spec, required: set<string>) {
    if s.report.Some? then Accepted(LoadedFrom(s))
    else Hyphenated(s.platform) !in required && s.jobResult in {"cancelled", "skipped"}
  }

  ghost predicate Crashes(specs: seq<Spec>) {
    exists s <- specs :: s.report.Some? && LoadedFrom(s).Raised?
  }

  ghost predicate Passes(specs: seq<Spec>, required: set<string>) {
    (exists s <- specs :: s.report.Some?) && forall s <- specs :: Fine(s, required)
  }

  /** The aggregation loop; `required` holds hyphenated names. */
  method Evaluate(specs: seq<Spec>, required: set<string>) returns (r: Ending)
    ensures r == Crash <==> Crashes(specs)
    ensures r == Exit(0) <==> Passes(specs, required)
    ensures r in {Crash, Exit(0), Exit(1)}
    ensures r == Exit(0) ==>
              forall s <- specs :: s.report.None? ==> s.jobResult == "cancelled" || s.jobResult == "skipped"
  {
    hide LoadVerdict, ParseText;
    var allPass, observed := true, 0;
    for i := 0 to |specs|
      invariant !Crashes(specs[..i])
      invariant allPass <==> forall j :: 0 <= j < i ==> Fine(specs[j], required)
      invariant observed > 0 <==> exists s <- specs[..i] :: s.report.Some?
      invariant observed >= 0
    {
      var s := specs[i];
      assert specs[..i + 1] == specs[..i] + [s];
      if s.report.Some? {
        observed := observed + 1;
        var loaded := LoadVerdict(ParseText(s.report.value));
        if loaded.Raised? {
          assert s in specs && LoadedFrom(s).Raised? && !Fine(s, required);
          return Crash;
        }
        if !Accepted(loaded) {
          allPass := false;
        }
        continue;
      }
      if Hyphenated(s.platform) in required {
        allPass := false;
        continue;
      }
      if s.jobResult in {"cancelled", "skipped"} {
        continue;
      }
      allPass := false;
    }
    assert specs[..|specs|] == specs;
    if observed == 0 {
      allPass := false;
    }
    r := Exit(if allPass then 0 else 1);
  }

  /** One run of the audit, on one platform. */
  datatype AuditRun = AuditRun(
    p: Platform, rs: seq<ModuleResult>, sections: seq<SectionInfo>, selftest: bool, selftestMs: real, totalMs: real)

  ghost predicate LeftBy(s: Spec, run: AuditRun) {
    && s.report.Some?
    && ParseText(s.report.value)
       == Some(Intended(run.p, run.rs, run.sections, run.selftest, run.selftestMs, run.totalMs))
  }

  /** Its selftest passed and no mandatory module failed. */
  ghost predicate Unblocked(run: AuditRun) {
    run.selftest && forall r <- run.rs :: r.passed || r.advisory
  }

  lemma RunIsFineExactly(s: Spec, run: AuditRun, required: set<string>)
    requires LeftBy(s, run)
    ensures s.report.Some? && LoadedFrom(s).Found?
    ensures Fine(s, required) <==> Unblocked(run)
  {
    hide LoadVerdict, ParseText, Intended, Accepted;
    PrintedReportIsAcceptedExactly(
      s.report.value, run.p, run.rs, run.sections, run.selftest, run.selftestMs, run.totalMs);
  }

  /** Over all platforms: if each left the report of its run, CI passes exactly when there is a
      platform and on each the selftest passed and no mandatory module failed. */
  lemma CiPassesExactly(specs: seq<Spec>, runs: seq<AuditRun>, required: set<string>)
    requires |specs| == |runs| && forall i :: 0 <= i < |specs| ==> LeftBy(specs[i], runs[i])
    ensures !Crashes(specs)
    ensures Passes(specs, required) <==> specs != [] && forall run <- runs :: Unblocked(run)
  {
    hide LoadedFrom, LeftBy, Fine, Unblocked;
    forall i | 0 <= i < |specs|
      ensures specs[i].report.Some? && LoadedFrom(specs[i]).Found?
      ensures Fine(specs[i], required) <==> Unblocked(runs[i])
    {
      RunIsFineExactly(specs[i], runs[i], required);
    }
    if specs != [] { assert specs[0] in specs; }
    forall i | 0 <= i < |specs| ensures specs[i] in specs && runs[i] in runs {}
  }

  ghost predicate IsListed(q: string, specs: seq<Spec>) {
    exists s <- specs :: Hyphenated(s.platform) == q
  }

  ghost predicate Reports(q: string, specs: seq<Spec>) {
    exists s <- specs :: Hyphenated(s.platform) == q && s.report.Some? && Accepted(LoadedFrom(s))
  }

  /** A required platform is promised to have produced a passing report. When CI passes, all have
      exactly when all are listed: one that is not listed is not missed. */
  lemma RequiredHaveReportedExactly(specs: seq<Spec>, required: set<string>)
    requires Passes(specs, required)
    ensures (forall q <- required :: Reports(q, specs)) <==> forall q <- required :: IsListed(q, specs)
  {
    hide LoadVerdict, ParseText, Accepted;
    forall q | q in required && IsListed(q, specs) ensures Reports(q, specs) {
      var s :| s in specs && Hyphenated(s.platform) == q;
      assert Fine(s, required);
    }
  }

  /** CI passes although the required platform has produced no report. */
  lemma UnlistedRequiredPasses(text: string) returns (specs: seq<Spec>, required: set<string>)
    requires Accepted(LoadVerdict(ParseText(text)))
    ensures Passes(specs, required) && "linux-gcc13" in required && !Reports("linux-gcc13", specs)
  {
    hide LoadVerdict, ParseText, Accepted;
    var s := Spec("windows", "success", Some(text));
    specs, required := [s], {"linux-gcc13"};
    assert s in specs && Fine(s, required);
    assert |"windows"| != |"linux-gcc13"|;
  }
}
