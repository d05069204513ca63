/** The module loop, the section summaries, the verdicts and the exit code of
    audit/unified_audit_runner.cpp. */
module AuditRunner {

  const ADVISORY_SKIP_CODE: int := 77

  /** A registered module. `rc` is the return code its run yields and `elapsedMs` the time it
      takes; the audit code behind them is not part of this model. */
  datatype AuditModule = AuditModule(
    id: string, name: string, section: string, advisory: bool, rc: int, elapsedMs: real)

  datatype ModuleResult = ModuleResult(
    id: string, name: string, section: string, passed: bool, advisory: bool, elapsedMs: real, returnCode: int)

  datatype SectionInfo = SectionInfo(id: string, title: string)

  // ---------------------------------------------------------------- outcomes

  datatype Outcome = Passed | Failed | Skipped | Warned

  function OutcomeOf(r: ModuleResult): Outcome {
    if r.passed then Passed
    else if !r.advisory then Failed
    else if r.returnCode == ADVISORY_SKIP_CODE then Skipped
    else Warned
  }

  /** The number of results with the given outcome. */
  ghost function Count(rs: seq<ModuleResult>, o: Outcome): nat {
    if rs == [] then 0
    else Count(rs[..|rs| - 1], o) + if OutcomeOf(rs[|rs| - 1]) == o then 1 else 0
  }

  ghost predicate Shows(rs: seq<ModuleResult>, o: Outcome) {
    exists r <- rs :: OutcomeOf(r) == o
  }

  lemma {:induction false} CountsAddUp(rs: seq<ModuleResult>)
    ensures Count(rs, Passed) + Count(rs, Failed) + Count(rs, Skipped) + Count(rs, Warned) == |rs|
  {
    if rs != [] { CountsAddUp(rs[..|rs| - 1]); }
  }

  lemma CountNone()
    ensures forall o :: Count([], o) == 0
  {}

  lemma CountAppend(rs: seq<ModuleResult>, r: ModuleResult)
    ensures forall o :: Count(rs + [r], o) == Count(rs, o) + if OutcomeOf(r) == o then 1 else 0
  {
    assert (rs + [r])[..|rs|] == rs;
  }

  lemma {:induction false} CountIsPositiveExactly(rs: seq<ModuleResult>, o: Outcome)
    ensures Count(rs, o) > 0 <==> Shows(rs, o)
  {
    if rs != [] {
      CountIsPositiveExactly(rs[..|rs| - 1], o);
      assert rs == rs[..|rs| - 1] + [rs[|rs| - 1]];
    }
  }

  // ---------------------------------------------------------------- running the modules

  predicate Selected(m: AuditModule, filter: string) {
    filter == "" || filter == m.section
  }

  function ResultOf(m: AuditModule): ModuleResult {
    ModuleResult(m.id, m.name, m.section, m.rc == 0, m.advisory, m.elapsedMs, m.rc)
  }

  /** The results of the selected modules, in registration order. */
  ghost function RunResults(modules: seq<AuditModule>, filter: string): seq<ModuleResult> {
    if modules == [] then []
    else
      var m, rest := modules[|modules| - 1], RunResults(modules[..|modules| - 1], filter);
      if Selected(m, filter) then rest + [ResultOf(m)] else rest
  }

  lemma {:induction false} InRun(modules: seq<AuditModule>, filter: string, r: ModuleResult)
    ensures r in RunResults(modules, filter) <==> exists m <- modules :: Selected(m, filter) && r == ResultOf(m)
  {
    if modules != [] {
      var n := |modules| - 1;
      InRun(modules[..n], filter, r);
      assert modules == modules[..n] + [modules[n]];
    }
  }

  datatype Tally = Tally(passed: nat, failed: nat, advisoryWarned: nat, advisoryFailed: nat)

  /** The module loop with its four counters. */
  method RunModules(modules: seq<AuditModule>, filter: string) returns (results: seq<ModuleResult>, t: Tally)
    ensures results == RunResults(modules, filter)
    ensures t.passed == Count(results, Passed) && t.failed == Count(results, Failed)
    ensures t.advisoryFailed == Count(results, Warned)
    ensures t.advisoryWarned == Count(results, Skipped) + Count(results, Warned)
  {
    hide Count;
    results, t := [], Tally(0, 0, 0, 0);
    CountNone();
    for i := 0 to |modules|
      invariant results == RunResults(modules[..i], filter)
      invariant t.passed == Count(results, Passed) && t.failed == Count(results, Failed)
      invariant t.advisoryFailed == Count(results, Warned)
      invariant t.advisoryWarned == Count(results, Skipped) + Count(results, Warned)
    {
      var m := modules[i];
      assert modules[..i + 1][..i] == modules[..i];
      if filter != "" && filter != m.section {
        continue;
      }
      var ok := m.rc == 0;
      if ok {
        t := t.(passed := t.passed + 1);
      } else if m.advisory {
        t := t.(advisoryWarned := t.advisoryWarned + 1);
        if m.rc != ADVISORY_SKIP_CODE {
          t := t.(advisoryFailed := t.advisoryFailed + 1);
        }
      } else {
        t := t.(failed := t.failed + 1);
      }
      CountAppend(results, ResultOf(m));
      results := results + [ModuleResult(m.id, m.name, m.section, ok, m.advisory, m.elapsedMs, m.rc)];
    }
    assert modules[..|modules|] == modules;
  }

  /** Each selected module leaves one result, in registration order: selected is every module
      without a filter, and the modules of the section with one. */
  lemma OneMoreModule(modules: seq<AuditModule>, m: AuditModule, filter: string)
    ensures RunResults([], filter) == []
    ensures RunResults(modules + [m], filter)
         == RunResults(modules, filter)
            + if filter == "" || m.section == filter
              then [ModuleResult(m.id, m.name, m.section, m.rc == 0, m.advisory, m.elapsedMs, m.rc)] else []
  {
    assert (modules + [m])[..|modules|] == modules;
  }

  /** What the four counts count. */
  lemma CountsInPlainTerms(rs: seq<ModuleResult>)
    ensures Count(rs, Passed) == |set i | 0 <= i < |rs| && rs[i].passed|
    ensures Count(rs, Failed) == |set i | 0 <= i < |rs| && !rs[i].passed && !rs[i].advisory|
    ensures Count(rs, Skipped) == |set i | 0 <= i < |rs| && !rs[i].passed && rs[i].advisory && rs[i].returnCode == 77|
    ensures Count(rs, Warned) == |set i | 0 <= i < |rs| && !rs[i].passed && rs[i].advisory && rs[i].returnCode != 77|
  {
    hide Count;
    forall o ensures Count(rs, o) == |set i | 0 <= i < |rs| && OutcomeOf(rs[i]) == o| {
      CountIsTheIndices(rs, o);
    }
    assert (set i | 0 <= i < |rs| && OutcomeOf(rs[i]) == Passed) == set i | 0 <= i < |rs| && rs[i].passed;
    assert (set i | 0 <= i < |rs| && OutcomeOf(rs[i]) == Failed)
        == set i | 0 <= i < |rs| && !rs[i].passed && !rs[i].advisory;
    assert (set i | 0 <= i < |rs| && OutcomeOf(rs[i]) == Skipped)
        == set i | 0 <= i < |rs| && !rs[i].passed && rs[i].advisory && rs[i].returnCode == 77;
    assert (set i | 0 <= i < |rs| && OutcomeOf(rs[i]) == Warned)
        == set i | 0 <= i < |rs| && !rs[i].passed && rs[i].advisory && rs[i].returnCode != 77;
  }

  lemma AdvisoriesInPlainTerms(rs: seq<ModuleResult>)
    ensures Count(rs, Skipped) + Count(rs, Warned) == |set i | 0 <= i < |rs| && !rs[i].passed && rs[i].advisory|
  {
    hide Count;
    CountIsTheIndices(rs, Skipped);
    CountIsTheIndices(rs, Warned);
    var skipped := set i | 0 <= i < |rs| && OutcomeOf(rs[i]) == Skipped;
    var warned := set i | 0 <= i < |rs| && OutcomeOf(rs[i]) == Warned;
    assert (set i | 0 <= i < |rs| && !rs[i].passed && rs[i].advisory) == skipped + warned;
    assert skipped * warned == {};
  }

  lemma {:induction false} CountIsTheIndices(rs: seq<ModuleResult>, o: Outcome)
    ensures Count(rs, o) == |set i | 0 <= i < |rs| && OutcomeOf(rs[i]) == o|
  {
    hide OutcomeOf;
    if rs != [] {
      CountIsTheIndices(rs[..|rs| - 1], o);
      OneMoreIndex(rs[..|rs| - 1], rs, o);
    }
  }

  lemma OneMoreIndex(before: seq<ModuleResult>, rs: seq<ModuleResult>, o: Outcome)
    requires rs != [] && before == rs[..|rs| - 1]
    ensures |set i | 0 <= i < |rs| && OutcomeOf(rs[i]) == o|
         == |set i | 0 <= i < |before| && OutcomeOf(before[i]) == o|
            + if OutcomeOf(rs[|rs| - 1]) == o then 1 else 0
  {
    hide OutcomeOf;
    var n := |rs| - 1;
    var earlier := set i | 0 <= i < |before| && OutcomeOf(before[i]) == o;
    assert (set i | 0 <= i < |rs| && OutcomeOf(rs[i]) == o) == earlier + if OutcomeOf(rs[n]) == o then {n} else {};
  }

  // ---------------------------------------------------------------- verdicts

  datatype Verdict = Ready | ReadyDegraded | Blocked

  function Rank(v: Verdict): nat {
    match v
    case Ready => 0 case ReadyDegraded => 1 case Blocked => 2
  }

  function Worse(v: Verdict, w: Verdict): Verdict {
    if Rank(v) >= Rank(w) then v else w
  }

  /** The rule behind every report: a failed mandatory module or selftest blocks, a failed
      advisory module degrades, a skipped one does neither. */
  ghost function VerdictOf(rs: seq<ModuleResult>, selftest: bool): Verdict {
    if !selftest || Shows(rs, Failed) then Blocked
    else if Shows(rs, Warned) then ReadyDegraded
    else Ready
  }

  lemma VerdictInPlainTerms(rs: seq<ModuleResult>, selftest: bool)
    ensures VerdictOf(rs, selftest) == Blocked <==> !selftest || exists r <- rs :: !r.passed && !r.advisory
    ensures VerdictOf(rs, selftest) == Ready
            <==> selftest && forall r <- rs :: r.passed || (r.advisory && r.returnCode == 77)
    ensures Rank(Ready) < Rank(ReadyDegraded) < Rank(Blocked)
  {}

  /** The verdict of a run, from the modules' own return codes. */
  lemma RunVerdictInPlainTerms(modules: seq<AuditModule>, filter: string, selftest: bool)
    ensures VerdictOf(RunResults(modules, filter), selftest) == Blocked
            <==> !selftest || exists m <- modules :: (filter == "" || m.section == filter) && m.rc != 0 && !m.advisory
    ensures VerdictOf(RunResults(modules, filter), selftest) == Ready
            <==> selftest && forall m <- modules :: filter == "" || m.section == filter ==>
                   m.rc == 0 || (m.advisory && m.rc == 77)
  {
    hide RunResults;
    var rs := RunResults(modules, filter);
    VerdictInPlainTerms(rs, selftest);
    hide VerdictOf;
    forall m | m in modules && (filter == "" || m.section == filter) ensures ResultOf(m) in rs {
      InRun(modules, filter, ResultOf(m));
    }
    forall r | r in rs ensures exists m <- modules :: (filter == "" || m.section == filter) && r == ResultOf(m) {
      InRun(modules, filter, r);
    }
  }

  /** The console's verdict, from the module loop's own counters. */
  method ConsoleVerdict(t: Tally, selftest: bool, ghost rs: seq<ModuleResult>) returns (v: Verdict, exitCode: int)
    requires t.failed == Count(rs, Failed) && t.advisoryFailed == Count(rs, Warned)
    ensures v == VerdictOf(rs, selftest)
    ensures exitCode == if VerdictOf(rs, selftest) == Blocked then 1 else 0
  {
    CountIsPositiveExactly(rs, Failed);
    CountIsPositiveExactly(rs, Warned);
    var totalFail := t.failed + if selftest then 0 else 1;
    v := if totalFail > 0 then Blocked else if t.advisoryFailed > 0 then ReadyDegraded else Ready;
    exitCode := if totalFail > 0 then 1 else 0;
  }

  datatype Totals = Totals(pass: nat, fail: nat, advisory: nat, advisorySkipped: nat, advisoryFailed: nat)

  /** The totals both report writers print, selftest included. */
  ghost function TotalsOf(rs: seq<ModuleResult>, selftest: bool): Totals {
    Totals(
      Count(rs, Passed) + (if selftest then 1 else 0), Count(rs, Failed) + (if selftest then 0 else 1),
      Count(rs, Skipped) + Count(rs, Warned), Count(rs, Skipped), Count(rs, Warned))
  }

  /** The totals in the results' fields. */
  lemma TotalsInPlainTerms(rs: seq<ModuleResult>, selftest: bool)
    ensures var t, bonus := TotalsOf(rs, selftest), if selftest then 1 else 0;
            && t.pass == |set i | 0 <= i < |rs| && rs[i].passed| + bonus
            && t.fail == |set i | 0 <= i < |rs| && !rs[i].passed && !rs[i].advisory| + 1 - bonus
            && t.advisory == |set i | 0 <= i < |rs| && !rs[i].passed && rs[i].advisory|
            && t.advisorySkipped
               == |set i | 0 <= i < |rs| && !rs[i].passed && rs[i].advisory && rs[i].returnCode == 77|
            && t.advisoryFailed
               == |set i | 0 <= i < |rs| && !rs[i].passed && rs[i].advisory && rs[i].returnCode != 77|
  {
    hide Count;
    CountsInPlainTerms(rs);
    AdvisoriesInPlainTerms(rs);
  }

  /** The JSON writer's own fold over the results. */
  method JsonTotals(rs: seq<ModuleResult>, selftest: bool) returns (t: Totals, v: Verdict)
    ensures t == TotalsOf(rs, selftest)
    ensures t.pass + t.fail + t.advisory == |rs| + 1
    ensures v == VerdictOf(rs, selftest)
  {
    var pass, fail, advisory, skipped, failed := 0, 0, 0, 0, 0;
    for i := 0 to |rs|
      invariant pass == Count(rs[..i], Passed) && fail == Count(rs[..i], Failed)
      invariant skipped == Count(rs[..i], Skipped) && failed == Count(rs[..i], Warned)
      invariant advisory == skipped + failed
    {
      var r := rs[i];
      assert rs[..i + 1][..i] == rs[..i];
      if r.passed {
        pass := pass + 1;
      } else if r.advisory {
        advisory := advisory + 1;
        if r.returnCode == ADVISORY_SKIP_CODE {
          skipped := skipped + 1;
        } else {
          failed := failed + 1;
        }
      } else {
        fail := fail + 1;
      }
    }
    assert rs[..|rs|] == rs;
    if selftest { pass := pass + 1; } else { fail := fail + 1; }
    t := Totals(pass, fail, advisory, skipped, failed);
    if fail != 0 {
      v := Blocked;
    } else if failed != 0 {
      v := ReadyDegraded;
    } else {
      v := Ready;
    }
    CountsAddUp(rs);
    CountIsPositiveExactly(rs, Failed);
    CountIsPositiveExactly(rs, Warned);
  }

  /** The text writer's fold keeps no skip counter: it counts advisory failures by exclusion. */
  method TextTotals(rs: seq<ModuleResult>, selftest: bool)
    returns (totalCount: nat, pass: nat, advisory: nat, v: Verdict)
    ensures pass == Count(rs, Passed) + (if selftest then 1 else 0)
    ensures advisory == Count(rs, Skipped) + Count(rs, Warned)
    ensures totalCount == |rs| + 1
    ensures v == VerdictOf(rs, selftest)
  {
    var fail, failed := 0, 0;
    pass, advisory := 0, 0;
    for i := 0 to |rs|
      invariant pass == Count(rs[..i], Passed) && fail == Count(rs[..i], Failed)
      invariant failed == Count(rs[..i], Warned)
      invariant advisory == Count(rs[..i], Skipped) + Count(rs[..i], Warned)
    {
      var r := rs[i];
      assert rs[..i + 1][..i] == rs[..i];
      if r.passed {
        pass := pass + 1;
      } else if r.advisory {
        advisory := advisory + 1;
        if r.returnCode != ADVISORY_SKIP_CODE {
          failed := failed + 1;
        }
      } else {
        fail := fail + 1;
      }
    }
    assert rs[..|rs|] == rs;
    if selftest { pass := pass + 1; } else { fail := fail + 1; }
    totalCount := pass + fail + advisory;
    if fail != 0 {
      v := Blocked;
    } else if failed != 0 {
      v := ReadyDegraded;
    } else {
      v := Ready;
    }
    CountsAddUp(rs);
    CountIsPositiveExactly(rs, Failed);
    CountIsPositiveExactly(rs, Warned);
  }

  /** The reports say that all passed whenever nothing failed. That is so exactly when no advisory
      module was skipped or warned. */
  lemma AllPassedMeansAllPassedExactly(rs: seq<ModuleResult>, selftest: bool)
    requires TotalsOf(rs, selftest).fail == 0
    ensures TotalsOf(rs, selftest).pass == |rs| + 1 <==> !Shows(rs, Skipped) && !Shows(rs, Warned)
  {
    CountsAddUp(rs);
    CountIsPositiveExactly(rs, Skipped);
    CountIsPositiveExactly(rs, Warned);
  }

  // ---------------------------------------------------------------- SARIF results

  /** One entry of the SARIF result list. */
  datatype SarifResult =
    | SelftestFailure
    | ModuleFailure(name: string, id: string, section: string, elapsedMs: real)
  {
    function Rule(): string {
      if SelftestFailure? then SELFTEST_RULE else RuleId(id)
    }

    function Uri(): string {
      if SelftestFailure? then "src/cpu/include/secp256k1/selftest.hpp" else SectionUri(section)
    }
  }

  const SELFTEST_RULE: string := "AUDIT/selftest"

  function RuleId(id: string): string {
    "AUDIT/" + id
  }

  /** The representative source file of a section. */
  function SectionUri(section: string): string {
    match section
    case "math_invariants" => "src/cpu/src/field.cpp"
    case "ct_analysis" => "src/cpu/include/secp256k1/ct/ops.hpp"
    case "standard_vectors" => "audit/test_cross_platform_kat.cpp"
    case "protocol_security" => "src/cpu/src/musig2.cpp"
    case "fuzzing" => "audit/audit_fuzz.cpp"
    case "memory_safety" => "audit/test_abi_gate.cpp"
    case "performance" => "src/cpu/bench/bench_unified.cpp"
    case "differential" => "audit/test_fiat_crypto_vectors.cpp"
    case "exploit_poc" => "audit/test_exploit_ecdsa_malleability.cpp"
    case _ => "audit/unified_audit_runner.cpp"
  }

  function SarifOf(r: ModuleResult): SarifResult {
    ModuleFailure(r.name, r.id, r.section, r.elapsedMs)
  }

  ghost function FailedOnly(rs: seq<ModuleResult>): seq<ModuleResult> {
    if rs == [] then []
    else
      var r, rest := rs[|rs| - 1], FailedOnly(rs[..|rs| - 1]);
      if OutcomeOf(r) == Failed then rest + [r] else rest
  }

  ghost function SarifList(rs: seq<ModuleResult>, selftest: bool): seq<SarifResult> {
    (if selftest then [] else [SelftestFailure]) + SarifEach(FailedOnly(rs))
  }

  ghost function SarifEach(rs: seq<ModuleResult>): seq<SarifResult> {
    seq(|rs|, i requires 0 <= i < |rs| => SarifOf(rs[i]))
  }

  /** The rules are declared for every registered module, whatever the filter. */
  ghost predicate Declared(ruleId: string, modules: seq<AuditModule>) {
    ruleId == SELFTEST_RULE || exists m <- modules :: ruleId == RuleId(m.id)
  }

  /** The SARIF writer's result loop. */
  method SarifResults(rs: seq<ModuleResult>, selftest: bool) returns (out: seq<SarifResult>)
    ensures out == SarifList(rs, selftest)
    ensures |out| == Count(rs, Failed) + if selftest then 0 else 1
  {
    out := [];
    if !selftest {
      out := out + [SelftestFailure];
    }
    for i := 0 to |rs|
      invariant out == SarifList(rs[..i], selftest)
      invariant |out| == Count(rs[..i], Failed) + if selftest then 0 else 1
    {
      var r := rs[i];
      assert rs[..i + 1][..i] == rs[..i];
      if r.passed { continue; }
      if r.advisory { continue; }
      out := out + [SarifOf(r)];
    }
    assert rs[..|rs|] == rs;
  }

  /** A failed selftest comes first, then each result that neither passed nor is advisory. */
  lemma SarifInPlainTerms(rs: seq<ModuleResult>, r: ModuleResult, selftest: bool)
    ensures SarifList([], selftest) == if selftest then [] else [SelftestFailure]
    ensures SarifList(rs + [r], selftest)
         == SarifList(rs, selftest)
            + if !r.passed && !r.advisory then [ModuleFailure(r.name, r.id, r.section, r.elapsedMs)] else []
  {
    assert (rs + [r])[..|rs|] == rs;
  }

  /** The rule and the source file a result points to. */
  lemma RulesInPlainTerms(name: string, id: string, section: string, elapsedMs: real)
    ensures SelftestFailure.Rule() == "AUDIT/selftest"
    ensures SelftestFailure.Uri() == "src/cpu/include/secp256k1/selftest.hpp"
    ensures ModuleFailure(name, id, section, elapsedMs).Rule() == "AUDIT/" + id
    ensures ModuleFailure(name, id, section, elapsedMs).Uri() == SectionUri(section)
  {}

  lemma FilesInPlainTerms()
    ensures SectionUri("math_invariants") == "src/cpu/src/field.cpp"
    ensures SectionUri("ct_analysis") == "src/cpu/include/secp256k1/ct/ops.hpp"
    ensures SectionUri("standard_vectors") == "audit/test_cross_platform_kat.cpp"
    ensures SectionUri("protocol_security") == "src/cpu/src/musig2.cpp"
    ensures SectionUri("fuzzing") == "audit/audit_fuzz.cpp"
  {}

  lemma MoreFilesInPlainTerms()
    ensures SectionUri("memory_safety") == "audit/test_abi_gate.cpp"
    ensures SectionUri("performance") == "src/cpu/bench/bench_unified.cpp"
    ensures SectionUri("differential") == "audit/test_fiat_crypto_vectors.cpp"
    ensures SectionUri("exploit_poc") == "audit/test_exploit_ecdsa_malleability.cpp"
  {}

  lemma OtherFilesInPlainTerms(section: string)
    requires section !in ["math_invariants", "ct_analysis", "standard_vectors", "protocol_security", "fuzzing",
                          "memory_safety", "performance", "differential", "exploit_poc"]
    ensures SectionUri(section) == "audit/unified_audit_runner.cpp"
  {
  }

  lemma {:induction false} FailedOnlyIsExact(rs: seq<ModuleResult>, r: ModuleResult)
    ensures r in FailedOnly(rs) <==> r in rs && OutcomeOf(r) == Failed
  {
    if rs != [] {
      FailedOnlyIsExact(rs[..|rs| - 1], r);
      assert rs == rs[..|rs| - 1] + [rs[|rs| - 1]];
    }
  }

  /** Every SARIF result of a run names a declared rule. */
  lemma EveryResultIsDeclared(modules: seq<AuditModule>, filter: string, selftest: bool)
    ensures forall s <- SarifList(RunResults(modules, filter), selftest) :: Declared(s.Rule(), modules)
  {
    var rs := RunResults(modules, filter);
    forall r | r in FailedOnly(rs) ensures Declared(RuleId(r.id), modules) {
      FailedOnlyIsExact(rs, r);
      InRun(modules, filter, r);
    }
    forall s | s in SarifList(rs, selftest) ensures Declared(s.Rule(), modules) {
      if s in SarifEach(FailedOnly(rs)) {
        var i :| 0 <= i < |FailedOnly(rs)| && s == SarifOf(FailedOnly(rs)[i]);
        assert FailedOnly(rs)[i] in FailedOnly(rs);
      }
    }
  }

  // ---------------------------------------------------------------- the whole run

  datatype RunOutcome =
    | UnknownSection(exitCode: int)
    | Finished(console: Verdict, json: Verdict, text: Verdict, sarif: seq<SarifResult>, exitCode: int)

  ghost predicate Known(section: string, sections: seq<SectionInfo>) {
    exists s <- sections :: s.id == section
  }

  /** The run: the four independent computations agree with one another and with the exit code,
      and the SARIF list has one entry for each counted failure. */
  method RunAudit(modules: seq<AuditModule>, sections: seq<SectionInfo>, filter: string, selftest: bool)
    returns (r: RunOutcome)
    ensures r.UnknownSection? <==> filter != "" && forall s <- sections :: s.id != filter
    ensures r.UnknownSection? ==> r.exitCode == 1
    ensures r.Finished? ==>
              && (r.console == Blocked
                  <==> !selftest
                       || exists m <- modules :: (filter == "" || m.section == filter) && m.rc != 0 && !m.advisory)
              && (r.console == Ready
                  <==> selftest && forall m <- modules :: filter == "" || m.section == filter ==>
                         m.rc == 0 || (m.advisory && m.rc == 77))
    ensures r.Finished? ==>
              var rs := RunResults(modules, filter);
              && r.console == r.json == r.text == VerdictOf(rs, selftest)
              && (r.exitCode == 1 <==> r.console == Blocked) && r.exitCode in {0, 1}
              && r.sarif == SarifList(rs, selftest)
              && |r.sarif| == Count(rs, Failed) + (if selftest then 0 else 1)
              && (r.sarif == [] <==> r.console != Blocked)
              && forall s <- r.sarif :: Declared(s.Rule(), modules)
  {
    if filter != "" {
      var found := false;
      for i := 0 to |sections|
        invariant found <==> Known(filter, sections[..i])
      {
        assert sections[..i + 1] == sections[..i] + [sections[i]];
        if filter == sections[i].id { found := true; }
      }
      assert sections[..|sections|] == sections;
      if !found {
        return UnknownSection(1);
      }
    }
    var results, tally := RunModules(modules, filter);
    var _, json := JsonTotals(results, selftest);
    var _, _, _, text := TextTotals(results, selftest);
    var sarif := SarifResults(results, selftest);
    var console, exitCode := ConsoleVerdict(tally, selftest, results);
    EveryResultIsDeclared(modules, filter, selftest);
    CountIsPositiveExactly(results, Failed);
    RunVerdictInPlainTerms(modules, filter, selftest);
    r := Finished(console, json, text, sarif, exitCode);
  }

  // ---------------------------------------------------------------- section filters

  /** The worst verdict among the runs filtered to each section. */
  ghost function WorstBySection(modules: seq<AuditModule>, sections: seq<SectionInfo>, selftest: bool): Verdict {
    if sections == [] then VerdictOf([], selftest)
    else
      var n := |sections| - 1;
      Worse(WorstBySection(modules, sections[..n], selftest),
            VerdictOf(RunResults(modules, sections[n].id), selftest))
  }

  lemma {:induction false} WorstIsAtLeast(modules: seq<AuditModule>, sections: seq<SectionInfo>, selftest: bool, k: nat)
    ensures Rank(WorstBySection(modules, sections, selftest)) >= k
            <==> Rank(VerdictOf([], selftest)) >= k
                 || exists s <- sections :: Rank(VerdictOf(RunResults(modules, s.id), selftest)) >= k
  {
    if sections != [] {
      var n := |sections| - 1;
      WorstIsAtLeast(modules, sections[..n], selftest, k);
      assert sections == sections[..n] + [sections[n]];
    }
  }

  /** An outcome occurs in the unfiltered run exactly when some section's run shows it. */
  lemma {:induction false} OutcomeShowsInItsSection(modules: seq<AuditModule>, sections: seq<SectionInfo>, o: Outcome)
    requires forall m <- modules :: Known(m.section, sections)
    ensures Shows(RunResults(modules, ""), o) <==> exists s <- sections :: Shows(RunResults(modules, s.id), o)
  {
    if Shows(RunResults(modules, ""), o) {
      var r :| r in RunResults(modules, "") && OutcomeOf(r) == o;
      InRun(modules, "", r);
      var m :| m in modules && r == ResultOf(m);
      var s :| s in sections && s.id == m.section;
      InRun(modules, s.id, r);
    }
    if s :| s in sections && Shows(RunResults(modules, s.id), o) {
      var r :| r in RunResults(modules, s.id) && OutcomeOf(r) == o;
      InRun(modules, s.id, r);
      InRun(modules, "", r);
    }
  }

  /** The verdict of the whole run is the worst verdict of its sections. */
  lemma VerdictIsTheWorstSection(
    modules: seq<AuditModule>, sections: seq<SectionInfo>, selftest: bool)
    requires forall m <- modules :: Known(m.section, sections)
    ensures VerdictOf(RunResults(modules, ""), selftest) == WorstBySection(modules, sections, selftest)
  {
    OutcomeShowsInItsSection(modules, sections, Failed);
    OutcomeShowsInItsSection(modules, sections, Warned);
    WorstIsAtLeast(modules, sections, selftest, 1);
    WorstIsAtLeast(modules, sections, selftest, 2);
    var all := VerdictOf(RunResults(modules, ""), selftest);
    assert Rank(all) >= 2 <==> Rank(WorstBySection(modules, sections, selftest)) >= 2;
    assert Rank(all) >= 1 <==> Rank(WorstBySection(modules, sections, selftest)) >= 1;
  }

  /** Repairing one module, whatever it returned, never worsens the verdict of any run. */
  lemma RepairNeverWorsens(modules: seq<AuditModule>, i: nat, filter: string, selftest: bool)
    requires i < |modules|
    ensures Rank(VerdictOf(RunResults(modules[i := modules[i].(rc := 0)], filter), selftest))
         <= Rank(VerdictOf(RunResults(modules, filter), selftest))
  {
    var repaired := modules[i := modules[i].(rc := 0)];
    forall r | r in RunResults(repaired, filter) && OutcomeOf(r) != Passed
      ensures r in RunResults(modules, filter)
    {
      InRun(repaired, filter, r);
      var m :| m in repaired && Selected(m, filter) && r == ResultOf(m);
      var k :| 0 <= k < |repaired| && repaired[k] == m;
      assert k != i && modules[k] == m;
      InRun(modules, filter, r);
    }
  }

  // ---------------------------------------------------------------- section summaries

  ghost function InSection(rs: seq<ModuleResult>, section: string): seq<ModuleResult> {
    if rs == [] then []
    else
      var r, rest := rs[|rs| - 1], InSection(rs[..|rs| - 1], section);
      if r.section == section then rest + [r] else rest
  }

  ghost function TotalTime(rs: seq<ModuleResult>): real {
    if rs == [] then 0.0 else TotalTime(rs[..|rs| - 1]) + rs[|rs| - 1].elapsedMs
  }

  datatype SectionSummary = SectionSummary(
    id: string, title: string, total: nat, passed: nat, failed: nat, advisorySkipped: nat, advisoryFailed: nat,
    timeMs: real)

  ghost function SummaryOf(info: SectionInfo, rs: seq<ModuleResult>): SectionSummary {
    var mine := InSection(rs, info.id);
    SectionSummary(
      info.id, info.title, |mine|, Count(mine, Passed), Count(mine, Failed), Count(mine, Skipped), Count(mine, Warned),
      TotalTime(mine))
  }

  /** One summary per section. */
  ghost function SummariesOf(sections: seq<SectionInfo>, rs: seq<ModuleResult>): seq<SectionSummary> {
    seq(|sections|, i requires 0 <= i < |sections| => SummaryOf(sections[i], rs))
  }

  lemma OneMoreInSection(rs: seq<ModuleResult>, i: nat, section: string)
    requires i < |rs|
    ensures rs[i].section != section ==> InSection(rs[..i + 1], section) == InSection(rs[..i], section)
    ensures rs[i].section == section ==>
              && InSection(rs[..i + 1], section) == InSection(rs[..i], section) + [rs[i]]
              && TotalTime(InSection(rs[..i + 1], section)) == TotalTime(InSection(rs[..i], section)) + rs[i].elapsedMs
              && forall o :: Count(InSection(rs[..i + 1], section), o)
                          == Count(InSection(rs[..i], section), o) + if OutcomeOf(rs[i]) == o then 1 else 0
  {
    assert rs[..i + 1][..i] == rs[..i];
    var mine := InSection(rs[..i], section);
    CountAppend(mine, rs[i]);
    assert (mine + [rs[i]])[..|mine|] == mine;
  }

  /** A summary with one more result. */
  ghost function Added(ss: SectionSummary, r: ModuleResult): SectionSummary {
    var counted := ss.(total := ss.total + 1, timeMs := ss.timeMs + r.elapsedMs);
    match OutcomeOf(r)
    case Passed => counted.(passed := ss.passed + 1)
    case Failed => counted.(failed := ss.failed + 1)
    case Skipped => counted.(advisorySkipped := ss.advisorySkipped + 1)
    case Warned => counted.(advisoryFailed := ss.advisoryFailed + 1)
  }

  lemma SummaryStep(info: SectionInfo, rs: seq<ModuleResult>, i: nat)
    requires i < |rs|
    ensures SummaryOf(info, rs[..i + 1])
         == if rs[i].section == info.id then Added(SummaryOf(info, rs[..i]), rs[i]) else SummaryOf(info, rs[..i])
  {
    hide InSection, Count, TotalTime, OutcomeOf;
    OneMoreInSection(rs, i, info.id);
  }

  lemma NothingToSummarise(info: SectionInfo)
    ensures SummaryOf(info, []) == SectionSummary(info.id, info.title, 0, 0, 0, 0, 0, 0.0)
  {}

  lemma SummaryAddsUp(info: SectionInfo, rs: seq<ModuleResult>)
    ensures var ss := SummaryOf(info, rs); ss.total == ss.passed + ss.failed + ss.advisorySkipped + ss.advisoryFailed
  {
    hide InSection, Count;
    CountsAddUp(InSection(rs, info.id));
  }

  /** What a summary counts: each result of its section, by outcome. */
  lemma SummaryInPlainTerms(info: SectionInfo, rs: seq<ModuleResult>, r: ModuleResult)
    ensures SummaryOf(info, []) == SectionSummary(info.id, info.title, 0, 0, 0, 0, 0, 0.0)
    ensures r.section != info.id ==> SummaryOf(info, rs + [r]) == SummaryOf(info, rs)
    ensures r.section == info.id ==>
              var ss, more := SummaryOf(info, rs), SummaryOf(info, rs + [r]);
              && more.id == info.id && more.title == info.title
              && more.total == ss.total + 1
              && more.passed == ss.passed + (if r.passed then 1 else 0)
              && more.failed == ss.failed + (if !r.passed && !r.advisory then 1 else 0)
              && more.advisorySkipped
                 == ss.advisorySkipped + (if !r.passed && r.advisory && r.returnCode == 77 then 1 else 0)
              && more.advisoryFailed
                 == ss.advisoryFailed + (if !r.passed && r.advisory && r.returnCode != 77 then 1 else 0)
              && more.timeMs == ss.timeMs + r.elapsedMs
  {
    hide InSection, Count, TotalTime;
    NothingToSummarise(info);
    SummaryStep(info, rs + [r], |rs|);
    assert (rs + [r])[..|rs|] == rs && (rs + [r])[..|rs| + 1] == rs + [r];
  }

  /** The nested summary loops. */
  method ComputeSectionSummaries(rs: seq<ModuleResult>, sections: seq<SectionInfo>) returns (out: seq<SectionSummary>)
    ensures out == SummariesOf(sections, rs)
    ensures forall s <- out :: s.total == s.passed + s.failed + s.advisorySkipped + s.advisoryFailed
  {
    hide SummaryOf;
    out := [];
    for s := 0 to |sections|
      invariant out == SummariesOf(sections[..s], rs)
      invariant forall ss <- out :: ss.total == ss.passed + ss.failed + ss.advisorySkipped + ss.advisoryFailed
    {
      var info := sections[s];
      var ss := SectionSummary(info.id, info.title, 0, 0, 0, 0, 0, 0.0);
      NothingToSummarise(info);
      for i := 0 to |rs|
        invariant ss == SummaryOf(info, rs[..i])
      {
        var r := rs[i];
        SummaryStep(info, rs, i);
        if r.section == info.id {
          ss := ss.(total := ss.total + 1);
          if r.passed {
            ss := ss.(passed := ss.passed + 1);
          } else if r.advisory {
            if r.returnCode == ADVISORY_SKIP_CODE {
              ss := ss.(advisorySkipped := ss.advisorySkipped + 1);
            } else {
              ss := ss.(advisoryFailed := ss.advisoryFailed + 1);
            }
          } else {
            ss := ss.(failed := ss.failed + 1);
          }
          ss := ss.(timeMs := ss.timeMs + r.elapsedMs);
        }
      }
      assert rs[..|rs|] == rs;
      SummaryAddsUp(info, rs);
      out := out + [ss];
    }
    assert sections[..|sections|] == sections;
  }

  // ---------------------------------------------------------------- conservation and grouping

  ghost predicate Distinct(sections: seq<SectionInfo>) {
    forall i, j :: 0 <= i < j < |sections| ==> sections[i].id != sections[j].id
  }

  lemma OneMoreSection(sections: seq<SectionInfo>, s: SectionInfo)
    ensures Distinct([])
    ensures Distinct(sections + [s]) <==> Distinct(sections) && forall t <- sections :: t.id != s.id
  {
    var all, n := sections + [s], |sections|;
    assert all[n] == s && forall i :: 0 <= i < n ==> all[i] == sections[i];
    if Distinct(all) {
      forall t | t in sections ensures t.id != s.id {
        var i :| 0 <= i < n && sections[i] == t;
        assert all[i].id != all[n].id;
      }
      assert forall i, j :: 0 <= i < j < n ==> all[i].id != all[j].id;
    }
  }

  /** The results whose section the report has a heading for. */
  ghost function Listed(rs: seq<ModuleResult>, sections: seq<SectionInfo>): seq<ModuleResult> {
    if rs == [] then []
    else
      var r, rest := rs[|rs| - 1], Listed(rs[..|rs| - 1], sections);
      if Known(r.section, sections) then rest + [r] else rest
  }

  /** The order in which the text report prints: section after section. */
  ghost function Grouped(rs: seq<ModuleResult>, sections: seq<SectionInfo>): seq<ModuleResult> {
    if sections == [] then []
    else
      var n := |sections| - 1;
      Grouped(rs, sections[..n]) + InSection(rs, sections[n].id)
  }

  lemma LastSection(sections: seq<SectionInfo>)
    requires sections != [] && Distinct(sections)
    ensures var n := |sections| - 1;
            && Distinct(sections[..n]) && !Known(sections[n].id, sections[..n])
            && forall x :: Known(x, sections) <==> Known(x, sections[..n]) || x == sections[n].id
  {
    var n := |sections| - 1;
    assert sections == sections[..n] + [sections[n]];
  }

  lemma {:induction false} ListedSplits(rs: seq<ModuleResult>, sections: seq<SectionInfo>)
    requires sections != [] && Distinct(sections)
    ensures multiset(Listed(rs, sections))
         == multiset(Listed(rs, sections[..|sections| - 1])) + multiset(InSection(rs, sections[|sections| - 1].id))
  {
    if rs != [] {
      ListedSplits(rs[..|rs| - 1], sections);
      LastSection(sections);
    }
  }

  /** Grouping loses and repeats nothing: it prints each listed result exactly once. */
  lemma {:induction false} GroupingPermutes(rs: seq<ModuleResult>, sections: seq<SectionInfo>)
    requires Distinct(sections)
    ensures multiset(Grouped(rs, sections)) == multiset(Listed(rs, sections))
  {
    if sections == [] {
      NothingListed(rs);
    } else {
      LastSection(sections);
      GroupingPermutes(rs, sections[..|sections| - 1]);
      ListedSplits(rs, sections);
    }
  }

  lemma {:induction false} NothingListed(rs: seq<ModuleResult>)
    ensures Listed(rs, []) == []
  {
    if rs != [] { NothingListed(rs[..|rs| - 1]); }
  }

  /** Every result (with the given outcome) has a heading. */
  ghost predicate AllKnown(rs: seq<ModuleResult>, sections: seq<SectionInfo>) {
    forall r <- rs :: Known(r.section, sections)
  }

  ghost predicate OutcomeKnown(rs: seq<ModuleResult>, sections: seq<SectionInfo>, o: Outcome) {
    forall r <- rs :: OutcomeOf(r) == o ==> Known(r.section, sections)
  }

  lemma KnownStep(rs: seq<ModuleResult>, sections: seq<SectionInfo>, o: Outcome)
    requires rs != []
    ensures var n := |rs| - 1;
            && (AllKnown(rs, sections) <==> AllKnown(rs[..n], sections) && Known(rs[n].section, sections))
            && (OutcomeKnown(rs, sections, o)
                <==> OutcomeKnown(rs[..n], sections, o) && (OutcomeOf(rs[n]) == o ==> Known(rs[n].section, sections)))
  {
    hide Known;
    assert rs == rs[..|rs| - 1] + [rs[|rs| - 1]];
  }

  lemma {:induction false} ListedIsShorter(rs: seq<ModuleResult>, sections: seq<SectionInfo>)
    ensures |Listed(rs, sections)| <= |rs|
    ensures |Listed(rs, sections)| == |rs| <==> AllKnown(rs, sections)
    ensures AllKnown(rs, sections) ==> Listed(rs, sections) == rs
  {
    hide Known, AllKnown;
    if rs == [] {
      NothingToKnow(sections);
    } else {
      KnownStep(rs, sections, Failed);
      ListedIsShorter(rs[..|rs| - 1], sections);
      assert rs == rs[..|rs| - 1] + [rs[|rs| - 1]];
    }
  }

  lemma NothingToKnow(sections: seq<SectionInfo>)
    ensures AllKnown([], sections) && forall o :: OutcomeKnown([], sections, o)
  {}

  /** The report prints a permutation of the results exactly when it has a heading for the
      section of every one of them. */
  lemma GroupingIsAPermutationExactly(rs: seq<ModuleResult>, sections: seq<SectionInfo>)
    requires Distinct(sections)
    ensures multiset(Grouped(rs, sections)) == multiset(rs) <==> AllKnown(rs, sections)
  {
    GroupingPermutes(rs, sections);
    ListedIsShorter(rs, sections);
    if multiset(Listed(rs, sections)) == multiset(rs) {
      assert |multiset(Listed(rs, sections))| == |Listed(rs, sections)|;
      assert |multiset(rs)| == |rs|;
    }
  }

  lemma {:induction false} InSectionConcat(a: seq<ModuleResult>, b: seq<ModuleResult>, s: string)
    ensures InSection(a + b, s) == InSection(a, s) + InSection(b, s)
    decreases |b|
  {
    if b == [] {
      assert a + b == a;
    } else {
      InSectionConcat(a, b[..|b| - 1], s);
      assert (a + b)[..|a + b| - 1] == a + b[..|b| - 1];
    }
  }

  lemma {:induction false} InSectionTwice(rs: seq<ModuleResult>, s: string, t: string)
    ensures InSection(InSection(rs, t), s) == if s == t then InSection(rs, s) else []
  {
    if rs != [] {
      var n := |rs| - 1;
      InSectionTwice(rs[..n], s, t);
      InSectionConcat(InSection(rs[..n], t), [rs[n]], s);
      InSectionOfOne(rs[n], s);
    }
  }

  lemma InSectionOfOne(r: ModuleResult, s: string)
    ensures InSection([r], s) == if r.section == s then [r] else []
  {
    assert [r][..0] == [] && InSection([], s) == [];
  }

  /** Grouping is stable: within a section the results keep the order in which they ran. */
  lemma {:induction false} GroupingIsStable(rs: seq<ModuleResult>, sections: seq<SectionInfo>, s: string)
    requires Distinct(sections)
    ensures InSection(Grouped(rs, sections), s) == if Known(s, sections) then InSection(rs, s) else []
  {
    if sections != [] {
      var n := |sections| - 1;
      LastSection(sections);
      GroupingIsStable(rs, sections[..n], s);
      InSectionConcat(Grouped(rs, sections[..n]), InSection(rs, sections[n].id), s);
      InSectionTwice(rs, s, sections[n].id);
    }
  }

  /** Grouping follows the order of the sections: no result is printed before one of an earlier
      section. */
  lemma {:induction false} SectionsComeInOrder(
    rs: seq<ModuleResult>, sections: seq<SectionInfo>, i: nat, j: nat, a: nat, b: nat)
    requires Distinct(sections) && a < |sections| && b < |sections|
    requires i < j < |Grouped(rs, sections)|
    requires sections[a].id == Grouped(rs, sections)[i].section && sections[b].id == Grouped(rs, sections)[j].section
    ensures a <= b
  {
    var n := |sections| - 1;
    var before := Grouped(rs, sections[..n]);
    if j < |before| {
      GroupedIsKnown(rs, sections[..n], before[i]);
      GroupedIsKnown(rs, sections[..n], before[j]);
      SectionsComeInOrder(rs, sections[..n], i, j, a, b);
    } else {
      InSectionIsExact(rs, sections[n].id, Grouped(rs, sections)[j]);
      assert b == n;
    }
  }

  lemma {:induction false} InSectionIsExact(rs: seq<ModuleResult>, s: string, r: ModuleResult)
    ensures r in InSection(rs, s) <==> r in rs && r.section == s
  {
    if rs != [] {
      InSectionIsExact(rs[..|rs| - 1], s, r);
      assert rs == rs[..|rs| - 1] + [rs[|rs| - 1]];
    }
  }

  lemma {:induction false} GroupedIsKnown(rs: seq<ModuleResult>, sections: seq<SectionInfo>, r: ModuleResult)
    ensures r in Grouped(rs, sections) ==> Known(r.section, sections)
  {
    if sections != [] {
      var n := |sections| - 1;
      GroupedIsKnown(rs, sections[..n], r);
      InSectionIsExact(rs, sections[n].id, r);
      assert sections == sections[..n] + [sections[n]];
    }
  }

  /** Within a section the results keep their order. */
  lemma OneMoreResult(rs: seq<ModuleResult>, r: ModuleResult, s: string)
    ensures InSection([], s) == []
    ensures InSection(rs + [r], s) == if r.section == s then InSection(rs, s) + [r] else InSection(rs, s)
  {
    assert (rs + [r])[..|rs|] == rs;
  }

  datatype Line = Line(number: nat, name: string, status: string, elapsedMs: real)

  function Status(r: ModuleResult): (status: string)
    ensures r.passed ==> status == "PASS"
    ensures !r.passed && r.advisory ==> status == "WARN"
    ensures !r.passed && !r.advisory ==> status == "FAIL"
  {
    if r.passed then "PASS" else if r.advisory then "WARN" else "FAIL"
  }

  /** The text writer's nested loops with their running number. */
  method TextLines(rs: seq<ModuleResult>, sections: seq<SectionInfo>) returns (lines: seq<Line>)
    ensures |lines| == |Grouped(rs, sections)|
    ensures forall k :: 0 <= k < |lines| ==>
              var r := Grouped(rs, sections)[k];
              lines[k] == Line(k + 1, r.name, Status(r), r.elapsedMs)
  {
    lines := [];
    var moduleIdx := 1;
    ghost var printed: seq<ModuleResult> := [];
    for s := 0 to |sections|
      invariant printed == Grouped(rs, sections[..s])
      invariant |lines| == |printed| == moduleIdx - 1
      invariant forall k :: 0 <= k < |lines| ==>
                  lines[k] == Line(k + 1, printed[k].name, Status(printed[k]), printed[k].elapsedMs)
    {
      assert sections[..s + 1][..s] == sections[..s];
      ghost var before := printed;
      for i := 0 to |rs|
        invariant printed == before + InSection(rs[..i], sections[s].id)
        invariant |lines| == |printed| == moduleIdx - 1
        invariant forall k :: 0 <= k < |lines| ==>
                    lines[k] == Line(k + 1, printed[k].name, Status(printed[k]), printed[k].elapsedMs)
      {
        var r := rs[i];
        assert rs[..i + 1][..i] == rs[..i];
        if r.section != sections[s].id { continue; }
        lines := lines + [Line(moduleIdx, r.name, Status(r), r.elapsedMs)];
        moduleIdx := moduleIdx + 1;
        printed := printed + [r];
      }
      assert rs[..|rs|] == rs;
    }
    assert sections[..|sections|] == sections;
  }

  ghost function SumFailed(summaries: seq<SectionSummary>): nat {
    if summaries == [] then 0 else SumFailed(summaries[..|summaries| - 1]) + summaries[|summaries| - 1].failed
  }

  lemma {:induction false} CountIsOfTheMultiset(a: seq<ModuleResult>, b: seq<ModuleResult>, o: Outcome)
    requires multiset(a) == multiset(b)
    ensures Count(a, o) == Count(b, o)
    decreases |a|
  {
    if a == [] {
      assert multiset(b) == multiset{};
      assert |multiset(b)| == |b|;
    } else {
      var j := SameElement(a, b);
      var r := b[j];
      CountIsOfTheMultiset(a[..|a| - 1], b[..j] + b[j + 1..], o);
      CountConcat(b[..j], b[j + 1..], o);
      CountConcat(b[..j] + [r], b[j + 1..], o);
      CountAppend(b[..j], r);
      assert b == b[..j] + [r] + b[j + 1..];
    }
  }

  /** The last element of one arrangement can be taken out of the other. */
  lemma SameElement<T>(a: seq<T>, b: seq<T>) returns (j: nat)
    requires a != [] && multiset(a) == multiset(b)
    ensures j < |b| && b[j] == a[|a| - 1]
    ensures multiset(a[..|a| - 1]) == multiset(b[..j] + b[j + 1..])
  {
    var n := |a| - 1;
    assert a[n] in multiset(a);
    j :| j < |b| && b[j] == a[n];
    WithoutOne(a, n);
    WithoutOne(b, j);
    assert a[..n] + a[n + 1..] == a[..n];
  }

  lemma WithoutOne<T>(s: seq<T>, j: nat)
    requires j < |s|
    ensures multiset(s[..j] + s[j + 1..]) == multiset(s) - multiset{s[j]}
  {
    assert s == s[..j] + [s[j]] + s[j + 1..];
  }

  lemma {:induction false} CountConcat(a: seq<ModuleResult>, b: seq<ModuleResult>, o: Outcome)
    ensures Count(a + b, o) == Count(a, o) + Count(b, o)
    decreases |b|
  {
    if b == [] {
      assert a + b == a;
    } else {
      CountConcat(a, b[..|b| - 1], o);
      assert (a + b)[..|a + b| - 1] == a + b[..|b| - 1];
    }
  }

  lemma {:induction false} SumFailedIsGrouped(rs: seq<ModuleResult>, sections: seq<SectionInfo>)
    ensures SumFailed(SummariesOf(sections, rs)) == Count(Grouped(rs, sections), Failed)
    decreases |sections|
  {
    if sections != [] {
      var n := |sections| - 1;
      SumFailedIsGrouped(rs, sections[..n]);
      assert SummariesOf(sections, rs)[..n] == SummariesOf(sections[..n], rs);
      CountConcat(Grouped(rs, sections[..n]), InSection(rs, sections[n].id), Failed);
    }
  }

  lemma {:induction false} ListedCounts(rs: seq<ModuleResult>, sections: seq<SectionInfo>, o: Outcome)
    ensures Count(Listed(rs, sections), o) <= Count(rs, o)
    ensures Count(Listed(rs, sections), o) == Count(rs, o) <==> OutcomeKnown(rs, sections, o)
  {
    hide Known, OutcomeKnown;
    if rs == [] {
      NothingToKnow(sections);
    } else {
      var n := |rs| - 1;
      KnownStep(rs, sections, o);
      ListedCounts(rs[..n], sections, o);
      CountAppend(Listed(rs[..n], sections), rs[n]);
    }
  }

  /** Conservation of failures: the sections' failures and the selftest's make up the grand
      total exactly when no failing module belongs to a section without a summary. */
  lemma FailuresAreConservedExactly(
    rs: seq<ModuleResult>, sections: seq<SectionInfo>, selftest: bool)
    requires Distinct(sections)
    ensures var listed := SumFailed(SummariesOf(sections, rs)) + if selftest then 0 else 1;
            && listed <= TotalsOf(rs, selftest).fail
            && (listed == TotalsOf(rs, selftest).fail <==> OutcomeKnown(rs, sections, Failed))
  {
    SumFailedIsGrouped(rs, sections);
    GroupingPermutes(rs, sections);
    CountIsOfTheMultiset(Grouped(rs, sections), Listed(rs, sections), Failed);
    ListedCounts(rs, sections, Failed);
  }
}
