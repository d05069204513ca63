/** The freshness gate of ci/audit_sla_check.py. Ages and thresholds are real numbers of days;
    an absent artifact has no age. */
module Freshness {
  import opened Rounding
  import opened Wrappers

  // ---------------------------------------------------------------- classification

  datatype State = Ok | PreAlert | Stale | Missing

  function Classify(age: Option<real>, threshold: real, buffer: int): State {
    match age
    case None => Missing
    case Some(a) =>
      if a > threshold then Stale
      else if a > threshold - buffer as real then PreAlert
      else Ok
  }

  // ---------------------------------------------------------------- one artifact

  datatype Slo = Slo(name: string, threshold: real, severity: string, buffer: int)

  datatype Finding = Finding(
    slo: string, evidence: string, status: State, severity: string, ageTenths: Option<int>, runwayTenths: Option<int>)

  datatype StatusRow = StatusRow(
    evidence: string, slo: string, state: State, ageTenths: Option<int>, threshold: real, runwayTenths: Option<int>)

  /** What is watched: an artifact under an SLO, and the severity its absence carries, if any. */
  datatype Tracked = Tracked(slo: Slo, evidence: string, onMissing: Option<string>)

  function StateOf(t: Tracked, age: Option<real>): State {
    Classify(age, t.slo.threshold, t.slo.buffer)
  }

  function RowOf(t: Tracked, age: Option<real>): StatusRow {
    match age
    case None => StatusRow(t.evidence, t.slo.name, Missing, None, t.slo.threshold, None)
    case Some(a) =>
      StatusRow(t.evidence, t.slo.name, StateOf(t, age), Some(RoundTenths(a)), t.slo.threshold,
                Some(RoundTenths(t.slo.threshold - a)))
  }

  function DatedFinding(t: Tracked, a: real, status: State, severity: string): Finding {
    Finding(t.slo.name, t.evidence, status, severity, Some(RoundTenths(a)), Some(RoundTenths(t.slo.threshold - a)))
  }

  /** The findings one artifact is meant to produce. */
  ghost function FindingsOf(t: Tracked, age: Option<real>): seq<Finding> {
    match StateOf(t, age)
    case Ok => []
    case PreAlert => [DatedFinding(t, age.value, PreAlert, "warning")]
    case Stale => [DatedFinding(t, age.value, Stale, t.slo.severity)]
    case Missing =>
      if t.onMissing.None? then []
      else [Finding(t.slo.name, t.evidence, Missing, t.onMissing.value, None, None)]
  }

  ghost function AllFindings(tracked: seq<Tracked>, ages: seq<Option<real>>): seq<Finding>
    requires |tracked| == |ages|
  {
    if tracked == [] then []
    else
      AllFindings(tracked[..|tracked| - 1], ages[..|ages| - 1])
      + FindingsOf(tracked[|tracked| - 1], ages[|ages| - 1])
  }

  ghost function AllRows(tracked: seq<Tracked>, ages: seq<Option<real>>): seq<StatusRow>
    requires |tracked| == |ages|
  {
    seq(|tracked|, i requires 0 <= i < |tracked| => RowOf(tracked[i], ages[i]))
  }

  lemma OneMoreTracked(tracked: seq<Tracked>, ages: seq<Option<real>>, i: nat)
    requires |tracked| == |ages| && i < |tracked|
    ensures AllFindings(tracked[..i + 1], ages[..i + 1])
         == AllFindings(tracked[..i], ages[..i]) + FindingsOf(tracked[i], ages[i])
    ensures AllRows(tracked[..i + 1], ages[..i + 1]) == AllRows(tracked[..i], ages[..i]) + [RowOf(tracked[i], ages[i])]
  {
    hide FindingsOf, RowOf;
    assert tracked[..i + 1][..i] == tracked[..i] && ages[..i + 1][..i] == ages[..i];
  }

  lemma {:induction false} FindingsConcat(a: seq<Tracked>, x: seq<Option<real>>, b: seq<Tracked>, y: seq<Option<real>>)
    requires |a| == |x| && |b| == |y|
    ensures AllFindings(a + b, x + y) == AllFindings(a, x) + AllFindings(b, y)
    decreases |b|
  {
    hide FindingsOf, AllFindings;
    if b == [] {
      NothingFound();
      assert a + b == a && x + y == x;
    } else {
      var n := |b| - 1;
      FindingsConcat(a, x, b[..n], y[..n]);
      OneMoreWatched(a + b[..n], x + y[..n], b[n], y[n]);
      OneMoreWatched(b[..n], y[..n], b[n], y[n]);
      assert a + b == a + b[..n] + [b[n]] && x + y == x + y[..n] + [y[n]];
      assert b == b[..n] + [b[n]] && y == y[..n] + [y[n]];
    }
  }

  lemma NothingFound()
    ensures AllFindings([], []) == []
  {}

  lemma RowsConcat(a: seq<Tracked>, x: seq<Option<real>>, b: seq<Tracked>, y: seq<Option<real>>)
    requires |a| == |x| && |b| == |y|
    ensures AllRows(a + b, x + y) == AllRows(a, x) + AllRows(b, y)
  {
    hide RowOf;
  }

  // ---------------------------------------------------------------- the four checks

  /** The age of the newest file below a directory; files of unknown age do not count. */
  method DirNewestAge(fileAges: seq<Option<real>>) returns (newest: Option<real>)
    ensures newest.None? <==> forall f <- fileAges :: f.None?
    ensures newest.Some? ==> newest in fileAges && forall f <- fileAges :: f.Some? ==> newest.value <= f.value
  {
    newest := None;
    for i := 0 to |fileAges|
      invariant newest.None? <==> forall f <- fileAges[..i] :: f.None?
      invariant newest.Some? ==>
                  newest in fileAges[..i] && forall f <- fileAges[..i] :: f.Some? ==> newest.value <= f.value
    {
      var age := fileAges[i];
      if age.Some? {
        if newest.None? || age.value < newest.value {
          newest := age;
        }
      }
      assert fileAges[..i + 1] == fileAges[..i] + [age];
    }
    assert fileAges[..|fileAges|] == fileAges;
  }

  datatype Evidence = Evidence(name: string, scope: string)

  /** Suite and build artifacts are only a warning when absent outside the full CI tree. */
  function MissingSeverity(slo: Slo, ev: Evidence, standalone: bool, inCi: bool): string {
    if (standalone || !inCi) && (ev.scope == "suite" || ev.scope == "build") then "warning" else slo.severity
  }

  ghost function TrackedEvidence(slo: Slo, evidence: seq<Evidence>, standalone: bool, inCi: bool): seq<Tracked> {
    seq(|evidence|, i requires 0 <= i < |evidence| =>
      Tracked(slo, evidence[i].name, Some(MissingSeverity(slo, evidence[i], standalone, inCi))))
  }

  method CheckEvidenceStaleness(
    slo: Slo, evidence: seq<Evidence>, ages: seq<Option<real>>, standalone: bool, inCi: bool)
    returns (findings: seq<Finding>, statuses: seq<StatusRow>)
    requires |evidence| == |ages|
    ensures findings == AllFindings(TrackedEvidence(slo, evidence, standalone, inCi), ages)
    ensures statuses == AllRows(TrackedEvidence(slo, evidence, standalone, inCi), ages)
  {
    findings, statuses := [], [];
    ghost var tracked := TrackedEvidence(slo, evidence, standalone, inCi);
    for i := 0 to |evidence|
      invariant findings == AllFindings(tracked[..i], ages[..i])
      invariant statuses == AllRows(tracked[..i], ages[..i])
    {
      OneMoreTracked(tracked, ages, i);
      var severity := MissingSeverity(slo, evidence[i], standalone, inCi);
      var t, age := Tracked(slo, evidence[i].name, Some(severity)), ages[i];
      statuses := statuses + [RowOf(t, age)];
      if age.None? {
        findings := findings + [Finding(slo.name, t.evidence, Missing, severity, None, None)];
      } else if age.value > slo.threshold {
        findings := findings + [DatedFinding(t, age.value, Stale, slo.severity)];
      } else if age.value > slo.threshold - slo.buffer as real {
        findings := findings + [DatedFinding(t, age.value, PreAlert, "warning")];
      }
    }
    assert tracked[..|evidence|] == tracked && ages[..|evidence|] == ages;
  }

  ghost function TrackedCritical(slo: Slo, names: seq<string>): seq<Tracked> {
    seq(|names|, i requires 0 <= i < |names| => Tracked(slo, names[i], None))
  }

  method CheckCriticalFreshness(slo: Slo, names: seq<string>, ages: seq<Option<real>>)
    returns (findings: seq<Finding>, statuses: seq<StatusRow>)
    requires |names| == |ages|
    ensures findings == AllFindings(TrackedCritical(slo, names), ages)
    ensures statuses == AllRows(TrackedCritical(slo, names), ages)
  {
    findings, statuses := [], [];
    ghost var tracked := TrackedCritical(slo, names);
    for i := 0 to |names|
      invariant findings == AllFindings(tracked[..i], ages[..i])
      invariant statuses == AllRows(tracked[..i], ages[..i])
    {
      OneMoreTracked(tracked, ages, i);
      var t, age := Tracked(slo, names[i], None), ages[i];
      statuses := statuses + [RowOf(t, age)];
      if age.None? { continue; }
      if age.value > slo.threshold {
        findings := findings + [DatedFinding(t, age.value, Stale, slo.severity)];
      } else if age.value > slo.threshold - slo.buffer as real {
        findings := findings + [DatedFinding(t, age.value, PreAlert, "warning")];
      }
    }
    assert tracked[..|names|] == tracked && ages[..|names|] == ages;
  }

  /** The determinism golden and the incident-drill log: one artifact each. An absent golden is
      a finding of the SLO's own severity, an absent drill log is none. */
  method CheckOne(t: Tracked, age: Option<real>) returns (findings: seq<Finding>, statuses: seq<StatusRow>)
    ensures findings == FindingsOf(t, age)
    ensures statuses == [RowOf(t, age)]
  {
    statuses := [RowOf(t, age)];
    if age.None? {
      findings := if t.onMissing.None? then []
                  else [Finding(t.slo.name, t.evidence, Missing, t.onMissing.value, None, None)];
      return;
    }
    if age.value > t.slo.threshold {
      return [DatedFinding(t, age.value, Stale, t.slo.severity)], statuses;
    }
    if age.value > t.slo.threshold - t.slo.buffer as real {
      return [DatedFinding(t, age.value, PreAlert, "warning")], statuses;
    }
    return [], statuses;
  }

  // ---------------------------------------------------------------- the report

  datatype Config = Config(
    stale: Slo, critical: Slo, golden: Slo, drill: Slo,
    evidence: seq<Evidence>, criticalNames: seq<string>, standalone: bool, inCi: bool)

  datatype Observed = Observed(
    evidence: seq<Option<real>>, critical: seq<Option<real>>, golden: Option<real>, drill: Option<real>)

  ghost function GoldenTracked(c: Config): Tracked {
    Tracked(c.golden, "determinism_golden", Some(c.golden.severity))
  }

  ghost function DrillTracked(c: Config): Tracked {
    Tracked(c.drill, "incident_drill_log", None)
  }

  /** Everything the gate watches, in the order it reports. */
  ghost function Watched(c: Config): seq<Tracked> {
    TrackedEvidence(c.stale, c.evidence, c.standalone, c.inCi) + TrackedCritical(c.critical, c.criticalNames)
    + [GoldenTracked(c)] + [DrillTracked(c)]
  }

  ghost function Ages(o: Observed): seq<Option<real>> {
    o.evidence + o.critical + [o.golden] + [o.drill]
  }

  ghost predicate Fits(c: Config, o: Observed) {
    |c.evidence| == |o.evidence| && |c.criticalNames| == |o.critical|
  }

  datatype Report = Report(
    releaseReady: bool, blocking: nat, warnings: nat, preAlerts: nat, total: nat, minRunwayTenths: Option<int>,
    findings: seq<Finding>, statuses: seq<StatusRow>)

  ghost function CountFindings(fs: seq<Finding>, p: Finding -> bool): nat {
    if fs == [] then 0 else CountFindings(fs[..|fs| - 1], p) + if p(fs[|fs| - 1]) then 1 else 0
  }

  predicate IsBlocking(f: Finding) {
    f.severity == "blocking"
  }

  predicate IsWarning(f: Finding) {
    f.severity == "warning"
  }

  predicate IsPreAlert(f: Finding) {
    f.status == PreAlert
  }

  method Count(fs: seq<Finding>, p: Finding -> bool) returns (n: nat)
    ensures n == CountFindings(fs, p)
    ensures n == 0 <==> forall f <- fs :: !p(f)
  {
    n := 0;
    for i := 0 to |fs|
      invariant n == CountFindings(fs[..i], p)
      invariant n == 0 <==> forall f <- fs[..i] :: !p(f)
    {
      assert fs[..i + 1][..i] == fs[..i] && fs[..i + 1] == fs[..i] + [fs[i]];
      if p(fs[i]) { n := n + 1; }
    }
    assert fs[..|fs|] == fs;
  }

  /** The soonest deadline among the artifacts whose age is known. */
  ghost predicate SoonestDeadline(rows: seq<StatusRow>, m: Option<int>) {
    && (m.None? <==> forall s <- rows :: s.runwayTenths.None?)
    && (m.Some? ==> (exists s <- rows :: s.runwayTenths == m)
                    && forall s <- rows :: s.runwayTenths.Some? ==> m.value <= s.runwayTenths.value)
  }

  method MinRunway(rows: seq<StatusRow>) returns (m: Option<int>)
    ensures SoonestDeadline(rows, m)
    ensures m == None ==> forall s <- rows :: s.runwayTenths == None
    ensures m != None ==>
              && (exists s <- rows :: s.runwayTenths == m)
              && forall s <- rows :: s.runwayTenths != None ==> m.value <= s.runwayTenths.value
  {
    m := None;
    for i := 0 to |rows|
      invariant SoonestDeadline(rows[..i], m)
    {
      assert rows[..i + 1] == rows[..i] + [rows[i]];
      var r := rows[i].runwayTenths;
      if r.Some? && (m.None? || r.value < m.value) {
        m := r;
        assert rows[i] in rows[..i + 1];
      }
    }
    assert rows[..|rows|] == rows;
  }

  /** `run`: the four checks in order, then the aggregates. */
  method Run(c: Config, o: Observed) returns (r: Report, exitCode: int)
    requires Fits(c, o)
    ensures r.findings == AllFindings(Watched(c), Ages(o))
    ensures r.statuses == AllRows(Watched(c), Ages(o))
    ensures r.blocking == CountFindings(r.findings, IsBlocking)
    ensures r.warnings == CountFindings(r.findings, IsWarning)
    ensures r.preAlerts == CountFindings(r.findings, IsPreAlert)
    ensures r.total == |r.findings|
    ensures r.preAlerts == 0 <==> NoPreAlert(Watched(c), Ages(o))
    ensures SoonestDeadline(r.statuses, r.minRunwayTenths)
    ensures r.minRunwayTenths == None ==> forall s <- r.statuses :: s.runwayTenths == None
    ensures r.minRunwayTenths != None ==>
              && (exists s <- r.statuses :: s.runwayTenths == r.minRunwayTenths)
              && forall s <- r.statuses :: s.runwayTenths != None ==> r.minRunwayTenths.value <= s.runwayTenths.value
    ensures r.releaseReady <==> Ready(Watched(c), Ages(o))
    ensures exitCode == if r.releaseReady then 0 else 1
    ensures r.releaseReady
            <==> && (forall i :: 0 <= i < |c.evidence| && c.stale.severity == "blocking" ==>
                       if o.evidence[i].Some? then o.evidence[i].value <= c.stale.threshold
                       else (c.standalone || !c.inCi) && c.evidence[i].scope in ["suite", "build"])
                 && (forall i :: 0 <= i < |c.criticalNames| && c.critical.severity == "blocking" ==>
                       o.critical[i].None? || o.critical[i].value <= c.critical.threshold)
                 && (c.golden.severity == "blocking" ==> o.golden.Some? && o.golden.value <= c.golden.threshold)
                 && (c.drill.severity == "blocking" ==> o.drill.None? || o.drill.value <= c.drill.threshold)
    ensures r.blocking == |set i | 0 <= i < |r.findings| && r.findings[i].severity == "blocking"|
    ensures r.warnings == |set i | 0 <= i < |r.findings| && r.findings[i].severity == "warning"|
    ensures r.preAlerts == |set i | 0 <= i < |r.findings| && r.findings[i].status == PreAlert|
  {
    hide AllFindings, AllRows, Watched, Ages, Ready, NoPreAlert, CountFindings, SoonestDeadline;
    hide TrackedEvidence, TrackedCritical, FindingsOf, RowOf;
    ReadyInPlainTerms(c, o);
    var f1, s1 := CheckEvidenceStaleness(c.stale, c.evidence, o.evidence, c.standalone, c.inCi);
    var f2, s2 := CheckCriticalFreshness(c.critical, c.criticalNames, o.critical);
    var f3, s3 := CheckOne(Tracked(c.golden, "determinism_golden", Some(c.golden.severity)), o.golden);
    var f4, s4 := CheckOne(Tracked(c.drill, "incident_drill_log", None), o.drill);
    var findings, statuses := f1 + f2 + f3 + f4, s1 + s2 + s3 + s4;
    WatchedSplits(c, o);
    var blocking := Count(findings, IsBlocking);
    var warnings := Count(findings, IsWarning);
    var preAlerts := Count(findings, IsPreAlert);
    var soonest := MinRunway(statuses);
    WatchedFits(c, o);
    ReadyExactly(Watched(c), Ages(o));
    SeveritiesInPlainTerms(findings);
    r := Report(blocking == 0, blocking, warnings, preAlerts, |findings|, soonest, findings, statuses);
    exitCode := if r.releaseReady then 0 else 1;
  }

  lemma {:induction false} CountIsTheIndices(fs: seq<Finding>, p: Finding -> bool)
    ensures CountFindings(fs, p) == |set i | 0 <= i < |fs| && p(fs[i])|
  {
    if fs != [] {
      CountIsTheIndices(fs[..|fs| - 1], p);
      OneMoreIndex(fs[..|fs| - 1], fs, p);
    }
  }

  /** What is counted. */
  lemma SeveritiesInPlainTerms(fs: seq<Finding>)
    ensures CountFindings(fs, IsBlocking) == |set i | 0 <= i < |fs| && fs[i].severity == "blocking"|
    ensures CountFindings(fs, IsWarning) == |set i | 0 <= i < |fs| && fs[i].severity == "warning"|
    ensures CountFindings(fs, IsPreAlert) == |set i | 0 <= i < |fs| && fs[i].status == PreAlert|
  {
    hide CountFindings;
    CountedAt(fs, IsBlocking, set i | 0 <= i < |fs| && fs[i].severity == "blocking");
    CountedAt(fs, IsWarning, set i | 0 <= i < |fs| && fs[i].severity == "warning");
    CountedAt(fs, IsPreAlert, set i | 0 <= i < |fs| && fs[i].status == PreAlert);
  }

  lemma CountedAt(fs: seq<Finding>, p: Finding -> bool, indices: set<int>)
    requires forall i :: i in indices <==> 0 <= i < |fs| && p(fs[i])
    ensures CountFindings(fs, p) == |indices|
  {
    hide CountFindings;
    CountIsTheIndices(fs, p);
    assert indices == set i | 0 <= i < |fs| && p(fs[i]);
  }

  lemma OneMoreIndex(before: seq<Finding>, fs: seq<Finding>, p: Finding -> bool)
    requires fs != [] && before == fs[..|fs| - 1]
    ensures |set i | 0 <= i < |fs| && p(fs[i])|
         == |set i | 0 <= i < |before| && p(before[i])| + if p(fs[|fs| - 1]) then 1 else 0
  {
    var n := |fs| - 1;
    var earlier := set i | 0 <= i < |before| && p(before[i]);
    assert (set i | 0 <= i < |fs| && p(fs[i])) == earlier + if p(fs[n]) then {n} else {};
  }

  lemma WatchedFits(c: Config, o: Observed)
    requires Fits(c, o)
    ensures |Watched(c)| == |Ages(o)|
  {}

  /** What is watched, in order: each artifact under the staleness SLO, with the severity of its
      absence, each critical path, whose absence is nothing, the golden reference and the drill log. */
  lemma WatchedInPlainTerms(c: Config, o: Observed, i: nat)
    requires Fits(c, o) && i < |c.evidence| + |c.criticalNames| + 2
    ensures |Watched(c)| == |Ages(o)| == |c.evidence| + |c.criticalNames| + 2
    ensures i < |c.evidence| ==>
              && Ages(o)[i] == o.evidence[i]
              && Watched(c)[i] == Tracked(
                   c.stale, c.evidence[i].name,
                   if c.inCi && !c.standalone then Some(c.stale.severity)
                   else if c.evidence[i].scope == "suite" || c.evidence[i].scope == "build" then Some("warning")
                   else Some(c.stale.severity))
    ensures |c.evidence| <= i < |c.evidence| + |c.criticalNames| ==>
              && Ages(o)[i] == o.critical[i - |c.evidence|]
              && Watched(c)[i] == Tracked(c.critical, c.criticalNames[i - |c.evidence|], None)
    ensures i == |c.evidence| + |c.criticalNames| ==>
              && Ages(o)[i] == o.golden
              && Watched(c)[i] == Tracked(c.golden, "determinism_golden", Some(c.golden.severity))
    ensures i == |c.evidence| + |c.criticalNames| + 1 ==>
              Ages(o)[i] == o.drill && Watched(c)[i] == Tracked(c.drill, "incident_drill_log", None)
  {}

  /** When a release is ready: no artifact is stale under a blocking SLO, and one that is absent is
      a critical path, the drill log, under an SLO that does not block, or a suite or build artifact
      outside the full CI tree. */
  lemma ReadyInPlainTerms(c: Config, o: Observed)
    requires Fits(c, o)
    ensures |Watched(c)| == |Ages(o)|
    ensures Ready(Watched(c), Ages(o))
            <==> && (forall i :: 0 <= i < |c.evidence| && c.stale.severity == "blocking" ==>
                       if o.evidence[i].Some? then o.evidence[i].value <= c.stale.threshold
                       else (c.standalone || !c.inCi) && c.evidence[i].scope in ["suite", "build"])
                 && (forall i :: 0 <= i < |c.criticalNames| && c.critical.severity == "blocking" ==>
                       o.critical[i].None? || o.critical[i].value <= c.critical.threshold)
                 && (c.golden.severity == "blocking" ==> o.golden.Some? && o.golden.value <= c.golden.threshold)
                 && (c.drill.severity == "blocking" ==> o.drill.None? || o.drill.value <= c.drill.threshold)
  {
    hide AllFindings;
    var e := TrackedEvidence(c.stale, c.evidence, c.standalone, c.inCi);
    var k := TrackedCritical(c.critical, c.criticalNames);
    ReadyConcat(e, o.evidence, k, o.critical);
    ReadyConcat(e + k, o.evidence + o.critical, [GoldenTracked(c)], [o.golden]);
    ReadyConcat(e + k + [GoldenTracked(c)], o.evidence + o.critical + [o.golden], [DrillTracked(c)], [o.drill]);
    EvidenceIsReady(c, o.evidence);
    CriticalIsReady(c, o.critical);
    OneIsReady(GoldenTracked(c), o.golden);
    OneIsReady(DrillTracked(c), o.drill);
    hide Ready, Blocks, TrackedEvidence, TrackedCritical;
  }

  lemma ReadyConcat(a: seq<Tracked>, x: seq<Option<real>>, b: seq<Tracked>, y: seq<Option<real>>)
    requires |a| == |x| && |b| == |y|
    ensures Ready(a + b, x + y) <==> Ready(a, x) && Ready(b, y)
  {
    hide Blocks;
    assert forall i :: 0 <= i < |a| ==> (a + b)[i] == a[i] && (x + y)[i] == x[i];
    assert forall i :: 0 <= i < |b| ==> (a + b)[|a| + i] == b[i] && (x + y)[|a| + i] == y[i];
  }

  lemma EvidenceIsReady(c: Config, ages: seq<Option<real>>)
    requires |ages| == |c.evidence|
    ensures Ready(TrackedEvidence(c.stale, c.evidence, c.standalone, c.inCi), ages)
            <==> forall i :: 0 <= i < |c.evidence| && c.stale.severity == "blocking" ==>
                   if ages[i].Some? then ages[i].value <= c.stale.threshold
                   else (c.standalone || !c.inCi) && c.evidence[i].scope in ["suite", "build"]
  {
    var tracked := TrackedEvidence(c.stale, c.evidence, c.standalone, c.inCi);
    forall i | 0 <= i < |c.evidence|
      ensures !Blocks(tracked[i], ages[i])
              <==> (c.stale.severity == "blocking" ==>
                      if ages[i].Some? then ages[i].value <= c.stale.threshold
                      else (c.standalone || !c.inCi) && c.evidence[i].scope in ["suite", "build"])
    {
      BlocksInPlainTerms(tracked[i], ages[i]);
    }
    hide Blocks;
  }

  lemma CriticalIsReady(c: Config, ages: seq<Option<real>>)
    requires |ages| == |c.criticalNames|
    ensures Ready(TrackedCritical(c.critical, c.criticalNames), ages)
            <==> forall i :: 0 <= i < |c.criticalNames| && c.critical.severity == "blocking" ==>
                   ages[i].None? || ages[i].value <= c.critical.threshold
  {}

  lemma OneIsReady(t: Tracked, age: Option<real>)
    ensures Ready([t], [age])
            <==> if age.None? then t.onMissing != Some("blocking")
                 else t.slo.severity != "blocking" || age.value <= t.slo.threshold
  {
    assert Ready([t], [age]) <==> !Blocks([t][0], [age][0]);
  }

  lemma BlocksInPlainTerms(t: Tracked, age: Option<real>)
    ensures age.None? ==> (Blocks(t, age) <==> t.onMissing == Some("blocking"))
    ensures age.Some? ==> (Blocks(t, age) <==> t.slo.severity == "blocking" && age.value > t.slo.threshold)
  {}

  /** The findings of one artifact: beyond the threshold it is stale at the severity of its SLO,
      within the buffer before it a warning, and its absence has a severity of its own or is
      nothing. */
  lemma FindingsInPlainTerms(t: Tracked, age: Option<real>)
    ensures age.None? && t.onMissing.None? ==> FindingsOf(t, age) == []
    ensures age.None? && t.onMissing.Some? ==>
              FindingsOf(t, age) == [Finding(t.slo.name, t.evidence, Missing, t.onMissing.value, None, None)]
    ensures age.Some? ==>
              var a, f := age.value, FindingsOf(t, age);
              && (a <= t.slo.threshold - t.slo.buffer as real && a <= t.slo.threshold ==> f == [])
              && (t.slo.threshold - t.slo.buffer as real < a <= t.slo.threshold ==>
                    f == [Finding(t.slo.name, t.evidence, PreAlert, "warning",
                                  Some(RoundTenths(a)), Some(RoundTenths(t.slo.threshold - a)))])
              && (a > t.slo.threshold ==>
                    f == [Finding(t.slo.name, t.evidence, Stale, t.slo.severity,
                                  Some(RoundTenths(a)), Some(RoundTenths(t.slo.threshold - a)))])
  {}

  /** The status row of one artifact. */
  lemma RowInPlainTerms(t: Tracked, age: Option<real>)
    ensures var row := RowOf(t, age);
            && row.evidence == t.evidence && row.slo == t.slo.name && row.threshold == t.slo.threshold
            && (age.None? ==> row.state == Missing && row.ageTenths == None && row.runwayTenths == None)
            && (age.Some? ==>
                  var a := age.value;
                  && row.ageTenths == Some(RoundTenths(a))
                  && row.runwayTenths == Some(RoundTenths(t.slo.threshold - a))
                  && (row.state == Stale <==> a > t.slo.threshold)
                  && (row.state == PreAlert <==> t.slo.threshold - t.slo.buffer as real < a <= t.slo.threshold)
                  && row.state != Missing)
  {}

  /** Findings and rows come in the order of what is watched. */
  lemma OneMoreWatched(tracked: seq<Tracked>, ages: seq<Option<real>>, t: Tracked, age: Option<real>)
    requires |tracked| == |ages|
    ensures AllFindings([], []) == [] && AllRows([], []) == []
    ensures AllFindings(tracked + [t], ages + [age]) == AllFindings(tracked, ages) + FindingsOf(t, age)
    ensures AllRows(tracked + [t], ages + [age]) == AllRows(tracked, ages) + [RowOf(t, age)]
  {
    hide FindingsOf, RowOf;
    assert (tracked + [t])[..|tracked|] == tracked && (ages + [age])[..|ages|] == ages;
  }

  lemma WatchedSplits(c: Config, o: Observed)
    requires Fits(c, o)
    ensures AllFindings(Watched(c), Ages(o))
         == AllFindings(TrackedEvidence(c.stale, c.evidence, c.standalone, c.inCi), o.evidence)
            + AllFindings(TrackedCritical(c.critical, c.criticalNames), o.critical)
            + FindingsOf(GoldenTracked(c), o.golden) + FindingsOf(DrillTracked(c), o.drill)
    ensures AllRows(Watched(c), Ages(o))
         == AllRows(TrackedEvidence(c.stale, c.evidence, c.standalone, c.inCi), o.evidence)
            + AllRows(TrackedCritical(c.critical, c.criticalNames), o.critical)
            + [RowOf(GoldenTracked(c), o.golden)] + [RowOf(DrillTracked(c), o.drill)]
  {
    var e := TrackedEvidence(c.stale, c.evidence, c.standalone, c.inCi);
    var k := TrackedCritical(c.critical, c.criticalNames);
    var ek, ages := e + k, o.evidence + o.critical;
    FindingsConcat(e, o.evidence, k, o.critical);
    FindingsConcat(ek, ages, [GoldenTracked(c)], [o.golden]);
    FindingsConcat(ek + [GoldenTracked(c)], ages + [o.golden], [DrillTracked(c)], [o.drill]);
    RowsConcat(e, o.evidence, k, o.critical);
    RowsConcat(ek, ages, [GoldenTracked(c)], [o.golden]);
    RowsConcat(ek + [GoldenTracked(c)], ages + [o.golden], [DrillTracked(c)], [o.drill]);
    OneTracked(GoldenTracked(c), o.golden);
    OneTracked(DrillTracked(c), o.drill);
  }

  lemma OneTracked(t: Tracked, age: Option<real>)
    ensures AllFindings([t], [age]) == FindingsOf(t, age)
    ensures AllRows([t], [age]) == [RowOf(t, age)]
  {
    assert AllFindings([t], [age]) == AllFindings([], []) + FindingsOf(t, age) by {
      assert [t][..0] == [] && [age][..0] == [];
    }
  }

  // ---------------------------------------------------------------- what the report means

  /** An artifact blocks a release when it is stale under a blocking SLO, or absent where
      absence blocks. */
  predicate Blocks(t: Tracked, age: Option<real>) {
    match StateOf(t, age)
    case Stale => t.slo.severity == "blocking"
    case Missing => t.onMissing == Some("blocking")
    case _ => false
  }

  ghost predicate Ready(tracked: seq<Tracked>, ages: seq<Option<real>>)
    requires |tracked| == |ages|
  {
    forall i :: 0 <= i < |tracked| ==> !Blocks(tracked[i], ages[i])
  }

  ghost predicate NoPreAlert(tracked: seq<Tracked>, ages: seq<Option<real>>)
    requires |tracked| == |ages|
  {
    forall i :: 0 <= i < |tracked| ==> StateOf(tracked[i], ages[i]) != PreAlert
  }

  lemma {:induction false} ReadyExactly(tracked: seq<Tracked>, ages: seq<Option<real>>)
    requires |tracked| == |ages|
    ensures Ready(tracked, ages) <==> forall f <- AllFindings(tracked, ages) :: !IsBlocking(f)
    ensures NoPreAlert(tracked, ages) <==> forall f <- AllFindings(tracked, ages) :: !IsPreAlert(f)
  {
    hide FindingsOf, Blocks, StateOf;
    if tracked == [] {
    } else {
      var n := |tracked| - 1;
      var t, age := tracked[n], ages[n];
      ReadyExactly(tracked[..n], ages[..n]);
      var last := FindingsOf(t, age);
      LastFinding(t, age);
      assert Ready(tracked, ages) <==> Ready(tracked[..n], ages[..n]) && !Blocks(t, age);
      assert NoPreAlert(tracked, ages) <==> NoPreAlert(tracked[..n], ages[..n]) && StateOf(t, age) != PreAlert;
    }
  }

  lemma LastFinding(t: Tracked, age: Option<real>)
    ensures Blocks(t, age) <==> exists f <- FindingsOf(t, age) :: IsBlocking(f)
    ensures StateOf(t, age) == PreAlert <==> exists f <- FindingsOf(t, age) :: IsPreAlert(f)
  {
    var fs := FindingsOf(t, age);
    if fs != [] { assert fs[0] in fs; }
  }

  // ---------------------------------------------------------------- no silent jump

  /** Successive checks of one present artifact. */
  datatype Check = Check(time: real, age: real)

  function CheckState(c: Check, threshold: real, buffer: int): State {
    Classify(Some(c.age), threshold, buffer)
  }

  /** Consecutive checks are at most `gap` days apart, and between them the age grows with the
      clock unless a refresh lowers it. */
  ghost predicate Monitored(run: seq<Check>, gap: real) {
    forall i, j :: 0 <= i < j < |run| && j == i + 1 ==>
      && 0.0 <= run[j].time - run[i].time <= gap
      && run[j].age <= run[i].age + (run[j].time - run[i].time)
  }

  ghost predicate Unrefreshed(run: seq<Check>) {
    forall i, j :: 0 <= i < j < |run| && j == i + 1 ==>
      run[j].age == run[i].age + (run[j].time - run[i].time)
  }

  /** The state of a check, by its age alone. */
  lemma CheckStateInPlainTerms(c: Check, threshold: real, buffer: int)
    ensures CheckState(c, threshold, buffer) == Stale <==> c.age > threshold
    ensures CheckState(c, threshold, buffer) == PreAlert <==> threshold - buffer as real < c.age <= threshold
    ensures CheckState(c, threshold, buffer) == Ok <==> c.age <= threshold - buffer as real && c.age <= threshold
  {}

  lemma OneMoreCheck(run: seq<Check>, c: Check, gap: real)
    ensures Monitored([], gap) && Unrefreshed([])
    ensures Monitored(run + [c], gap)
            <==> && Monitored(run, gap)
                 && (run != [] ==>
                       var last := run[|run| - 1];
                       0.0 <= c.time - last.time <= gap && c.age <= last.age + (c.time - last.time))
    ensures Unrefreshed(run + [c])
            <==> && Unrefreshed(run)
                 && (run != [] ==>
                       var last := run[|run| - 1];
                       c.age == last.age + (c.time - last.time))
  {
    var all, n := run + [c], |run|;
    assert all[n] == c && forall i :: 0 <= i < n ==> all[i] == run[i];
    if n > 0 { assert all[n - 1] == run[n - 1]; }
  }

  /** Between an ok check and a later stale one, some check reported the pre-alert. */
  lemma {:induction false} NoSilentJump(run: seq<Check>, threshold: real, buffer: int, i: nat, j: nat)
    requires Monitored(run, buffer as real) && i < j < |run|
    requires CheckState(run[i], threshold, buffer) == Ok && CheckState(run[j], threshold, buffer) == Stale
    ensures exists k :: i < k < j && CheckState(run[k], threshold, buffer) == PreAlert
    decreases j - i
  {
    if j == i + 1 {
      assert false;
    } else if CheckState(run[i + 1], threshold, buffer) == Ok {
      NoSilentJump(run, threshold, buffer, i + 1, j);
    } else {
      assert run[i + 1].age <= run[i].age + buffer as real <= threshold;
      assert CheckState(run[i + 1], threshold, buffer) == PreAlert;
    }
  }

  function Rank(s: State): int {
    match s
    case Ok => 0 case PreAlert => 1 case Stale => 2 case Missing => 3
  }

  /** Without a refresh the state never moves backwards, whatever the buffer. */
  lemma {:induction false} NeverBackwards(run: seq<Check>, gap: real, threshold: real, buffer: int, i: nat, j: nat)
    requires Monitored(run, gap) && Unrefreshed(run) && i <= j < |run|
    ensures Rank(CheckState(run[i], threshold, buffer)) <= Rank(CheckState(run[j], threshold, buffer))
    ensures run[i].age <= run[j].age
    ensures Rank(Ok) < Rank(PreAlert) < Rank(Stale)
    decreases j - i
  {
    if i < j {
      NeverBackwards(run, gap, threshold, buffer, i, j - 1);
      assert run[j - 1].age <= run[j].age;
    }
  }

  ghost predicate JumpPossible(threshold: real, buffer: int, gap: real) {
    exists before: real, after: real ::
      && 0.0 <= before <= after <= before + gap
      && Classify(Some(before), threshold, buffer) == Ok && Classify(Some(after), threshold, buffer) == Stale
  }

  /** The buffer is exactly the longest pause between checks that rules out a silent jump,
      unless it is so long that no artifact is ever ok. */
  lemma JumpExactlyWhenChecksAreTooRare(threshold: real, buffer: int, gap: real)
    requires 0.0 < gap && 0.0 <= threshold
    ensures JumpPossible(threshold, buffer, gap) <==> buffer as real < gap && buffer as real <= threshold
  {
    if buffer as real < gap && buffer as real <= threshold {
      if 0 <= buffer {
        var before := threshold - buffer as real;
        assert Classify(Some(before), threshold, buffer) == Ok;
        assert Classify(Some(before + gap), threshold, buffer) == Stale;
        assert 0.0 <= before <= before + gap <= before + gap;
      } else {
        NegativeBufferJumps(threshold, buffer, gap);
      }
    }
  }

  /** A negative buffer is tested after staleness, so it leaves no pre-alert at all. */
  lemma NegativeBufferJumps(threshold: real, buffer: int, gap: real)
    requires 0.0 < gap && 0.0 <= threshold && buffer < 0
    ensures JumpPossible(threshold, buffer, gap)
  {
    var before, after := threshold, threshold + gap;
    assert Classify(Some(before), threshold, buffer) == Ok;
    assert Classify(Some(after), threshold, buffer) == Stale;
    assert 0.0 <= before <= after <= before + gap;
  }

  /** An artifact that blocks without ever having aged towards it: one that blocks by its absence
      has vanished, or one that was absent has come back already stale. */
  predicate BlocksUnwarned(t: Tracked, before: Option<real>, after: Option<real>) {
    || (before.Some? && after.None? && t.onMissing == Some("blocking"))
    || (before.None? && after.Some? && after.value > t.slo.threshold && t.slo.severity == "blocking")
  }

  /** Between two checks no artifact whose age is known at both grows older by more than `gap`,
      and `gap` is within every buffer. Artifacts may vanish and come back. */
  ghost predicate CloseChecks(
    tracked: seq<Tracked>, before: seq<Option<real>>, after: seq<Option<real>>, gap: real)
  {
    && |tracked| == |before| == |after|
    && forall i :: 0 <= i < |tracked| ==>
         && gap <= tracked[i].slo.buffer as real
         && (before[i].Some? && after[i].Some? ==> after[i].value <= before[i].value + gap)
  }

  ghost predicate SomeBlocksUnwarned(tracked: seq<Tracked>, before: seq<Option<real>>, after: seq<Option<real>>)
    requires |tracked| == |before| == |after|
  {
    exists i :: 0 <= i < |tracked| && BlocksUnwarned(tracked[i], before[i], after[i])
  }

  /** From a ready report without pre-alerts the next check is blocked exactly when some artifact
      blocks unwarned. */
  lemma GreenTurnsBlockedExactly(tracked: seq<Tracked>, before: seq<Option<real>>, after: seq<Option<real>>, gap: real)
    requires CloseChecks(tracked, before, after, gap)
    requires Ready(tracked, before) && NoPreAlert(tracked, before)
    ensures !Ready(tracked, after) <==> SomeBlocksUnwarned(tracked, before, after)
  {
    forall i | 0 <= i < |tracked|
      ensures Blocks(tracked[i], after[i]) <==> BlocksUnwarned(tracked[i], before[i], after[i])
    {
      assert !Blocks(tracked[i], before[i]) && StateOf(tracked[i], before[i]) != PreAlert;
    }
  }

  /** One report per check, each check close to the one before. */
  ghost predicate WatchedClosely(tracked: seq<Tracked>, reports: seq<seq<Option<real>>>, gap: real) {
    && (forall r <- reports :: |r| == |tracked|)
    && forall i, j :: 0 <= i < j < |reports| && j == i + 1 ==> CloseChecks(tracked, reports[i], reports[j], gap)
  }

  lemma OneMoreReport(tracked: seq<Tracked>, reports: seq<seq<Option<real>>>, r: seq<Option<real>>, gap: real)
    ensures WatchedClosely(tracked, [], gap)
    ensures WatchedClosely(tracked, reports + [r], gap)
            <==> && WatchedClosely(tracked, reports, gap) && |r| == |tracked|
                 && (reports != [] ==> CloseChecks(tracked, reports[|reports| - 1], r, gap))
  {
    hide CloseChecks;
    var all, n := reports + [r], |reports|;
    assert all[n] == r && forall i :: 0 <= i < n ==> all[i] == reports[i];
    if n > 0 { assert all[n - 1] == reports[n - 1]; }
  }

  lemma OneMoreClose(
    tracked: seq<Tracked>, before: seq<Option<real>>, after: seq<Option<real>>, gap: real,
    t: Tracked, x: Option<real>, y: Option<real>)
    requires |tracked| == |before| == |after|
    ensures CloseChecks([], [], [], gap)
    ensures CloseChecks(tracked + [t], before + [x], after + [y], gap)
            <==> && CloseChecks(tracked, before, after, gap) && gap <= t.slo.buffer as real
                 && (x.Some? && y.Some? ==> y.value <= x.value + gap)
  {
    var n := |tracked|;
    assert (tracked + [t])[n] == t && (before + [x])[n] == x && (after + [y])[n] == y;
    assert forall i :: 0 <= i < n ==>
             (tracked + [t])[i] == tracked[i] && (before + [x])[i] == before[i] && (after + [y])[i] == after[i];
  }

  /** Over a whole run: from a ready report without pre-alerts, a later report is blocked only if
      some report in between announced it or some artifact blocked unwarned on the way. */
  lemma {:induction false} BlockedIsAnnounced(
    tracked: seq<Tracked>, reports: seq<seq<Option<real>>>, gap: real, i: nat, j: nat)
    requires WatchedClosely(tracked, reports, gap) && i < j < |reports|
    requires Ready(tracked, reports[i]) && NoPreAlert(tracked, reports[i]) && !Ready(tracked, reports[j])
    ensures || (exists k :: i < k < j && !NoPreAlert(tracked, reports[k]))
            || (exists k, n :: i <= k < n <= j && n == k + 1 && SomeBlocksUnwarned(tracked, reports[k], reports[n]))
    decreases j - i
  {
    var next := i + 1;
    GreenTurnsBlockedExactly(tracked, reports[i], reports[next], gap);
    if Ready(tracked, reports[next]) && NoPreAlert(tracked, reports[next]) {
      BlockedIsAnnounced(tracked, reports, gap, next, j);
    } else if Ready(tracked, reports[next]) {
      assert i < next < j;
    }
  }

  /** A golden of age one that is gone at the next check. */
  lemma VanishedGoldenBlocksUnwarned()
    ensures var golden := Tracked(
              Slo("determinism_golden_staleness_days", 30.0, "blocking", 5), "determinism_golden", Some("blocking"));
            var before, after := [Some(1.0)], [None];
            && CloseChecks([golden], before, after, 1.0)
            && Ready([golden], before) && NoPreAlert([golden], before)
            && !Ready([golden], after) && NoPreAlert([golden], after)
  {
    var golden := Tracked(
      Slo("determinism_golden_staleness_days", 30.0, "blocking", 5), "determinism_golden", Some("blocking"));
    assert Blocks([golden][0], [None][0]);
  }

  /** A critical path that was absent and is twenty days old at the next check. */
  lemma ReturningEvidenceBlocksUnwarned()
    ensures var critical := Tracked(
              Slo("critical_evidence_freshness_days", 14.0, "blocking", 4), "api_contracts", None);
            var before, after := [None], [Some(20.0)];
            && CloseChecks([critical], before, after, 1.0)
            && Ready([critical], before) && NoPreAlert([critical], before)
            && !Ready([critical], after) && NoPreAlert([critical], after)
  {
    var critical := Tracked(Slo("critical_evidence_freshness_days", 14.0, "blocking", 4), "api_contracts", None);
    assert Blocks([critical][0], [Some(20.0)][0]);
  }

  // ---------------------------------------------------------------- what the rounded numbers say

  /** The printed runway is negative exactly beyond a twentieth of a day past the threshold,
      so a stale artifact can still print zero, but never a positive number, and a pre-alert
      prints between zero and the buffer. */
  lemma RunwayTellsTheState(t: Tracked, a: real)
    ensures var runway := RowOf(t, Some(a)).runwayTenths.value;
            && (runway < 0 <==> a > t.slo.threshold + 0.05)
            && (StateOf(t, Some(a)) == Stale ==> runway <= 0)
            && (StateOf(t, Some(a)) == PreAlert ==> 0 <= runway <= 10 * t.slo.buffer)
            && (StateOf(t, Some(a)) == Ok && 0 <= t.slo.buffer ==> 10 * t.slo.buffer <= runway)
  {
    var left := t.slo.threshold - a;
    var runway := RoundTenths(left);
    assert runway as real <= 10.0 * left + 0.5;
    assert 10.0 * left - 0.5 <= runway as real;
  }
}
