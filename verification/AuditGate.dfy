/** The report assembly of ci/audit_gate.py, and what the analyzer makes of its two copies of
    every finding. */
module AuditGate {
  import opened Analyzer
  import opened Wrappers

  datatype GateFinding = GateFinding(severity: string, message: string)

  datatype CheckResult = CheckResult(title: string, findings: seq<GateFinding>)

  // ---------------------------------------------------------------- the printed report

  /** The severity written into `sections`. */
  function SectionSeverity(severity: string): string {
    match severity
    case "FAIL" => "blocking:critical"
    case "WARN" => "advisory:medium"
    case "INFO" => "info"
    case "PASS" => "pass"
    case _ => "info"
  }

  /** `lower()` on ASCII letters, then underscores for spaces and colons. */
  function Slug(title: string): string {
    seq(|title|, i requires 0 <= i < |title| =>
      if 'A' <= title[i] <= 'Z' then (title[i] as int + 32) as char
      else if title[i] == ' ' || title[i] == ':' then '_'
      else title[i])
  }

  function SectionFinding(title: string, f: GateFinding): Finding {
    Finding(Some(Slug(title)), None, Some(SectionSeverity(f.severity)), None, Some(f.message), None)
  }

  function CheckFinding(f: GateFinding): Finding {
    Finding(None, None, Some(f.severity), None, None, Some(f.message))
  }

  function SectionOf(r: CheckResult): Section {
    Section(Some(r.title),
            Some(seq(|r.findings|, i requires 0 <= i < |r.findings| => SectionFinding(r.title, r.findings[i]))))
  }

  function CheckOf(r: CheckResult): Section {
    Section(Some(r.title), Some(seq(|r.findings|, i requires 0 <= i < |r.findings| => CheckFinding(r.findings[i]))))
  }

  function SectionsOf(rs: seq<CheckResult>): seq<Section> {
    seq(|rs|, i requires 0 <= i < |rs| => SectionOf(rs[i]))
  }

  function ChecksOf(rs: seq<CheckResult>): seq<Section> {
    seq(|rs|, i requires 0 <= i < |rs| => CheckOf(rs[i]))
  }

  datatype Summary = Summary(total: nat, blocking: nat, advisory: nat, warnings: nat, info: nat, sections: nat)

  /** The report with what it repeats for each check: a status in `checks`, a verdict in `sections`. */
  datatype GateReport = GateReport(
    report: Report, statuses: seq<string>, verdicts: seq<string>, summary: Summary, exitCode: int)

  predicate AnyOf(r: CheckResult, severity: string) {
    exists f <- r.findings :: f.severity == severity
  }

  function StatusOf(r: CheckResult): string {
    if AnyOf(r, "FAIL") then "FAIL" else "PASS"
  }

  function VerdictOf(r: CheckResult): string {
    if AnyOf(r, "FAIL") then "FAIL" else if AnyOf(r, "WARN") then "PASS with advisory" else "PASS"
  }

  /** The findings of the given severity in all checks. */
  ghost function Severities(rs: seq<CheckResult>, severity: string): nat {
    if rs == [] then 0
    else Severities(rs[..|rs| - 1], severity) + SeveritiesIn(rs[|rs| - 1].findings, severity)
  }

  ghost function SeveritiesIn(fs: seq<GateFinding>, severity: string): nat {
    if fs == [] then 0
    else SeveritiesIn(fs[..|fs| - 1], severity) + if fs[|fs| - 1].severity == severity then 1 else 0
  }

  ghost function TotalFindings(rs: seq<CheckResult>): nat {
    if rs == [] then 0 else TotalFindings(rs[..|rs| - 1]) + |rs[|rs| - 1].findings|
  }

  method CountSeverity(rs: seq<CheckResult>, severity: string) returns (n: nat)
    ensures n == Severities(rs, severity)
  {
    n := 0;
    for i := 0 to |rs|
      invariant n == Severities(rs[..i], severity)
    {
      assert rs[..i + 1][..i] == rs[..i];
      ghost var before := n;
      var fs := rs[i].findings;
      for j := 0 to |fs|
        invariant n == before + SeveritiesIn(fs[..j], severity)
      {
        assert fs[..j + 1][..j] == fs[..j];
        if fs[j].severity == severity { n := n + 1; }
      }
      assert fs[..|fs|] == fs;
    }
    assert rs[..|rs|] == rs;
  }

  method CountFindings(rs: seq<CheckResult>) returns (n: nat)
    ensures n == TotalFindings(rs)
  {
    n := 0;
    for i := 0 to |rs|
      invariant n == TotalFindings(rs[..i])
    {
      assert rs[..i + 1][..i] == rs[..i];
      n := n + |rs[i].findings|;
    }
    assert rs[..|rs|] == rs;
  }

  lemma {:induction false} SeveritiesInPositive(fs: seq<GateFinding>, severity: string)
    ensures SeveritiesIn(fs, severity) > 0 <==> exists f <- fs :: f.severity == severity
  {
    if fs != [] {
      SeveritiesInPositive(fs[..|fs| - 1], severity);
      assert fs == fs[..|fs| - 1] + [fs[|fs| - 1]];
    }
  }

  lemma {:induction false} SeveritiesPositive(rs: seq<CheckResult>, severity: string)
    ensures Severities(rs, severity) > 0 <==> exists r <- rs :: AnyOf(r, severity)
  {
    hide AnyOf, SeveritiesIn;
    if rs != [] {
      var n := |rs| - 1;
      SeveritiesPositive(rs[..n], severity);
      AnyOfPositive(rs[n], severity);
      assert rs == rs[..n] + [rs[n]];
    }
  }

  lemma AnyOfPositive(r: CheckResult, severity: string)
    ensures AnyOf(r, severity) <==> SeveritiesIn(r.findings, severity) > 0
  {
    SeveritiesInPositive(r.findings, severity);
  }

  /** The worst of the sections' verdicts. */
  function WorstOf(verdicts: seq<string>): string {
    if "FAIL" in verdicts then "FAIL" else if "PASS with advisory" in verdicts then "PASS with advisory" else "PASS"
  }

  lemma VerdictIsTheWorst(rs: seq<CheckResult>, verdicts: seq<string>)
    requires |verdicts| == |rs| && forall i :: 0 <= i < |rs| ==> verdicts[i] == VerdictOf(rs[i])
    ensures WorstOf(verdicts)
         == if exists r <- rs :: AnyOf(r, "FAIL") then "FAIL"
            else if exists r <- rs :: AnyOf(r, "WARN") then "PASS with advisory" else "PASS"
  {
    hide AnyOf;
    if r :| r in rs && AnyOf(r, "FAIL") {
      var i :| 0 <= i < |rs| && rs[i] == r;
      assert verdicts[i] == "FAIL";
    } else if r :| r in rs && AnyOf(r, "WARN") {
      var i :| 0 <= i < |rs| && rs[i] == r;
      assert verdicts[i] == "PASS with advisory";
    }
  }

  lemma StatusesInPlainTerms(r: CheckResult)
    ensures StatusOf(r) == "FAIL" <==> exists f <- r.findings :: f.severity == "FAIL"
    ensures StatusOf(r) == "PASS" <==> forall f <- r.findings :: f.severity != "FAIL"
    ensures VerdictOf(r) == "FAIL" <==> exists f <- r.findings :: f.severity == "FAIL"
    ensures VerdictOf(r) == "PASS" <==> forall f <- r.findings :: f.severity != "FAIL" && f.severity != "WARN"
    ensures VerdictOf(r) in {"FAIL", "PASS with advisory", "PASS"}
  {}

  lemma SomeFinding(rs: seq<CheckResult>, severity: string)
    ensures Severities(rs, severity) > 0 <==> exists r <- rs, f <- r.findings :: f.severity == severity
  {
    hide Severities;
    SeveritiesPositive(rs, severity);
  }

  method AnyFails(rs: seq<CheckResult>) returns (hasFail: bool)
    ensures hasFail <==> Severities(rs, "FAIL") > 0
  {
    hasFail := false;
    for i := 0 to |rs|
      invariant hasFail <==> Severities(rs[..i], "FAIL") > 0
    {
      assert rs[..i + 1][..i] == rs[..i];
      SeveritiesInPositive(rs[i].findings, "FAIL");
      if AnyOf(rs[i], "FAIL") {
        hasFail := true;
      }
    }
    assert rs[..|rs|] == rs;
  }

  /** The gate's report and exit code, from the checks' findings. */
  method BuildReport(rs: seq<CheckResult>, runId: string, generatedAt: string, commit: Option<string>)
    returns (g: GateReport)
    ensures g.report.sections == Some(SectionsOf(rs)) && g.report.checks == Some(ChecksOf(rs))
    ensures g.report.runId == Some(runId) && g.report.generatedAt == Some(generatedAt) && g.report.commit == commit
    ensures |g.statuses| == |g.verdicts| == |rs|
    ensures forall i :: 0 <= i < |rs| ==> g.statuses[i] == StatusOf(rs[i]) && g.verdicts[i] == VerdictOf(rs[i])
    ensures g.report.verdict == Some(WorstOf(g.verdicts))
    ensures g.summary.total == TotalFindings(rs) && g.summary.sections == |rs|
    ensures g.summary.blocking == Severities(rs, "FAIL") && g.summary.warnings == Severities(rs, "WARN")
    ensures g.summary.info == Severities(rs, "INFO") && g.summary.advisory == g.summary.warnings + g.summary.info
    ensures g.report.verdict
         == Some(if Severities(rs, "FAIL") > 0 then "FAIL"
                 else if Severities(rs, "WARN") > 0 then "PASS with advisory" else "PASS")
    ensures g.exitCode == if Severities(rs, "FAIL") > 0 then 1 else 0
    ensures g.report.runner == Some("audit_gate") && g.report.status == None
    ensures EventsOf(g.report) == EventsOfSections(SectionsOf(rs))
    ensures forall i :: 0 <= i < |rs| ==>
              && (g.statuses[i] == "FAIL" <==> exists f <- rs[i].findings :: f.severity == "FAIL")
              && (g.statuses[i] == "PASS" <==> forall f <- rs[i].findings :: f.severity != "FAIL")
              && (g.verdicts[i] == "FAIL" <==> exists f <- rs[i].findings :: f.severity == "FAIL")
              && (g.verdicts[i] == "PASS"
                  <==> forall f <- rs[i].findings :: f.severity != "FAIL" && f.severity != "WARN")
              && g.verdicts[i] in {"FAIL", "PASS with advisory", "PASS"}
    ensures g.report.verdict == Some("FAIL") <==> exists r <- rs, f <- r.findings :: f.severity == "FAIL"
    ensures g.report.verdict == Some("PASS")
            <==> forall r <- rs, f <- r.findings :: f.severity != "FAIL" && f.severity != "WARN"
    ensures g.report.verdict in {Some("FAIL"), Some("PASS with advisory"), Some("PASS")}
    ensures g.exitCode == 1 <==> exists r <- rs, f <- r.findings :: f.severity == "FAIL"
  {
    hide AnyOf, Severities, StatusOf, VerdictOf, WorstOf, EventsOfSections, SectionsOf, ChecksOf, TotalFindings;
    var hasFail := AnyFails(rs);
    var warnings := CountSeverity(rs, "WARN");
    var info := CountSeverity(rs, "INFO");
    var blocking := CountSeverity(rs, "FAIL");
    var total := CountFindings(rs);
    var verdict := if hasFail then "FAIL" else if warnings > 0 then "PASS with advisory" else "PASS";
    var statuses := seq(|rs|, i requires 0 <= i < |rs| => StatusOf(rs[i]));
    var verdicts := seq(|rs|, i requires 0 <= i < |rs| => VerdictOf(rs[i]));
    SeveritiesPositive(rs, "FAIL");
    SeveritiesPositive(rs, "WARN");
    VerdictIsTheWorst(rs, verdicts);
    SomeFinding(rs, "FAIL");
    SomeFinding(rs, "WARN");
    forall i | 0 <= i < |rs| {
      StatusesInPlainTerms(rs[i]);
    }
    g := GateReport(
      Report(Some(runId), Some("audit_gate"), Some(generatedAt), Some(verdict), None,
             Some(SectionsOf(rs)), Some(ChecksOf(rs)), None, None, commit),
      statuses, verdicts,
      Summary(total, blocking, warnings + info, warnings, info, |rs|),
      if hasFail then 1 else 0);
  }

  /** A title's slug, character by character: lower case, with underscores for spaces and colons. */
  lemma SlugInPlainTerms(title: string, i: nat)
    requires i < |title|
    ensures |Slug(title)| == |title| && TitleKey(title) == Key(Slug(title), Some(title))
    ensures 'A' <= title[i] <= 'Z' ==>
              'a' <= Slug(title)[i] <= 'z' && Slug(title)[i] as int - 'a' as int == title[i] as int - 'A' as int
    ensures title[i] == ' ' || title[i] == ':' ==> Slug(title)[i] == '_'
    ensures !('A' <= title[i] <= 'Z') && title[i] != ' ' && title[i] != ':' ==> Slug(title)[i] == title[i]
  {}

  /** Both copies of a finding. */
  lemma CopiesInPlainTerms(rs: seq<CheckResult>, i: nat, j: nat)
    requires i < |rs| && j < |rs[i].findings|
    ensures |SectionsOf(rs)| == |ChecksOf(rs)| == |rs|
    ensures var s, c := SectionsOf(rs)[i], ChecksOf(rs)[i];
            && s.name == c.name == Some(rs[i].title)
            && s.findings.Some? && c.findings.Some? && |s.findings.value| == |c.findings.value| == |rs[i].findings|
            && var f := rs[i].findings[j];
               && c.findings.value[j] == Finding(None, None, Some(f.severity), None, None, Some(f.message))
               && s.findings.value[j].checkId == Some(Slug(rs[i].title))
               && s.findings.value[j].title == Some(f.message)
               && s.findings.value[j].severity
                  == Some(if f.severity == "FAIL" then "blocking:critical"
                          else if f.severity == "WARN" then "advisory:medium"
                          else if f.severity == "PASS" then "pass" else "info")
  {
    hide Slug;
  }

  /** The events of a gate report: one per finding in order, with the check's slug and title, the
      finding's message, and "critical" as the level of a failure. */
  lemma OneMoreCheck(rs: seq<CheckResult>, r: CheckResult)
    ensures EventsOfSections(SectionsOf([])) == []
    ensures var events, more := EventsOfSections(SectionsOf(rs)), EventsOfSections(SectionsOf(rs + [r]));
            && |events| <= |more| && more[..|events|] == events
            && var added := more[|events|..];
               && |added| == |r.findings|
               && forall i :: 0 <= i < |added| ==>
                    added[i] == Event(
                      Slug(r.title), Some(r.title),
                      if r.findings[i].severity == "FAIL" then "blocking"
                      else if r.findings[i].severity == "WARN" then "advisory"
                      else if r.findings[i].severity == "PASS" then "pass" else "info",
                      if r.findings[i].severity == "FAIL" then "critical"
                      else if r.findings[i].severity == "WARN" then "medium"
                      else if r.findings[i].severity == "PASS" then "pass" else "info",
                      r.findings[i].message)
  {
    hide NormalizeEvent, SectionFinding;
    assert SectionsOf(rs + [r]) == SectionsOf(rs) + [SectionOf(r)];
    var last := EventsOfSection(SectionOf(r));
    assert (SectionsOf(rs) + [SectionOf(r)])[..|rs|] == SectionsOf(rs);
    assert EventsOfSections(SectionsOf(rs + [r])) == EventsOfSections(SectionsOf(rs)) + last;
    forall i | 0 <= i < |r.findings|
      ensures last[i] == NormalizeEvent(SectionFinding(r.title, r.findings[i]), Some(r.title))
    {
      EventOfAFinding(r.title, r.findings[i]);
    }
    forall f ensures NormalizeEvent(SectionFinding(r.title, f), Some(r.title)) == GateEvent(r.title, f) {
      EventOfAFinding(r.title, f);
    }
  }

  /** The event a finding of the gate becomes. */
  function GateEvent(title: string, f: GateFinding): Event {
    if f.severity == "FAIL" then Event(Slug(title), Some(title), "blocking", "critical", f.message)
    else if f.severity == "WARN" then Event(Slug(title), Some(title), "advisory", "medium", f.message)
    else if f.severity == "PASS" then Event(Slug(title), Some(title), "pass", "pass", f.message)
    else Event(Slug(title), Some(title), "info", "info", f.message)
  }

  lemma EventOfAFinding(title: string, f: GateFinding)
    ensures NormalizeEvent(SectionFinding(title, f), Some(title)) == GateEvent(title, f)
  {
    hide SplitAtColon, ClassifySeverity, Slug;
    if f.severity == "FAIL" {
      SplitKnown("blocking:critical", "blocking", "critical");
      ClassifyWithColon("blocking:critical");
    } else if f.severity == "WARN" {
      SplitKnown("advisory:medium", "advisory", "medium");
      ClassifyWithColon("advisory:medium");
    } else if f.severity == "PASS" {
      SeverityMeans("pass");
    } else {
      SeverityMeans("info");
    }
  }

  /** What the summary counts. */
  lemma CountsInPlainTerms(rs: seq<CheckResult>, r: CheckResult, severity: string)
    ensures Severities([], severity) == 0 && TotalFindings([]) == 0
    ensures TotalFindings(rs + [r]) == TotalFindings(rs) + |r.findings|
    ensures Severities(rs + [r], severity)
         == Severities(rs, severity) + |set i | 0 <= i < |r.findings| && r.findings[i].severity == severity|
  {
    hide SeveritiesIn;
    assert (rs + [r])[..|rs|] == rs;
    SeveritiesAreTheIndices(r.findings, severity);
  }

  lemma {:induction false} SeveritiesAreTheIndices(fs: seq<GateFinding>, severity: string)
    ensures SeveritiesIn(fs, severity) == |set i | 0 <= i < |fs| && fs[i].severity == severity|
  {
    if fs != [] {
      SeveritiesAreTheIndices(fs[..|fs| - 1], severity);
      OneMoreFinding(fs[..|fs| - 1], fs, severity);
    }
  }

  lemma OneMoreFinding(before: seq<GateFinding>, fs: seq<GateFinding>, severity: string)
    requires fs != [] && before == fs[..|fs| - 1]
    ensures |set i | 0 <= i < |fs| && fs[i].severity == severity|
         == |set i | 0 <= i < |before| && before[i].severity == severity|
            + if fs[|fs| - 1].severity == severity then 1 else 0
  {
    var n := |fs| - 1;
    var earlier := set i | 0 <= i < |before| && before[i].severity == severity;
    assert (set i | 0 <= i < |fs| && fs[i].severity == severity)
        == earlier + if fs[n].severity == severity then {n} else {};
  }

  // ---------------------------------------------------------------- both encodings

  /** The classes of a list of events. */
  function Classes(events: seq<Event>): seq<string> {
    seq(|events|, i requires 0 <= i < |events| => events[i].cls)
  }

  /** The two encodings agree on this severity: it is none of the aliases that only the
      analyzer knows, and a class of its own can only be `info`. */
  predicate ReadAlike(severity: string) {
    && severity !in ["ERROR", "error", "WARNING", "warning", "pass"]
    && (':' in severity ==> SaysClass(severity, "info"))
  }

  lemma SplitKnown(raw: string, cls: string, level: string)
    requires raw == cls + ":" + level && ':' !in cls
    ensures ':' in raw && SplitAtColon(raw) == Severity(cls, level)
  {
    hide SplitAtColon;
    assert raw[|cls|] == ':';
    var s := SplitAtColon(raw);
    assert raw[|s.cls|] == ':' && raw[..|s.cls|] == s.cls && raw[..|cls|] == cls;
    FirstColon(raw, |s.cls|, |cls|);
    assert raw[|cls| + 1..] == level && raw[|s.cls| + 1..] == s.level;
  }

  lemma ClassifyWithColon(raw: string)
    requires ':' in raw
    ensures ClassifySeverity(raw) == SplitAtColon(raw)
  {}

  lemma ClassifyWithoutColon(raw: string)
    requires ':' !in raw
    ensures ClassifySeverity(raw).cls
         == if raw == "FAIL" || raw == "ERROR" || raw == "error" then "blocking"
            else if raw == "WARN" || raw == "WARNING" || raw == "warning" then "advisory"
            else if raw == "PASS" || raw == "pass" then "pass" else "info"
  {
    hide SplitAtColon;
  }

  /** The class of each severity as it comes out of `sections`. */
  lemma SectionClass(severity: string)
    ensures ClassifySeverity(SectionSeverity(severity)).cls
         == if severity == "FAIL" then "blocking"
            else if severity == "WARN" then "advisory"
            else if severity == "PASS" then "pass" else "info"
  {
    hide SplitAtColon, ClassifySeverity;
    if severity == "FAIL" {
      SplitKnown("blocking:critical", "blocking", "critical");
      ClassifyWithColon("blocking:critical");
    } else if severity == "WARN" {
      SplitKnown("advisory:medium", "advisory", "medium");
      ClassifyWithColon("advisory:medium");
    } else if severity == "PASS" {
      ClassifyWithoutColon("pass");
    } else {
      ClassifyWithoutColon("info");
    }
  }

  lemma EncodingsAgreeExactly(severity: string)
    ensures ClassifySeverity(SectionSeverity(severity)).cls == ClassifySeverity(severity).cls <==> ReadAlike(severity)
  {
    hide SplitAtColon, ClassifySeverity, SectionSeverity, SaysClass;
    SectionClass(severity);
    if ':' in severity {
      ColonClassExactly(severity, "info");
    } else {
      ClassifyWithoutColon(severity);
    }
  }

  lemma ConcatSplits<T>(a: seq<T>, b: seq<T>, c: seq<T>, d: seq<T>)
    requires |a| == |c|
    ensures a + b == c + d <==> a == c && b == d
  {
    if a + b == c + d {
      assert a == (a + b)[..|a|] && c == (c + d)[..|c|];
      assert b == (a + b)[|a|..] && d == (c + d)[|c|..];
    }
  }

  lemma ClassesConcat(a: seq<Event>, b: seq<Event>)
    ensures Classes(a + b) == Classes(a) + Classes(b)
  {}

  lemma OneCheckAgrees(r: CheckResult)
    ensures |EventsOfSection(SectionOf(r))| == |EventsOfSection(CheckOf(r))| == |r.findings|
    ensures Classes(EventsOfSection(SectionOf(r))) == Classes(EventsOfSection(CheckOf(r)))
            <==> forall f <- r.findings :: ReadAlike(f.severity)
  {
    hide ReadAlike, ClassifySeverity, SectionSeverity;
    var s, c := EventsOfSection(SectionOf(r)), EventsOfSection(CheckOf(r));
    forall i | 0 <= i < |r.findings| ensures Classes(s)[i] == Classes(c)[i] <==> ReadAlike(r.findings[i].severity) {
      EncodingsAgreeExactly(r.findings[i].severity);
    }
    if Classes(s) == Classes(c) {
      forall f | f in r.findings ensures ReadAlike(f.severity) {
        var i :| 0 <= i < |r.findings| && r.findings[i] == f;
        assert Classes(s)[i] == Classes(c)[i];
      }
    } else {
      var i :| 0 <= i < |Classes(s)| && Classes(s)[i] != Classes(c)[i];
      assert r.findings[i] in r.findings;
    }
  }

  /** Reading the printed `sections` and reading the legacy `checks` give the same sequence of
      severity classes exactly when the encodings agree on every finding's severity. */
  lemma {:induction false} TranslationAgreesExactly(rs: seq<CheckResult>)
    ensures |EventsOfSections(SectionsOf(rs))| == |EventsOfSections(ChecksOf(rs))|
    ensures Classes(EventsOfSections(SectionsOf(rs))) == Classes(EventsOfSections(ChecksOf(rs)))
            <==> forall r <- rs :: forall f <- r.findings :: ReadAlike(f.severity)
  {
    hide ReadAlike, EventsOfSection, SectionOf, CheckOf;
    if rs == [] {
      assert SectionsOf(rs) == [] && ChecksOf(rs) == [];
    } else {
      var n := |rs| - 1;
      var r := rs[n];
      TranslationAgreesExactly(rs[..n]);
      OneCheckAgrees(r);
      assert SectionsOf(rs)[..n] == SectionsOf(rs[..n]) && ChecksOf(rs)[..n] == ChecksOf(rs[..n]);
      var s, c := EventsOfSections(SectionsOf(rs[..n])), EventsOfSections(ChecksOf(rs[..n]));
      ClassesConcat(s, EventsOfSection(SectionOf(r)));
      ClassesConcat(c, EventsOfSection(CheckOf(r)));
      ConcatSplits(
        Classes(s), Classes(EventsOfSection(SectionOf(r))), Classes(c), Classes(EventsOfSection(CheckOf(r))));
      assert rs == rs[..n] + [r];
    }
  }

  /** The gate itself only writes these four. */
  predicate GateSeverity(severity: string) {
    severity in ["FAIL", "WARN", "INFO", "PASS"]
  }

  /** For the gate's own severities both copies of the report carry the same classes. */
  lemma GateReportsReadAlike(rs: seq<CheckResult>)
    requires forall r <- rs :: forall f <- r.findings :: GateSeverity(f.severity)
    ensures Classes(EventsOfSections(SectionsOf(rs))) == Classes(EventsOfSections(ChecksOf(rs)))
  {
    TranslationAgreesExactly(rs);
    forall r, f | r in rs && f in r.findings ensures ReadAlike(f.severity) {
      GateSeveritiesReadAlike(f.severity);
    }
  }

  lemma GateSeveritiesReadAlike(severity: string)
    requires GateSeverity(severity)
    ensures ReadAlike(severity)
  {}

  // ---------------------------------------------------------------- summary and verdict

  ghost function ClassCount(events: seq<Event>, cls: string): nat {
    if events == [] then 0
    else ClassCount(events[..|events| - 1], cls) + if events[|events| - 1].cls == cls then 1 else 0
  }

  lemma ClassCountInPlainTerms(events: seq<Event>, e: Event, cls: string)
    ensures ClassCount([], cls) == 0
    ensures ClassCount(events + [e], cls) == ClassCount(events, cls) + if e.cls == cls then 1 else 0
  {
    assert (events + [e])[..|events|] == events;
  }

  lemma {:induction false} ClassCountConcat(a: seq<Event>, b: seq<Event>, cls: string)
    ensures ClassCount(a + b, cls) == ClassCount(a, cls) + ClassCount(b, cls)
    decreases |b|
  {
    if b == [] {
      assert a + b == a;
    } else {
      ClassCountConcat(a, b[..|b| - 1], cls);
      assert (a + b)[..|a + b| - 1] == a + b[..|b| - 1];
    }
  }

  /** The findings the sections map to `info` although the summary does not count them. */
  ghost function Unlisted(fs: seq<GateFinding>): nat {
    if fs == [] then 0 else Unlisted(fs[..|fs| - 1]) + if GateSeverity(fs[|fs| - 1].severity) then 0 else 1
  }

  lemma UnlistedInPlainTerms(fs: seq<GateFinding>, f: GateFinding)
    ensures Unlisted([]) == 0
    ensures Unlisted(fs + [f]) == Unlisted(fs) + if f.severity in ["FAIL", "WARN", "INFO", "PASS"] then 0 else 1
  {
    assert (fs + [f])[..|fs|] == fs;
  }

  lemma {:induction false} OneCheckCounts(title: string, fs: seq<GateFinding>)
    ensures var events := EventsOfSection(SectionOf(CheckResult(title, fs)));
            && ClassCount(events, "blocking") == SeveritiesIn(fs, "FAIL")
            && ClassCount(events, "advisory") == SeveritiesIn(fs, "WARN")
            && ClassCount(events, "pass") == SeveritiesIn(fs, "PASS")
            && ClassCount(events, "info") == SeveritiesIn(fs, "INFO") + Unlisted(fs)
  {
    hide NormalizeEvent, SectionFinding, GateSeverity;
    var events := EventsOfSection(SectionOf(CheckResult(title, fs)));
    if fs != [] {
      var n := |fs| - 1;
      OneCheckCounts(title, fs[..n]);
      assert events[..n] == EventsOfSection(SectionOf(CheckResult(title, fs[..n])));
      EventClass(title, fs[n]);
    }
  }

  lemma EventClass(title: string, f: GateFinding)
    ensures NormalizeEvent(SectionFinding(title, f), Some(title)).cls
         == if f.severity == "FAIL" then "blocking"
            else if f.severity == "WARN" then "advisory"
            else if f.severity == "PASS" then "pass" else "info"
    ensures GateSeverity(f.severity)
            <==> f.severity == "FAIL" || f.severity == "WARN" || f.severity == "PASS" || f.severity == "INFO"
  {
    SectionClass(f.severity);
  }

  /** The classes read from `sections` are those of the printed summary; the advisory class is
      the summary's warnings, and the info class also holds what the summary leaves uncounted. */
  lemma {:induction false} SummaryCountsTheEvents(rs: seq<CheckResult>)
    ensures var events := EventsOfSections(SectionsOf(rs));
            && ClassCount(events, "blocking") == Severities(rs, "FAIL")
            && ClassCount(events, "advisory") == Severities(rs, "WARN")
            && ClassCount(events, "pass") == Severities(rs, "PASS")
            && ClassCount(events, "info") >= Severities(rs, "INFO")
            && (ClassCount(events, "info") == Severities(rs, "INFO")
                <==> forall r <- rs :: Unlisted(r.findings) == 0)
  {
    hide EventsOfSection, SectionOf, Unlisted;
    if rs == [] {
      assert SectionsOf(rs) == [];
    } else {
      var n := |rs| - 1;
      var r := rs[n];
      SummaryCountsTheEvents(rs[..n]);
      OneCheckCounts(r.title, r.findings);
      assert r == CheckResult(r.title, r.findings);
      assert SectionsOf(rs)[..n] == SectionsOf(rs[..n]);
      var before, last := EventsOfSections(SectionsOf(rs[..n])), EventsOfSection(SectionOf(r));
      ClassCountConcat(before, last, "blocking");
      ClassCountConcat(before, last, "advisory");
      ClassCountConcat(before, last, "pass");
      ClassCountConcat(before, last, "info");
      assert rs == rs[..n] + [r];
    }
  }

  lemma {:induction false} ClassCountPositive(events: seq<Event>, cls: string)
    ensures ClassCount(events, cls) > 0 <==> exists e <- events :: e.cls == cls
  {
    if events != [] {
      ClassCountPositive(events[..|events| - 1], cls);
      assert events == events[..|events| - 1] + [events[|events| - 1]];
    }
  }

  /** The verdict is FAIL exactly when the analyzer finds a blocking event in the report. */
  lemma FailExactlyWithABlockingEvent(rs: seq<CheckResult>)
    ensures Severities(rs, "FAIL") > 0 <==> exists e <- EventsOfSections(SectionsOf(rs)) :: Blocking(e)
  {
    SummaryCountsTheEvents(rs);
    ClassCountPositive(EventsOfSections(SectionsOf(rs)), "blocking");
  }

  // ---------------------------------------------------------------- what a diff sees

  /** The last finding among all checks of a title. */
  ghost function LastFinding(rs: seq<CheckResult>, title: string): Option<GateFinding> {
    if rs == [] then None
    else
      var r := rs[|rs| - 1];
      if r.title == title && r.findings != [] then Some(r.findings[|r.findings| - 1])
      else LastFinding(rs[..|rs| - 1], title)
  }

  lemma LastFindingInPlainTerms(rs: seq<CheckResult>, r: CheckResult, title: string)
    ensures LastFinding([], title) == None
    ensures LastFinding(rs + [r], title)
         == if r.title == title && r.findings != [] then Some(r.findings[|r.findings| - 1]) else LastFinding(rs, title)
  {
    assert (rs + [r])[..|rs|] == rs;
  }

  function TitleKey(title: string): Key {
    Key(Slug(title), Some(title))
  }

  lemma {:induction false} ByKeyConcat(a: seq<Event>, b: seq<Event>)
    ensures ByKey(a + b) == ByKey(a) + ByKey(b)
    decreases |b|
  {
    if b == [] {
      assert a + b == a;
    } else {
      ByKeyConcat(a, b[..|b| - 1]);
      assert (a + b)[..|a + b| - 1] == a + b[..|b| - 1];
    }
  }

  lemma {:induction false} OneCheckKeyed(title: string, fs: seq<GateFinding>)
    ensures ByKey(EventsOfSection(SectionOf(CheckResult(title, fs))))
         == if fs == [] then map[]
            else map[TitleKey(title) := NormalizeEvent(SectionFinding(title, fs[|fs| - 1]), Some(title))]
  {
    hide NormalizeEvent, Slug;
    var events := EventsOfSection(SectionOf(CheckResult(title, fs)));
    if fs != [] {
      var n := |fs| - 1;
      OneCheckKeyed(title, fs[..n]);
      assert events[..n] == EventsOfSection(SectionOf(CheckResult(title, fs[..n])));
      KeyOfSectionFinding(title, fs[n]);
    }
  }

  lemma KeyOfSectionFinding(title: string, f: GateFinding)
    ensures KeyOf(NormalizeEvent(SectionFinding(title, f), Some(title))) == TitleKey(title)
  {
    hide ClassifySeverity, Slug;
  }

  /** All findings of a check share one key, so the keyed report holds one entry per title with
      findings: the last one. */
  lemma {:induction false} KeyedReportIsTheLastFindings(rs: seq<CheckResult>, title: string)
    ensures var m := ByKey(EventsOfSections(SectionsOf(rs)));
            && (TitleKey(title) in m <==> LastFinding(rs, title).Some?)
            && (TitleKey(title) in m ==>
                  m[TitleKey(title)]
                  == NormalizeEvent(SectionFinding(title, LastFinding(rs, title).value), Some(title)))
            && forall k <- m :: exists r <- rs :: k == TitleKey(r.title)
  {
    hide NormalizeEvent, SectionFinding, SectionOf, EventsOfSection, Slug;
    if rs == [] {
      assert SectionsOf(rs) == [];
    } else {
      var n := |rs| - 1;
      var r := rs[n];
      KeyedReportIsTheLastFindings(rs[..n], title);
      assert SectionsOf(rs)[..n] == SectionsOf(rs[..n]);
      ByKeyConcat(EventsOfSections(SectionsOf(rs[..n])), EventsOfSection(SectionOf(r)));
      OneCheckKeyed(r.title, r.findings);
      assert r == CheckResult(r.title, r.findings);
      assert rs == rs[..n] + [r];
      assert TitleKey(r.title) == TitleKey(title) <==> r.title == title;
    }
  }

  lemma EventIsBlocking(title: string, f: GateFinding)
    ensures Blocking(NormalizeEvent(SectionFinding(title, f), Some(title))) <==> f.severity == "FAIL"
  {
    EventClass(title, f);
  }

  /** The keys a diff takes for blocking are the titles whose last finding failed, however many
      findings failed before it. */
  lemma DiffSeesOnlyLastFindings(rs: seq<CheckResult>)
    ensures forall title :: TitleKey(title) in BlockingKeys(ByKey(EventsOfSections(SectionsOf(rs))))
                            <==> LastFinding(rs, title).Some? && LastFinding(rs, title).value.severity == "FAIL"
    ensures BlockingKeys(ByKey(EventsOfSections(SectionsOf(rs)))) == {}
            <==> forall r <- rs :: LastFinding(rs, r.title).Some? ==> LastFinding(rs, r.title).value.severity != "FAIL"
  {
    hide NormalizeEvent, SectionFinding, LastFinding, ByKey, EventsOfSections, SectionsOf, Slug;
    var m := ByKey(EventsOfSections(SectionsOf(rs)));
    forall title
      ensures TitleKey(title) in BlockingKeys(m)
              <==> LastFinding(rs, title).Some? && LastFinding(rs, title).value.severity == "FAIL"
    {
      KeyedReportIsTheLastFindings(rs, title);
      if LastFinding(rs, title).Some? { EventIsBlocking(title, LastFinding(rs, title).value); }
    }
    if k :| k in BlockingKeys(m) {
      KeyedReportIsTheLastFindings(rs, "");
      var r :| r in rs && k == TitleKey(r.title);
    }
    if r :| r in rs && LastFinding(rs, r.title).Some? && LastFinding(rs, r.title).value.severity == "FAIL" {
      assert TitleKey(r.title) in BlockingKeys(m);
    }
  }

  /** The title's last finding failed. */
  ghost predicate FailedLast(rs: seq<CheckResult>, title: string) {
    LastFinding(rs, title).Some? && LastFinding(rs, title).value.severity == "FAIL"
  }

  /** Between two gate reports the diff shows no regression exactly when every title whose last
      finding fails now failed last before as well, or had no finding before. */
  lemma GateRegressionsExactly(before: seq<CheckResult>, after: seq<CheckResult>, d: Diff)
    requires IsDiff(d, ByKey(EventsOfSections(SectionsOf(before))), ByKey(EventsOfSections(SectionsOf(after))))
    ensures d.regressions == []
            <==> forall r <- after :: FailedLast(after, r.title) ==>
                   FailedLast(before, r.title) || LastFinding(before, r.title).None?
  {
    hide ByKey, EventsOfSections, SectionsOf, LastFinding, IsDiff, BlockingKeys;
    hide NormalizeEvent, SectionFinding, TitleKey;
    var b, a := ByKey(EventsOfSections(SectionsOf(before))), ByKey(EventsOfSections(SectionsOf(after)));
    NoRegressionExactly(d, b, a);
    DiffSeesOnlyLastFindings(before);
    DiffSeesOnlyLastFindings(after);
    BlockingKeysAreKeys(a);
    forall title ensures TitleKey(title) in b <==> LastFinding(before, title).Some? {
      KeyedReportIsTheLastFindings(before, title);
    }
    forall k | k in BlockingKeys(a) ensures exists r <- after :: k == TitleKey(r.title) {
      KeyedReportIsTheLastFindings(after, "");
    }
  }

  lemma BlockingKeysAreKeys(m: Keyed)
    ensures BlockingKeys(m) <= m.Keys
  {}

  /** A failing report that no diff can tell from a clean one. */
  lemma HiddenFailure()
    ensures var rs := [CheckResult("P", [GateFinding("FAIL", ""), GateFinding("PASS", "")])];
            Severities(rs, "FAIL") > 0 && BlockingKeys(ByKey(EventsOfSections(SectionsOf(rs)))) == {}
  {
    var fs := [GateFinding("FAIL", ""), GateFinding("PASS", "")];
    var rs := [CheckResult("P", fs)];
    DiffSeesOnlyLastFindings(rs);
    SeveritiesInPositive(fs, "FAIL");
    assert fs[0] in fs;
    assert rs[..0] == [];
    assert LastFinding(rs, "P") == Some(fs[1]);
  }
}
