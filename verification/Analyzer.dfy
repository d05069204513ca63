/** The event model and the regression diff of ci/artifact_analyzer.py. */
module Analyzer {
  import opened Wrappers

  // ---------------------------------------------------------------- reports and events

  /** A finding of any runner: each key of the JSON object may be absent. */
  datatype Finding = Finding(
    checkId: Option<string>, name: Option<string>, severity: Option<string>, level: Option<string>,
    title: Option<string>, message: Option<string>)

  /** An entry of `sections` or `checks`. */
  datatype Section = Section(name: Option<string>, findings: Option<seq<Finding>>)

  datatype CoverageItem = CoverageItem(key: Option<string>, present: bool)

  datatype Report = Report(
    runId: Option<string>, runner: Option<string>, generatedAt: Option<string>, verdict: Option<string>,
    status: Option<string>, sections: Option<seq<Section>>, checks: Option<seq<Section>>,
    findings: Option<seq<Finding>>, coverage: Option<seq<CoverageItem>>, commit: Option<string>)

  datatype Event = Event(checkId: string, section: Option<string>, cls: string, level: string, title: string)

  function Default<T>(o: Option<T>, other: T): T {
    if o.Some? then o.value else other
  }

  /** `dict.get(a, dict.get(b, default))`. */
  function Either(a: Option<string>, b: Option<string>, other: string): string {
    Default(a, Default(b, other))
  }

  datatype Severity = Severity(cls: string, level: string)

  /** `str.split(':', 1)` at the first colon. */
  function SplitAtColon(raw: string): (s: Severity)
    requires ':' in raw
    ensures raw == s.cls + ":" + s.level && ':' !in s.cls
  {
    if raw[0] == ':' then Severity("", raw[1..])
    else
      var rest := SplitAtColon(raw[1..]);
      Severity([raw[0]] + rest.cls, rest.level)
  }

  /** The class and level of a raw severity, in either encoding. */
  function ClassifySeverity(raw: string): (s: Severity)
    ensures ':' !in s.cls && (':' in raw ==> raw == s.cls + ":" + s.level)
  {
    if ':' in raw then SplitAtColon(raw)
    else if raw in ["FAIL", "ERROR", "error"] then Severity("blocking", "high")
    else if raw in ["WARN", "WARNING", "warning"] then Severity("advisory", "medium")
    else if raw in ["PASS", "pass"] then Severity("pass", "pass")
    else Severity("info", "info")
  }

  /** The text starts with the class and a colon. */
  predicate SaysClass(text: string, cls: string) {
    |text| > |cls| && text[..|cls|] == cls && text[|cls|] == ':'
  }

  lemma FirstColon(s: string, i: nat, j: nat)
    requires i < |s| && j < |s| && s[i] == ':' == s[j] && ':' !in s[..i] && ':' !in s[..j]
    ensures i == j
  {}

  /** A severity with a colon has exactly the class it spells before the first one. */
  lemma ColonClassExactly(raw: string, cls: string)
    requires ':' in raw && ':' !in cls
    ensures ClassifySeverity(raw).cls == cls <==> SaysClass(raw, cls)
  {
    hide SplitAtColon;
    var s := ClassifySeverity(raw);
    assert raw[..|s.cls|] == s.cls && raw[|s.cls|] == ':';
    if SaysClass(raw, cls) { FirstColon(raw, |s.cls|, |cls|); }
  }

  /** What each severity means, in either encoding: the class it spells, or that of its alias, and
      anything else is information. */
  lemma SeverityMeans(raw: string)
    ensures var s := ClassifySeverity(raw);
            && (s.cls == "blocking" <==> raw in ["FAIL", "ERROR", "error"] || SaysClass(raw, "blocking"))
            && (s.cls == "advisory" <==> raw in ["WARN", "WARNING", "warning"] || SaysClass(raw, "advisory"))
            && (s.cls == "pass" <==> raw in ["PASS", "pass"] || SaysClass(raw, "pass"))
            && (':' in raw ==> raw == s.cls + ":" + s.level)
            && (':' !in raw ==> s.cls in {"blocking", "advisory", "pass", "info"})
            && (':' !in raw ==>
                  s.level == if s.cls == "blocking" then "high" else if s.cls == "advisory" then "medium" else s.cls)
  {
    hide SplitAtColon, SaysClass;
    if ':' in raw {
      ColonClassExactly(raw, "blocking");
      ColonClassExactly(raw, "advisory");
      ColonClassExactly(raw, "pass");
    } else {
      NothingSaid(raw);
    }
  }

  lemma NothingSaid(raw: string)
    requires ':' !in raw
    ensures forall cls :: !SaysClass(raw, cls)
  {}

  function NormalizeEvent(f: Finding, section: Option<string>): Event {
    var s := ClassifySeverity(Either(f.severity, f.level, "info"));
    Event(Either(f.checkId, f.name, ""), section, s.cls, s.level, Either(f.title, f.message, ""))
  }

  function CoverageEvent(item: CoverageItem): Event {
    var key := Default(item.key, "");
    NormalizeEvent(
      Finding(Some(key), None, Some(if item.present then "PASS" else "FAIL"), None,
              Some(key + " " + if item.present then "present" else "missing"), None),
      None)
  }

  function EventsOfFindings(fs: seq<Finding>, section: Option<string>): seq<Event> {
    seq(|fs|, i requires 0 <= i < |fs| => NormalizeEvent(fs[i], section))
  }

  function EventsOfSection(s: Section): seq<Event> {
    EventsOfFindings(Default(s.findings, []), Some(Default(s.name, "")))
  }

  function EventsOfSections(ss: seq<Section>): seq<Event> {
    if ss == [] then [] else EventsOfSections(ss[..|ss| - 1]) + EventsOfSection(ss[|ss| - 1])
  }

  /** The events of a report: the first of the four layouts that is present decides. */
  function EventsOf(r: Report): seq<Event> {
    if r.sections.Some? then EventsOfSections(r.sections.value)
    else if r.checks.Some? then EventsOfSections(r.checks.value)
    else if r.findings.Some? then EventsOfFindings(r.findings.value, None)
    else if r.coverage.Some? then
      seq(|r.coverage.value|, i requires 0 <= i < |r.coverage.value| => CoverageEvent(r.coverage.value[i]))
    else []
  }

  method AppendSections(ss: seq<Section>) returns (events: seq<Event>)
    ensures events == EventsOfSections(ss)
  {
    events := [];
    for i := 0 to |ss|
      invariant events == EventsOfSections(ss[..i])
    {
      assert ss[..i + 1][..i] == ss[..i];
      ghost var before := events;
      var findings, name := Default(ss[i].findings, []), Default(ss[i].name, "");
      for j := 0 to |findings|
        invariant events == before + EventsOfFindings(findings[..j], Some(name))
      {
        events := events + [NormalizeEvent(findings[j], Some(name))];
      }
      assert findings[..|findings|] == findings;
    }
    assert ss[..|ss|] == ss;
  }

  method ExtractEvents(r: Report) returns (events: seq<Event>)
    ensures events == EventsOf(r)
  {
    events := [];
    if r.sections.Some? {
      events := AppendSections(r.sections.value);
    } else if r.checks.Some? {
      events := AppendSections(r.checks.value);
    } else if r.findings.Some? {
      var findings := r.findings.value;
      for i := 0 to |findings|
        invariant events == EventsOfFindings(findings[..i], None)
      {
        events := events + [NormalizeEvent(findings[i], None)];
      }
      assert findings[..|findings|] == findings;
    } else if r.coverage.Some? {
      var items := r.coverage.value;
      for i := 0 to |items|
        invariant events == seq(i, k requires 0 <= k < i => CoverageEvent(items[k]))
      {
        events := events + [CoverageEvent(items[i])];
      }
    }
  }

  // ---------------------------------------------------------------- what is extracted

  /** An event, field by field: the check id before the name, the title before the message, the
      severity before the level, and what is missing is empty or "info". */
  lemma EventInPlainTerms(f: Finding, section: Option<string>)
    ensures var e := NormalizeEvent(f, section);
            && e.section == section
            && (f.checkId.Some? ==> e.checkId == f.checkId.value)
            && (f.checkId.None? && f.name.Some? ==> e.checkId == f.name.value)
            && (f.checkId.None? && f.name.None? ==> e.checkId == "")
            && (f.title.Some? ==> e.title == f.title.value)
            && (f.title.None? && f.message.Some? ==> e.title == f.message.value)
            && (f.title.None? && f.message.None? ==> e.title == "")
            && (f.severity.Some? ==> Severity(e.cls, e.level) == ClassifySeverity(f.severity.value))
            && (f.severity.None? && f.level.Some? ==> Severity(e.cls, e.level) == ClassifySeverity(f.level.value))
            && (f.severity.None? && f.level.None? ==> e.cls == "info" && e.level == "info")
  {
    hide ClassifySeverity;
    SeverityMeans("info");
  }

  /** Which layout decides: `sections` whatever else the report holds, then `checks`, then
      `findings`, then `coverage`. */
  lemma FirstLayoutDecides(r: Report)
    ensures r.sections.Some? ==> EventsOf(r) == EventsOf(r.(checks := None, findings := None, coverage := None))
    ensures r.sections.None? && r.checks.Some? ==> EventsOf(r) == EventsOf(r.(findings := None, coverage := None))
    ensures r.sections.None? && r.checks.None? && r.findings.Some? ==>
              EventsOf(r) == EventsOf(r.(coverage := None))
    ensures r.checks.Some? ==>
              EventsOf(r.(sections := None)) == EventsOf(r.(sections := r.checks, checks := None))
    ensures r.sections.None? && r.checks.None? && r.findings.None? && r.coverage.None? ==> EventsOf(r) == []
  {}

  /** The events of a sectioned report: those of each section in order, under its name. */
  lemma SectionsInPlainTerms(r: Report, ss: seq<Section>, s: Section)
    ensures EventsOf(r.(sections := Some([]))) == []
    ensures var before, events := EventsOf(r.(sections := Some(ss))), EventsOf(r.(sections := Some(ss + [s])));
            var name := if s.name.Some? then s.name.value else "";
            && (s.findings.None? ==> events == before)
            && (s.findings.Some? ==>
                  && |events| == |before| + |s.findings.value| && events[..|before|] == before
                  && forall i :: 0 <= i < |s.findings.value| ==>
                       events[|before| + i] == NormalizeEvent(s.findings.value[i], Some(name)))
  {
    assert (ss + [s])[..|ss|] == ss;
  }

  /** The events of the two flat layouts have no section. A present coverage item is a pass, an
      absent one blocks. */
  lemma FlatLayoutsInPlainTerms(r: Report)
    requires r.sections.None? && r.checks.None?
    ensures r.findings.Some? ==>
              && |EventsOf(r)| == |r.findings.value|
              && forall i :: 0 <= i < |r.findings.value| ==> EventsOf(r)[i] == NormalizeEvent(r.findings.value[i], None)
    ensures r.findings.None? && r.coverage.Some? ==>
              && |EventsOf(r)| == |r.coverage.value|
              && forall i :: 0 <= i < |r.coverage.value| ==>
                   var item, e := r.coverage.value[i], EventsOf(r)[i];
                   && e.section == None
                   && e.checkId == (if item.key.Some? then item.key.value else "")
                   && e.cls == (if item.present then "pass" else "blocking")
                   && e.level == (if item.present then "pass" else "high")
                   && e.title == e.checkId + (if item.present then " present" else " missing")
  {
    hide NormalizeEvent;
    if r.findings.None? && r.coverage.Some? {
      forall i | 0 <= i < |r.coverage.value| ensures EventsOf(r)[i] == CoverageEvent(r.coverage.value[i]) {}
      forall item: CoverageItem
        ensures var key := Default(item.key, "");
                CoverageEvent(item) == if item.present then Event(key, None, "pass", "pass", key + " present")
                                       else Event(key, None, "blocking", "high", key + " missing")
      {
        CoverageMeans(item);
      }
    }
  }

  lemma CoverageMeans(item: CoverageItem)
    ensures var key := Default(item.key, "");
            CoverageEvent(item) == if item.present then Event(key, None, "pass", "pass", key + " present")
                                   else Event(key, None, "blocking", "high", key + " missing")
  {
    var key := Default(item.key, "");
    if item.present {
      assert key + " " + "present" == key + " present";
    } else {
      assert key + " " + "missing" == key + " missing";
    }
  }

  lemma {:induction false} SectionClassesHaveNoColon(ss: seq<Section>)
    ensures forall e <- EventsOfSections(ss) :: ':' !in e.cls
  {
    if ss != [] { SectionClassesHaveNoColon(ss[..|ss| - 1]); }
  }

  lemma ClassesHaveNoColon(r: Report)
    ensures forall e <- EventsOf(r) :: ':' !in e.cls
  {
    if r.sections.Some? { SectionClassesHaveNoColon(r.sections.value); }
    if r.checks.Some? { SectionClassesHaveNoColon(r.checks.value); }
  }

  // ---------------------------------------------------------------- keyed events

  datatype Key = Key(checkId: string, section: Option<string>)

  type Keyed = map<Key, Event>

  function KeyOf(e: Event): Key {
    Key(e.checkId, e.section)
  }

  /** The dictionary comprehension: a later event replaces an earlier one of its key. */
  function ByKey(events: seq<Event>): Keyed {
    if events == [] then map[]
    else
      var e := events[|events| - 1];
      ByKey(events[..|events| - 1])[KeyOf(e) := e]
  }

  /** A later event replaces an earlier one with its check id and section. */
  lemma KeysInPlainTerms(events: seq<Event>, e: Event)
    ensures ByKey([]) == map[]
    ensures ByKey(events + [e]) == ByKey(events)[Key(e.checkId, e.section) := e]
  {
    assert (events + [e])[..|events|] == events;
  }

  /** Only the last event of each key survives. */
  lemma {:induction false} LastEventWins(events: seq<Event>, k: Key)
    ensures k in ByKey(events) <==> exists i :: 0 <= i < |events| && KeyOf(events[i]) == k
    ensures k in ByKey(events) ==>
              exists i :: 0 <= i < |events| && KeyOf(events[i]) == k && ByKey(events)[k] == events[i]
                          && forall j :: i < j < |events| ==> KeyOf(events[j]) != k
  {
    if events != [] {
      var n := |events| - 1;
      LastEventWins(events[..n], k);
      if KeyOf(events[n]) == k {
      } else if k in ByKey(events[..n]) {
        var i :| 0 <= i < n && KeyOf(events[..n][i]) == k && ByKey(events[..n])[k] == events[..n][i]
                 && forall j :: i < j < n ==> KeyOf(events[..n][j]) != k;
        assert KeyOf(events[i]) == k;
        forall j | i < j < |events| ensures KeyOf(events[j]) != k {
          if j < n { assert events[..n][j] == events[j]; }
        }
      } else {
        forall i | 0 <= i < |events| ensures KeyOf(events[i]) != k {
          if i < n { assert events[..n][i] == events[i]; }
        }
      }
    }
  }

  // ---------------------------------------------------------------- order on keys

  /** Python's order on strings: by code point, a prefix first. */
  predicate TextLess(s: string, t: string) {
    if t == "" then false
    else if s == "" then true
    else s[0] < t[0] || (s[0] == t[0] && TextLess(s[1..], t[1..]))
  }

  lemma {:induction false} TextOrder(s: string, t: string)
    ensures !TextLess(s, s)
    ensures s == t || TextLess(s, t) || TextLess(t, s)
    ensures !(TextLess(s, t) && TextLess(t, s))
  {
    if s != "" {
      TextOrder(s[1..], if t == "" then "" else t[1..]);
      if t != "" { assert s == [s[0]] + s[1..] && t == [t[0]] + t[1..]; }
    }
  }

  /** One text is before another exactly when it is a proper beginning of it or smaller where they
      first differ. */
  lemma {:induction false} TextLessMeans(s: string, t: string)
    ensures TextLess(s, t)
            <==> s < t || exists i :: 0 <= i < |s| && i < |t| && s[..i] == t[..i] && s[i] < t[i]
  {
    if s != "" && t != "" {
      TextLessMeans(s[1..], t[1..]);
      if s[0] == t[0] {
        assert s < t <==> s[1..] < t[1..];
        if i :| 0 <= i < |s| && i < |t| && s[..i] == t[..i] && s[i] < t[i] {
          assert i > 0;
          assert s[1..][..i - 1] == s[..i][1..] && t[1..][..i - 1] == t[..i][1..];
          assert s[1..][i - 1] == s[i] && t[1..][i - 1] == t[i];
        }
        if i :| 0 <= i < |s[1..]| && i < |t[1..]| && s[1..][..i] == t[1..][..i] && s[1..][i] < t[1..][i] {
          assert s[..i + 1] == [s[0]] + s[1..][..i] && t[..i + 1] == [t[0]] + t[1..][..i];
          assert s[i + 1] < t[i + 1];
        }
      } else {
        assert s[..0] == t[..0];
        forall i | 0 < i < |s| && i < |t| ensures s[..i] != t[..i] {
          assert s[..i][0] == s[0] && t[..i][0] == t[0];
        }
      }
    }
  }

  lemma {:induction false} TextTransitive(s: string, t: string, u: string)
    requires TextLess(s, t) && TextLess(t, u)
    ensures TextLess(s, u)
  {
    if s != "" && t != "" && u != "" {
      if s[0] == t[0] == u[0] { TextTransitive(s[1..], t[1..], u[1..]); }
    }
  }

  function SectionText(k: Key): string {
    Default(k.section, "")
  }

  /** Tuple order. A missing section and a named one do not compare; the order below places the
      missing one first, and the diff refuses the keys when that choice would matter. */
  predicate KeyLess(a: Key, b: Key) {
    TextLess(a.checkId, b.checkId)
    || (a.checkId == b.checkId
        && ((a.section.None? && b.section.Some?)
            || (a.section.Some? && b.section.Some? && TextLess(a.section.value, b.section.value))))
  }

  /** Keys compare by check id, and within one check by section. */
  lemma KeysCompareInPlainTerms(a: Key, b: Key)
    ensures a.checkId != b.checkId ==> (KeyLess(a, b) <==> TextLess(a.checkId, b.checkId))
    ensures a.checkId == b.checkId && a.section.Some? && b.section.Some? ==>
              (KeyLess(a, b) <==> TextLess(a.section.value, b.section.value))
  {
    TextOrder(a.checkId, b.checkId);
  }

  lemma KeyOrder(a: Key, b: Key)
    ensures !KeyLess(a, a)
    ensures a == b || KeyLess(a, b) || KeyLess(b, a)
    ensures !(KeyLess(a, b) && KeyLess(b, a))
  {
    TextOrder(a.checkId, b.checkId);
    TextOrder(SectionText(a), SectionText(b));
  }

  lemma KeyTransitive(a: Key, b: Key, c: Key)
    requires KeyLess(a, b) && KeyLess(b, c)
    ensures KeyLess(a, c)
  {
    if TextLess(a.checkId, b.checkId) && TextLess(b.checkId, c.checkId) {
      TextTransitive(a.checkId, b.checkId, c.checkId);
    }
    if a.section.Some? && b.section.Some? && c.section.Some?
       && TextLess(a.section.value, b.section.value) && TextLess(b.section.value, c.section.value) {
      TextTransitive(a.section.value, b.section.value, c.section.value);
    }
  }

  ghost predicate StrictlySorted(ks: seq<Key>) {
    forall i, j :: 0 <= i < j < |ks| ==> KeyLess(ks[i], ks[j])
  }

  ghost predicate Arranges(ks: seq<Key>, keys: set<Key>) {
    StrictlySorted(ks) && (forall k :: k in ks <==> k in keys)
  }

  /** There is only one sorted arrangement of a set of keys. */
  lemma {:induction false} ArrangementIsUnique(a: seq<Key>, b: seq<Key>, keys: set<Key>)
    requires Arranges(a, keys) && Arranges(b, keys)
    ensures a == b
    decreases |a|
  {
    ArrangementLength(a, keys);
    ArrangementLength(b, keys);
    if a != [] {
      assert a[0] in a && a[0] in b;
      assert b[0] in b && b[0] in a;
      var i :| 0 <= i < |b| && b[i] == a[0];
      var j :| 0 <= j < |a| && a[j] == b[0];
      KeyOrder(a[0], b[0]);
      assert a[0] == b[0];
      TailArranges(a, keys);
      TailArranges(b, keys);
      ArrangementIsUnique(a[1..], b[1..], keys - {a[0]});
      assert a == [a[0]] + a[1..] && b == [b[0]] + b[1..];
    }
  }

  lemma TailArranges(a: seq<Key>, keys: set<Key>)
    requires a != [] && Arranges(a, keys)
    ensures Arranges(a[1..], keys - {a[0]})
  {
    assert a == [a[0]] + a[1..];
    forall k ensures k in a[1..] <==> k in keys - {a[0]} {
      KeyOrder(a[0], a[0]);
      if k in a[1..] {
        var i :| 0 <= i < |a[1..]| && a[1..][i] == k;
        assert KeyLess(a[0], a[i + 1]);
      }
      if k in keys && k != a[0] { assert k in a; }
    }
  }

  lemma {:induction false} ArrangementLength(a: seq<Key>, keys: set<Key>)
    requires Arranges(a, keys)
    ensures |a| == |keys|
    decreases |a|
  {
    if a == [] {
      assert keys == {};
    } else {
      TailArranges(a, keys);
      assert a[0] in a;
      ArrangementLength(a[1..], keys - {a[0]});
    }
  }

  lemma {:induction false} LeastKey(keys: set<Key>) returns (m: Key)
    requires keys != {}
    ensures m in keys && forall k <- keys :: k == m || KeyLess(m, k)
    decreases |keys|
  {
    var x :| x in keys;
    if keys == {x} {
      m := x;
    } else {
      assert keys - {x} != {};
      var y := LeastKey(keys - {x});
      KeyOrder(x, y);
      m := if KeyLess(x, y) then x else y;
      forall k | k in keys ensures k == m || KeyLess(m, k) {
        if k != x && KeyLess(x, y) && k != y { KeyTransitive(x, y, k); }
      }
    }
  }

  lemma SortedAppend(ks: seq<Key>, m: Key)
    requires StrictlySorted(ks) && forall k <- ks :: KeyLess(k, m)
    ensures StrictlySorted(ks + [m])
  {
    forall i, j | 0 <= i < j < |ks + [m]| ensures KeyLess((ks + [m])[i], (ks + [m])[j]) {
      assert ks[i] in ks;
    }
  }

  /** `sorted`. */
  method Sorted(keys: set<Key>) returns (ks: seq<Key>)
    ensures Arranges(ks, keys)
  {
    ks := [];
    var left := keys;
    while left != {}
      invariant left <= keys && Arranges(ks, keys - left)
      invariant forall k <- ks :: forall l <- left :: KeyLess(k, l)
      decreases |left|
    {
      ghost var least := LeastKey(left);
      var m :| m in left && forall k <- left :: k == m || KeyLess(m, k);
      assert forall k <- ks :: KeyLess(k, m);
      SortedAppend(ks, m);
      ks := ks + [m];
      left := left - {m};
    }
    assert keys - left == keys;
  }

  // ---------------------------------------------------------------- the diff

  datatype Change = Change(key: Key, before: string, after: string, title: string)

  datatype Entry = Entry(key: Key, severity: string, title: string)

  datatype Diff = Diff(
    regressions: seq<Change>, fixes: seq<Change>, newFindings: seq<Entry>, removed: seq<Entry>)

  datatype DiffSummary = DiffSummary(regressions: nat, fixes: nat, appeared: nat, removed: nat)

  /** What comparing two reports yields: Python raises when the keys do not compare. */
  datatype DiffResult =
    | TypeError
    | Compared(beforeCommit: string, afterCommit: string, diff: Diff, summary: DiffSummary)

  /** The keys sort without comparing a missing section with a named one. */
  ghost predicate Comparable(keys: set<Key>) {
    forall a <- keys, b <- keys :: a.checkId == b.checkId ==> (a.section.None? <==> b.section.None?)
  }

  datatype Fate = Regressed | Fixed | Appeared | Vanished | Unchanged

  predicate Blocking(e: Event) {
    e.cls == "blocking"
  }

  function FateOf(b: Keyed, a: Keyed, k: Key): Fate
    requires k in b || k in a
  {
    if k !in b then Appeared
    else if k !in a then Vanished
    else if !Blocking(b[k]) && Blocking(a[k]) then Regressed
    else if Blocking(b[k]) && !Blocking(a[k]) then Fixed
    else Unchanged
  }

  ghost function WithFate(b: Keyed, a: Keyed, f: Fate): set<Key> {
    set k | k in b.Keys + a.Keys && FateOf(b, a, k) == f
  }

  function SeverityText(e: Event): string {
    e.cls + ":" + e.level
  }

  predicate IsChange(c: Change, b: Keyed, a: Keyed, k: Key) {
    k in b && k in a && c == Change(k, SeverityText(b[k]), SeverityText(a[k]), a[k].title)
  }

  predicate IsEntry(e: Entry, m: Keyed, k: Key) {
    k in m && e == Entry(k, SeverityText(m[k]), m[k].title)
  }

  ghost function ChangeKeys(cs: seq<Change>): seq<Key> {
    seq(|cs|, i requires 0 <= i < |cs| => cs[i].key)
  }

  ghost function EntryKeys(es: seq<Entry>): seq<Key> {
    seq(|es|, i requires 0 <= i < |es| => es[i].key)
  }

  /** The changes are exactly those of the given fate, in key order. */
  ghost predicate ListsChanges(cs: seq<Change>, b: Keyed, a: Keyed, f: Fate) {
    && Arranges(ChangeKeys(cs), WithFate(b, a, f))
    && forall c <- cs :: IsChange(c, b, a, c.key)
  }

  ghost predicate ListsEntries(es: seq<Entry>, b: Keyed, a: Keyed, f: Fate, m: Keyed) {
    && Arranges(EntryKeys(es), WithFate(b, a, f))
    && forall e <- es :: IsEntry(e, m, e.key)
  }

  /** What the diff of two keyed reports is. */
  ghost predicate IsDiff(d: Diff, b: Keyed, a: Keyed) {
    && ListsChanges(d.regressions, b, a, Regressed)
    && ListsChanges(d.fixes, b, a, Fixed)
    && ListsEntries(d.newFindings, b, a, Appeared, a)
    && ListsEntries(d.removed, b, a, Vanished, b)
  }

  /** The keys of the given fate, in the order given. */
  ghost function FateKeys(ks: seq<Key>, b: Keyed, a: Keyed, f: Fate): seq<Key>
    requires forall k <- ks :: k in b || k in a
  {
    if ks == [] then []
    else
      var n := |ks| - 1;
      var rest := FateKeys(ks[..n], b, a, f);
      if FateOf(b, a, ks[n]) == f then rest + [ks[n]] else rest
  }

  lemma {:induction false} FateKeysAreExact(ks: seq<Key>, b: Keyed, a: Keyed, f: Fate)
    requires StrictlySorted(ks) && forall k <- ks :: k in b || k in a
    ensures StrictlySorted(FateKeys(ks, b, a, f))
    ensures forall k :: k in FateKeys(ks, b, a, f) <==> k in ks && FateOf(b, a, k) == f
  {
    if ks != [] {
      var n := |ks| - 1;
      FateKeysAreExact(ks[..n], b, a, f);
      var rest := FateKeys(ks[..n], b, a, f);
      assert ks == ks[..n] + [ks[n]];
      forall k | k in rest ensures KeyLess(k, ks[n]) {
        var i :| 0 <= i < n && ks[..n][i] == k;
        assert KeyLess(ks[i], ks[n]);
      }
      SortedAppend(rest, ks[n]);
    }
  }

  lemma FateKeysArrange(ks: seq<Key>, b: Keyed, a: Keyed, f: Fate)
    requires Arranges(ks, b.Keys + a.Keys)
    ensures Arranges(FateKeys(ks, b, a, f), WithFate(b, a, f))
  {
    FateKeysAreExact(ks, b, a, f);
  }

  /** The comparing loop over the sorted union of keys. */
  method CompareKeyed(b: Keyed, a: Keyed) returns (d: Diff)
    ensures IsDiff(d, b, a)
  {
    hide FateKeys, WithFate, Arranges;
    var ks := Sorted(b.Keys + a.Keys);
    var regressions: seq<Change>, fixes: seq<Change> := [], [];
    var newFindings: seq<Entry>, removed: seq<Entry> := [], [];
    KeysAreKnown(ks, b, a);
    NoFateKeys(b, a);
    for i := 0 to |ks|
      invariant ChangeKeys(regressions) == FateKeys(ks[..i], b, a, Regressed)
      invariant ChangeKeys(fixes) == FateKeys(ks[..i], b, a, Fixed)
      invariant EntryKeys(newFindings) == FateKeys(ks[..i], b, a, Appeared)
      invariant EntryKeys(removed) == FateKeys(ks[..i], b, a, Vanished)
      invariant forall c <- regressions :: IsChange(c, b, a, c.key)
      invariant forall c <- fixes :: IsChange(c, b, a, c.key)
      invariant forall e <- newFindings :: IsEntry(e, a, e.key)
      invariant forall e <- removed :: IsEntry(e, b, e.key)
    {
      var k := ks[i];
      FateStep(ks, i, b, a);
      if k in b && k in a {
        var bBlocking, aBlocking := Blocking(b[k]), Blocking(a[k]);
        if !bBlocking && aBlocking {
          regressions := regressions + [Change(k, SeverityText(b[k]), SeverityText(a[k]), a[k].title)];
        } else if bBlocking && !aBlocking {
          fixes := fixes + [Change(k, SeverityText(b[k]), SeverityText(a[k]), a[k].title)];
        }
      } else if k in a && k !in b {
        newFindings := newFindings + [Entry(k, SeverityText(a[k]), a[k].title)];
      } else if k in b && k !in a {
        removed := removed + [Entry(k, SeverityText(b[k]), b[k].title)];
      }
    }
    assert ks[..|ks|] == ks;
    FateKeysArrange(ks, b, a, Regressed);
    FateKeysArrange(ks, b, a, Fixed);
    FateKeysArrange(ks, b, a, Appeared);
    FateKeysArrange(ks, b, a, Vanished);
    d := Diff(regressions, fixes, newFindings, removed);
  }

  lemma KeysAreKnown(ks: seq<Key>, b: Keyed, a: Keyed)
    requires Arranges(ks, b.Keys + a.Keys)
    ensures forall k <- ks :: k in b || k in a
  {}

  lemma NoFateKeys(b: Keyed, a: Keyed)
    ensures forall f :: FateKeys([], b, a, f) == []
  {}

  lemma FateStep(ks: seq<Key>, i: nat, b: Keyed, a: Keyed)
    requires i < |ks| && forall k <- ks :: k in b || k in a
    ensures forall f :: FateKeys(ks[..i + 1], b, a, f)
                     == FateKeys(ks[..i], b, a, f) + if FateOf(b, a, ks[i]) == f then [ks[i]] else []
  {
    assert ks[..i + 1][..i] == ks[..i];
  }

  lemma KeysOfEvents(before: seq<Event>, after: seq<Event>)
    ensures forall k :: k in ByKey(before).Keys + ByKey(after).Keys
                        <==> exists e <- before + after :: Key(e.checkId, e.section) == k
    ensures forall e <- before + after :: Key(e.checkId, e.section) in ByKey(before).Keys + ByKey(after).Keys
  {
    hide ByKey;
    forall k ensures k in ByKey(before).Keys + ByKey(after).Keys
                     <==> exists e <- before + after :: Key(e.checkId, e.section) == k
    {
      LastEventWins(before, k);
      LastEventWins(after, k);
      if k in ByKey(before) {
        var i :| 0 <= i < |before| && KeyOf(before[i]) == k;
        assert before[i] in before + after;
      }
      if k in ByKey(after) {
        var i :| 0 <= i < |after| && KeyOf(after[i]) == k;
        assert after[i] in before + after;
      }
    }
  }

  method RegressionDiff(before: Report, after: Report) returns (r: DiffResult)
    ensures r.TypeError? <==> !Comparable(ByKey(EventsOf(before)).Keys + ByKey(EventsOf(after)).Keys)
    ensures r.TypeError? <==> exists e <- EventsOf(before) + EventsOf(after), g <- EventsOf(before) + EventsOf(after) ::
                                e.checkId == g.checkId && e.section.None? && g.section.Some?
    ensures r.Compared? ==>
              && IsDiff(r.diff, ByKey(EventsOf(before)), ByKey(EventsOf(after)))
              && r.beforeCommit == Default(before.commit, "?") && r.afterCommit == Default(after.commit, "?")
              && r.summary == DiffSummary(|r.diff.regressions|, |r.diff.fixes|, |r.diff.newFindings|, |r.diff.removed|)
  {
    var beforeEvents := ExtractEvents(before);
    var afterEvents := ExtractEvents(after);
    var b := KeyEvents(beforeEvents);
    var a := KeyEvents(afterEvents);
    var keys := b.Keys + a.Keys;
    KeysOfEvents(beforeEvents, afterEvents);
    if exists x <- keys, y <- keys :: x.checkId == y.checkId && x.section.None? && y.section.Some? {
      return TypeError;
    }
    var d := CompareKeyed(b, a);
    return Compared(
      Default(before.commit, "?"), Default(after.commit, "?"), d,
      DiffSummary(|d.regressions|, |d.fixes|, |d.newFindings|, |d.removed|));
  }

  method KeyEvents(events: seq<Event>) returns (m: Keyed)
    ensures m == ByKey(events)
  {
    m := map[];
    for i := 0 to |events|
      invariant m == ByKey(events[..i])
    {
      assert events[..i + 1][..i] == events[..i];
      m := m[KeyOf(events[i]) := events[i]];
    }
    assert events[..|events|] == events;
  }

  function InSection(f: Finding, name: string): Report {
    Report(None, None, None, None, None, Some([Section(Some(name), Some([f]))]), None, None, None, None)
  }

  function Flat(f: Finding): Report {
    Report(None, None, None, None, None, None, None, Some([f]), None, None)
  }

  /** Two reports that do not compare: one names the check in a section, the other in its flat
      findings, where no event has a section. */
  lemma SectionAgainstFlatRaises(f: Finding, name: string)
    ensures !Comparable(ByKey(EventsOf(InSection(f, name))).Keys + ByKey(EventsOf(Flat(f))).Keys)
  {
    hide NormalizeEvent, ByKey;
    var e, g := NormalizeEvent(f, Some(name)), NormalizeEvent(f, None);
    OneFinding(f, Some(name));
    OneFinding(f, None);
    OneSection(Section(Some(name), Some([f])));
    OneEvent(e);
    OneEvent(g);
    SameCheck(f, name);
  }

  lemma OneFinding(f: Finding, section: Option<string>)
    ensures EventsOfFindings([f], section) == [NormalizeEvent(f, section)]
  {}

  lemma OneSection(s: Section)
    ensures EventsOfSections([s]) == EventsOfSection(s)
  {
    assert [s][..0] == [];
  }

  lemma OneEvent(e: Event)
    ensures ByKey([e]) == map[KeyOf(e) := e]
  {
    assert [e][..0] == [];
  }

  lemma SameCheck(f: Finding, name: string)
    ensures KeyOf(NormalizeEvent(f, Some(name))).checkId == KeyOf(NormalizeEvent(f, None)).checkId
    ensures KeyOf(NormalizeEvent(f, Some(name))).section.Some? && KeyOf(NormalizeEvent(f, None)).section.None?
  {}

  // ---------------------------------------------------------------- laws of the diff

  /** What a diff lists: a regression starts to block, a fix stops to, and both show the class and
      level on either side and the later title; a new finding is only in the later report and a
      removed one only in the earlier. */
  lemma ChangesInPlainTerms(d: Diff, b: Keyed, a: Keyed)
    requires IsDiff(d, b, a)
    ensures forall k :: (exists c <- d.regressions :: c.key == k)
                        <==> k in b && k in a && b[k].cls != "blocking" && a[k].cls == "blocking"
    ensures forall k :: (exists c <- d.fixes :: c.key == k)
                        <==> k in b && k in a && b[k].cls == "blocking" && a[k].cls != "blocking"
    ensures forall c <- d.regressions + d.fixes ::
              && c.key in b && c.key in a && c.title == a[c.key].title
              && c.before == b[c.key].cls + ":" + b[c.key].level && c.after == a[c.key].cls + ":" + a[c.key].level
    ensures forall i, j :: 0 <= i < j < |d.regressions| ==> KeyLess(d.regressions[i].key, d.regressions[j].key)
    ensures forall i, j :: 0 <= i < j < |d.fixes| ==> KeyLess(d.fixes[i].key, d.fixes[j].key)
  {
    hide KeyLess;
    ListedChanges(d.regressions, b, a, Regressed);
    ListedChanges(d.fixes, b, a, Fixed);
    forall k
      ensures (exists c <- d.regressions :: c.key == k)
              <==> k in b && k in a && b[k].cls != "blocking" && a[k].cls == "blocking"
      ensures (exists c <- d.fixes :: c.key == k)
              <==> k in b && k in a && b[k].cls == "blocking" && a[k].cls != "blocking"
    {
      assert (exists c <- d.regressions :: c.key == k) <==> k in WithFate(b, a, Regressed);
      assert (exists c <- d.fixes :: c.key == k) <==> k in WithFate(b, a, Fixed);
    }
  }

  lemma ListedChanges(cs: seq<Change>, b: Keyed, a: Keyed, f: Fate)
    requires ListsChanges(cs, b, a, f)
    ensures forall k :: (exists c <- cs :: c.key == k) <==> k in WithFate(b, a, f)
    ensures forall i, j :: 0 <= i < j < |cs| ==> KeyLess(cs[i].key, cs[j].key)
  {
    hide WithFate, KeyLess;
    var ks := ChangeKeys(cs);
    assert forall i :: 0 <= i < |cs| ==> ks[i] == cs[i].key;
    forall k ensures (exists c <- cs :: c.key == k) <==> k in ks {
      if c :| c in cs && c.key == k {
        var i :| 0 <= i < |cs| && cs[i] == c;
        assert ks[i] == k;
      }
    }
  }

  lemma ListedEntries(es: seq<Entry>, b: Keyed, a: Keyed, f: Fate, m: Keyed)
    requires ListsEntries(es, b, a, f, m)
    ensures forall k :: (exists e <- es :: e.key == k) <==> k in WithFate(b, a, f)
    ensures forall i, j :: 0 <= i < j < |es| ==> KeyLess(es[i].key, es[j].key)
  {
    hide WithFate, KeyLess;
    var ks := EntryKeys(es);
    assert forall i :: 0 <= i < |es| ==> ks[i] == es[i].key;
    forall k ensures (exists e <- es :: e.key == k) <==> k in ks {
      if e :| e in es && e.key == k {
        var i :| 0 <= i < |es| && es[i] == e;
        assert ks[i] == k;
      }
    }
  }

  lemma EntriesInPlainTerms(d: Diff, b: Keyed, a: Keyed)
    requires IsDiff(d, b, a)
    ensures forall k :: (exists e <- d.newFindings :: e.key == k) <==> k in a && k !in b
    ensures forall k :: (exists e <- d.removed :: e.key == k) <==> k in b && k !in a
    ensures forall e <- d.newFindings ::
              e.key in a && e.severity == a[e.key].cls + ":" + a[e.key].level && e.title == a[e.key].title
    ensures forall e <- d.removed ::
              e.key in b && e.severity == b[e.key].cls + ":" + b[e.key].level && e.title == b[e.key].title
    ensures forall i, j :: 0 <= i < j < |d.newFindings| ==> KeyLess(d.newFindings[i].key, d.newFindings[j].key)
    ensures forall i, j :: 0 <= i < j < |d.removed| ==> KeyLess(d.removed[i].key, d.removed[j].key)
  {
    hide KeyLess;
    ListedEntries(d.newFindings, b, a, Appeared, a);
    ListedEntries(d.removed, b, a, Vanished, b);
    forall k
      ensures (exists e <- d.newFindings :: e.key == k) <==> k in a && k !in b
      ensures (exists e <- d.removed :: e.key == k) <==> k in b && k !in a
    {
      assert (exists e <- d.newFindings :: e.key == k) <==> k in WithFate(b, a, Appeared);
      assert (exists e <- d.removed :: e.key == k) <==> k in WithFate(b, a, Vanished);
    }
  }

  /** The diff is determined by its inputs. */
  lemma DiffIsUnique(d: Diff, e: Diff, b: Keyed, a: Keyed)
    requires IsDiff(d, b, a) && IsDiff(e, b, a)
    ensures d == e
  {
    SameChanges(d.regressions, e.regressions, b, a, Regressed);
    SameChanges(d.fixes, e.fixes, b, a, Fixed);
    SameEntries(d.newFindings, e.newFindings, b, a, Appeared, a);
    SameEntries(d.removed, e.removed, b, a, Vanished, b);
  }

  lemma SameChanges(cs: seq<Change>, ds: seq<Change>, b: Keyed, a: Keyed, f: Fate)
    requires ListsChanges(cs, b, a, f) && ListsChanges(ds, b, a, f)
    ensures cs == ds
  {
    ArrangementIsUnique(ChangeKeys(cs), ChangeKeys(ds), WithFate(b, a, f));
    assert |cs| == |ChangeKeys(cs)| && |ds| == |ChangeKeys(ds)|;
    forall i | 0 <= i < |cs| ensures cs[i] == ds[i] {
      assert cs[i] in cs && ds[i] in ds;
      assert ChangeKeys(cs)[i] == ChangeKeys(ds)[i];
    }
  }

  lemma SameEntries(xs: seq<Entry>, ys: seq<Entry>, b: Keyed, a: Keyed, f: Fate, m: Keyed)
    requires ListsEntries(xs, b, a, f, m) && ListsEntries(ys, b, a, f, m)
    ensures xs == ys
  {
    ArrangementIsUnique(EntryKeys(xs), EntryKeys(ys), WithFate(b, a, f));
    assert |xs| == |EntryKeys(xs)| && |ys| == |EntryKeys(ys)|;
    forall i | 0 <= i < |xs| ensures xs[i] == ys[i] {
      assert xs[i] in xs && ys[i] in ys;
      assert EntryKeys(xs)[i] == EntryKeys(ys)[i];
    }
  }

  /** Swapping the reports swaps regressions with fixes, their severities with each other, and
      new findings with removed ones. Only the titles of changes differ: they always come from
      the later report. */
  lemma SwapLaw(d: Diff, e: Diff, b: Keyed, a: Keyed)
    requires IsDiff(d, b, a) && IsDiff(e, a, b)
    ensures d.newFindings == e.removed && d.removed == e.newFindings
    ensures ChangeKeys(d.regressions) == ChangeKeys(e.fixes) && ChangeKeys(d.fixes) == ChangeKeys(e.regressions)
    ensures forall i :: 0 <= i < |d.regressions| && i < |e.fixes| ==>
              d.regressions[i].before == e.fixes[i].after && d.regressions[i].after == e.fixes[i].before
  {
    SwappedFate(b, a, Regressed);
    SwappedFate(b, a, Fixed);
    SwappedFate(b, a, Appeared);
    SwappedFate(b, a, Vanished);
    SameEntries(d.newFindings, e.removed, b, a, Appeared, a);
    SameEntries(d.removed, e.newFindings, b, a, Vanished, b);
    ArrangementIsUnique(ChangeKeys(d.regressions), ChangeKeys(e.fixes), WithFate(b, a, Regressed));
    ArrangementIsUnique(ChangeKeys(d.fixes), ChangeKeys(e.regressions), WithFate(b, a, Fixed));
    forall i | 0 <= i < |d.regressions| && i < |e.fixes|
      ensures d.regressions[i].before == e.fixes[i].after && d.regressions[i].after == e.fixes[i].before
    {
      assert d.regressions[i] in d.regressions && e.fixes[i] in e.fixes;
      assert ChangeKeys(d.regressions)[i] == ChangeKeys(e.fixes)[i];
    }
  }

  function Opposite(f: Fate): Fate {
    match f
    case Regressed => Fixed case Fixed => Regressed
    case Appeared => Vanished case Vanished => Appeared
    case Unchanged => Unchanged
  }

  lemma SwappedFate(b: Keyed, a: Keyed, f: Fate)
    ensures WithFate(a, b, Opposite(f)) == WithFate(b, a, f)
  {
    forall k | k in b || k in a ensures FateOf(a, b, k) == Opposite(FateOf(b, a, k)) {
    }
  }

  /** A report compared with itself shows nothing. */
  lemma SelfDiffIsEmpty(d: Diff, m: Keyed)
    requires IsDiff(d, m, m)
    ensures d == Diff([], [], [], [])
  {
    assert forall f :: f != Unchanged ==> WithFate(m, m, f) == {};
    ArrangementLength(ChangeKeys(d.regressions), {});
    ArrangementLength(ChangeKeys(d.fixes), {});
    ArrangementLength(EntryKeys(d.newFindings), {});
    ArrangementLength(EntryKeys(d.removed), {});
  }

  /** Every key of either report lands in exactly one list or is unchanged. */
  lemma DiffAccountsForEveryKey(d: Diff, b: Keyed, a: Keyed)
    requires IsDiff(d, b, a)
    ensures |d.regressions| + |d.fixes| + |d.newFindings| + |d.removed| + |WithFate(b, a, Unchanged)|
         == |b.Keys + a.Keys|
  {
    hide WithFate;
    ArrangementLength(ChangeKeys(d.regressions), WithFate(b, a, Regressed));
    ArrangementLength(ChangeKeys(d.fixes), WithFate(b, a, Fixed));
    ArrangementLength(EntryKeys(d.newFindings), WithFate(b, a, Appeared));
    ArrangementLength(EntryKeys(d.removed), WithFate(b, a, Vanished));
    FatesPartition(b, a);
    var r, x, n, v, u := WithFate(b, a, Regressed), WithFate(b, a, Fixed), WithFate(b, a, Appeared),
                         WithFate(b, a, Vanished), WithFate(b, a, Unchanged);
    UnionSize(r, x);
    UnionSize(r + x, n);
    UnionSize(r + x + n, v);
    UnionSize(r + x + n + v, u);
  }

  lemma FatesPartition(b: Keyed, a: Keyed)
    ensures b.Keys + a.Keys == WithFate(b, a, Regressed) + WithFate(b, a, Fixed) + WithFate(b, a, Appeared)
                               + WithFate(b, a, Vanished) + WithFate(b, a, Unchanged)
    ensures forall f, g :: f != g ==> WithFate(b, a, f) !! WithFate(b, a, g)
  {
    hide FateOf;
  }

  lemma UnionSize<T>(s: set<T>, t: set<T>)
    requires s !! t
    ensures |s + t| == |s| + |t|
  {}

  /** A key in both reports is listed as a change exactly when one side of it blocks and the other
      does not; a change between any other classes appears nowhere. */
  lemma TransitionIsListedExactly(d: Diff, b: Keyed, a: Keyed, k: Key)
    requires IsDiff(d, b, a) && k in b && k in a
    ensures k in ChangeKeys(d.regressions) || k in ChangeKeys(d.fixes) <==> Blocking(b[k]) != Blocking(a[k])
    ensures k !in EntryKeys(d.newFindings) && k !in EntryKeys(d.removed)
  {
    assert k in ChangeKeys(d.regressions) <==> k in WithFate(b, a, Regressed);
    assert k in ChangeKeys(d.fixes) <==> k in WithFate(b, a, Fixed);
    assert k in EntryKeys(d.newFindings) <==> k in WithFate(b, a, Appeared);
    assert k in EntryKeys(d.removed) <==> k in WithFate(b, a, Vanished);
  }

  /** A check that passed and now warns shows nothing at all. */
  lemma NewWarningIsNotListed(d: Diff, before: Event, after: Event)
    requires KeyOf(before) == KeyOf(after) && before.cls == "pass" && after.cls == "advisory"
    requires IsDiff(d, ByKey([before]), ByKey([after]))
    ensures d == Diff([], [], [], [])
  {
    OneEvent(before);
    OneEvent(after);
    var b, a := ByKey([before]), ByKey([after]);
    forall f | f != Unchanged ensures WithFate(b, a, f) == {} {
      assert forall k :: k in b.Keys + a.Keys ==> k == KeyOf(after);
    }
    ArrangementLength(ChangeKeys(d.regressions), {});
    ArrangementLength(ChangeKeys(d.fixes), {});
    ArrangementLength(EntryKeys(d.newFindings), {});
    ArrangementLength(EntryKeys(d.removed), {});
  }

  /** The exit code of the `diff` command is zero exactly when every blocking key of the later
      report blocked before or is new: a finding that appears as blocking does not fail it. */
  lemma NoRegressionExactly(d: Diff, b: Keyed, a: Keyed)
    requires IsDiff(d, b, a)
    ensures d.regressions == [] <==> forall k <- BlockingKeys(a) :: k in BlockingKeys(b) || k !in b
  {
    var regressed := WithFate(b, a, Regressed);
    ArrangementLength(ChangeKeys(d.regressions), regressed);
    assert forall k :: k in regressed <==> k in BlockingKeys(a) && k in b && k !in BlockingKeys(b);
    assert d.regressions == [] <==> regressed == {};
  }

  // ---------------------------------------------------------------- conservation

  ghost function CountBlocking(es: seq<Entry>): nat {
    if es == [] then 0
    else CountBlocking(es[..|es| - 1]) + if SaysClass(es[|es| - 1].severity, "blocking") then 1 else 0
  }

  /** What one diff says about the number of blocking keys. */
  ghost function Balance(d: Diff): int {
    |d.regressions| - |d.fixes| + CountBlocking(d.newFindings) - CountBlocking(d.removed)
  }

  ghost function BlockingKeys(m: Keyed): set<Key> {
    set k | k in m && Blocking(m[k])
  }

  ghost predicate PlainClasses(m: Keyed) {
    forall k <- m :: ':' !in m[k].cls
  }

  lemma SeverityTextSaysBlocking(e: Event)
    requires ':' !in e.cls
    ensures SaysClass(SeverityText(e), "blocking") <==> Blocking(e)
  {
    var s := SeverityText(e);
    assert s[..|e.cls|] == e.cls && s[|e.cls|] == ':';
    if SaysClass(s, "blocking") { FirstColon(s, |e.cls|, |"blocking"|); }
  }

  ghost function BlockingEntries(es: seq<Entry>, m: Keyed): set<Key> {
    set k | k in EntryKeys(es) && k in m && Blocking(m[k])
  }

  lemma OneMoreEntry(es: seq<Entry>, m: Keyed)
    requires es != [] && StrictlySorted(EntryKeys(es)) && es[|es| - 1].key in m
    ensures var n := |es| - 1;
            |BlockingEntries(es, m)| == |BlockingEntries(es[..n], m)| + if Blocking(m[es[n].key]) then 1 else 0
  {
    hide KeyLess, StrictlySorted, Blocking;
    var n := |es| - 1;
    NotBefore(EntryKeys(es), n);
    assert EntryKeys(es)[..n] == EntryKeys(es[..n]);
    assert EntryKeys(es) == EntryKeys(es[..n]) + [es[n].key];
    if Blocking(m[es[n].key]) {
      assert BlockingEntries(es, m) == BlockingEntries(es[..n], m) + {es[n].key};
    } else {
      assert BlockingEntries(es, m) == BlockingEntries(es[..n], m);
    }
  }

  lemma {:induction false} CountBlockingKeys(es: seq<Entry>, m: Keyed)
    requires PlainClasses(m) && StrictlySorted(EntryKeys(es)) && forall e <- es :: IsEntry(e, m, e.key)
    ensures CountBlocking(es) == |BlockingEntries(es, m)|
  {
    hide SaysClass, SeverityText, KeyLess, StrictlySorted, EntryKeys, Blocking;
    if es == [] {
      NoEntries(m);
    } else {
      var n := |es| - 1;
      assert es[n] in es;
      PrefixSorted(es, n);
      CountBlockingKeys(es[..n], m);
      SeverityTextSaysBlocking(m[es[n].key]);
      OneMoreEntry(es, m);
    }
  }

  lemma NoEntries(m: Keyed)
    ensures BlockingEntries([], m) == {}
  {}

  lemma PrefixSorted(es: seq<Entry>, n: nat)
    requires n <= |es| && StrictlySorted(EntryKeys(es))
    ensures StrictlySorted(EntryKeys(es[..n]))
  {
    assert EntryKeys(es[..n]) == EntryKeys(es)[..n];
  }

  lemma NotBefore(ks: seq<Key>, n: nat)
    requires StrictlySorted(ks) && n < |ks|
    ensures ks[n] !in ks[..n]
  {
    KeyOrder(ks[n], ks[n]);
  }

  /** One step of conservation. */
  lemma DiffBalances(d: Diff, b: Keyed, a: Keyed)
    requires IsDiff(d, b, a) && PlainClasses(b) && PlainClasses(a)
    ensures Balance(d) == |BlockingKeys(a)| - |BlockingKeys(b)|
  {
    hide WithFate, BlockingOf, BlockingKeys, PlainClasses;
    ArrangementLength(ChangeKeys(d.regressions), WithFate(b, a, Regressed));
    ArrangementLength(ChangeKeys(d.fixes), WithFate(b, a, Fixed));
    CountBlockingKeys(d.newFindings, a);
    CountBlockingKeys(d.removed, b);
    EntriesOfFate(d.newFindings, b, a, Appeared, a);
    EntriesOfFate(d.removed, b, a, Vanished, b);
    BlockingSplits(b, a);
    var regressed, fixed := WithFate(b, a, Regressed), WithFate(b, a, Fixed);
    var appeared, vanished := BlockingOf(a, WithFate(b, a, Appeared)), BlockingOf(b, WithFate(b, a, Vanished));
    var kept := BlockingKeys(b) * BlockingKeys(a);
    UnionSize(regressed, appeared);
    UnionSize(regressed + appeared, kept);
    UnionSize(fixed, vanished);
    UnionSize(fixed + vanished, kept);
  }

  ghost function BlockingOf(m: Keyed, keys: set<Key>): set<Key> {
    set k | k in keys && k in m && Blocking(m[k])
  }

  lemma EntriesOfFate(es: seq<Entry>, b: Keyed, a: Keyed, f: Fate, m: Keyed)
    requires ListsEntries(es, b, a, f, m)
    ensures BlockingEntries(es, m) == BlockingOf(m, WithFate(b, a, f))
  {
    hide WithFate;
  }

  /** Where the blocking keys of each side come from. */
  lemma BlockingSplits(b: Keyed, a: Keyed)
    ensures var appeared, kept := BlockingOf(a, WithFate(b, a, Appeared)), BlockingKeys(b) * BlockingKeys(a);
            && BlockingKeys(a) == WithFate(b, a, Regressed) + appeared + kept
            && WithFate(b, a, Regressed) !! appeared !! kept
    ensures var vanished, kept := BlockingOf(b, WithFate(b, a, Vanished)), BlockingKeys(b) * BlockingKeys(a);
            && BlockingKeys(b) == WithFate(b, a, Fixed) + vanished + kept
            && WithFate(b, a, Fixed) !! vanished !! kept
  {
    hide Blocking;
  }

  /** The diffs of consecutive reports. */
  ghost predicate Chain(ds: seq<Diff>, ms: seq<Keyed>) {
    |ms| == |ds| + 1 && forall i :: 0 <= i < |ds| ==> IsDiff(ds[i], ms[i], ms[i + 1])
  }

  ghost function TotalBalance(ds: seq<Diff>): int {
    if ds == [] then 0 else TotalBalance(ds[..|ds| - 1]) + Balance(ds[|ds| - 1])
  }

  /** Telescoping: over any history the diffs add up to the change in blocking keys between its
      ends, each report counted as the diff sees it, by the last event of each key. */
  lemma {:induction false} BalancesTelescope(ds: seq<Diff>, ms: seq<Keyed>)
    requires Chain(ds, ms) && forall m <- ms :: PlainClasses(m)
    ensures TotalBalance(ds) == |BlockingKeys(ms[|ms| - 1])| - |BlockingKeys(ms[0])|
    decreases |ds|
  {
    if ds != [] {
      var n := |ds| - 1;
      BalancesTelescope(ds[..n], ms[..n + 1]);
      assert ms[n] in ms && ms[n + 1] in ms;
      DiffBalances(ds[n], ms[n], ms[n + 1]);
    }
  }

  /** Keyed reports satisfy what the conservation laws ask. */
  lemma {:induction false} KeyedClassesArePlain(events: seq<Event>)
    requires forall e <- events :: ':' !in e.cls
    ensures PlainClasses(ByKey(events))
  {
    if events != [] {
      KeyedClassesArePlain(events[..|events| - 1]);
    }
  }

  /** What is conserved: the keys whose last event blocks. */
  lemma BlockingKeysInPlainTerms(events: seq<Event>, k: Key)
    ensures k in BlockingKeys(ByKey(events))
            <==> exists i :: 0 <= i < |events| && Key(events[i].checkId, events[i].section) == k
                             && events[i].cls == "blocking"
                             && forall j :: i < j < |events| ==> Key(events[j].checkId, events[j].section) != k
  {
    hide ByKey;
    LastEventWins(events, k);
  }

  /** What a history's diffs add up: each regression and each new blocking finding counts one, each
      fix and each removed blocking finding minus one. */
  lemma BalanceInPlainTerms(ds: seq<Diff>, d: Diff)
    ensures TotalBalance([]) == 0
    ensures TotalBalance(ds + [d])
         == TotalBalance(ds) + |d.regressions| - |d.fixes|
            + CountBlocking(d.newFindings) - CountBlocking(d.removed)
  {
    assert (ds + [d])[..|ds|] == ds;
  }

  lemma BlockingEntriesInPlainTerms(es: seq<Entry>, e: Entry)
    ensures CountBlocking([]) == 0
    ensures CountBlocking(es + [e])
         == CountBlocking(es) + if exists level :: e.severity == "blocking:" + level then 1 else 0
  {
    assert (es + [e])[..|es|] == es;
    hide CountBlocking;
    var t := "blocking:";
    if level :| e.severity == t + level {
      assert e.severity[..8] == t[..8] == "blocking" && e.severity[8] == t[8];
    }
    if SaysClass(e.severity, "blocking") {
      assert e.severity == e.severity[..8] + [':'] + e.severity[9..];
      assert "blocking" + ":" == t;
      assert e.severity == t + e.severity[9..];
    }
  }

  /** The telescoping law for reports. */
  lemma HistoryIsConserved(ds: seq<Diff>, reports: seq<Report>)
    requires |reports| == |ds| + 1
    requires forall i :: 0 <= i < |ds| ==> IsDiff(ds[i], ByKey(EventsOf(reports[i])), ByKey(EventsOf(reports[i + 1])))
    ensures TotalBalance(ds)
         == |BlockingKeys(ByKey(EventsOf(reports[|ds|])))| - |BlockingKeys(ByKey(EventsOf(reports[0])))|
  {
    var ms := seq(|reports|, i requires 0 <= i < |reports| => ByKey(EventsOf(reports[i])));
    forall i | 0 <= i < |ms| ensures PlainClasses(ms[i]) {
      ClassesHaveNoColon(reports[i]);
      KeyedClassesArePlain(EventsOf(reports[i]));
    }
    BalancesTelescope(ds, ms);
  }
}
