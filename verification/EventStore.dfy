/** The report and event tables of ci/artifact_analyzer.py and the timeline read from them.
    `reports` is keyed by its UNIQUE column; `events` only ever grows. */
module EventStore {
  import opened Analyzer
  import opened Wrappers

  // ---------------------------------------------------------------- identities

  /** The hash behind a synthetic run id. */
  type Digest = string -> string

  /** The run id of a report: its own, or one made of the runner and the time. Without a
      `generated_at` the time is the clock reading `stamp`. */
  function RunIdOf(r: Report, digest: Digest, stamp: string): string {
    if r.runId.Some? then r.runId.value
    else
      var runner := Default(r.runner, "anon");
      runner + "-" + digest(runner + "-" + Default(r.generatedAt, stamp))
  }

  /** The report names itself, so every clock reading gives the same id. */
  predicate HasStableId(r: Report) {
    r.runId.Some? || r.generatedAt.Some?
  }

  function StableId(r: Report, digest: Digest): string
    requires HasStableId(r)
  {
    RunIdOf(r, digest, "")
  }

  lemma StableIdIgnoresTheClock(r: Report, digest: Digest, stamp: string)
    requires HasStableId(r)
    ensures RunIdOf(r, digest, stamp) == StableId(r, digest)
  {}

  // ---------------------------------------------------------------- tables

  datatype EventRow = EventRow(runId: string, event: Event)

  datatype ReportRow = ReportRow(
    runner: Option<string>, generatedAt: Option<string>, verdict: Option<string>, raw: Report)

  datatype Tables = Tables(reports: map<string, ReportRow>, events: seq<EventRow>)

  function RowOf(r: Report): ReportRow {
    ReportRow(r.runner, r.generatedAt, if r.verdict.Some? then r.verdict else r.status, r)
  }

  /** One ingest with the clock readings it makes: the first for the report row, one more for
      each event. */
  datatype Ingest = Ingest(report: Report, stamps: seq<string>)

  ghost predicate ValidIngest(g: Ingest) {
    |g.stamps| == |EventsOf(g.report)| + 1
  }

  ghost function NewRows(g: Ingest, digest: Digest): seq<EventRow>
    requires ValidIngest(g)
  {
    var events := EventsOf(g.report);
    seq(|events|, i requires 0 <= i < |events| => EventRow(RunIdOf(g.report, digest, g.stamps[i + 1]), events[i]))
  }

  ghost function After(t: Tables, g: Ingest, digest: Digest): Tables
    requires ValidIngest(g)
  {
    Tables(t.reports[RunIdOf(g.report, digest, g.stamps[0]) := RowOf(g.report)], t.events + NewRows(g, digest))
  }

  lemma NewRowsInOrder(t: Tables, g: Ingest, digest: Digest)
    requires ValidIngest(g)
    ensures var events, rows := After(t, g, digest).events, NewRows(g, digest);
            && |t.events| <= |events| && events[..|t.events|] == t.events && events[|t.events|..] == rows
            && |rows| == |EventsOf(g.report)|
            && forall i :: 0 <= i < |rows| ==>
                 rows[i] == EventRow(RunIdOf(g.report, digest, g.stamps[i + 1]), EventsOf(g.report)[i])
  {
    hide EventsOf, RunIdOf;
  }

  /** A report with a run id is stored under it, with its own runner, time and verdict (or status),
      every event of it too, and no other row changes. */
  lemma NamedIngest(t: Tables, g: Ingest, digest: Digest)
    requires ValidIngest(g) && g.report.runId.Some?
    ensures var r, later, n := g.report, After(t, g, digest), |t.events|;
            && r.runId.value in later.reports && later.reports[r.runId.value].raw == r
            && later.reports[r.runId.value].runner == r.runner
            && later.reports[r.runId.value].generatedAt == r.generatedAt
            && (r.verdict.Some? ==> later.reports[r.runId.value].verdict == r.verdict)
            && (r.verdict.None? ==> later.reports[r.runId.value].verdict == r.status)
            && later.reports - {r.runId.value} == t.reports - {r.runId.value}
            && n <= |later.events| && later.events[..n] == t.events
            && var rows := later.events[n..];
               && |rows| == |EventsOf(r)|
               && forall i :: 0 <= i < |rows| ==> rows[i] == EventRow(r.runId.value, EventsOf(r)[i])
  {
    hide EventsOf;
    NewRowsInOrder(t, g, digest);
  }

  /** A report without one is stored under its runner, or "anon", and the digest of the runner and
      the time: its own, or the reading of the clock, which is read again for each event. */
  lemma SyntheticIngest(t: Tables, g: Ingest, digest: Digest)
    requires ValidIngest(g) && g.report.runId.None?
    ensures var r, later, n := g.report, After(t, g, digest), |t.events|;
            var runner := if r.runner.Some? then r.runner.value else "anon";
            && (r.generatedAt.Some? ==>
                  var id := runner + "-" + digest(runner + "-" + r.generatedAt.value);
                  && id in later.reports && later.reports[id].raw == r && later.reports - {id} == t.reports - {id}
                  && n <= |later.events| && later.events[..n] == t.events
                  && var rows := later.events[n..];
                     && |rows| == |EventsOf(r)|
                     && forall i :: 0 <= i < |rows| ==> rows[i] == EventRow(id, EventsOf(r)[i]))
            && (r.generatedAt.None? ==>
                  var id := runner + "-" + digest(runner + "-" + g.stamps[0]);
                  && id in later.reports && later.reports[id].raw == r && later.reports - {id} == t.reports - {id}
                  && n <= |later.events| && later.events[..n] == t.events
                  && var rows := later.events[n..];
                     && |rows| == |EventsOf(r)|
                     && forall i :: 0 <= i < |rows| ==>
                          rows[i]
                          == EventRow(runner + "-" + digest(runner + "-" + g.stamps[i + 1]), EventsOf(r)[i]))
  {
    hide EventsOf;
    NewRowsInOrder(t, g, digest);
  }

  class Store {
    var reports: map<string, ReportRow>
    var events: seq<EventRow>
    const digest: Digest

    ghost function State(): Tables
      reads this
    {
      Tables(reports, events)
    }

    constructor (digest: Digest)
      ensures State() == Tables(map[], []) && this.digest == digest
    {
      reports, events := map[], [];
      this.digest := digest;
    }

    /** Replaces the report row of the run and appends every event, again on a second ingest. */
    method IngestReport(r: Report, stamps: seq<string>) returns (n: nat)
      requires ValidIngest(Ingest(r, stamps))
      modifies this
      ensures State() == After(old(State()), Ingest(r, stamps), digest)
      ensures n == |EventsOf(r)|
      ensures r.runId.Some? ==>
                && r.runId.value in reports && reports[r.runId.value].raw == r
                && reports - {r.runId.value} == old(reports) - {r.runId.value}
                && forall i :: |old(events)| <= i < |events| ==> events[i].runId == r.runId.value
    {
      var runId := RunIdOf(r, digest, stamps[0]);
      reports := reports[runId := RowOf(r)];
      var found := ExtractEvents(r);
      ghost var rows := NewRows(Ingest(r, stamps), digest);
      for i := 0 to |found|
        invariant reports == old(reports)[runId := RowOf(r)]
        invariant events == old(events) + rows[..i]
      {
        events := events + [EventRow(RunIdOf(r, digest, stamps[i + 1]), found[i])];
      }
      assert rows[..|found|] == rows;
      NewRowsInOrder(old(State()), Ingest(r, stamps), digest);
      if r.runId.Some? { NamedIngest(old(State()), Ingest(r, stamps), digest); }
      return |found|;
    }

    /** The joined and grouped query: the newest reports first, at most `limit` of them; a negative
        limit is none. */
    method ExportTimeline(limit: int) returns (rows: seq<TimelineRow>)
      ensures |rows| == if 0 <= limit < |reports| then limit else |reports|
      ensures IdsOf(rows) <= reports.Keys && DistinctRows(rows, State())
      ensures limit < 0 || |reports| <= limit ==> IdsOf(rows) == reports.Keys
      ensures NewestFirst(rows, reports)
      ensures NoneNewer(rows, reports.Keys - IdsOf(rows), reports)
    {
      hide IsTimelineRow, IsNewest, NewestFirst, NoneNewer, DistinctRows, IdsOf;
      rows := [];
      ghost var t := State();
      var all := reports;
      var left := all.Keys;
      NoRows(t, all, left);
      while (limit < 0 || |rows| < limit) && left != {}
        invariant IdsOf(rows) !! left && IdsOf(rows) + left == all.Keys
        invariant |rows| + |left| == |all| && (limit < 0 || |rows| <= limit)
        invariant DistinctRows(rows, t)
        invariant NewestFirst(rows, all) && NoneNewer(rows, left, all)
        decreases |left|
      {
        var id := PickNewest(left, all);
        var row := JoinRows(id);
        IdsGrow(rows, row);
        OneMoreRow(rows, row, left, all, t);
        rows := rows + [row];
        left := left - {id};
      }
      assert left == all.Keys - IdsOf(rows);
    }

    /** One run's row, joined with the events of its run id. */
    method JoinRows(id: string) returns (row: TimelineRow)
      requires id in reports
      ensures row.runId == id && IsTimelineRow(row, State())
    {
      var source := reports[id];
      var count, blocking, advisory := 0, 0, 0;
      for i := 0 to |events|
        invariant count == RowsOf(events[..i], id)
        invariant blocking == RowsOfClass(events[..i], id, "blocking")
        invariant advisory == RowsOfClass(events[..i], id, "advisory")
      {
        assert events[..i + 1][..i] == events[..i];
        if events[i].runId == id {
          count := count + 1;
          if events[i].event.cls == "blocking" { blocking := blocking + 1; }
          if events[i].event.cls == "advisory" { advisory := advisory + 1; }
        }
      }
      assert events[..|events|] == events;
      row := TimelineRow(id, source.runner, source.generatedAt, source.verdict, count, blocking, advisory);
    }
  }

  // ---------------------------------------------------------------- the timeline

  datatype TimelineRow = TimelineRow(
    runId: string, runner: Option<string>, generatedAt: Option<string>, verdict: Option<string>,
    count: nat, blocking: nat, advisory: nat)

  /** The time a report row sorts by; an absent time sorts last, as the empty text does. */
  function When(row: ReportRow): string {
    Default(row.generatedAt, "")
  }

  ghost function RowsOf(rows: seq<EventRow>, id: string): nat {
    if rows == [] then 0 else RowsOf(rows[..|rows| - 1], id) + if rows[|rows| - 1].runId == id then 1 else 0
  }

  ghost function RowsOfClass(rows: seq<EventRow>, id: string, cls: string): nat {
    if rows == [] then 0
    else
      var last := rows[|rows| - 1];
      RowsOfClass(rows[..|rows| - 1], id, cls) + if last.runId == id && last.event.cls == cls then 1 else 0
  }

  ghost predicate IsTimelineRow(row: TimelineRow, t: Tables) {
    && row.runId in t.reports
    && row.runner == t.reports[row.runId].runner
    && row.generatedAt == t.reports[row.runId].generatedAt && row.verdict == t.reports[row.runId].verdict
    && row.count == RowsOf(t.events, row.runId)
    && row.blocking == RowsOfClass(t.events, row.runId, "blocking")
    && row.advisory == RowsOfClass(t.events, row.runId, "advisory")
  }

  /** What a row of the timeline shows: its run's own columns and the numbers of its event rows. */
  lemma RowInPlainTerms(row: TimelineRow, t: Tables)
    requires IsTimelineRow(row, t)
    ensures row.runId in t.reports
    ensures var source := t.reports[row.runId];
            row.runner == source.runner && row.generatedAt == source.generatedAt && row.verdict == source.verdict
    ensures row.count == |set i | 0 <= i < |t.events| && t.events[i].runId == row.runId|
    ensures row.blocking
         == |set i | 0 <= i < |t.events| && t.events[i].runId == row.runId && t.events[i].event.cls == "blocking"|
    ensures row.advisory
         == |set i | 0 <= i < |t.events| && t.events[i].runId == row.runId && t.events[i].event.cls == "advisory"|
  {
    CountIsTheIndices(t.events, row.runId);
    ClassCountIsTheIndices(t.events, row.runId, "blocking");
    ClassCountIsTheIndices(t.events, row.runId, "advisory");
    assert (set i | 0 <= i < |t.events| && Hits(t.events[i], row.runId, "blocking"))
        == set i | 0 <= i < |t.events| && t.events[i].runId == row.runId && t.events[i].event.cls == "blocking";
    assert (set i | 0 <= i < |t.events| && Hits(t.events[i], row.runId, "advisory"))
        == set i | 0 <= i < |t.events| && t.events[i].runId == row.runId && t.events[i].event.cls == "advisory";
  }

  lemma {:induction false} CountIsTheIndices(rows: seq<EventRow>, id: string)
    ensures RowsOf(rows, id) == |set i | 0 <= i < |rows| && rows[i].runId == id|
  {
    if rows != [] {
      CountIsTheIndices(rows[..|rows| - 1], id);
      OneMoreIndex(rows[..|rows| - 1], rows, id);
    }
  }

  lemma OneMoreIndex(before: seq<EventRow>, rows: seq<EventRow>, id: string)
    requires rows != [] && before == rows[..|rows| - 1]
    ensures |set i | 0 <= i < |rows| && rows[i].runId == id|
         == |set i | 0 <= i < |before| && before[i].runId == id| + if rows[|rows| - 1].runId == id then 1 else 0
  {
    var n := |rows| - 1;
    var earlier := set i | 0 <= i < |before| && before[i].runId == id;
    assert (set i | 0 <= i < |rows| && rows[i].runId == id) == earlier + if rows[n].runId == id then {n} else {};
  }

  predicate Hits(row: EventRow, id: string, cls: string) {
    row.runId == id && row.event.cls == cls
  }

  lemma {:induction false} ClassCountIsTheIndices(rows: seq<EventRow>, id: string, cls: string)
    ensures RowsOfClass(rows, id, cls) == |set i | 0 <= i < |rows| && Hits(rows[i], id, cls)|
  {
    if rows != [] {
      ClassCountIsTheIndices(rows[..|rows| - 1], id, cls);
      OneMoreHit(rows[..|rows| - 1], rows, id, cls);
    }
  }

  lemma OneMoreHit(before: seq<EventRow>, rows: seq<EventRow>, id: string, cls: string)
    requires rows != [] && before == rows[..|rows| - 1]
    ensures |set i | 0 <= i < |rows| && Hits(rows[i], id, cls)|
         == |set i | 0 <= i < |before| && Hits(before[i], id, cls)| + if Hits(rows[|rows| - 1], id, cls) then 1 else 0
  {
    hide Hits;
    var n := |rows| - 1;
    var earlier := set i | 0 <= i < |before| && Hits(before[i], id, cls);
    assert (set i | 0 <= i < |rows| && Hits(rows[i], id, cls))
        == earlier + if Hits(rows[n], id, cls) then {n} else {};
  }

  /** The timeline runs backwards in `generated_at`, and whatever it leaves out is no newer; a run
      without a time comes after every run with one. */
  lemma TimelineOrderInPlainTerms(rows: seq<TimelineRow>, ids: set<string>, t: Tables, i: nat)
    requires DistinctRows(rows, t) && NewestFirst(rows, t.reports) && NoneNewer(rows, ids, t.reports) && i < |rows|
    ensures forall j :: i < j < |rows| && rows[j].generatedAt.Some? && rows[j].generatedAt.value != "" ==>
              rows[i].generatedAt.Some? && !TextLess(rows[i].generatedAt.value, rows[j].generatedAt.value)
    ensures forall id <- ids :: id in t.reports ==>
              var time := t.reports[id].generatedAt;
              time.Some? && time.value != "" ==>
                rows[i].generatedAt.Some? && !TextLess(rows[i].generatedAt.value, time.value)
  {
    forall j | 0 <= j < |rows| ensures rows[j].runId in t.reports {
      assert IsTimelineRow(rows[j], t);
    }
  }

  /** A run no other of the given ones is newer than. */
  predicate IsNewest(m: string, ids: set<string>, reports: map<string, ReportRow>) {
    && m in ids && m in reports
    && forall other <- ids :: other in reports ==> !TextLess(When(reports[m]), When(reports[other]))
  }

  method PickNewest(ids: set<string>, reports: map<string, ReportRow>) returns (m: string)
    requires ids != {} && ids <= reports.Keys
    ensures IsNewest(m, ids, reports)
  {
    ghost var newest := NewestRun(ids, reports);
    m :| m in ids && IsNewest(m, ids, reports);
  }

  lemma {:induction false} NewestRun(ids: set<string>, reports: map<string, ReportRow>) returns (m: string)
    requires ids != {} && ids <= reports.Keys
    ensures IsNewest(m, ids, reports)
    decreases |ids|
  {
    var x :| x in ids;
    TextOrder(When(reports[x]), When(reports[x]));
    if ids == {x} {
      m := x;
    } else {
      assert ids - {x} != {};
      var y := NewestRun(ids - {x}, reports);
      var wx, wy := When(reports[x]), When(reports[y]);
      TextOrder(wx, wy);
      m := if TextLess(wy, wx) then x else y;
      forall other | other in ids ensures !TextLess(When(reports[m]), When(reports[other])) {
        if other != x && m == x {
          if TextLess(wx, When(reports[other])) { TextTransitive(wy, wx, When(reports[other])); }
        }
      }
    }
  }

  /** Blocking and advisory rows are disjoint parts of a run's rows. */
  lemma {:induction false} ClassesStayWithinTheCount(rows: seq<EventRow>, id: string)
    ensures RowsOfClass(rows, id, "blocking") + RowsOfClass(rows, id, "advisory") <= RowsOf(rows, id)
  {
    if rows != [] { ClassesStayWithinTheCount(rows[..|rows| - 1], id); }
  }

  /** Event rows whose run has a report row. */
  ghost function Attached(rows: seq<EventRow>, ids: set<string>): nat {
    if rows == [] then 0 else Attached(rows[..|rows| - 1], ids) + if rows[|rows| - 1].runId in ids then 1 else 0
  }

  ghost function TotalCount(rows: seq<TimelineRow>): nat {
    if rows == [] then 0 else TotalCount(rows[..|rows| - 1]) + rows[|rows| - 1].count
  }

  ghost function IdsOf(rows: seq<TimelineRow>): set<string> {
    set r <- rows :: r.runId
  }

  lemma IdsGrow(rows: seq<TimelineRow>, row: TimelineRow)
    ensures IdsOf(rows + [row]) == IdsOf(rows) + {row.runId}
    ensures forall i :: 0 <= i < |rows| ==> rows[i].runId in IdsOf(rows)
  {
    assert row in rows + [row];
    assert forall r <- rows :: r in rows + [row];
    forall i | 0 <= i < |rows| ensures rows[i].runId in IdsOf(rows) {
      assert rows[i] in rows;
    }
  }

  ghost predicate DistinctRows(rows: seq<TimelineRow>, t: Tables) {
    && (forall i, j :: 0 <= i < j < |rows| ==> rows[i].runId != rows[j].runId)
    && (forall i :: 0 <= i < |rows| ==> IsTimelineRow(rows[i], t))
  }

  /** No row is older than a later one. */
  ghost predicate NewestFirst(rows: seq<TimelineRow>, reports: map<string, ReportRow>) {
    forall i, j :: 0 <= i < j < |rows| && rows[i].runId in reports && rows[j].runId in reports ==>
      !TextLess(When(reports[rows[i].runId]), When(reports[rows[j].runId]))
  }

  /** None of the given runs is newer than a row. */
  ghost predicate NoneNewer(rows: seq<TimelineRow>, ids: set<string>, reports: map<string, ReportRow>) {
    forall i, id :: 0 <= i < |rows| && rows[i].runId in reports && id in ids && id in reports ==>
      !TextLess(When(reports[rows[i].runId]), When(reports[id]))
  }

  lemma NoRows(t: Tables, reports: map<string, ReportRow>, left: set<string>)
    ensures IdsOf([]) == {} && DistinctRows([], t) && NewestFirst([], reports) && NoneNewer([], left, reports)
  {}

  lemma OneMoreRow(
    rows: seq<TimelineRow>, row: TimelineRow, left: set<string>, reports: map<string, ReportRow>, t: Tables)
    requires DistinctRows(rows, t) && NewestFirst(rows, reports) && NoneNewer(rows, left, reports)
    requires IdsOf(rows) !! left && row.runId in left && left <= reports.Keys && IsTimelineRow(row, t)
    requires IsNewest(row.runId, left, reports)
    ensures DistinctRows(rows + [row], t) && NewestFirst(rows + [row], reports)
    ensures NoneNewer(rows + [row], left - {row.runId}, reports)
  {
    hide TextLess, IsTimelineRow;
    assert forall i :: 0 <= i < |rows| ==> rows[i] in rows;
  }

  lemma {:induction false} OneRunMore(rows: seq<EventRow>, ids: set<string>, id: string)
    requires id !in ids
    ensures Attached(rows, ids + {id}) == Attached(rows, ids) + RowsOf(rows, id)
  {
    if rows != [] { OneRunMore(rows[..|rows| - 1], ids, id); }
  }

  lemma {:induction false} NothingAttached(rows: seq<EventRow>)
    ensures Attached(rows, {}) == 0
  {
    if rows != [] { NothingAttached(rows[..|rows| - 1]); }
  }

  /** The counts of any timeline add up to the event rows of the runs it shows. */
  lemma {:induction false} CountsAreTheAttachedRows(rows: seq<TimelineRow>, t: Tables)
    requires DistinctRows(rows, t)
    ensures TotalCount(rows) == Attached(t.events, IdsOf(rows))
  {
    if rows == [] {
      NothingAttached(t.events);
      assert IdsOf(rows) == {};
    } else {
      var n := |rows| - 1;
      CountsAreTheAttachedRows(rows[..n], t);
      assert rows == rows[..n] + [rows[n]];
      assert IdsOf(rows) == IdsOf(rows[..n]) + {rows[n].runId};
      assert forall r <- rows[..n] :: r.runId != rows[n].runId;
      OneRunMore(t.events, IdsOf(rows[..n]), rows[n].runId);
    }
  }

  /** No event row lacks its report row. */
  ghost predicate NoOrphans(t: Tables) {
    forall row <- t.events :: row.runId in t.reports
  }

  lemma {:induction false} AttachedExactly(rows: seq<EventRow>, ids: set<string>)
    ensures Attached(rows, ids) <= |rows|
    ensures Attached(rows, ids) == |rows| <==> forall row <- rows :: row.runId in ids
  {
    if rows != [] {
      var n := |rows| - 1;
      AttachedExactly(rows[..n], ids);
      assert rows == rows[..n] + [rows[n]];
    }
  }

  /** A timeline of all reports accounts for the whole event table exactly when no event is
      orphaned. */
  lemma FullTimelineAddsUpExactly(rows: seq<TimelineRow>, t: Tables)
    requires DistinctRows(rows, t) && IdsOf(rows) == t.reports.Keys
    ensures TotalCount(rows) == |t.events| <==> NoOrphans(t)
  {
    CountsAreTheAttachedRows(rows, t);
    AttachedExactly(t.events, IdsOf(rows));
  }

  // ---------------------------------------------------------------- runs of ingests

  ghost predicate ValidRun(gs: seq<Ingest>) {
    forall g <- gs :: ValidIngest(g) && HasStableId(g.report)
  }

  ghost function AfterAll(gs: seq<Ingest>, digest: Digest): Tables
    requires ValidRun(gs)
  {
    if gs == [] then Tables(map[], [])
    else After(AfterAll(gs[..|gs| - 1], digest), gs[|gs| - 1], digest)
  }

  /** The events of all ingests of one run. */
  ghost function EventsIngested(gs: seq<Ingest>, digest: Digest, id: string): nat
    requires ValidRun(gs)
  {
    if gs == [] then 0
    else
      var g := gs[|gs| - 1];
      EventsIngested(gs[..|gs| - 1], digest, id)
      + if StableId(g.report, digest) == id then |EventsOf(g.report)| else 0
  }

  /** What a run of ingests does, one ingest at a time, and what the laws below add up. */
  lemma OneMoreIngest(gs: seq<Ingest>, g: Ingest, digest: Digest, id: string)
    requires ValidRun(gs + [g])
    ensures ValidRun(gs) && ValidIngest(g) && HasStableId(g.report)
    ensures AfterAll(gs + [g], digest) == After(AfterAll(gs, digest), g, digest)
    ensures EventsIngested(gs + [g], digest, id)
         == EventsIngested(gs, digest, id) + if StableId(g.report, digest) == id then |EventsOf(g.report)| else 0
    ensures g.report.runId.Some? ==> StableId(g.report, digest) == g.report.runId.value
    ensures g.report.runId.None? ==>
              var runner := if g.report.runner.Some? then g.report.runner.value else "anon";
              && g.report.generatedAt.Some?
              && StableId(g.report, digest) == runner + "-" + digest(runner + "-" + g.report.generatedAt.value)
  {
    hide EventsOf, After;
    assert g in gs + [g] && forall h <- gs :: h in gs + [g];
    assert (gs + [g])[..|gs|] == gs;
  }

  lemma ValidRunsInPlainTerms(gs: seq<Ingest>, g: Ingest)
    ensures ValidRun([])
    ensures ValidRun(gs + [g])
            <==> && ValidRun(gs) && |g.stamps| == |EventsOf(g.report)| + 1
                 && (g.report.runId.Some? || g.report.generatedAt.Some?)
  {
    hide EventsOf;
    assert g in gs + [g] && forall h <- gs :: h in gs + [g];
  }

  lemma LastInPlainTerms(gs: seq<Ingest>, g: Ingest, digest: Digest, i: nat)
    requires ValidRun(gs + [g])
    ensures ValidRun(gs) && HasStableId(g.report)
    ensures IsLastOfItsRun(gs + [g], digest, |gs|)
    ensures i < |gs| ==>
              && gs[i] in gs
              && (IsLastOfItsRun(gs + [g], digest, i)
                  <==> IsLastOfItsRun(gs, digest, i) && StableId(g.report, digest) != StableId(gs[i].report, digest))
  {
    hide EventsOf, StableId;
    var all, n := gs + [g], |gs|;
    assert all[n] == g && g in all && forall h <- gs :: h in all;
    assert forall k :: 0 <= k < n ==> all[k] == gs[k];
  }

  lemma NothingIngested(digest: Digest, id: string)
    ensures AfterAll([], digest) == Tables(map[], []) && EventsIngested([], digest, id) == 0
  {}

  lemma OneMoreRowCounts(rows: seq<TimelineRow>, row: TimelineRow)
    ensures TotalCount([]) == 0 && TotalCount(rows + [row]) == TotalCount(rows) + row.count
  {
    assert (rows + [row])[..|rows|] == rows;
  }

  lemma {:induction false} RowsConcat(a: seq<EventRow>, b: seq<EventRow>, id: string)
    ensures RowsOf(a + b, id) == RowsOf(a, id) + RowsOf(b, id)
    decreases |b|
  {
    if b == [] {
      assert a + b == a;
    } else {
      RowsConcat(a, b[..|b| - 1], id);
      assert (a + b)[..|a + b| - 1] == a + b[..|b| - 1];
    }
  }

  lemma {:induction false} RowsOfOneRun(rows: seq<EventRow>, runId: string, id: string)
    requires forall i :: 0 <= i < |rows| ==> rows[i].runId == runId
    ensures RowsOf(rows, id) == if runId == id then |rows| else 0
  {
    if rows != [] { RowsOfOneRun(rows[..|rows| - 1], runId, id); }
  }

  lemma LastIngest(gs: seq<Ingest>, digest: Digest)
    requires gs != [] && ValidRun(gs)
    ensures var n := |gs| - 1;
            && ValidRun(gs[..n]) && ValidIngest(gs[n]) && HasStableId(gs[n].report)
            && AfterAll(gs, digest) == After(AfterAll(gs[..n], digest), gs[n], digest)
            && AfterAll(gs, digest).reports
               == AfterAll(gs[..n], digest).reports[StableId(gs[n].report, digest) := RowOf(gs[n].report)]
            && AfterAll(gs, digest).events == AfterAll(gs[..n], digest).events + NewRows(gs[n], digest)
            && forall row <- NewRows(gs[n], digest) :: row.runId == StableId(gs[n].report, digest)
  {
    hide EventsOf, RunIdOf;
    var n := |gs| - 1;
    assert gs[n] in gs;
    StableIdIgnoresTheClock(gs[n].report, digest, gs[n].stamps[0]);
    forall i | 0 <= i < |NewRows(gs[n], digest)|
      ensures NewRows(gs[n], digest)[i].runId == StableId(gs[n].report, digest)
    {
      StableIdIgnoresTheClock(gs[n].report, digest, gs[n].stamps[i + 1]);
    }
  }

  /** `i` is the last ingest under its run id. */
  ghost predicate IsLastOfItsRun(gs: seq<Ingest>, digest: Digest, i: nat)
    requires ValidRun(gs) && i < |gs|
  {
    assert forall k :: 0 <= k < |gs| ==> gs[k] in gs;
    forall j :: i < j < |gs| ==> StableId(gs[j].report, digest) != StableId(gs[i].report, digest)
  }

  /** After any sequence of ingests of self-naming reports no event is orphaned. */
  lemma {:induction false} NeverOrphans(gs: seq<Ingest>, digest: Digest)
    requires ValidRun(gs)
    ensures NoOrphans(AfterAll(gs, digest))
  {
    if gs != [] {
      hide AfterAll, NewRows, EventsOf, StableId;
      var n := |gs| - 1;
      LastIngest(gs, digest);
      NeverOrphans(gs[..n], digest);
      assert AfterAll(gs, digest).events == AfterAll(gs[..n], digest).events + NewRows(gs[n], digest);
    }
  }

  /** The report table has one row per run id ever ingested. */
  lemma {:induction false} OneRowPerRun(gs: seq<Ingest>, digest: Digest, id: string)
    requires ValidRun(gs)
    ensures id in AfterAll(gs, digest).reports <==> EverIngested(gs, digest, id)
  {
    if gs != [] {
      hide AfterAll, NewRows, EventsOf, StableId, EverIngested;
      var n := |gs| - 1;
      LastIngest(gs, digest);
      OneRowPerRun(gs[..n], digest, id);
      EverIngestedStep(gs, digest, id);
    }
  }

  ghost predicate EverIngested(gs: seq<Ingest>, digest: Digest, id: string)
    requires ValidRun(gs)
  {
    exists g <- gs :: StableId(g.report, digest) == id
  }

  lemma EverIngestedStep(gs: seq<Ingest>, digest: Digest, id: string)
    requires gs != [] && ValidRun(gs)
    ensures var n := |gs| - 1;
            && gs[n] in gs && ValidRun(gs[..n])
            && (EverIngested(gs, digest, id)
                <==> EverIngested(gs[..n], digest, id) || StableId(gs[n].report, digest) == id)
  {
    hide StableId, EventsOf;
    assert gs == gs[..|gs| - 1] + [gs[|gs| - 1]];
  }

  /** A run's row is that of its last ingest. */
  lemma {:induction false} LastIngestWins(gs: seq<Ingest>, digest: Digest, i: nat)
    requires ValidRun(gs) && i < |gs| && IsLastOfItsRun(gs, digest, i)
    ensures gs[i] in gs && StableId(gs[i].report, digest) in AfterAll(gs, digest).reports
    ensures AfterAll(gs, digest).reports[StableId(gs[i].report, digest)] == RowOf(gs[i].report)
  {
    hide AfterAll, NewRows, EventsOf, StableId;
    var n := |gs| - 1;
    LastIngest(gs, digest);
    assert gs[i] in gs;
    if i < n {
      var before := gs[..n];
      assert before[i] == gs[i];
      assert forall k :: 0 <= k < n ==> before[k] == gs[k] && gs[k] in gs;
      LastIngestWins(before, digest, i);
      assert StableId(gs[n].report, digest) != StableId(gs[i].report, digest);
    }
  }

  /** A run's events are those of all its ingests, not of the last alone. */
  lemma {:induction false} EventsAccumulate(gs: seq<Ingest>, digest: Digest, id: string)
    requires ValidRun(gs)
    ensures RowsOf(AfterAll(gs, digest).events, id) == EventsIngested(gs, digest, id)
  {
    if gs != [] {
      hide AfterAll, NewRows, EventsOf, StableId;
      var n := |gs| - 1;
      LastIngest(gs, digest);
      EventsAccumulate(gs[..n], digest, id);
      var rows := NewRows(gs[n], digest);
      RowsConcat(AfterAll(gs[..n], digest).events, rows, id);
      assert forall k :: 0 <= k < |rows| ==> rows[k] in rows;
      RowsOfOneRun(rows, StableId(gs[n].report, digest), id);
      NewRowCount(gs[n], digest);
    }
  }

  /** So a full timeline of self-naming reports accounts for every event, each of its rows
      shows the events of all ingests of its run, and no more of them block or advise than
      there are. */
  lemma {:induction false} TimelineOfARun(gs: seq<Ingest>, digest: Digest, rows: seq<TimelineRow>)
    requires ValidRun(gs)
    requires DistinctRows(rows, AfterAll(gs, digest)) && IdsOf(rows) == AfterAll(gs, digest).reports.Keys
    ensures TotalCount(rows) == |AfterAll(gs, digest).events|
    ensures forall i :: 0 <= i < |rows| ==>
              && rows[i].count == EventsIngested(gs, digest, rows[i].runId)
              && rows[i].blocking + rows[i].advisory <= rows[i].count
  {
    hide AfterAll;
    var t := AfterAll(gs, digest);
    NeverOrphans(gs, digest);
    FullTimelineAddsUpExactly(rows, t);
    forall i | 0 <= i < |rows|
      ensures rows[i].count == EventsIngested(gs, digest, rows[i].runId)
      ensures rows[i].blocking + rows[i].advisory <= rows[i].count
    {
      EventsAccumulate(gs, digest, rows[i].runId);
      ClassesStayWithinTheCount(t.events, rows[i].runId);
    }
  }

  lemma NewRowCount(g: Ingest, digest: Digest)
    requires ValidIngest(g)
    ensures |NewRows(g, digest)| == |EventsOf(g.report)|
  {}

  /** Ingesting a report twice keeps its one row and doubles its events. */
  lemma SecondIngestDoublesTheEvents(t: Tables, g: Ingest, digest: Digest)
    requires ValidIngest(g) && HasStableId(g.report)
    ensures var once, twice := After(t, g, digest), After(After(t, g, digest), g, digest);
            && twice.reports == once.reports
            && RowsOf(twice.events, StableId(g.report, digest))
               == RowsOf(t.events, StableId(g.report, digest)) + 2 * |EventsOf(g.report)|
  {
    var id, rows := StableId(g.report, digest), NewRows(g, digest);
    StableIdIgnoresTheClock(g.report, digest, g.stamps[0]);
    forall i | 0 <= i < |rows| ensures rows[i].runId == id {
      StableIdIgnoresTheClock(g.report, digest, g.stamps[i + 1]);
    }
    RowsOfOneRun(rows, id, id);
    RowsConcat(t.events, rows, id);
    RowsConcat(t.events + rows, rows, id);
  }

  /** An ingest keeps the table free of orphans if the report names itself. If it does not, and
      each clock reading makes a new id, it keeps it free exactly when it has no events. */
  lemma OrphansAppearExactlyWithoutIdentity(t: Tables, g: Ingest, digest: Digest)
    requires ValidIngest(g) && NoOrphans(t)
    requires !HasStableId(g.report) ==>
               && (forall s <- g.stamps :: RunIdOf(g.report, digest, s) !in t.reports)
               && (forall i, j :: 0 <= i < j < |g.stamps| ==>
                     RunIdOf(g.report, digest, g.stamps[i]) != RunIdOf(g.report, digest, g.stamps[j]))
    ensures NoOrphans(After(t, g, digest)) <==> HasStableId(g.report) || EventsOf(g.report) == []
  {
    var later, rows := After(t, g, digest), NewRows(g, digest);
    if HasStableId(g.report) {
      StableIdIgnoresTheClock(g.report, digest, g.stamps[0]);
      forall row | row in rows ensures row.runId in later.reports {
        var i :| 0 <= i < |rows| && rows[i] == row;
        StableIdIgnoresTheClock(g.report, digest, g.stamps[i + 1]);
      }
    } else if EventsOf(g.report) != [] {
      assert rows[0] in later.events;
      assert g.stamps[1] in g.stamps;
      assert rows[0].runId !in later.reports;
    }
  }
}
