/** The JSON report of audit/unified_audit_runner.cpp: the comma loops over sections and their
    modules, and the whole document. */
module JsonReport {
  import opened AuditRunner
  import opened JsonDocument
  import opened JsonString
  import opened NumberText
  import opened PrintedPieces
  import opened Wrappers

  // ---------------------------------------------------------------- module rows

  function ModuleMembers(r: ModuleResult): seq<Member> {
    [TextMember("id", r.id), TextMember("name", r.name), BoolMember("passed", r.passed),
     BoolMember("advisory", r.advisory), IntMember("return_code", r.returnCode), TenthsMember("time_ms", r.elapsedMs)]
  }

  function ModulePieces(r: ModuleResult): seq<Piece> {
    ObjectPieces(Indent(8), [
      RawField("id", r.id), TextField("name", r.name), BoolField("passed", r.passed),
      BoolField("advisory", r.advisory), IntField("return_code", r.returnCode), TenthsField("time_ms", r.elapsedMs)],
      " ", " ")
  }

  lemma ModulePrints(r: ModuleResult)
    ensures Prints(ModulePieces(r), Obj(ModuleMembers(r)))
    ensures AllRead(ModulePieces(r)) <==> RawSafe(r.id)
  {
    hide RawSafe, Carries, RawField, TextField, BoolField, IntField, TenthsField, AllRead;
    hide TextMember, BoolMember, IntMember, TenthsMember, ObjectPieces, Prints;
    RawCarries("id", r.id);
    TextCarries("name", r.name);
    WordsCarry();
    var fs := [
      RawField("id", r.id), TextField("name", r.name), BoolField("passed", r.passed),
      BoolField("advisory", r.advisory), IntField("return_code", r.returnCode), TenthsField("time_ms", r.elapsedMs)];
    assert CarriesAll(fs, ModuleMembers(r));
    assert FieldsRead(fs) <==> AllRead(fs[0].pieces);
    ObjectPrints(Indent(8), fs, ModuleMembers(r), " ", " ");
  }

  ghost function ModuleValues(rs: seq<ModuleResult>): seq<Value> {
    seq(|rs|, i requires 0 <= i < |rs| => Obj(ModuleMembers(rs[i])))
  }

  /** The raw-printed ids need no escape. */
  ghost predicate RawIds(rs: seq<ModuleResult>) {
    forall k :: 0 <= k < |rs| ==> RawSafe(rs[k].id)
  }

  lemma OneMoreId(rs: seq<ModuleResult>, r: ModuleResult)
    ensures RawIds(rs + [r]) <==> RawIds(rs) && RawSafe(r.id)
    ensures ModuleValues(rs + [r]) == ModuleValues(rs) + [Obj(ModuleMembers(r))]
  {
    hide RawSafe, ModuleMembers;
    assert (rs + [r])[|rs|] == r;
    assert forall k :: 0 <= k < |rs| ==> (rs + [r])[k] == rs[k];
  }

  lemma NoIds()
    ensures ModuleValues([]) == [] && RawIds([])
  {}

  /** The nested modules of a section: the `first` flag decides each comma. */
  method PrintModules(rs: seq<ModuleResult>, section: string) returns (out: seq<Piece>)
    ensures PrintsItems(out, ModuleValues(InSection(rs, section)))
    ensures AllRead(out) <==> RawIds(InSection(rs, section))
  {
    hide PrintsItems, Prints, ModulePieces, ModuleMembers, ModuleValues, RawIds, AllRead, RawSafe;
    NoItemsPrinted();
    NoIds();
    out := [];
    var first := true;
    for i := 0 to |rs|
      invariant PrintsItems(out, ModuleValues(InSection(rs[..i], section)))
      invariant AllRead(out) <==> RawIds(InSection(rs[..i], section))
      invariant first <==> ModuleValues(InSection(rs[..i], section)) == []
    {
      var r := rs[i];
      ghost var mine := InSection(rs[..i], section);
      OneMoreInSection(rs, i, section);
      if r.section != section { continue; }
      ModulePrints(r);
      ItemAdded(out, ModuleValues(mine), ModulePieces(r), Obj(ModuleMembers(r)));
      OneMoreId(mine, r);
      out := out + (if first then [] else COMMA) + ModulePieces(r);
      first := false;
    }
    assert rs[..|rs|] == rs;
  }

  // ---------------------------------------------------------------- sections

  function StatusWord(failed: nat): string {
    if failed == 0 then "PASS" else "FAIL"
  }

  function SectionHead(s: SectionSummary): seq<Member> {
    [TextMember("id", s.id), TextMember("title", s.title), IntMember("total", s.total),
     IntMember("passed", s.passed), IntMember("failed", s.failed), IntMember("advisory_skipped", s.advisorySkipped),
     IntMember("advisory_failed", s.advisoryFailed), TenthsMember("time_ms", s.timeMs),
     TextMember("status", StatusWord(s.failed))]
  }

  function SectionFields(s: SectionSummary): seq<Field> {
    [RawField("id", s.id), TextField("title", s.title), IntField("total", s.total),
     IntField("passed", s.passed), IntField("failed", s.failed), IntField("advisory_skipped", s.advisorySkipped),
     IntField("advisory_failed", s.advisoryFailed), TenthsField("time_ms", s.timeMs),
     TextField("status", StatusWord(s.failed))]
  }

  lemma SectionHeadCarries(s: SectionSummary)
    ensures CarriesAll(SectionFields(s), SectionHead(s))
    ensures FieldsRead(SectionFields(s)) <==> RawSafe(s.id)
  {
    hide RawSafe, RawField, TextField, IntField, TenthsField, AllRead, TextMember, IntMember, TenthsMember, Carries;
    RawCarries("id", s.id);
    TextsCarry();
    WordsCarry();
    assert FieldsRead(SectionFields(s)) <==> AllRead(SectionFields(s)[0].pieces);
  }

  /** A section's object as a reader is meant to see it. */
  ghost function SectionMembers(s: SectionSummary, rs: seq<ModuleResult>): seq<Member> {
    SectionHead(s) + [Member("modules", Arr(ModuleValues(InSection(rs, s.id))))]
  }

  /** What is printed raw under a section heading needs no escape. */
  ghost predicate RawSection(id: string, rs: seq<ModuleResult>) {
    RawSafe(id) && RawIds(InSection(rs, id))
  }

  method PrintSection(s: SectionSummary, rs: seq<ModuleResult>) returns (out: seq<Piece>)
    ensures Prints(out, Obj(SectionMembers(s, rs)))
    ensures AllRead(out) <==> RawSection(s.id, rs)
  {
    hide RawSafe, RawIds, PrintsItems, Prints, AllRead, Carries, FieldsRead;
    hide ObjectPieces, ModuleValues, ArrayPieces, SectionHead, SectionFields;
    var modules := PrintModules(rs, s.id);
    ghost var value := Arr(ModuleValues(InSection(rs, s.id)));
    ArrayPrints(" ", modules, Indent(6), ModuleValues(InSection(rs, s.id)));
    var last := Field("modules", ArrayPieces(" ", modules, Indent(6)));
    FieldCarries("modules", last.pieces, value);
    SectionHeadCarries(s);
    OneField(last);
    FieldsReadConcat(SectionFields(s), [last]);
    var fs := SectionFields(s) + [last];
    ObjectPrints(Indent(4), fs, SectionMembers(s, rs), Indent(6), Indent(4));
    out := ObjectPieces(Indent(4), fs, Indent(6), Indent(4));
  }

  ghost function SectionValues(ss: seq<SectionSummary>, rs: seq<ModuleResult>): (values: seq<Value>)
    ensures |values| == |ss|
  {
    seq(|ss|, i requires 0 <= i < |ss| => Obj(SectionMembers(ss[i], rs)))
  }

  ghost predicate RawSections(ss: seq<SectionSummary>, rs: seq<ModuleResult>) {
    forall k :: 0 <= k < |ss| ==> RawSection(ss[k].id, rs)
  }

  lemma OneMoreSection(ss: seq<SectionSummary>, i: nat, rs: seq<ModuleResult>)
    requires i < |ss|
    ensures RawSections(ss[..i + 1], rs) <==> RawSections(ss[..i], rs) && RawSection(ss[i].id, rs)
    ensures SectionValues(ss[..i + 1], rs) == SectionValues(ss[..i], rs) + [Obj(SectionMembers(ss[i], rs))]
  {
    hide RawSection, SectionMembers;
    assert ss[..i + 1][i] == ss[i];
    assert forall k :: 0 <= k < i ==> ss[..i + 1][k] == ss[..i][k];
  }

  lemma NoSections(rs: seq<ModuleResult>)
    ensures SectionValues([], rs) == [] && RawSections([], rs)
  {}

  /** The sections: here the comma follows every entry but the last. */
  method PrintSections(ss: seq<SectionSummary>, rs: seq<ModuleResult>) returns (out: seq<Piece>)
    ensures PrintsItems(out, SectionValues(ss, rs))
    ensures AllRead(out) <==> RawSections(ss, rs)
  {
    hide PrintsItems, Prints, SectionMembers, SectionValues, RawSection, RawSections, AllRead;
    NoItemsPrinted();
    NoSections(rs);
    out := [];
    ghost var items: seq<Piece> := [];
    for i := 0 to |ss|
      invariant PrintsItems(items, SectionValues(ss[..i], rs))
      invariant AllRead(items) <==> RawSections(ss[..i], rs)
      invariant out == items + if 0 < i < |ss| then COMMA else []
    {
      var section := PrintSection(ss[i], rs);
      ItemAdded(items, SectionValues(ss[..i], rs), section, Obj(SectionMembers(ss[i], rs)));
      OneMoreSection(ss, i, rs);
      items := out + section;
      out := out + section + if i + 1 < |ss| then COMMA else [];
    }
    assert ss[..|ss|] == ss;
    assert out == items;
  }

  // ---------------------------------------------------------------- the JSON report

  function VerdictText(v: Verdict): string {
    match v
    case Ready => "AUDIT-READY" case ReadyDegraded => "AUDIT-READY-DEGRADED" case Blocked => "AUDIT-BLOCKED"
  }

  function PlatformMembers(p: Platform): seq<Member> {
    [TextMember("os", p.os), TextMember("arch", p.arch), TextMember("compiler", p.compiler),
     TextMember("build_type", p.buildType)]
  }

  function SummaryMembers(t: Totals, modules: nat, totalMs: real, v: Verdict): seq<Member> {
    [IntMember("total_modules", modules + 1), IntMember("passed", t.pass), IntMember("failed", t.fail),
     IntMember("advisory_warnings", t.advisory), IntMember("advisory_skipped", t.advisorySkipped),
     IntMember("advisory_failed", t.advisoryFailed), BoolMember("all_passed", t.fail == 0),
     TenthsMember("total_time_ms", totalMs), TextMember("audit_verdict", VerdictText(v))]
  }

  function SelftestMembers(selftest: bool, selftestMs: real): seq<Member> {
    [BoolMember("passed", selftest), TenthsMember("time_ms", selftestMs)]
  }

  /** The document a reader of the JSON report is meant to see. */
  ghost function ReportMembers(
    p: Platform, t: Totals, v: Verdict, ss: seq<SectionSummary>, rs: seq<ModuleResult>,
    selftest: bool, selftestMs: real, totalMs: real): seq<Member>
  {
    HeaderMembers(p) + [
      Member("platform", Obj(PlatformMembers(p))),
      Member("summary", Obj(SummaryMembers(t, |rs|, totalMs, v))),
      Member("selftest", Obj(SelftestMembers(selftest, selftestMs))),
      Member("sections", Arr(SectionValues(ss, rs)))]
  }

  function HeaderMembers(p: Platform): seq<Member> {
    [TextMember("report_type", "industrial_self_audit"), TextMember("library", "UltrafastSecp256k1"),
     TextMember("library_version", p.libraryVersion), TextMember("git_hash", p.gitHash),
     TextMember("audit_framework_version", p.frameworkVersion), TextMember("timestamp", p.timestamp)]
  }

  function HeaderFields(p: Platform): seq<Field> {
    [TextField("report_type", "industrial_self_audit"), TextField("library", "UltrafastSecp256k1"),
     TextField("library_version", p.libraryVersion), TextField("git_hash", p.gitHash),
     TextField("audit_framework_version", p.frameworkVersion), TextField("timestamp", p.timestamp)]
  }

  lemma HeaderCarries(p: Platform)
    ensures CarriesAll(HeaderFields(p), HeaderMembers(p)) && FieldsRead(HeaderFields(p))
  {
    hide Carries, TextField, TextMember, AllRead;
    TextsCarry();
  }

  method PrintPlatform(p: Platform) returns (out: seq<Piece>)
    ensures Prints(out, Obj(PlatformMembers(p))) && AllRead(out)
  {
    hide Prints, TextField, TextMember, ObjectPieces, AllRead;
    var fs := [
      TextField("os", p.os), TextField("arch", p.arch), TextField("compiler", p.compiler),
      TextField("build_type", p.buildType)];
    TextsCarry();
    ObjectPrints(" ", fs, PlatformMembers(p), Indent(4), Indent(2));
    out := ObjectPieces(" ", fs, Indent(4), Indent(2));
  }

  method PrintSummary(t: Totals, modules: nat, totalMs: real, v: Verdict) returns (out: seq<Piece>)
    ensures Prints(out, Obj(SummaryMembers(t, modules, totalMs, v))) && AllRead(out)
  {
    hide Prints, TextField, TextMember, IntField, IntMember, BoolField, BoolMember;
    hide TenthsField, TenthsMember, ObjectPieces, AllRead;
    var fs := [
      IntField("total_modules", modules + 1), IntField("passed", t.pass), IntField("failed", t.fail),
      IntField("advisory_warnings", t.advisory), IntField("advisory_skipped", t.advisorySkipped),
      IntField("advisory_failed", t.advisoryFailed), BoolField("all_passed", t.fail == 0),
      TenthsField("total_time_ms", totalMs), TextField("audit_verdict", VerdictText(v))];
    TextCarries("audit_verdict", VerdictText(v));
    WordsCarry();
    ObjectPrints(" ", fs, SummaryMembers(t, modules, totalMs, v), Indent(4), Indent(2));
    out := ObjectPieces(" ", fs, Indent(4), Indent(2));
  }

  method PrintSelftest(selftest: bool, selftestMs: real) returns (out: seq<Piece>)
    ensures Prints(out, Obj(SelftestMembers(selftest, selftestMs))) && AllRead(out)
  {
    hide Prints, BoolField, BoolMember, TenthsField, TenthsMember, ObjectPieces, AllRead;
    var fs := [BoolField("passed", selftest), TenthsField("time_ms", selftestMs)];
    WordsCarry();
    ObjectPrints(" ", fs, SelftestMembers(selftest, selftestMs), Indent(4), Indent(2));
    out := ObjectPieces(" ", fs, Indent(4), Indent(2));
  }

  /** What is printed raw under the headings of the report needs no escape. */
  ghost predicate RawHeadings(sections: seq<SectionInfo>, rs: seq<ModuleResult>) {
    forall k :: 0 <= k < |sections| ==> RawSection(sections[k].id, rs)
  }

  lemma RawSummaries(sections: seq<SectionInfo>, rs: seq<ModuleResult>)
    ensures RawSections(SummariesOf(sections, rs), rs) <==> RawHeadings(sections, rs)
  {
    hide RawSection;
    var ss := SummariesOf(sections, rs);
    assert forall k :: 0 <= k < |sections| ==> ss[k].id == sections[k].id;
  }

  /** The document a reader of a run's report is meant to see. */
  ghost function Intended(
    p: Platform, rs: seq<ModuleResult>, sections: seq<SectionInfo>, selftest: bool, selftestMs: real, totalMs: real):
    Value
  {
    Obj(ReportMembers(
      p, TotalsOf(rs, selftest), VerdictOf(rs, selftest), SummariesOf(sections, rs), rs, selftest, selftestMs, totalMs))
  }

  /** The report's own fields. */
  lemma PrintedHeader(
    p: Platform, rs: seq<ModuleResult>, sections: seq<SectionInfo>, selftest: bool, selftestMs: real, totalMs: real)
    ensures Intended(p, rs, sections, selftest, selftestMs, totalMs).Obj?
    ensures var ms := Intended(p, rs, sections, selftest, selftestMs, totalMs).members;
            && |ms| == 10
            && ms[0] == Member("report_type", Txt("industrial_self_audit"))
            && ms[1] == Member("library", Txt("UltrafastSecp256k1"))
            && ms[2] == Member("library_version", Txt(p.libraryVersion))
            && ms[3] == Member("git_hash", Txt(p.gitHash))
            && ms[4] == Member("audit_framework_version", Txt(p.frameworkVersion))
            && ms[5] == Member("timestamp", Txt(p.timestamp))
            && ms[6] == Member("platform", Obj([
                 Member("os", Txt(p.os)), Member("arch", Txt(p.arch)), Member("compiler", Txt(p.compiler)),
                 Member("build_type", Txt(p.buildType))]))
            && ms[8] == Member("selftest", Obj([
                 Member("passed", Atom(if selftest then "true" else "false")),
                 Member("time_ms", Atom(TenthsText(selftestMs)))]))
  {
    hide TotalsOf, VerdictOf, SummariesOf, SummaryMembers, SectionValues;
  }

  /** The printed totals count the results by their fields, and the selftest. */
  lemma PrintedTotals(
    p: Platform, rs: seq<ModuleResult>, sections: seq<SectionInfo>, selftest: bool, selftestMs: real, totalMs: real)
    ensures var ms := Intended(p, rs, sections, selftest, selftestMs, totalMs).members;
            && |ms| == 10 && ms[7].key == "summary" && ms[7].value.Obj?
            && var m, bonus := ms[7].value.members, if selftest then 1 else 0;
               && |m| == 9
               && m[0] == Member("total_modules", Atom(IntText(|rs| + 1)))
               && m[1] == Member("passed", Atom(IntText(|set i | 0 <= i < |rs| && rs[i].passed| + bonus)))
               && m[2] == Member("failed", Atom(IntText(
                    |set i | 0 <= i < |rs| && !rs[i].passed && !rs[i].advisory| + 1 - bonus)))
               && m[3] == Member("advisory_warnings", Atom(IntText(
                    |set i | 0 <= i < |rs| && !rs[i].passed && rs[i].advisory|)))
               && m[4] == Member("advisory_skipped", Atom(IntText(
                    |set i | 0 <= i < |rs| && !rs[i].passed && rs[i].advisory && rs[i].returnCode == 77|)))
               && m[5] == Member("advisory_failed", Atom(IntText(
                    |set i | 0 <= i < |rs| && !rs[i].passed && rs[i].advisory && rs[i].returnCode != 77|)))
               && m[7] == Member("total_time_ms", Atom(TenthsText(totalMs)))
  {
    hide TotalsOf, VerdictOf, SummariesOf, SectionValues, IntText, TenthsText, PlatformMembers, SelftestMembers;
    TotalsInPlainTerms(rs, selftest);
  }

  /** The printed verdict: "AUDIT-BLOCKED" exactly when the selftest or a mandatory module failed,
      "AUDIT-READY" exactly when the selftest passed and each module passed or is advisory and was
      skipped, "AUDIT-READY-DEGRADED" otherwise; and `all_passed` is false exactly when blocked. */
  lemma PrintedVerdict(
    p: Platform, rs: seq<ModuleResult>, sections: seq<SectionInfo>, selftest: bool, selftestMs: real, totalMs: real)
    ensures var ms := Intended(p, rs, sections, selftest, selftestMs, totalMs).members;
            && |ms| == 10 && ms[7].key == "summary" && ms[7].value.Obj?
            && var m := ms[7].value.members;
               && |m| == 9 && m[8].key == "audit_verdict"
               && m[8].value in {Txt("AUDIT-BLOCKED"), Txt("AUDIT-READY"), Txt("AUDIT-READY-DEGRADED")}
               && (m[8].value == Txt("AUDIT-BLOCKED") <==> !selftest || exists r <- rs :: !r.passed && !r.advisory)
               && (m[8].value == Txt("AUDIT-READY")
                   <==> selftest && forall r <- rs :: r.passed || (r.advisory && r.returnCode == 77))
               && m[6] == Member("all_passed", Atom(
                    if !selftest || exists r <- rs :: !r.passed && !r.advisory then "false" else "true"))
  {
    hide Count, SummariesOf, SectionValues, IntText, TenthsText;
    VerdictInPlainTerms(rs, selftest);
    CountIsPositiveExactly(rs, Failed);
    hide VerdictOf;
  }

  /** The object of a section: its status is "FAIL" exactly when a mandatory module of it failed. */
  lemma PrintedSection(
    p: Platform, rs: seq<ModuleResult>, sections: seq<SectionInfo>, selftest: bool, selftestMs: real, totalMs: real,
    k: nat)
    requires k < |sections|
    ensures var ms := Intended(p, rs, sections, selftest, selftestMs, totalMs).members;
            && |ms| == 10 && ms[9].key == "sections" && ms[9].value.Arr? && |ms[9].value.items| == |sections|
            && ms[9].value.items[k].Obj?
            && var m, s := ms[9].value.items[k].members, SummaryOf(sections[k], rs);
               && |m| == 10
               && m[0] == Member("id", Txt(sections[k].id)) && m[1] == Member("title", Txt(sections[k].title))
               && m[2] == Member("total", Atom(IntText(s.total)))
               && m[3] == Member("passed", Atom(IntText(s.passed)))
               && m[4] == Member("failed", Atom(IntText(s.failed)))
               && m[5] == Member("advisory_skipped", Atom(IntText(s.advisorySkipped)))
               && m[6] == Member("advisory_failed", Atom(IntText(s.advisoryFailed)))
               && m[7] == Member("time_ms", Atom(TenthsText(s.timeMs)))
               && m[8] == Member("status", Txt(
                    if exists r <- rs :: r.section == sections[k].id && !r.passed && !r.advisory
                    then "FAIL" else "PASS"))
               && m[9].key == "modules" && m[9].value.Arr?
               && |m[9].value.items| == s.total
  {
    hide Count, TotalsOf, VerdictOf, IntText, TenthsText, PlatformMembers, SummaryMembers, SelftestMembers;
    var mine := InSection(rs, sections[k].id);
    CountIsPositiveExactly(mine, Failed);
    forall r ensures r in mine <==> r in rs && r.section == sections[k].id {
      InSectionIsExact(rs, sections[k].id, r);
    }
  }

  /** The modules nested under a section are its results in order, field by field. */
  lemma PrintedModule(
    p: Platform, rs: seq<ModuleResult>, sections: seq<SectionInfo>, selftest: bool, selftestMs: real, totalMs: real,
    k: nat, j: nat)
    requires k < |sections| && j < |InSection(rs, sections[k].id)|
    ensures var section, r := Intended(p, rs, sections, selftest, selftestMs, totalMs).members[9].value.items[k],
                              InSection(rs, sections[k].id)[j];
            section.members[9].value.items[j] == Obj([
              Member("id", Txt(r.id)), Member("name", Txt(r.name)),
              Member("passed", Atom(if r.passed then "true" else "false")),
              Member("advisory", Atom(if r.advisory then "true" else "false")),
              Member("return_code", Atom(IntText(r.returnCode))), Member("time_ms", Atom(TenthsText(r.elapsedMs)))])
  {
    hide Count, TotalsOf, VerdictOf, IntText, TenthsText, PlatformMembers, SummaryMembers, SelftestMembers;
  }

  /** What is printed raw: the ids of the sections and of the modules listed under them. */
  lemma RawHeadingsInPlainTerms(sections: seq<SectionInfo>, rs: seq<ModuleResult>)
    ensures RawHeadings(sections, rs)
            <==> forall s <- sections :: RawSafe(s.id) && forall r <- rs :: r.section == s.id ==> RawSafe(r.id)
  {
    hide RawSafe;
    forall s, r ensures r in InSection(rs, s) <==> r in rs && r.section == s {
      InSectionIsExact(rs, s, r);
    }
    forall s ensures RawIds(InSection(rs, s)) <==> forall r <- rs :: r.section == s ==> RawSafe(r.id) {
      var mine := InSection(rs, s);
      assert RawIds(mine) <==> forall r <- mine :: RawSafe(r.id);
    }
  }

  /** The whole JSON report. A conforming reader takes it for the intended document, with the
      totals and the verdict of these very results, one summary per section and under each
      section its own modules in order, exactly when the raw-printed ids need no escape. */
  method WriteJsonReport(
    p: Platform, rs: seq<ModuleResult>, sections: seq<SectionInfo>, selftest: bool, selftestMs: real, totalMs: real)
    returns (text: string)
    ensures ParseText(text) == Some(Intended(p, rs, sections, selftest, selftestMs, totalMs))
            <==> RawHeadings(sections, rs)
  {
    hide Prints, PrintsItems, TextField, TextMember, ObjectPieces, ArrayPieces, ParseText, SectionValues, AllRead;
    hide PlatformMembers, SummaryMembers, SelftestMembers, HeaderFields, HeaderMembers, SummaryOf, TotalsOf, VerdictOf;
    hide RawSections, RawHeadings;
    var totals, verdict := JsonTotals(rs, selftest);
    var summaries := ComputeSectionSummaries(rs, sections);
    var platform := PrintPlatform(p);
    var summary := PrintSummary(totals, |rs|, totalMs, verdict);
    var selftestObject := PrintSelftest(selftest, selftestMs);
    RawSummaries(sections, rs);
    var items := PrintSections(summaries, rs);
    ArrayPrints(" ", items, Indent(2), SectionValues(summaries, rs));
    var nested := [
      Field("platform", platform), Field("summary", summary), Field("selftest", selftestObject),
      Field("sections", ArrayPieces(" ", items, Indent(2)))];
    var fs := HeaderFields(p) + nested;
    HeaderCarries(p);
    ghost var ms := ReportMembers(p, totals, verdict, summaries, rs, selftest, selftestMs, totalMs);
    assert CarriesAll(nested, ms[|HeaderMembers(p)|..]);
    assert CarriesAll(fs, ms);
    assert FieldsRead(nested) <==> AllRead(nested[3].pieces);
    FieldsReadConcat(HeaderFields(p), nested);
    ObjectPrints("", fs, ms, Indent(2), Indent(0));
    var pieces := ObjectPieces("", fs, Indent(2), Indent(0));
    PrintedValueParsesExactly(pieces, Obj(ms), Indent(0));
    text := Text(pieces) + Indent(0);
  }
}
