/** The SARIF report of audit/unified_audit_runner.cpp: the rule and result loops and the whole
    document around them. */
module SarifReport {
  import opened AuditRunner
  import opened JsonDocument
  import opened JsonString
  import opened NumberText
  import opened PrintedPieces
  import opened Rounding
  import opened Wrappers

  // ---------------------------------------------------------------- SARIF rules

  function RuleMembers(ruleId: string, name: string, level: string, section: string): seq<Member> {
    [TextMember("id", ruleId), TextMember("name", name),
     Member("shortDescription", Obj([TextMember("text", name)])),
     Member("defaultConfiguration", Obj([TextMember("level", level)])),
     Member("properties", Obj([TextMember("section", section)]))]
  }

  /** `{ "key": value }` on one line. */
  function Wrapped(key: string, f: Field): Field {
    Field(key, ObjectPieces(" ", [f], " ", " "))
  }

  lemma WrappedCarries(key: string, f: Field, m: Member)
    requires Carries(f, m)
    ensures Carries(Wrapped(key, f), Member(key, Obj([m])))
    ensures AllRead(Wrapped(key, f).pieces) <==> AllRead(f.pieces)
  {
    hide ObjectPieces, AllRead, Prints;
    OneFieldPrints(f, m);
  }

  function RulePieces(ruleId: string, name: string, level: string, section: string): seq<Piece> {
    ObjectPieces(Indent(12), [
      RawField("id", ruleId), TextField("name", name), Wrapped("shortDescription", TextField("text", name)),
      Wrapped("defaultConfiguration", TextField("level", level)),
      Wrapped("properties", RawField("section", section))],
      Indent(14), Indent(12))
  }

  lemma RulePrints(ruleId: string, name: string, level: string, section: string)
    ensures Prints(RulePieces(ruleId, name, level, section), Obj(RuleMembers(ruleId, name, level, section)))
    ensures AllRead(RulePieces(ruleId, name, level, section)) <==> RawSafe(ruleId) && RawSafe(section)
  {
    hide Prints, RawSafe, RawField, TextField, TextMember, ObjectPieces, AllRead, Carries, Wrapped;
    RawCarries("id", ruleId);
    TextCarries("name", name);
    TextCarries("text", name);
    TextCarries("level", level);
    RawCarries("section", section);
    WrappedCarries("shortDescription", TextField("text", name), TextMember("text", name));
    WrappedCarries("defaultConfiguration", TextField("level", level), TextMember("level", level));
    WrappedCarries("properties", RawField("section", section), TextMember("section", section));
    var fs := [
      RawField("id", ruleId), TextField("name", name), Wrapped("shortDescription", TextField("text", name)),
      Wrapped("defaultConfiguration", TextField("level", level)),
      Wrapped("properties", RawField("section", section))];
    var ms := RuleMembers(ruleId, name, level, section);
    assert CarriesAll(fs, ms);
    assert FieldsRead(fs) <==> AllRead(fs[0].pieces) && AllRead(fs[4].pieces);
    ObjectPrints(Indent(12), fs, ms, Indent(14), Indent(12));
  }

  const SELFTEST_NAME: string := "Library selftest (core KAT)"

  function SelftestRule(): seq<Piece> {
    RulePieces(SELFTEST_RULE, SELFTEST_NAME, "error", "selftest")
  }

  function SelftestRuleValue(): Value {
    Obj(RuleMembers(SELFTEST_RULE, SELFTEST_NAME, "error", "selftest"))
  }

  lemma SelftestRulePrints()
    ensures Prints(SelftestRule(), SelftestRuleValue()) && AllRead(SelftestRule())
  {
    hide RulePieces, RuleMembers, Prints, AllRead;
    RulePrints(SELFTEST_RULE, SELFTEST_NAME, "error", "selftest");
  }

  function Level(m: AuditModule): string {
    if m.advisory then "warning" else "error"
  }

  function ModuleRule(m: AuditModule): seq<Piece> {
    RulePieces(RuleId(m.id), m.name, Level(m), m.section)
  }

  function ModuleRuleValue(m: AuditModule): Value {
    Obj(RuleMembers(RuleId(m.id), m.name, Level(m), m.section))
  }

  lemma RawConcat(a: string, b: string)
    ensures RawSafe(a + b) <==> RawSafe(a) && RawSafe(b)
  {
    assert forall k :: 0 <= k < |a| ==> a[k] == (a + b)[k];
    assert forall k :: 0 <= k < |b| ==> b[k] == (a + b)[|a| + k];
  }

  predicate RawModule(m: AuditModule) {
    RawSafe(m.id) && RawSafe(m.section)
  }

  lemma ModuleRulePrints(m: AuditModule)
    ensures Prints(ModuleRule(m), ModuleRuleValue(m))
    ensures AllRead(ModuleRule(m)) <==> RawModule(m)
  {
    hide RulePieces, RuleMembers, Prints, AllRead;
    RulePrints(RuleId(m.id), m.name, Level(m), m.section);
    RawConcat("AUDIT/", m.id);
  }

  /** The rules a reader is meant to see: the selftest's, then one per registered module. */
  ghost function RuleValues(modules: seq<AuditModule>): (rules: seq<Value>)
    ensures |rules| == |modules| + 1
  {
    [SelftestRuleValue()] + seq(|modules|, i requires 0 <= i < |modules| => ModuleRuleValue(modules[i]))
  }

  ghost predicate RawModules(modules: seq<AuditModule>) {
    forall k :: 0 <= k < |modules| ==> RawModule(modules[k])
  }

  lemma OneMoreRule(modules: seq<AuditModule>, i: nat)
    requires i < |modules|
    ensures RuleValues(modules[..i + 1]) == RuleValues(modules[..i]) + [ModuleRuleValue(modules[i])]
    ensures RawModules(modules[..i + 1]) <==> RawModules(modules[..i]) && RawModule(modules[i])
  {
    hide RawModule, ModuleRuleValue, SelftestRuleValue;
    assert modules[..i + 1][i] == modules[i];
    assert forall k :: 0 <= k < i ==> modules[..i + 1][k] == modules[..i][k];
  }

  lemma NoRules()
    ensures RuleValues([]) == [SelftestRuleValue()] && RawModules([])
    ensures PrintsItems(SelftestRule(), RuleValues([])) && AllRead(SelftestRule())
  {
    hide SelftestRule, SelftestRuleValue, AllRead, Emit;
    SelftestRulePrints();
    OneItemPrints(SelftestRule(), SelftestRuleValue());
  }

  /** The rule loop. The selftest's rule is followed by a comma unconditionally, so without
      modules a comma is left behind. */
  method PrintRules(modules: seq<AuditModule>) returns (out: seq<Piece>)
    ensures modules == [] ==> out == SelftestRule() + COMMA
    ensures modules != [] ==> PrintsItems(out, RuleValues(modules)) && (AllRead(out) <==> RawModules(modules))
  {
    hide PrintsItems, Prints, ModuleRule, ModuleRuleValue, RuleValues, RawModule, RawModules, AllRead, SelftestRule;
    NoRules();
    out := SelftestRule() + COMMA;
    ghost var items := SelftestRule();
    for i := 0 to |modules|
      invariant PrintsItems(items, RuleValues(modules[..i]))
      invariant AllRead(items) <==> RawModules(modules[..i])
      invariant out == items + if i == 0 || i < |modules| then COMMA else []
      invariant i == 0 ==> items == SelftestRule()
    {
      var rule := ModuleRule(modules[i]);
      ModuleRulePrints(modules[i]);
      ItemAdded(items, RuleValues(modules[..i]), rule, ModuleRuleValue(modules[i]));
      OneMoreRule(modules, i);
      items := out + rule;
      out := out + rule + if i + 1 < |modules| then COMMA else [];
    }
    assert modules[..|modules|] == modules;
    assert modules != [] ==> out == items;
  }

  // ---------------------------------------------------------------- SARIF results

  function MessageOf(s: SarifResult): string {
    match s
    case SelftestFailure => "Library selftest (core KAT) FAILED"
    case ModuleFailure(name, id, section, elapsedMs) =>
      "Audit module '" + name + "' FAILED (section: " + section + ", " + UnitsText(elapsedMs) + " ms)"
  }

  /** The message as its format string prints it: the name escaped, all the rest raw. */
  function MessageBody(s: SarifResult): string {
    match s
    case SelftestFailure => "Library selftest (core KAT) FAILED"
    case ModuleFailure(name, id, section, elapsedMs) =>
      "Audit module '" + Escape(name) + "' FAILED (section: " + section + ", " + UnitsText(elapsedMs) + " ms)"
  }

  function MessageField(s: SarifResult): Field {
    Field("text", [Piece(" ", Str(MessageOf(s)), MessageBody(s))])
  }

  /** What the result prints raw needs no escape. */
  predicate RawResult(s: SarifResult) {
    s.ModuleFailure? ==> RawSafe(s.id) && RawSafe(s.section)
  }

  /** A text that is partly escaped, partly raw is read back exactly when the raw part needs no
      escape. */
  lemma {:induction false} HalfRawReadsBackExactly(escaped: string, raw: string)
    ensures ReadsBack(Escape(escaped) + raw, escaped + raw) <==> RawSafe(raw)
    ensures Misread(Escape(escaped) + raw, escaped + raw) <==> !RawSafe(raw)
  {
    hide ReadString, RawSafe, Escape;
    var body, value := Escape(escaped) + raw, escaped + raw;
    NotBoth(body, value);
    forall rest
      ensures RawSafe(raw) ==> Reading(body, rest) == Some(Read(value, rest))
      ensures !RawSafe(raw) ==> Reading(body, rest).None? || Reading(body, rest).value.value != value
    {
      RawPrintReadsBackExactly(raw, rest);
      EscapedPrefix(escaped, raw + [QUOTE] + rest);
      assert body + [QUOTE] + rest == Escape(escaped) + (raw + [QUOTE] + rest);
      var r := ReadString(raw + [QUOTE] + rest);
      if r.Some? && escaped + r.value.value == value {
        assert r.value.value == (escaped + r.value.value)[|escaped|..] == value[|escaped|..] == raw;
      }
    }
  }

  lemma FixedPartsAreRawSafe()
    ensures RawSafe("Audit module '") && RawSafe("' FAILED (section: ") && RawSafe(", ") && RawSafe(" ms)")
  {}

  lemma SelftestMessageIsRawSafe()
    ensures RawSafe(MessageOf(SelftestFailure))
  {}

  lemma UnitsTextIsRawSafe(x: real)
    ensures RawSafe(UnitsText(x))
  {
    var n := RoundUnits(if x < 0.0 then -x else x);
    DigitsAreDigits(n);
    assert UnitsText(x) == (if x < 0.0 then "-" else "") + Digits(n);
  }

  /** The part of the message after the name. */
  lemma MessageSplits(s: SarifResult)
    requires s.ModuleFailure?
    ensures var front, back := "Audit module '" + s.name + "' FAILED (section: ",
                               s.section + ", " + UnitsText(s.elapsedMs) + " ms)";
            && MessageOf(s) == front + back && MessageBody(s) == Escape(front) + back
            && (RawSafe(back) <==> RawSafe(s.section))
  {
    hide Escape, UnitsText, RawSafe;
    var a, b, c, d, u := "Audit module '", "' FAILED (section: ", ", ", " ms)", UnitsText(s.elapsedMs);
    FixedPartsAreRawSafe();
    UnitsTextIsRawSafe(s.elapsedMs);
    RawSafeIsUnescaped(a);
    RawSafeIsUnescaped(b);
    EscapeConcat(a, s.name);
    EscapeConcat(a + s.name, b);
    RawConcat(s.section, c);
    RawConcat(s.section + c, u);
    RawConcat(s.section + c + u, d);
    assert MessageOf(s) == (a + s.name + b) + (s.section + c + u + d);
    assert MessageBody(s) == (a + Escape(s.name) + b) + (s.section + c + u + d);
  }

  /** The message is read back exactly when the section needs no escape. */
  lemma MessageReadsBackExactly(s: SarifResult)
    ensures Carries(MessageField(s), TextMember("text", MessageOf(s)))
    ensures AllRead(MessageField(s).pieces) <==> s.SelftestFailure? || RawSafe(s.section)
  {
    hide Escape, MessageOf, MessageBody, RawSafe, ReadsBack, Misread;
    OnePiece(MessageField(s).pieces[0]);
    if s.SelftestFailure? {
      SelftestMessageIsRawSafe();
      SelftestMessageIsFixed(s);
      RawReadsBackExactly(MessageOf(s));
    } else {
      MessageSplits(s);
      HalfRawReadsBackExactly("Audit module '" + s.name + "' FAILED (section: ",
                              s.section + ", " + UnitsText(s.elapsedMs) + " ms)");
    }
  }

  lemma SelftestMessageIsFixed(s: SarifResult)
    requires s.SelftestFailure?
    ensures MessageBody(s) == MessageOf(s)
  {}

  function UriMember(uri: string): Member {
    Member("physicalLocation", Obj([Member("artifactLocation", Obj([TextMember("uri", uri)]))]))
  }

  function ResultMembers(s: SarifResult): seq<Member> {
    [TextMember("ruleId", s.Rule()), TextMember("level", "error"),
     Member("message", Obj([TextMember("text", MessageOf(s))])),
     Member("locations", Arr([Obj([UriMember(s.Uri())])]))]
  }

  function LocationField(uri: string): Field {
    Wrapped("physicalLocation", Wrapped("artifactLocation", TextField("uri", uri)))
  }

  function LocationPieces(uri: string): seq<Piece> {
    ArrayPieces(" ", ObjectPieces("", [LocationField(uri)], " ", " "), "")
  }

  function ResultPieces(s: SarifResult): seq<Piece> {
    ObjectPieces(Indent(8), [
      RawField("ruleId", s.Rule()), TextField("level", "error"), Wrapped("message", MessageField(s)),
      Field("locations", LocationPieces(s.Uri()))],
      Indent(10), Indent(8))
  }

  lemma LocationPrints(uri: string)
    ensures Prints(LocationPieces(uri), Arr([Obj([UriMember(uri)])])) && AllRead(LocationPieces(uri))
  {
    hide Prints, PrintsItems, TextField, TextMember, ObjectPieces, ArrayPieces, AllRead, Carries, Wrapped;
    TextCarries("uri", uri);
    WrappedCarries("artifactLocation", TextField("uri", uri), TextMember("uri", uri));
    WrappedCarries("physicalLocation", Wrapped("artifactLocation", TextField("uri", uri)),
                   Member("artifactLocation", Obj([TextMember("uri", uri)])));
    var f := LocationField(uri);
    assert CarriesAll([f], [UriMember(uri)]);
    OneField(f);
    ObjectPrints("", [f], [UriMember(uri)], " ", " ");
    OneItemPrints(ObjectPieces("", [f], " ", " "), Obj([UriMember(uri)]));
    ArrayPrints(" ", ObjectPieces("", [f], " ", " "), "", [Obj([UriMember(uri)])]);
  }

  lemma ResultPrints(s: SarifResult)
    ensures Prints(ResultPieces(s), Obj(ResultMembers(s)))
    ensures AllRead(ResultPieces(s)) <==> RawResult(s)
  {
    hide Prints, RawSafe, RawField, TextField, TextMember, AllRead, Carries, Wrapped;
    hide ObjectPieces, LocationPieces, MessageOf, MessageField, UriMember;
    RuleIsRawExactly(s);
    RawCarries("ruleId", s.Rule());
    TextCarries("level", "error");
    MessageReadsBackExactly(s);
    WrappedCarries("message", MessageField(s), TextMember("text", MessageOf(s)));
    LocationPrints(s.Uri());
    FieldCarries("locations", LocationPieces(s.Uri()), Arr([Obj([UriMember(s.Uri())])]));
    var fs := [
      RawField("ruleId", s.Rule()), TextField("level", "error"), Wrapped("message", MessageField(s)),
      Field("locations", LocationPieces(s.Uri()))];
    assert CarriesAll(fs, ResultMembers(s));
    assert FieldsRead(fs) <==> AllRead(fs[0].pieces) && AllRead(fs[2].pieces);
    ObjectPrints(Indent(8), fs, ResultMembers(s), Indent(10), Indent(8));
  }

  lemma RuleIsRawExactly(s: SarifResult)
    ensures RawSafe(s.Rule()) <==> s.SelftestFailure? || RawSafe(s.id)
  {
    if s.ModuleFailure? { RawConcat("AUDIT/", s.id); }
  }

  ghost function ResultValues(results: seq<SarifResult>): (values: seq<Value>)
    ensures |values| == |results|
  {
    seq(|results|, i requires 0 <= i < |results| => Obj(ResultMembers(results[i])))
  }

  ghost predicate RawResults(results: seq<SarifResult>) {
    forall k :: 0 <= k < |results| ==> RawResult(results[k])
  }

  lemma OneMoreResult(results: seq<SarifResult>, s: SarifResult)
    ensures ResultValues(results + [s]) == ResultValues(results) + [Obj(ResultMembers(s))]
    ensures RawResults(results + [s]) <==> RawResults(results) && RawResult(s)
  {
    hide ResultMembers, RawResult;
    assert (results + [s])[|results|] == s;
    assert forall k :: 0 <= k < |results| ==> (results + [s])[k] == results[k];
  }

  lemma NoResults()
    ensures ResultValues([]) == [] && RawResults([])
  {}

  lemma SarifStep(rs: seq<ModuleResult>, i: nat, selftest: bool)
    requires i < |rs|
    ensures SarifList(rs[..i + 1], selftest)
         == if rs[i].passed || rs[i].advisory then SarifList(rs[..i], selftest)
            else SarifList(rs[..i], selftest) + [SarifOf(rs[i])]
  {
    assert rs[..i + 1][..i] == rs[..i];
  }

  lemma SarifNone(selftest: bool)
    ensures SarifList([], selftest) == if selftest then [] else [SelftestFailure]
  {}

  /** The SARIF result loop with its `first_result` flag. */
  method PrintResults(rs: seq<ModuleResult>, selftest: bool) returns (out: seq<Piece>)
    ensures PrintsItems(out, ResultValues(SarifList(rs, selftest)))
    ensures AllRead(out) <==> RawResults(SarifList(rs, selftest))
  {
    hide PrintsItems, Prints, ResultPieces, ResultMembers, RawResult, RawResults, SarifList, ResultValues, AllRead;
    NoItemsPrinted();
    NoResults();
    SarifNone(selftest);
    out := [];
    var firstResult := true;
    if !selftest {
      ResultPrints(SelftestFailure);
      ItemAdded([], ResultValues([]), ResultPieces(SelftestFailure), Obj(ResultMembers(SelftestFailure)));
      OneMoreResult([], SelftestFailure);
      out := ResultPieces(SelftestFailure);
      assert [] + [] + out == out && [] + [SelftestFailure] == [SelftestFailure];
      firstResult := false;
    }
    for i := 0 to |rs|
      invariant PrintsItems(out, ResultValues(SarifList(rs[..i], selftest)))
      invariant AllRead(out) <==> RawResults(SarifList(rs[..i], selftest))
      invariant firstResult <==> SarifList(rs[..i], selftest) == []
    {
      var r := rs[i];
      ghost var done := SarifList(rs[..i], selftest);
      SarifStep(rs, i, selftest);
      if r.passed { continue; }
      if r.advisory { continue; }
      ResultPrints(SarifOf(r));
      ItemAdded(out, ResultValues(done), ResultPieces(SarifOf(r)), Obj(ResultMembers(SarifOf(r))));
      OneMoreResult(done, SarifOf(r));
      out := out + (if firstResult then [] else COMMA) + ResultPieces(SarifOf(r));
      firstResult := false;
    }
    assert rs[..|rs|] == rs;
  }

  // ---------------------------------------------------------------- the SARIF document

  /** The fixed texts of the document's head. */
  datatype Tool = Tool(schema: string, format: string, name: string, uri: string)

  const AUDIT_RUNNER: Tool := Tool(
    "https://raw.githubusercontent.com/oasis-tcs/sarif-spec/main/sarif-2.1/schema/sarif-schema-2.1.0.json",
    "2.1.0", "UltrafastSecp256k1 Audit Runner", "https://github.com/shrec/UltrafastSecp256k1")

  function VersionMembers(t: Tool): seq<Member> {
    [TextMember("$schema", t.schema), TextMember("version", t.format)]
  }

  function VersionFields(t: Tool): seq<Field> {
    [TextField("$schema", t.schema), TextField("version", t.format)]
  }

  function DriverMembers(t: Tool, p: Platform): seq<Member> {
    [TextMember("name", t.name), TextMember("version", p.libraryVersion),
     TextMember("semanticVersion", p.frameworkVersion), TextMember("informationUri", t.uri)]
  }

  function DriverFields(t: Tool, p: Platform): seq<Field> {
    [TextField("name", t.name), TextField("version", p.libraryVersion),
     TextField("semanticVersion", p.frameworkVersion), TextField("informationUri", t.uri)]
  }

  function InvocationMembers(): seq<Member> {
    [BoolMember("executionSuccessful", true), Member("toolExecutionNotifications", Arr([]))]
  }

  function PropertyMembers(p: Platform): seq<Member> {
    [TextMember("platform", p.os + " " + p.arch), TextMember("compiler", p.compiler), TextMember("gitHash", p.gitHash)]
  }

  function TailMembers(p: Platform): seq<Member> {
    [Member("invocations", Arr([Obj(InvocationMembers())])), Member("properties", Obj(PropertyMembers(p)))]
  }

  ghost function Driver(t: Tool, p: Platform, rules: seq<Value>): Value {
    Obj(DriverMembers(t, p) + [Member("rules", Arr(rules))])
  }

  ghost function RunMembers(t: Tool, p: Platform, rules: seq<Value>, results: seq<Value>): seq<Member> {
    [Member("tool", Obj([Member("driver", Driver(t, p, rules))]))] + [Member("results", Arr(results))] + TailMembers(p)
  }

  /** The document a reader of the SARIF report is meant to see. */
  ghost function SarifDocument(t: Tool, p: Platform, rules: seq<Value>, results: seq<Value>): Value {
    Obj(VersionMembers(t) + [Member("runs", Arr([Obj(RunMembers(t, p, rules, results))]))])
  }

  function InvocationPieces(): seq<Piece> {
    ObjectPieces(Indent(8), [
      BoolField("executionSuccessful", true), Field("toolExecutionNotifications", ArrayPieces(" ", [], ""))],
      Indent(10), Indent(8))
  }

  function PropertyPieces(p: Platform): seq<Piece> {
    ObjectPieces(" ", [
      RawField("platform", p.os + " " + p.arch), TextField("compiler", p.compiler), TextField("gitHash", p.gitHash)],
      Indent(8), Indent(6))
  }

  function TailFields(p: Platform): seq<Field> {
    [Field("invocations", ArrayPieces(" ", InvocationPieces(), Indent(6))), Field("properties", PropertyPieces(p))]
  }

  /** `"key": [`. */
  function ArrayKey(pad: string, key: string): seq<Piece> {
    KeyPieces(pad, key) + Mark(" ", LBracket)
  }

  function DriverFront(t: Tool, p: Platform): seq<Piece> {
    Mark(" ", LBrace) + FieldsPieces(DriverFields(t, p), Indent(10)) + COMMA + ArrayKey(Indent(10), "rules")
  }

  function RunFront(t: Tool, p: Platform): seq<Piece> {
    KeyPieces(Indent(6), "tool") + (Mark(" ", LBrace) + (KeyPieces(Indent(8), "driver") + DriverFront(t, p)))
  }

  function Opening(t: Tool): seq<Piece> {
    Mark("", LBrace) + FieldsPieces(VersionFields(t), Indent(2)) + COMMA
    + (ArrayKey(Indent(2), "runs") + Mark(Indent(4), LBrace))
  }

  function Middle(): seq<Piece> {
    Mark(Indent(10), RBracket) + (Mark(Indent(8), RBrace) + Mark(Indent(6), RBrace)) + COMMA
    + ArrayKey(Indent(6), "results")
  }

  function RunBack(p: Platform): seq<Piece> {
    Mark(Indent(6), RBracket) + COMMA + FieldsPieces(TailFields(p), Indent(6))
  }

  function Closing(): seq<Piece> {
    Mark(Indent(4), RBrace) + (Mark(Indent(2), RBracket) + Mark(Indent(0), RBrace))
  }

  /** Everything the document prints before the rules, between rules and results, and after. */
  datatype Frame = Frame(front: seq<Piece>, middle: seq<Piece>, back: seq<Piece>)

  function SarifFrame(t: Tool, p: Platform): Frame {
    Frame(Opening(t) + RunFront(t, p), Middle(), RunBack(p) + Closing())
  }

  function Filled(f: Frame, rules: seq<Piece>, results: seq<Piece>): seq<Piece> {
    f.front + rules + f.middle + results + f.back
  }

  predicate RawPlatform(p: Platform) {
    RawSafe(p.os + " " + p.arch)
  }

  /** The pieces have these tokens and are read back. */
  ghost predicate Plain(ps: seq<Piece>, ts: seq<Token>) {
    Tokens(ps) == ts && AllDecided(ps) && AllRead(ps)
  }

  lemma PlainConcat(a: seq<Piece>, s: seq<Token>, b: seq<Piece>, t: seq<Token>)
    requires Plain(a, s) && Plain(b, t)
    ensures Plain(a + b, s + t)
  {
    hide AllDecided, AllRead;
    Concat(a, b);
  }

  lemma PlainMark(pad: string, t: Token)
    requires AllSpace(pad) && !t.Str? && !t.Word?
    ensures Plain(Mark(pad, t), [t])
  {
    hide AllDecided, AllRead;
    MarkPrints(pad, t);
  }

  lemma PlainKey(pad: string, key: string)
    requires AllSpace(pad)
    ensures Plain(KeyPieces(pad, key), [Str(key), Colon])
  {
    hide AllDecided, AllRead, KeyPieces;
    KeyPrints(pad, key);
  }

  lemma PlainArrayKey(pad: string, key: string)
    requires AllSpace(pad)
    ensures Plain(ArrayKey(pad, key), [Str(key), Colon] + [LBracket])
  {
    hide Plain, KeyPieces, Mark;
    PlainKey(pad, key);
    PlainMark(" ", LBracket);
    PlainConcat(KeyPieces(pad, key), [Str(key), Colon], Mark(" ", LBracket), [LBracket]);
  }

  lemma PlainFields(fs: seq<Field>, ms: seq<Member>, pad: string)
    requires AllSpace(pad) && CarriesAll(fs, ms) && FieldsRead(fs)
    ensures Plain(FieldsPieces(fs, pad), EmitMembers(ms))
  {
    hide AllDecided, AllRead, CarriesAll, FieldsRead, FieldsPieces, EmitMembers;
    FieldsPrint(fs, ms, pad);
  }

  /** `{ fields, "key": [`. */
  lemma PlainHead(pad: string, fs: seq<Field>, ms: seq<Member>, inner: string, key: string)
    requires AllSpace(pad) && AllSpace(inner) && CarriesAll(fs, ms) && FieldsRead(fs)
    ensures Plain(Mark(pad, LBrace) + FieldsPieces(fs, inner) + COMMA + ArrayKey(inner, key),
                  [LBrace] + EmitMembers(ms) + [Comma] + ([Str(key), Colon] + [LBracket]))
  {
    hide Plain, Mark, FieldsPieces, EmitMembers, ArrayKey, CarriesAll, FieldsRead;
    var open, fields := Mark(pad, LBrace), FieldsPieces(fs, inner);
    PlainMark(pad, LBrace);
    PlainMark("", Comma);
    PlainFields(fs, ms, inner);
    PlainArrayKey(inner, key);
    PlainConcat(open, [LBrace], fields, EmitMembers(ms));
    PlainConcat(open + fields, [LBrace] + EmitMembers(ms), COMMA, [Comma]);
    PlainConcat(open + fields + COMMA, [LBrace] + EmitMembers(ms) + [Comma],
                ArrayKey(inner, key), [Str(key), Colon] + [LBracket]);
  }

  lemma DriverCarries(t: Tool, p: Platform)
    ensures CarriesAll(DriverFields(t, p), DriverMembers(t, p)) && FieldsRead(DriverFields(t, p))
  {
    hide Carries, TextField, TextMember, AllRead;
    TextsCarry();
  }

  lemma VersionCarries(t: Tool)
    ensures CarriesAll(VersionFields(t), VersionMembers(t)) && FieldsRead(VersionFields(t))
  {
    hide Carries, TextField, TextMember, AllRead;
    TextsCarry();
  }

  lemma RunFrontPrints(t: Tool, p: Platform)
    ensures Plain(RunFront(t, p),
                  [Str("tool"), Colon] + ([LBrace] + ([Str("driver"), Colon]
                  + ([LBrace] + EmitMembers(DriverMembers(t, p)) + [Comma] + ([Str("rules"), Colon] + [LBracket])))))
  {
    hide Plain, Mark, KeyPieces, FieldsPieces, EmitMembers, ArrayKey;
    hide DriverFields, DriverMembers, CarriesAll, FieldsRead;
    var ts := [LBrace] + EmitMembers(DriverMembers(t, p)) + [Comma] + ([Str("rules"), Colon] + [LBracket]);
    DriverCarries(t, p);
    PlainHead(" ", DriverFields(t, p), DriverMembers(t, p), Indent(10), "rules");
    PlainKey(Indent(8), "driver");
    PlainMark(" ", LBrace);
    PlainKey(Indent(6), "tool");
    var inner := KeyPieces(Indent(8), "driver") + DriverFront(t, p);
    PlainConcat(KeyPieces(Indent(8), "driver"), [Str("driver"), Colon], DriverFront(t, p), ts);
    PlainConcat(Mark(" ", LBrace), [LBrace], inner, [Str("driver"), Colon] + ts);
    PlainConcat(KeyPieces(Indent(6), "tool"), [Str("tool"), Colon], Mark(" ", LBrace) + inner,
                [LBrace] + ([Str("driver"), Colon] + ts));
  }

  lemma OpeningPrints(t: Tool)
    ensures Plain(Opening(t),
                  [LBrace] + EmitMembers(VersionMembers(t)) + [Comma] + ([Str("runs"), Colon] + [LBracket]) + [LBrace])
  {
    hide Plain, Mark, FieldsPieces, EmitMembers, ArrayKey, VersionFields, VersionMembers, CarriesAll, FieldsRead;
    VersionCarries(t);
    PlainHead("", VersionFields(t), VersionMembers(t), Indent(2), "runs");
    PlainMark(Indent(4), LBrace);
    var head := Mark("", LBrace) + FieldsPieces(VersionFields(t), Indent(2)) + COMMA + ArrayKey(Indent(2), "runs");
    assert Opening(t) == head + Mark(Indent(4), LBrace);
    PlainConcat(head, [LBrace] + EmitMembers(VersionMembers(t)) + [Comma] + ([Str("runs"), Colon] + [LBracket]),
                Mark(Indent(4), LBrace), [LBrace]);
  }

  lemma MiddlePrints()
    ensures Plain(Middle(), [RBracket] + ([RBrace] + [RBrace]) + [Comma] + ([Str("results"), Colon] + [LBracket]))
  {
    hide Plain, Mark, ArrayKey;
    PlainMark(Indent(10), RBracket);
    PlainMark(Indent(8), RBrace);
    PlainMark(Indent(6), RBrace);
    PlainMark("", Comma);
    PlainArrayKey(Indent(6), "results");
    var braces := Mark(Indent(8), RBrace) + Mark(Indent(6), RBrace);
    PlainConcat(Mark(Indent(8), RBrace), [RBrace], Mark(Indent(6), RBrace), [RBrace]);
    PlainConcat(Mark(Indent(10), RBracket), [RBracket], braces, [RBrace] + [RBrace]);
    PlainConcat(Mark(Indent(10), RBracket) + braces, [RBracket] + ([RBrace] + [RBrace]), COMMA, [Comma]);
    PlainConcat(Mark(Indent(10), RBracket) + braces + COMMA, [RBracket] + ([RBrace] + [RBrace]) + [Comma],
                ArrayKey(Indent(6), "results"), [Str("results"), Colon] + [LBracket]);
  }

  lemma ClosingPrints()
    ensures Plain(Closing(), [RBrace] + ([RBracket] + [RBrace]))
  {
    hide Plain, Mark;
    PlainMark(Indent(4), RBrace);
    PlainMark(Indent(2), RBracket);
    PlainMark(Indent(0), RBrace);
    PlainConcat(Mark(Indent(2), RBracket), [RBracket], Mark(Indent(0), RBrace), [RBrace]);
    PlainConcat(Mark(Indent(4), RBrace), [RBrace],
                Mark(Indent(2), RBracket) + Mark(Indent(0), RBrace), [RBracket] + [RBrace]);
  }

  lemma InvocationPrints()
    ensures Prints(InvocationPieces(), Obj(InvocationMembers())) && AllRead(InvocationPieces())
  {
    hide Prints, PrintsItems, BoolField, BoolMember, ObjectPieces, ArrayPieces, AllRead, Carries;
    WordsCarry();
    NoItemsPrinted();
    ArrayPrints(" ", [], "", []);
    FieldCarries("toolExecutionNotifications", ArrayPieces(" ", [], ""), Arr([]));
    var fs := [BoolField("executionSuccessful", true), Field("toolExecutionNotifications", ArrayPieces(" ", [], ""))];
    ObjectPrints(Indent(8), fs, InvocationMembers(), Indent(10), Indent(8));
  }

  lemma PropertiesPrint(p: Platform)
    ensures Prints(PropertyPieces(p), Obj(PropertyMembers(p)))
    ensures AllRead(PropertyPieces(p)) <==> RawPlatform(p)
  {
    hide Prints, RawField, TextField, TextMember, ObjectPieces, AllRead, Carries, RawSafe;
    RawCarries("platform", p.os + " " + p.arch);
    TextsCarry();
    var fs := [
      RawField("platform", p.os + " " + p.arch), TextField("compiler", p.compiler), TextField("gitHash", p.gitHash)];
    assert FieldsRead(fs) <==> AllRead(fs[0].pieces);
    ObjectPrints(" ", fs, PropertyMembers(p), Indent(8), Indent(6));
  }

  lemma TailPrints(p: Platform)
    ensures Tokens(FieldsPieces(TailFields(p), Indent(6))) == EmitMembers(TailMembers(p))
    ensures AllDecided(FieldsPieces(TailFields(p), Indent(6)))
    ensures AllRead(FieldsPieces(TailFields(p), Indent(6))) <==> RawPlatform(p)
  {
    hide Prints, PrintsItems, AllRead, AllDecided, Carries, FieldsPieces, EmitMembers, ArrayPieces;
    hide InvocationPieces, InvocationMembers, PropertyPieces, PropertyMembers, RawPlatform;
    InvocationPrints();
    OneItemPrints(InvocationPieces(), Obj(InvocationMembers()));
    ArrayPrints(" ", InvocationPieces(), Indent(6), [Obj(InvocationMembers())]);
    PropertiesPrint(p);
    var invocations := ArrayPieces(" ", InvocationPieces(), Indent(6));
    FieldCarries("invocations", invocations, Arr([Obj(InvocationMembers())]));
    FieldCarries("properties", PropertyPieces(p), Obj(PropertyMembers(p)));
    assert CarriesAll(TailFields(p), TailMembers(p));
    assert FieldsRead(TailFields(p)) <==> AllRead(TailFields(p)[0].pieces) && AllRead(TailFields(p)[1].pieces);
    FieldsPrint(TailFields(p), TailMembers(p), Indent(6));
  }

  lemma BackPrints(p: Platform)
    ensures Tokens(RunBack(p) + Closing())
         == [RBracket] + [Comma] + EmitMembers(TailMembers(p)) + ([RBrace] + ([RBracket] + [RBrace]))
    ensures AllDecided(RunBack(p) + Closing())
    ensures AllRead(RunBack(p) + Closing()) <==> RawPlatform(p)
  {
    hide AllRead, AllDecided, Mark, FieldsPieces, EmitMembers, TailFields, TailMembers, RawPlatform, Closing;
    TailPrints(p);
    ClosingPrints();
    MarkPrints(Indent(6), RBracket);
    CommaPrints();
    Concat(Mark(Indent(6), RBracket), COMMA);
    Concat(Mark(Indent(6), RBracket) + COMMA, FieldsPieces(TailFields(p), Indent(6)));
    Concat(RunBack(p), Closing());
  }

  lemma {:induction false} MembersConcat(ms: seq<Member>, ns: seq<Member>)
    requires ms != [] && ns != []
    ensures EmitMembers(ms + ns) == EmitMembers(ms) + [Comma] + EmitMembers(ns)
    decreases |ns|
  {
    hide EmitMember, EmitMembers;
    NothingEmitted();
    var n := |ns| - 1;
    MembersGrow(ns[..n], ns[n]);
    MembersGrow(ms + ns[..n], ns[n]);
    assert ns[..n] + [ns[n]] == ns && ms + ns[..n] + [ns[n]] == ms + ns;
    if n == 0 {
      assert ms + ns[..0] == ms && ns[..0] == [];
    } else {
      MembersConcat(ms, ns[..n]);
    }
  }

  lemma ObjectEmits(ms: seq<Member>)
    ensures Emit(Obj(ms)) == [LBrace] + EmitMembers(ms) + [RBrace]
  {}

  lemma OneMemberEmits(key: string, v: Value)
    ensures EmitMembers([Member(key, v)]) == [Str(key), Colon] + Emit(v)
  {}

  lemma ArrayEmits(xs: seq<Value>)
    ensures Emit(Arr(xs)) == [LBracket] + EmitItems(xs) + [RBracket]
  {}

  lemma OneItemEmits(v: Value)
    ensures EmitItems([v]) == Emit(v)
  {}

  lemma Around<T>(x: seq<T>, a: seq<T>, r: seq<T>, b: seq<T>, y: seq<T>)
    ensures x + (a + r + b) + y == (x + a) + r + (b + y)
  {}

  lemma After3<T>(x: seq<T>, a: seq<T>, r: seq<T>, b: seq<T>)
    ensures x + (a + r + b) == (x + a) + r + b
  {}

  lemma Joined<T>(
    a: seq<T>, r: seq<T>, b: seq<T>, c: seq<T>, k: seq<T>, l: seq<T>, s: seq<T>, e: seq<T>, t: seq<T>)
    ensures (a + r + b) + c + (k + (l + s + e)) + c + t == a + r + (b + c + (k + l)) + s + (e + c + t)
  {}

  lemma DriverEmits(t: Tool, p: Platform, rules: seq<Value>)
    ensures Emit(Driver(t, p, rules))
         == ([LBrace] + EmitMembers(DriverMembers(t, p)) + [Comma] + ([Str("rules"), Colon] + [LBracket]))
            + EmitItems(rules) + ([RBracket] + [RBrace])
  {
    hide Emit, EmitMembers, EmitItems, DriverMembers;
    var last := [Member("rules", Arr(rules))];
    ObjectEmits(DriverMembers(t, p) + last);
    DriverIsNotEmpty(t, p);
    MembersConcat(DriverMembers(t, p), last);
    OneMemberEmits("rules", Arr(rules));
    ArrayEmits(rules);
  }

  lemma DriverIsNotEmpty(t: Tool, p: Platform)
    ensures DriverMembers(t, p) != [] && VersionMembers(t) != [] && TailMembers(p) != []
  {}

  lemma RunEmits(t: Tool, p: Platform, rules: seq<Value>, results: seq<Value>)
    ensures EmitMembers(RunMembers(t, p, rules, results))
         == Tokens(RunFront(t, p)) + EmitItems(rules) + Tokens(Middle()) + EmitItems(results)
            + ([RBracket] + [Comma] + EmitMembers(TailMembers(p)))
  {
    hide Emit, EmitMembers, EmitItems, DriverMembers, TailMembers, RunFront, Middle, AllDecided, AllRead, Driver;
    var r, s, tail := EmitItems(rules), EmitItems(results), EmitMembers(TailMembers(p));
    var a := [LBrace] + EmitMembers(DriverMembers(t, p)) + [Comma] + ([Str("rules"), Colon] + [LBracket]);
    var b, k1, k2 := [RBracket] + [RBrace], [Str("driver"), Colon], [Str("tool"), Colon];
    var driver := [Member("driver", Driver(t, p, rules))];
    DriverEmits(t, p, rules);
    OneMemberEmits("driver", Driver(t, p, rules));
    After3(k1, a, r, b);
    ObjectEmits(driver);
    Around([LBrace], k1 + a, r, b, [RBrace]);
    OneMemberEmits("tool", Obj(driver));
    After3(k2, [LBrace] + (k1 + a), r, b + [RBrace]);
    var tool, last := [Member("tool", Obj(driver))], [Member("results", Arr(results))];
    OneMemberEmits("results", Arr(results));
    ArrayEmits(results);
    DriverIsNotEmpty(t, p);
    MembersConcat(tool, last);
    MembersConcat(tool + last, TailMembers(p));
    RunFrontPrints(t, p);
    MiddlePrints();
    var front := k2 + ([LBrace] + (k1 + a));
    assert Tokens(RunFront(t, p)) == front;
    assert b + [RBrace] == [RBracket] + ([RBrace] + [RBrace]);
    Joined(front, r, b + [RBrace], [Comma], [Str("results"), Colon], [LBracket], s, [RBracket], tail);
  }

  lemma Enclosed<T>(
    v: seq<T>, k: seq<T>, o: seq<T>, a: seq<T>, r: seq<T>, m: seq<T>, s: seq<T>, b: seq<T>, c: seq<T>)
    ensures v + k + (o + (a + r + m + s + b) + c) == (v + k + o + a) + r + m + s + (b + c)
  {}

  lemma Opened<T>(
    v: seq<T>, comma: seq<T>, k: seq<T>, l: seq<T>, o: seq<T>, body: seq<T>, x: seq<T>, y: seq<T>, z: seq<T>)
    ensures [] + v + comma + (k + (l + (o + body + x) + y)) + z
         == (v + comma + (k + l)) + [] + (o + body + (x + (y + z)))
  {}

  lemma FrontTokens(t: Tool, p: Platform)
    ensures Tokens(Opening(t) + RunFront(t, p))
         == [LBrace] + EmitMembers(VersionMembers(t)) + [Comma] + ([Str("runs"), Colon] + [LBracket]) + [LBrace]
            + Tokens(RunFront(t, p))
  {
    hide AllDecided, AllRead, Opening, RunFront, EmitMembers, VersionMembers;
    OpeningPrints(t);
    Concat(Opening(t), RunFront(t, p));
  }

  /** The frame prints the document around any rules and results. */
  lemma FrameEmits(t: Tool, p: Platform, rules: seq<Value>, results: seq<Value>)
    ensures var f := SarifFrame(t, p);
            Emit(SarifDocument(t, p, rules, results))
            == Tokens(f.front) + EmitItems(rules) + Tokens(f.middle) + EmitItems(results) + Tokens(f.back)
  {
    hide Emit, EmitMembers, EmitItems, VersionMembers, TailMembers, RunMembers;
    hide RunFront, Opening, Middle, RunBack, Closing;
    hide AllDecided, AllRead;
    var run := RunMembers(t, p, rules, results);
    var runs := [Member("runs", Arr([Obj(run)]))];
    var ver, body := EmitMembers(VersionMembers(t)), EmitMembers(run);
    var key := [Str("runs"), Colon];
    DriverIsNotEmpty(t, p);
    ObjectEmits(VersionMembers(t) + runs);
    MembersConcat(VersionMembers(t), runs);
    OneMemberEmits("runs", Arr([Obj(run)]));
    ArrayEmits([Obj(run)]);
    OneItemEmits(Obj(run));
    ObjectEmits(run);
    Opened([LBrace] + ver, [Comma], key, [LBracket], [LBrace], body, [RBrace], [RBracket], [RBrace]);
    RunEmits(t, p, rules, results);
    FrontTokens(t, p);
    BackPrints(p);
    Enclosed([LBrace] + ver + [Comma], key + [LBracket], [LBrace], Tokens(RunFront(t, p)), EmitItems(rules),
             Tokens(Middle()), EmitItems(results), [RBracket] + [Comma] + EmitMembers(TailMembers(p)),
             [RBrace] + ([RBracket] + [RBrace]));
  }

  lemma FrameReads(t: Tool, p: Platform)
    ensures var f := SarifFrame(t, p);
            && AllDecided(f.front) && AllDecided(f.middle) && AllDecided(f.back)
            && AllRead(f.front) && AllRead(f.middle) && (AllRead(f.back) <==> RawPlatform(p))
            && f.middle != [] && f.middle[0].token == RBracket
  {
    hide AllDecided, AllRead, RunFront, Opening, RunBack, Closing, EmitMembers, RawPlatform;
    OpeningPrints(t);
    RunFrontPrints(t, p);
    MiddlePrints();
    BackPrints(p);
    Concat(Opening(t), RunFront(t, p));
  }

  lemma FilledPrints(
    t: Tool, p: Platform, rules: seq<Piece>, xs: seq<Value>, results: seq<Piece>, ys: seq<Value>)
    requires PrintsItems(rules, xs) && PrintsItems(results, ys)
    ensures Prints(Filled(SarifFrame(t, p), rules, results), SarifDocument(t, p, xs, ys))
    ensures AllRead(Filled(SarifFrame(t, p), rules, results)) <==> AllRead(rules) && AllRead(results) && RawPlatform(p)
  {
    hide AllDecided, AllRead, SarifDocument, SarifFrame, Emit, EmitItems, RawPlatform;
    var f := SarifFrame(t, p);
    FrameEmits(t, p, xs, ys);
    FrameReads(t, p);
    Concat(f.front, rules);
    Concat(f.front + rules, f.middle);
    Concat(f.front + rules + f.middle, results);
    Concat(f.front + rules + f.middle + results, f.back);
  }

  /** With a comma after the last rule the document is no JSON text at all, even if strings after
      it are misread. */
  lemma DanglingDocument(
    t: Tool, p: Platform, rules: seq<Piece>, xs: seq<Value>, results: seq<Piece>, ys: seq<Value>)
    requires PrintsItems(rules, xs) && PrintsItems(results, ys) && AllRead(rules)
    ensures ParseText(Text(Filled(SarifFrame(t, p), rules + COMMA, results)) + Indent(0)) == None
  {
    hide ParseText, SarifDocument, SarifFrame, Emit, EmitItems, AllRead, AllDecided, WordsApart;
    var f := SarifFrame(t, p);
    var before, after := f.front + rules, f.middle + results + f.back;
    var ps := Filled(f, rules + COMMA, results);
    FrameReads(t, p);
    FilledPrints(t, p, rules, xs, results, ys);
    EmitKeepsWordsApart(SarifDocument(t, p, xs, ys));
    assert Filled(f, rules, results) == before + after;
    assert ps == before + COMMA + after;
    Concat(f.front, rules);
    Concat(before, after);
    CommaPrints();
    Concat(before, COMMA);
    Concat(before + COMMA, after);
    CommaKeepsWordsApart(Tokens(before), Tokens(after));
    ReadBefore(before, ps);
    assert ps[|before|] == COMMA[0] && ps[|before| + 1] == f.middle[0];
    DanglingCommaNeverParses(ps, Indent(0), |before|);
  }

  lemma ReadBefore(a: seq<Piece>, ps: seq<Piece>)
    requires |a| <= |ps| && ps[..|a|] == a && AllRead(a)
    ensures ReadUpTo(ps, |a|)
  {
    hide ReadsRight;
    assert forall k :: 0 <= k < |a| ==> a[k] == ps[k];
  }

  /** The document a reader of a run's report is meant to see. */
  ghost function IntendedSarif(p: Platform, modules: seq<AuditModule>, rs: seq<ModuleResult>, selftest: bool): Value {
    SarifDocument(AUDIT_RUNNER, p, RuleValues(modules), ResultValues(SarifList(rs, selftest)))
  }

  /** The document around the rules and the results. */
  lemma PrintedDocument(p: Platform, modules: seq<AuditModule>, rs: seq<ModuleResult>, selftest: bool)
    ensures var schema :=
              "https://raw.githubusercontent.com/oasis-tcs/sarif-spec/main/sarif-2.1/schema/sarif-schema-2.1.0.json";
            var driver := Obj([
              Member("name", Txt("UltrafastSecp256k1 Audit Runner")), Member("version", Txt(p.libraryVersion)),
              Member("semanticVersion", Txt(p.frameworkVersion)),
              Member("informationUri", Txt("https://github.com/shrec/UltrafastSecp256k1")),
              Member("rules", Arr(RuleValues(modules)))]);
            var invocation := Obj([
              Member("executionSuccessful", Atom("true")), Member("toolExecutionNotifications", Arr([]))]);
            var properties := Obj([
              Member("platform", Txt(p.os + " " + p.arch)), Member("compiler", Txt(p.compiler)),
              Member("gitHash", Txt(p.gitHash))]);
            var run := Obj([
              Member("tool", Obj([Member("driver", driver)])),
              Member("results", Arr(ResultValues(SarifList(rs, selftest)))),
              Member("invocations", Arr([invocation])), Member("properties", properties)]);
            IntendedSarif(p, modules, rs, selftest) == Obj([
              Member("$schema", Txt(schema)), Member("version", Txt("2.1.0")), Member("runs", Arr([run]))])
  {
    hide RuleValues, ResultValues, SarifList;
    var t, rules, results := AUDIT_RUNNER, RuleValues(modules), ResultValues(SarifList(rs, selftest));
    var run := Obj(RunMembers(t, p, rules, results));
    assert DriverMembers(t, p) + [Member("rules", Arr(rules))] == [
      Member("name", Txt(t.name)), Member("version", Txt(p.libraryVersion)),
      Member("semanticVersion", Txt(p.frameworkVersion)), Member("informationUri", Txt(t.uri)),
      Member("rules", Arr(rules))];
    assert RunMembers(t, p, rules, results) == [
      Member("tool", Obj([Member("driver", Driver(t, p, rules))])), Member("results", Arr(results)),
      TailMembers(p)[0], TailMembers(p)[1]];
    assert VersionMembers(t) + [Member("runs", Arr([run]))] == [
      Member("$schema", Txt(t.schema)), Member("version", Txt(t.format)), Member("runs", Arr([run]))];
  }

  /** A rule for the selftest, then one per registered module: a warning exactly if the module is
      advisory. */
  lemma PrintedRules(modules: seq<AuditModule>, i: nat)
    requires i < |modules|
    ensures |RuleValues(modules)| == |modules| + 1
    ensures RuleValues(modules)[0] == Obj([
              Member("id", Txt("AUDIT/selftest")), Member("name", Txt("Library selftest (core KAT)")),
              Member("shortDescription", Obj([Member("text", Txt("Library selftest (core KAT)"))])),
              Member("defaultConfiguration", Obj([Member("level", Txt("error"))])),
              Member("properties", Obj([Member("section", Txt("selftest"))]))])
    ensures var m := modules[i];
            RuleValues(modules)[i + 1] == Obj([
              Member("id", Txt("AUDIT/" + m.id)), Member("name", Txt(m.name)),
              Member("shortDescription", Obj([Member("text", Txt(m.name))])),
              Member("defaultConfiguration", Obj([Member("level", Txt(if m.advisory then "warning" else "error"))])),
              Member("properties", Obj([Member("section", Txt(m.section))]))])
  {}

  /** A result for a failed selftest, then one for each result in order that neither passed nor is
      advisory: always an error, with its rule, message and source file. */
  lemma PrintedResults(rs: seq<ModuleResult>, r: ModuleResult, selftest: bool)
    ensures ResultValues(SarifList([], selftest)) == if selftest then [] else [Obj([
              Member("ruleId", Txt("AUDIT/selftest")), Member("level", Txt("error")),
              Member("message", Obj([Member("text", Txt("Library selftest (core KAT) FAILED"))])),
              Member("locations", Arr([Obj([Member("physicalLocation", Obj([
                Member("artifactLocation", Obj([
                  Member("uri", Txt("src/cpu/include/secp256k1/selftest.hpp"))]))]))])]))])]
    ensures ResultValues(SarifList(rs + [r], selftest))
         == ResultValues(SarifList(rs, selftest)) + if r.passed || r.advisory then [] else [Obj([
              Member("ruleId", Txt("AUDIT/" + r.id)), Member("level", Txt("error")),
              Member("message", Obj([Member("text", Txt(
                "Audit module '" + r.name + "' FAILED (section: " + r.section + ", " + UnitsText(r.elapsedMs)
                + " ms)"))])),
              Member("locations", Arr([Obj([Member("physicalLocation", Obj([
                Member("artifactLocation", Obj([Member("uri", Txt(SectionUri(r.section)))]))]))])]))])]
  {
    hide SarifList, ResultMembers;
    SarifInPlainTerms(rs, r, selftest);
    OneMoreResult(SarifList(rs, selftest), SarifOf(r));
    OneMoreResult([], SelftestFailure);
    ResultsInPlainTerms(SarifOf(r));
    ResultsInPlainTerms(SelftestFailure);
    assert [] + [SelftestFailure] == [SelftestFailure];
  }

  lemma ResultsInPlainTerms(s: SarifResult)
    ensures s.SelftestFailure? ==>
              ResultMembers(s) == [
                Member("ruleId", Txt("AUDIT/selftest")), Member("level", Txt("error")),
                Member("message", Obj([Member("text", Txt("Library selftest (core KAT) FAILED"))])),
                Member("locations", Arr([Obj([Member("physicalLocation", Obj([
                  Member("artifactLocation", Obj([
                    Member("uri", Txt("src/cpu/include/secp256k1/selftest.hpp"))]))]))])]))]
    ensures s.ModuleFailure? ==>
              ResultMembers(s) == [
                Member("ruleId", Txt("AUDIT/" + s.id)), Member("level", Txt("error")),
                Member("message", Obj([Member("text", Txt(
                  "Audit module '" + s.name + "' FAILED (section: " + s.section + ", " + UnitsText(s.elapsedMs)
                  + " ms)"))])),
                Member("locations", Arr([Obj([Member("physicalLocation", Obj([
                  Member("artifactLocation", Obj([Member("uri", Txt(SectionUri(s.section)))]))]))])]))]
  {
    hide SectionUri, UnitsText;
  }

  /** What is printed raw: ids and sections of the modules and of the listed failures, and the
      platform. */
  lemma RawTextsInPlainTerms(
    p: Platform, modules: seq<AuditModule>, rs: seq<ModuleResult>, selftest: bool)
    ensures RawModules(modules) <==> forall m <- modules :: RawSafe(m.id) && RawSafe(m.section)
    ensures RawResults(SarifList(rs, selftest))
            <==> forall r <- rs :: !r.passed && !r.advisory ==> RawSafe(r.id) && RawSafe(r.section)
    ensures RawPlatform(p) <==> RawSafe(p.os) && RawSafe(p.arch)
  {
    hide RawSafe;
    RawConcat(p.os, " ");
    RawConcat(p.os + " ", p.arch);
    BlankIsRawSafe();
    RawFailures(rs, selftest);
  }

  lemma BlankIsRawSafe()
    ensures RawSafe(" ")
  {}

  lemma {:induction false} RawFailures(rs: seq<ModuleResult>, selftest: bool)
    ensures RawResults(SarifList(rs, selftest))
            <==> forall r <- rs :: !r.passed && !r.advisory ==> RawSafe(r.id) && RawSafe(r.section)
  {
    hide RawSafe;
    SarifNone(selftest);
    if rs != [] {
      hide SarifList, RawResults;
      var n := |rs| - 1;
      RawFailures(rs[..n], selftest);
      assert rs == rs[..n] + [rs[n]];
      SarifInPlainTerms(rs[..n], rs[n], selftest);
      OneMoreResult(SarifList(rs[..n], selftest), SarifOf(rs[n]));
    }
  }

  /** The whole SARIF report. A conforming reader takes it for the intended document, one rule per
      registered module and one result per failure, exactly when some module is registered and
      what is printed raw needs no escape. Without modules it is no JSON text at all. */
  method WriteSarifReport(p: Platform, modules: seq<AuditModule>, rs: seq<ModuleResult>, selftest: bool)
    returns (text: string)
    ensures ParseText(text) == Some(IntendedSarif(p, modules, rs, selftest))
            <==> modules != [] && RawModules(modules) && RawResults(SarifList(rs, selftest)) && RawPlatform(p)
    ensures modules == [] ==> ParseText(text) == None
  {
    hide PrintsItems, Prints, AllRead, ParseText, SarifDocument, SarifFrame, Filled, SarifList;
    hide RawPlatform, AUDIT_RUNNER;
    hide RuleValues, RawModules, ResultValues, RawResults, SelftestRule, SelftestRuleValue;
    var rules := PrintRules(modules);
    var results := PrintResults(rs, selftest);
    var ps := Filled(SarifFrame(AUDIT_RUNNER, p), rules, results);
    ghost var values := ResultValues(SarifList(rs, selftest));
    if modules == [] {
      NoRules();
      DanglingDocument(AUDIT_RUNNER, p, SelftestRule(), RuleValues([]), results, values);
    } else {
      FilledPrints(AUDIT_RUNNER, p, rules, RuleValues(modules), results, values);
      PrintedValueParsesExactly(ps, SarifDocument(AUDIT_RUNNER, p, RuleValues(modules), values), Indent(0));
    }
    text := Text(ps) + Indent(0);
  }

  /** For the results of a run the condition is one on the registered modules alone. */
  lemma RegisteredTextsCoverTheResults(modules: seq<AuditModule>, filter: string, selftest: bool)
    requires RawModules(modules)
    ensures RawResults(SarifList(RunResults(modules, filter), selftest))
  {
    hide RawSafe;
    var rs := RunResults(modules, filter);
    var failed := FailedOnly(rs);
    var results := SarifList(rs, selftest);
    forall k | 0 <= k < |results| ensures RawResult(results[k]) {
      if results[k] in SarifEach(failed) {
        var i :| 0 <= i < |failed| && results[k] == SarifOf(failed[i]);
        FailedOnlyIsExact(rs, failed[i]);
        InRun(modules, filter, failed[i]);
        var m :| m in modules && failed[i] == ResultOf(m);
        assert RawModule(m);
      }
    }
  }
}
