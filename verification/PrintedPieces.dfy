/** Format strings as pieces of JSON: objects from fields, arrays around printed items. Some
    strings are printed escaped and some raw, so what is printed is read back for what it means
    exactly when the raw ones need no escape. */
module PrintedPieces {
  import opened JsonDocument
  import opened JsonString
  import opened NumberText

  // ---------------------------------------------------------------- pieces

  /** The items of an array, printed with the commas between them. */
  ghost predicate PrintsItems(ps: seq<Piece>, xs: seq<Value>) {
    Tokens(ps) == EmitItems(xs) && AllDecided(ps)
  }

  lemma Concat(a: seq<Piece>, b: seq<Piece>)
    ensures Tokens(a + b) == Tokens(a) + Tokens(b)
    ensures AllDecided(a + b) <==> AllDecided(a) && AllDecided(b)
    ensures AllRead(a + b) <==> AllRead(a) && AllRead(b)
  {
    hide Decided, ReadsRight;
    assert forall k :: 0 <= k < |a| ==> a[k] == (a + b)[k];
    assert forall k :: 0 <= k < |b| ==> b[k] == (a + b)[|a| + k];
  }

  /** A bracket, brace or comma. */
  function Mark(pad: string, t: Token): seq<Piece> {
    [Piece(pad, t, "")]
  }

  lemma MarkPrints(pad: string, t: Token)
    requires AllSpace(pad) && !t.Str? && !t.Word?
    ensures Tokens(Mark(pad, t)) == [t] && AllDecided(Mark(pad, t)) && AllRead(Mark(pad, t))
  {}

  /** `"key":`. */
  function KeyPieces(pad: string, key: string): seq<Piece> {
    [Piece(pad, Str(key), Escape(key)), Piece("", Colon, "")]
  }

  lemma KeyPrints(pad: string, key: string)
    requires AllSpace(pad)
    ensures Tokens(KeyPieces(pad, key)) == [Str(key), Colon]
    ensures AllDecided(KeyPieces(pad, key)) && AllRead(KeyPieces(pad, key))
  {
    hide Escape, ReadsBack, Misread;
    EscapedReadsBack(key);
  }

  const COMMA: seq<Piece> := Mark("", Comma)

  lemma CommaPrints()
    ensures Tokens(COMMA) == [Comma] && AllDecided(COMMA) && AllRead(COMMA)
  {
    MarkPrints("", Comma);
  }

  // ---------------------------------------------------------------- fields

  /** One `"key": value` of a format string. */
  datatype Field = Field(key: string, pieces: seq<Piece>)

  ghost predicate Carries(f: Field, m: Member) {
    f.key == m.key && Prints(f.pieces, m.value)
  }

  ghost predicate CarriesAll(fs: seq<Field>, ms: seq<Member>) {
    |fs| == |ms| && forall k :: 0 <= k < |fs| ==> Carries(fs[k], ms[k])
  }

  ghost predicate FieldsRead(fs: seq<Field>) {
    forall k :: 0 <= k < |fs| ==> AllRead(fs[k].pieces)
  }

  /** `"%s"` without escaping. */
  function RawField(key: string, s: string): Field {
    Field(key, [Piece(" ", Str(s), s)])
  }

  /** `"%s"` of an escaped string. */
  function TextField(key: string, s: string): Field {
    Field(key, [Piece(" ", Str(s), Escape(s))])
  }

  function WordField(key: string, w: string): Field {
    Field(key, [Piece(" ", Word(w), "")])
  }

  function IntField(key: string, n: int): Field {
    WordField(key, IntText(n))
  }

  function TenthsField(key: string, x: real): Field {
    WordField(key, TenthsText(x))
  }

  function BoolWord(b: bool): string {
    if b then "true" else "false"
  }

  function BoolField(key: string, b: bool): Field {
    WordField(key, BoolWord(b))
  }

  function TextMember(key: string, s: string): Member {
    Member(key, Txt(s))
  }

  function IntMember(key: string, n: int): Member {
    Member(key, Atom(IntText(n)))
  }

  function TenthsMember(key: string, x: real): Member {
    Member(key, Atom(TenthsText(x)))
  }

  function BoolMember(key: string, b: bool): Member {
    Member(key, Atom(BoolWord(b)))
  }

  lemma OnePiece(p: Piece)
    ensures Tokens([p]) == [p.token]
    ensures AllDecided([p]) <==> Decided(p)
    ensures AllRead([p]) <==> ReadsRight(p)
  {
    hide Decided, ReadsRight;
    assert [p][0] == p;
  }

  lemma OneSpace()
    ensures AllSpace(" ")
  {}

  /** A raw field is read back exactly when its string needs no escape. */
  lemma RawCarries(key: string, s: string)
    ensures Carries(RawField(key, s), TextMember(key, s))
    ensures AllRead(RawField(key, s).pieces) <==> RawSafe(s)
  {
    hide RawSafe, ReadsBack, Misread, AllSpace;
    OneSpace();
    RawReadsBackExactly(s);
    OnePiece(Piece(" ", Str(s), s));
  }

  lemma TextCarries(key: string, s: string)
    ensures Carries(TextField(key, s), TextMember(key, s)) && AllRead(TextField(key, s).pieces)
  {
    hide Escape, ReadsBack, Misread, AllSpace;
    OneSpace();
    EscapedReadsBack(s);
    OnePiece(Piece(" ", Str(s), Escape(s)));
  }

  lemma WordCarries(key: string, w: string)
    requires IsWord(w) && WordLength(w) == |w|
    ensures Carries(WordField(key, w), Member(key, Atom(w))) && AllRead(WordField(key, w).pieces)
  {
    hide IsWord, WordLength, ReadsBack, Misread, AllSpace;
    OneSpace();
    OnePiece(Piece(" ", Word(w), ""));
  }

  lemma FieldCarries(key: string, ps: seq<Piece>, v: Value)
    requires Prints(ps, v)
    ensures Carries(Field(key, ps), Member(key, v))
  {}

  lemma TextsCarry()
    ensures forall key, s :: Carries(TextField(key, s), TextMember(key, s)) && AllRead(TextField(key, s).pieces)
  {
    forall key, s ensures Carries(TextField(key, s), TextMember(key, s)) && AllRead(TextField(key, s).pieces) {
      TextCarries(key, s);
    }
  }

  lemma WordsCarry()
    ensures forall key, n :: Carries(IntField(key, n), IntMember(key, n)) && AllRead(IntField(key, n).pieces)
    ensures forall key, x :: Carries(TenthsField(key, x), TenthsMember(key, x)) && AllRead(TenthsField(key, x).pieces)
    ensures forall key, b :: Carries(BoolField(key, b), BoolMember(key, b)) && AllRead(BoolField(key, b).pieces)
  {
    hide IntText, TenthsText, BoolWord, IsWord, WordLength, WordField, Carries, AllRead;
    forall key, n ensures Carries(IntField(key, n), IntMember(key, n)) && AllRead(IntField(key, n).pieces) {
      IntTextIsANumber(n);
      WordCarries(key, IntText(n));
    }
    forall key, x ensures Carries(TenthsField(key, x), TenthsMember(key, x)) && AllRead(TenthsField(key, x).pieces) {
      TenthsTextIsANumber(x);
      WordCarries(key, TenthsText(x));
    }
    forall key, b ensures Carries(BoolField(key, b), BoolMember(key, b)) && AllRead(BoolField(key, b).pieces) {
      BoolIsAWord(b);
      WordCarries(key, BoolWord(b));
    }
  }

  lemma BoolIsAWord(b: bool)
    ensures IsWord(BoolWord(b)) && WordLength(BoolWord(b)) == |BoolWord(b)|
  {
    WordRun(BoolWord(b));
  }

  function FieldPieces(f: Field, pad: string): seq<Piece> {
    KeyPieces(pad, f.key) + f.pieces
  }

  function FieldsPieces(fs: seq<Field>, pad: string): seq<Piece> {
    if fs == [] then []
    else if |fs| == 1 then FieldPieces(fs[0], pad)
    else FieldPieces(fs[0], pad) + COMMA + FieldsPieces(fs[1..], pad)
  }

  lemma FieldPrints(f: Field, m: Member, pad: string)
    requires AllSpace(pad) && Carries(f, m)
    ensures Tokens(FieldPieces(f, pad)) == EmitMember(m) && AllDecided(FieldPieces(f, pad))
    ensures AllRead(FieldPieces(f, pad)) <==> AllRead(f.pieces)
  {
    hide Emit, AllDecided, AllRead, KeyPieces;
    KeyPrints(pad, f.key);
    Concat(KeyPieces(pad, f.key), f.pieces);
  }

  lemma {:induction false} FieldsPrint(fs: seq<Field>, ms: seq<Member>, pad: string)
    requires AllSpace(pad) && CarriesAll(fs, ms)
    ensures Tokens(FieldsPieces(fs, pad)) == EmitMembers(ms) && AllDecided(FieldsPieces(fs, pad))
    ensures AllRead(FieldsPieces(fs, pad)) <==> FieldsRead(fs)
  {
    hide EmitMembers, EmitMember, FieldPieces, Carries, AllDecided, AllRead;
    if fs == [] {
      NothingEmitted();
      NoPieces();
    } else {
      MembersShape(ms);
      FieldPrints(fs[0], ms[0], pad);
      assert FieldsRead(fs) <==> AllRead(fs[0].pieces) && FieldsRead(fs[1..]) by { FirstFieldRead(fs); }
      if |fs| > 1 {
        FieldsPrint(fs[1..], ms[1..], pad);
        CommaPrints();
        Concat(FieldPieces(fs[0], pad), COMMA);
        Concat(FieldPieces(fs[0], pad) + COMMA, FieldsPieces(fs[1..], pad));
      }
    }
  }

  lemma NoPieces()
    ensures Tokens([]) == [] && AllDecided([]) && AllRead([])
  {}

  lemma FirstFieldRead(fs: seq<Field>)
    requires fs != []
    ensures FieldsRead(fs) <==> AllRead(fs[0].pieces) && FieldsRead(fs[1..])
  {
    hide AllRead;
    assert forall k :: 1 <= k < |fs| ==> fs[k] == fs[1..][k - 1];
  }

  lemma FieldsReadConcat(a: seq<Field>, b: seq<Field>)
    ensures FieldsRead(a + b) <==> FieldsRead(a) && FieldsRead(b)
  {
    hide AllRead;
    assert forall k :: 0 <= k < |a| ==> a[k] == (a + b)[k];
    assert forall k :: 0 <= k < |b| ==> b[k] == (a + b)[|a| + k];
  }

  lemma OneField(f: Field)
    ensures FieldsRead([f]) <==> AllRead(f.pieces)
  {
    hide AllRead;
    assert [f][0] == f;
  }

  // ---------------------------------------------------------------- objects and arrays

  /** A format string's object: `pad` before it, `inner` before each key, `close` before its end. */
  function ObjectPieces(pad: string, fs: seq<Field>, inner: string, close: string): seq<Piece> {
    Mark(pad, LBrace) + FieldsPieces(fs, inner) + Mark(close, RBrace)
  }

  lemma ObjectPrints(pad: string, fs: seq<Field>, ms: seq<Member>, inner: string, close: string)
    requires AllSpace(pad) && AllSpace(inner) && AllSpace(close) && CarriesAll(fs, ms)
    ensures Prints(ObjectPieces(pad, fs, inner, close), Obj(ms))
    ensures AllRead(ObjectPieces(pad, fs, inner, close)) <==> FieldsRead(fs)
  {
    hide CarriesAll, FieldsPieces, Mark, AllRead, AllDecided, FieldsRead;
    FieldsPrint(fs, ms, inner);
    MarkPrints(pad, LBrace);
    MarkPrints(close, RBrace);
    Concat(Mark(pad, LBrace), FieldsPieces(fs, inner));
    Concat(Mark(pad, LBrace) + FieldsPieces(fs, inner), Mark(close, RBrace));
  }

  /** A format string's array around already printed items. */
  function ArrayPieces(pad: string, items: seq<Piece>, close: string): seq<Piece> {
    Mark(pad, LBracket) + items + Mark(close, RBracket)
  }

  lemma ArrayPrints(pad: string, items: seq<Piece>, close: string, xs: seq<Value>)
    requires AllSpace(pad) && AllSpace(close) && PrintsItems(items, xs)
    ensures Prints(ArrayPieces(pad, items, close), Arr(xs))
    ensures AllRead(ArrayPieces(pad, items, close)) <==> AllRead(items)
  {
    hide Mark, AllRead, AllDecided;
    MarkPrints(pad, LBracket);
    MarkPrints(close, RBracket);
    Concat(Mark(pad, LBracket), items);
    Concat(Mark(pad, LBracket) + items, Mark(close, RBracket));
  }

  lemma NoItemsPrinted()
    ensures PrintsItems([], []) && AllRead([])
  {
    NothingEmitted();
    NoPieces();
  }

  /** One more item, with a comma before it unless it is the first. */
  lemma ItemAdded(out: seq<Piece>, xs: seq<Value>, item: seq<Piece>, x: Value)
    requires PrintsItems(out, xs) && Prints(item, x)
    ensures var more := out + (if xs == [] then [] else COMMA) + item;
            && PrintsItems(more, xs + [x])
            && (AllRead(more) <==> AllRead(out) && AllRead(item))
  {
    hide Emit, EmitItems, AllDecided, AllRead;
    var comma := if xs == [] then [] else COMMA;
    ItemsGrow(xs, x);
    CommaPrints();
    NoPieces();
    Concat(out, comma);
    Concat(out + comma, item);
  }

  lemma OneItemPrints(ps: seq<Piece>, v: Value)
    requires Prints(ps, v)
    ensures PrintsItems(ps, [v])
  {}

  lemma OneFieldPrints(f: Field, m: Member)
    requires Carries(f, m)
    ensures Prints(ObjectPieces(" ", [f], " ", " "), Obj([m]))
    ensures AllRead(ObjectPieces(" ", [f], " ", " ")) <==> AllRead(f.pieces)
  {
    hide ObjectPieces, AllRead, Carries;
    ObjectPrints(" ", [f], [m], " ", " ");
    assert FieldsRead([f]) <==> AllRead([f][0].pieces);
  }

  // ---------------------------------------------------------------- layout

  /** A line break and an indentation. */
  function Indent(n: nat): (s: string)
    ensures AllSpace(s)
  {
    "\n" + seq(n, i => ' ')
  }

  // ---------------------------------------------------------------- shared by the reports

  datatype Platform = Platform(
    libraryVersion: string, gitHash: string, frameworkVersion: string, timestamp: string,
    os: string, arch: string, compiler: string, buildType: string)
}
