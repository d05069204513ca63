/** JSON texts after RFC 8259: a lexer for section 2's tokens, a parser for the values of
    sections 3 to 5, and the canonical token stream of a value. */
module JsonDocument {
  import opened Wrappers
  import opened JsonString

  // ---------------------------------------------------------------- tokens

  /** A word is a number or one of the three literal names. */
  datatype Token = LBrace | RBrace | LBracket | RBracket | Comma | Colon | Str(value: string) | Word(text: string)

  predicate IsSpace(c: char) {
    c == ' ' || c == '\n' || c == '\r' || c == '\t'
  }

  predicate IsDigit(c: char) {
    '0' <= c <= '9'
  }

  predicate IsWordChar(c: char) {
    IsDigit(c) || 'a' <= c <= 'z' || 'A' <= c <= 'Z' || c == '-' || c == '+' || c == '.'
  }

  /** The length of the longest prefix of word characters. */
  function WordLength(text: string): (n: nat)
    ensures n <= |text| && (n < |text| ==> !IsWordChar(text[n]))
    ensures forall k :: 0 <= k < n ==> IsWordChar(text[k])
  {
    if text == "" || !IsWordChar(text[0]) then 0 else 1 + WordLength(text[1..])
  }

  /** The length of the longest prefix of digits. */
  function DigitsLength(text: string): (n: nat)
    ensures n <= |text|
  {
    if text == "" || !IsDigit(text[0]) then 0 else 1 + DigitsLength(text[1..])
  }

  /** Section 6: an integer part without leading zeros, then an optional fraction and exponent. */
  predicate IsNumber(w: string) {
    var s := if w != "" && w[0] == '-' then w[1..] else w;
    var n := DigitsLength(s);
    n > 0 && (s[0] == '0' ==> n == 1) && IsFraction(s[n..])
  }

  predicate IsFraction(s: string) {
    if s == "" || s[0] != '.' then IsExponent(s)
    else
      var n := DigitsLength(s[1..]);
      n > 0 && IsExponent(s[1 + n..])
  }

  predicate IsExponent(s: string) {
    if s == "" then true
    else
      && (s[0] == 'e' || s[0] == 'E')
      && var d := if |s| > 1 && (s[1] == '+' || s[1] == '-') then s[2..] else s[1..];
         d != "" && DigitsLength(d) == |d|
  }

  predicate IsWord(w: string) {
    w == "true" || w == "false" || w == "null" || IsNumber(w)
  }

  function Structural(c: char): Option<Token> {
    match c
    case '{' => Some(LBrace)
    case '}' => Some(RBrace)
    case '[' => Some(LBracket)
    case ']' => Some(RBracket)
    case ',' => Some(Comma)
    case ':' => Some(Colon)
    case _ => None
  }

  function Prepend(t: Token, ts: Option<seq<Token>>): Option<seq<Token>> {
    if ts.None? then None else Some([t] + ts.value)
  }

  /** Section 2: white space separates tokens and means nothing. */
  function Lex(text: string): Option<seq<Token>>
    decreases |text|
  {
    if text == "" then Some([])
    else if IsSpace(text[0]) then Lex(text[1..])
    else if Structural(text[0]).Some? then Prepend(Structural(text[0]).value, Lex(text[1..]))
    else if text[0] == QUOTE then
      var r := ReadString(text[1..]);
      if r.None? then None else Prepend(Str(r.value.value), Lex(r.value.rest))
    else
      var n := WordLength(text);
      if n == 0 || !IsWord(text[..n]) then None else Prepend(Word(text[..n]), Lex(text[n..]))
  }

  // ---------------------------------------------------------------- printed text

  /** A token as a format string prints it, with the white space before it. A string is meant to
      denote its token's value, but `body` is what is printed between the quotes. */
  datatype Piece = Piece(pad: string, token: Token, body: string)

  function TokenText(p: Piece): string {
    match p.token
    case LBrace => "{" case RBrace => "}" case LBracket => "[" case RBracket => "]"
    case Comma => "," case Colon => ":"
    case Str(_) => [QUOTE] + p.body + [QUOTE]
    case Word(w) => w
  }

  function Text(ps: seq<Piece>): string {
    if ps == [] then "" else ps[0].pad + TokenText(ps[0]) + Text(ps[1..])
  }

  function Tokens(ps: seq<Piece>): (ts: seq<Token>)
    ensures |ts| == |ps| && forall i :: 0 <= i < |ps| ==> ts[i] == ps[i].token
  {
    seq(|ps|, i requires 0 <= i < |ps| => ps[i].token)
  }

  predicate AllSpace(s: string) {
    forall k :: 0 <= k < |s| ==> IsSpace(s[k])
  }

  /** What the reader makes of a body between its opening quote and whatever follows. */
  function Reading(body: string, rest: string): Option<Read> {
    ReadString(body + [QUOTE] + rest)
  }

  /** The body is read for the value, up to its closing quote. */
  ghost predicate ReadsBack(body: string, value: string) {
    forall rest :: Reading(body, rest) == Some(Read(value, rest))
  }

  /** The body is never read for the value, whatever follows. */
  ghost predicate Misread(body: string, value: string) {
    forall rest :: Reading(body, rest).None? || Reading(body, rest).value.value != value
  }

  lemma NotBoth(body: string, value: string)
    ensures !(ReadsBack(body, value) && Misread(body, value))
  {
    assert Reading(body, "") == Reading(body, "");
  }

  lemma EscapedReadsBack(s: string)
    ensures ReadsBack(Escape(s), s)
  {
    forall rest ensures Reading(Escape(s), rest) == Some(Read(s, rest)) {
      FramingRoundTrip(s, rest);
    }
  }

  lemma RawReadsBackExactly(s: string)
    ensures ReadsBack(s, s) <==> RawSafe(s)
    ensures Misread(s, s) <==> !RawSafe(s)
  {
    hide ReadString, RawSafe;
    NotBoth(s, s);
    forall rest
      ensures if RawSafe(s) then Reading(s, rest) == Some(Read(s, rest))
              else Reading(s, rest).None? || Reading(s, rest).value.value != s
    {
      RawPrintReadsBackExactly(s, rest);
    }
  }

  /** The padding is white space, a word is a word, and a string is either read back or not. */
  ghost predicate Decided(p: Piece) {
    && AllSpace(p.pad)
    && (p.token.Str? ==> ReadsBack(p.body, p.token.value) || Misread(p.body, p.token.value))
    && (p.token.Word? ==> IsWord(p.token.text) && WordLength(p.token.text) == |p.token.text|)
  }

  ghost predicate ReadsRight(p: Piece) {
    p.token.Str? ==> ReadsBack(p.body, p.token.value)
  }

  /** No two words meet, so none can run into the next. */
  ghost predicate WordsApart(ts: seq<Token>) {
    forall i, j :: 0 <= i < j < |ts| && j == i + 1 ==> !(ts[i].Word? && ts[j].Word?)
  }

  lemma {:induction false} LexSkipsSpace(pad: string, rest: string)
    requires AllSpace(pad)
    ensures Lex(pad + rest) == Lex(rest)
  {
    if pad == "" {
      assert pad + rest == rest;
    } else {
      LexSkipsSpace(pad[1..], rest);
      assert (pad + rest)[1..] == pad[1..] + rest;
    }
  }

  lemma {:induction false} WordEnds(w: string, rest: string)
    requires WordLength(w) == |w| && (rest == "" || !IsWordChar(rest[0]))
    ensures WordLength(w + rest) == |w|
  {
    if w == "" {
      assert w + rest == rest;
    } else {
      WordEnds(w[1..], rest);
      assert (w + rest)[1..] == w[1..] + rest;
    }
  }

  ghost predicate StartsWith(ts: Option<seq<Token>>, t: Token) {
    ts.Some? && ts.value != [] && ts.value[0] == t
  }

  lemma LexQuote(body: string, rest: string)
    ensures Lex([QUOTE] + body + [QUOTE] + rest)
         == var r := Reading(body, rest);
            if r.None? then None else Prepend(Str(r.value.value), Lex(r.value.rest))
  {
    hide ReadString, WordLength, IsWord;
    var text := [QUOTE] + body + [QUOTE] + rest;
    assert text[1..] == body + [QUOTE] + rest;
  }

  lemma ReadingOf(body: string, value: string, rest: string)
    ensures ReadsBack(body, value) ==> Reading(body, rest) == Some(Read(value, rest))
    ensures Misread(body, value) ==> Reading(body, rest).None? || Reading(body, rest).value.value != value
  {}

  lemma {:induction false} LexString(p: Piece, rest: string)
    requires p.token.Str?
    ensures ReadsBack(p.body, p.token.value) ==> Lex(TokenText(p) + rest) == Prepend(p.token, Lex(rest))
    ensures Misread(p.body, p.token.value) ==> !StartsWith(Lex(TokenText(p) + rest), p.token)
  {
    hide Lex, Reading, ReadsBack, Misread;
    assert TokenText(p) + rest == [QUOTE] + p.body + [QUOTE] + rest;
    LexQuote(p.body, rest);
    ReadingOf(p.body, p.token.value, rest);
  }

  lemma FirstWordChar(w: string)
    requires w != "" && WordLength(w) == |w|
    ensures IsWordChar(w[0])
  {}

  lemma WordIsNotEmpty(w: string)
    requires IsWord(w)
    ensures w != ""
  {}

  lemma {:induction false} LexWord(w: string, rest: string)
    requires IsWord(w) && WordLength(w) == |w| && (rest == "" || !IsWordChar(rest[0]))
    ensures Lex(w + rest) == Prepend(Word(w), Lex(rest))
  {
    hide IsWord, WordLength;
    WordIsNotEmpty(w);
    WordEnds(w, rest);
    FirstWordChar(w);
    assert (w + rest)[..|w|] == w && (w + rest)[|w|..] == rest;
    assert (w + rest)[0] == w[0];
  }

  lemma LexStructural(p: Piece, rest: string)
    requires !p.token.Str? && !p.token.Word?
    ensures Lex(TokenText(p) + rest) == Prepend(p.token, Lex(rest))
  {
    assert (TokenText(p) + rest)[1..] == rest;
  }

  lemma LexWordPiece(p: Piece, rest: string)
    requires Decided(p) && p.token.Word? && (rest == "" || !IsWordChar(rest[0]))
    ensures Lex(TokenText(p) + rest) == Prepend(p.token, Lex(rest))
  {
    LexWord(p.token.text, rest);
  }

  ghost predicate AllDecided(ps: seq<Piece>) {
    forall k :: 0 <= k < |ps| ==> Decided(ps[k])
  }

  ghost predicate AllRead(ps: seq<Piece>) {
    forall k :: 0 <= k < |ps| ==> ReadsRight(ps[k])
  }

  lemma FirstDecided(ps: seq<Piece>)
    requires ps != [] && AllDecided(ps) && WordsApart(Tokens(ps))
    ensures Decided(ps[0]) && AllSpace(ps[0].pad) && AllDecided(ps[1..])
    ensures AllRead(ps) <==> ReadsRight(ps[0]) && AllRead(ps[1..])
    ensures WordsApart(Tokens(ps[1..]))
    ensures |ps| > 1 && ps[0].token.Word? ==> !ps[1..][0].token.Word?
  {
    hide ReadsRight, ReadsBack, Misread;
    assert Tokens(ps[1..]) == Tokens(ps)[1..];
    if |ps| > 1 { assert Tokens(ps)[1] == ps[1].token; }
    assert forall k :: 0 <= k < |ps[1..]| ==> ps[1..][k] == ps[k + 1];
    assert forall k :: 1 <= k < |ps| ==> ps[k] == ps[1..][k - 1];
  }

  /** What follows a word cannot continue it. */
  lemma WordIsFollowed(ps: seq<Piece>, end: string)
    requires AllSpace(end) && AllDecided(ps)
    requires ps != [] ==> !ps[0].token.Word?
    ensures var rest := Text(ps) + end; rest == "" || !IsWordChar(rest[0])
  {
    if ps != [] {
      assert Decided(ps[0]);
      assert ps[0].pad != "" ==> IsSpace(ps[0].pad[0]);
    }
  }

  lemma {:induction false} LexSpace(end: string)
    requires AllSpace(end)
    ensures Lex(end) == Some([])
  {
    LexSkipsSpace(end, "");
    assert end + "" == end;
  }

  /** The six structural characters, white space and strings, as section 2 has them. */
  lemma LexInPlainTerms(c: char, rest: string)
    ensures Lex("") == Some([])
    ensures c in " \n\r\t" ==> Lex([c] + rest) == Lex(rest)
    ensures forall ts :: Lex(rest) == Some(ts) ==>
              && (c == '{' ==> Lex([c] + rest) == Some([LBrace] + ts))
              && (c == '}' ==> Lex([c] + rest) == Some([RBrace] + ts))
              && (c == '[' ==> Lex([c] + rest) == Some([LBracket] + ts))
              && (c == ']' ==> Lex([c] + rest) == Some([RBracket] + ts))
              && (c == ',' ==> Lex([c] + rest) == Some([Comma] + ts))
              && (c == ':' ==> Lex([c] + rest) == Some([Colon] + ts))
    ensures forall s, ts :: c == '"' && ReadString(rest) == Some(s) && Lex(s.rest) == Some(ts) ==>
              Lex([c] + rest) == Some([Str(s.value)] + ts)
  {
    hide ReadString, IsWord, WordLength;
    assert ([c] + rest)[1..] == rest;
  }

  lemma OrdinaryStart(c: char)
    requires c !in " \n\r\t" && c !in "{}[],:" && c != '"'
    ensures !IsSpace(c) && Structural(c) == None && c != QUOTE
  {}

  /** What starts with anything else lexes only as a word, up to the first character that can be in
      none. */
  lemma OtherTextsAreWords(text: string)
    requires text != "" && text[0] !in " \n\r\t" && text[0] !in "{}[],:" && text[0] != '"' && Lex(text).Some?
    ensures exists n ::
              && 0 < n <= |text| && IsWord(text[..n]) && (n < |text| ==> !IsWordChar(text[n]))
              && Lex(text[n..]).Some? && Lex(text).value == [Word(text[..n])] + Lex(text[n..]).value
  {
    OrdinaryStart(text[0]);
    LexAsAWord(text);
  }

  lemma LexAsAWord(text: string)
    requires text != "" && !IsSpace(text[0]) && Structural(text[0]) == None && text[0] != QUOTE && Lex(text).Some?
    ensures exists n ::
              && 0 < n <= |text| && IsWord(text[..n]) && (n < |text| ==> !IsWordChar(text[n]))
              && Lex(text[n..]).Some? && Lex(text).value == [Word(text[..n])] + Lex(text[n..]).value
  {
    hide IsWord, IsSpace, Structural, ReadString;
    var n := WordLength(text);
    assert 0 < n <= |text| && IsWord(text[..n]);
  }

  lemma WordsInPlainTerms(w: string, c: char)
    ensures IsWord(w) <==> w == "true" || w == "false" || w == "null" || IsNumber(w)
    ensures IsWordChar(c)
            <==> || 'a' <= c <= 'z' || 'A' <= c <= 'Z' || '0' <= c <= '9' || c == '+' || c == '-' || c == '.'
  {
    hide IsNumber;
  }

  /** The first piece of a text lexes to its token, or the token is misread. */
  lemma {:induction false} LexFirst(ps: seq<Piece>, end: string)
    requires ps != [] && AllSpace(end) && AllDecided(ps) && WordsApart(Tokens(ps))
    ensures var text, rest := Text(ps) + end, Text(ps[1..]) + end;
            && (ReadsRight(ps[0]) ==> Lex(text) == Prepend(ps[0].token, Lex(rest)))
            && (!ReadsRight(ps[0]) ==> !StartsWith(Lex(text), ps[0].token))
  {
    hide Lex, AllDecided, WordsApart, TokenText, AllSpace, ReadsBack, Misread;
    var p, rest := ps[0], Text(ps[1..]) + end;
    FirstDecided(ps);
    assert Text(ps) + end == p.pad + (TokenText(p) + rest);
    LexSkipsSpace(p.pad, TokenText(p) + rest);
    match p.token {
      case Str(_) => LexString(p, rest);
      case Word(w) =>
        WordIsFollowed(ps[1..], end);
        LexWordPiece(p, rest);
      case _ => LexStructural(p, rest);
    }
  }

  /** Printed pieces lex back to their tokens, whatever the layout, exactly when every string is
      read back. */
  lemma {:induction false} PiecesLexBackExactly(ps: seq<Piece>, end: string)
    requires AllSpace(end) && AllDecided(ps) && WordsApart(Tokens(ps))
    ensures Lex(Text(ps) + end) == Some(Tokens(ps)) <==> AllRead(ps)
  {
    hide Lex, ReadsRight, AllDecided, WordsApart, AllSpace, Text;
    if ps == [] {
      NothingPrinted();
      assert "" + end == end;
      LexSpace(end);
    } else {
      FirstDecided(ps);
      LexFirst(ps, end);
      PiecesLexBackExactly(ps[1..], end);
      assert Tokens(ps) == [ps[0].token] + Tokens(ps[1..]);
      if ReadsRight(ps[0]) && Lex(Text(ps[1..]) + end).Some? {
        PrependIsInjective(ps[0].token, Lex(Text(ps[1..]) + end).value, Tokens(ps[1..]));
      }
      assert Tokens(ps)[0] == ps[0].token;
    }
  }

  lemma NothingPrinted()
    ensures Text([]) == ""
  {}

  lemma PrependIsInjective(t: Token, a: seq<Token>, b: seq<Token>)
    ensures [t] + a == [t] + b <==> a == b
  {
    assert ([t] + a)[1..] == a && ([t] + b)[1..] == b;
  }

  // ---------------------------------------------------------------- values

  datatype Value =
    | Obj(members: seq<Member>)
    | Arr(items: seq<Value>)
    | Txt(value: string)
    | Atom(word: string)

  datatype Member = Member(key: string, value: Value)

  /** The canonical token stream of a value. */
  function Emit(v: Value): (ts: seq<Token>)
    ensures ts != []
    decreases v, 1
  {
    match v
    case Obj(ms) => [LBrace] + EmitMembers(ms) + [RBrace]
    case Arr(xs) => [LBracket] + EmitItems(xs) + [RBracket]
    case Txt(s) => [Str(s)]
    case Atom(w) => [Word(w)]
  }

  function EmitItems(xs: seq<Value>): seq<Token>
    decreases xs, 0
  {
    if xs == [] then []
    else if |xs| == 1 then Emit(xs[0])
    else Emit(xs[0]) + [Comma] + EmitItems(xs[1..])
  }

  function EmitMembers(ms: seq<Member>): seq<Token>
    decreases ms, 0
  {
    if ms == [] then []
    else if |ms| == 1 then [Str(ms[0].key), Colon] + Emit(ms[0].value)
    else [Str(ms[0].key), Colon] + Emit(ms[0].value) + [Comma] + EmitMembers(ms[1..])
  }

  function EmitMember(m: Member): seq<Token> {
    [Str(m.key), Colon] + Emit(m.value)
  }

  datatype Parsed<T> = Parsed(value: T, rest: seq<Token>)

  function ParseValue(ts: seq<Token>): (r: Option<Parsed<Value>>)
    ensures r.Some? ==> |r.value.rest| < |ts|
    decreases |ts|, 0
  {
    if ts == [] then None
    else
      match ts[0]
      case Str(s) => Some(Parsed(Txt(s), ts[1..]))
      case Word(w) => Some(Parsed(Atom(w), ts[1..]))
      case LBracket =>
        if |ts| > 1 && ts[1] == RBracket then Some(Parsed(Arr([]), ts[2..]))
        else (
          var r := ParseItems(ts[1..]);
          if r.None? then None else Some(Parsed(Arr(r.value.value), r.value.rest))
        )
      case LBrace =>
        if |ts| > 1 && ts[1] == RBrace then Some(Parsed(Obj([]), ts[2..]))
        else (
          var r := ParseMembers(ts[1..]);
          if r.None? then None else Some(Parsed(Obj(r.value.value), r.value.rest))
        )
      case _ => None
  }

  /** At least one value, separated by commas, up to the closing bracket. */
  function ParseItems(ts: seq<Token>): (r: Option<Parsed<seq<Value>>>)
    ensures r.Some? ==> |r.value.rest| < |ts|
    decreases |ts|, 1
  {
    var first := ParseValue(ts);
    if first.None? || first.value.rest == [] then None
    else if first.value.rest[0] == RBracket then Some(Parsed([first.value.value], first.value.rest[1..]))
    else if first.value.rest[0] != Comma then None
    else
      var others := ParseItems(first.value.rest[1..]);
      if others.None? then None
      else Some(Parsed([first.value.value] + others.value.value, others.value.rest))
  }

  function ParseMembers(ts: seq<Token>): (r: Option<Parsed<seq<Member>>>)
    ensures r.Some? ==> |r.value.rest| < |ts|
    decreases |ts|, 1
  {
    if |ts| < 2 || !ts[0].Str? || ts[1] != Colon then None
    else
      var first := ParseValue(ts[2..]);
      if first.None? || first.value.rest == [] then None
      else
        var m := Member(ts[0].value, first.value.value);
        if first.value.rest[0] == RBrace then Some(Parsed([m], first.value.rest[1..]))
        else if first.value.rest[0] != Comma then None
        else
          var others := ParseMembers(first.value.rest[1..]);
          if others.None? then None
          else Some(Parsed([m] + others.value.value, others.value.rest))
  }

  lemma MembersShape(ms: seq<Member>)
    requires ms != []
    ensures |ms| == 1 ==> EmitMembers(ms) == EmitMember(ms[0])
    ensures |ms| > 1 ==> EmitMembers(ms) == EmitMember(ms[0]) + [Comma] + EmitMembers(ms[1..])
  {}

  lemma ItemsShape(xs: seq<Value>)
    requires xs != []
    ensures |xs| == 1 ==> EmitItems(xs) == Emit(xs[0])
    ensures |xs| > 1 ==> EmitItems(xs) == Emit(xs[0]) + [Comma] + EmitItems(xs[1..])
  {}

  lemma ItemsEnd(ts: seq<Token>, x: Value, rest: seq<Token>)
    requires ParseValue(ts) == Some(Parsed(x, [RBracket] + rest))
    ensures ParseItems(ts) == Some(Parsed([x], rest))
  {
    assert ([RBracket] + rest)[1..] == rest;
  }

  lemma ItemsGoOn(ts: seq<Token>, x: Value, tail: seq<Token>, xs: seq<Value>, rest: seq<Token>)
    requires ParseValue(ts) == Some(Parsed(x, [Comma] + tail))
    requires ParseItems(tail) == Some(Parsed(xs, rest))
    ensures ParseItems(ts) == Some(Parsed([x] + xs, rest))
  {
    assert ([Comma] + tail)[1..] == tail;
  }

  lemma MembersEnd(key: string, ts: seq<Token>, x: Value, rest: seq<Token>)
    requires ParseValue(ts) == Some(Parsed(x, [RBrace] + rest))
    ensures ParseMembers([Str(key), Colon] + ts) == Some(Parsed([Member(key, x)], rest))
  {
    assert ([Str(key), Colon] + ts)[2..] == ts && ([RBrace] + rest)[1..] == rest;
  }

  lemma MembersGoOn(
    key: string, ts: seq<Token>, x: Value, tail: seq<Token>, ms: seq<Member>, rest: seq<Token>)
    requires ParseValue(ts) == Some(Parsed(x, [Comma] + tail))
    requires ParseMembers(tail) == Some(Parsed(ms, rest))
    ensures ParseMembers([Str(key), Colon] + ts) == Some(Parsed([Member(key, x)] + ms, rest))
  {
    assert ([Str(key), Colon] + ts)[2..] == ts && ([Comma] + tail)[1..] == tail;
  }

  lemma ArrayOf(tail: seq<Token>, xs: seq<Value>, rest: seq<Token>)
    requires tail != [] && tail[0] != RBracket && ParseItems(tail) == Some(Parsed(xs, rest))
    ensures ParseValue([LBracket] + tail) == Some(Parsed(Arr(xs), rest))
  {
    assert ([LBracket] + tail)[1..] == tail;
  }

  lemma ObjectOf(tail: seq<Token>, ms: seq<Member>, rest: seq<Token>)
    requires tail != [] && tail[0] != RBrace && ParseMembers(tail) == Some(Parsed(ms, rest))
    ensures ParseValue([LBrace] + tail) == Some(Parsed(Obj(ms), rest))
  {
    assert ([LBrace] + tail)[1..] == tail;
  }

  lemma EmptyAndScalar(rest: seq<Token>)
    ensures ParseValue([LBracket, RBracket] + rest) == Some(Parsed(Arr([]), rest))
    ensures ParseValue([LBrace, RBrace] + rest) == Some(Parsed(Obj([]), rest))
    ensures forall s :: ParseValue([Str(s)] + rest) == Some(Parsed(Txt(s), rest))
    ensures forall w :: ParseValue([Word(w)] + rest) == Some(Parsed(Atom(w), rest))
  {
    assert ([LBracket, RBracket] + rest)[2..] == rest && ([LBrace, RBrace] + rest)[2..] == rest;
    forall s ensures ParseValue([Str(s)] + rest) == Some(Parsed(Txt(s), rest)) {
      assert ([Str(s)] + rest)[1..] == rest;
    }
    forall w ensures ParseValue([Word(w)] + rest) == Some(Parsed(Atom(w), rest)) {
      assert ([Word(w)] + rest)[1..] == rest;
    }
  }

  lemma EmitStarts(v: Value)
    ensures Emit(v)[0] != RBracket
  {}

  lemma EmitItemsStarts(xs: seq<Value>)
    requires xs != []
    ensures EmitItems(xs) != [] && EmitItems(xs)[0] != RBracket
  {
    EmitStarts(xs[0]);
  }

  /** Parsing the canonical stream of a value returns the value and leaves what follows. */
  lemma {:induction false} EmitParsesBack(v: Value, rest: seq<Token>)
    ensures ParseValue(Emit(v) + rest) == Some(Parsed(v, rest))
    decreases v, 1
  {
    hide ParseValue, ParseItems, ParseMembers, EmitItems, EmitMembers;
    EmptyAndScalar(rest);
    NothingEmitted();
    match v {
      case Txt(s) =>
      case Atom(w) =>
      case Arr(xs) =>
        if xs == [] {
          assert Emit(v) == [LBracket, RBracket];
        } else {
          var tail := EmitItems(xs) + [RBracket] + rest;
          ItemsParseBack(xs, rest);
          EmitItemsStarts(xs);
          ArrayOf(tail, xs, rest);
          assert Emit(v) + rest == [LBracket] + tail;
        }
      case Obj(ms) =>
        if ms == [] {
          assert Emit(v) == [LBrace, RBrace];
        } else {
          var tail := EmitMembers(ms) + [RBrace] + rest;
          MembersParseBack(ms, rest);
          MembersShape(ms);
          assert EmitMembers(ms)[0] == Str(ms[0].key);
          ObjectOf(tail, ms, rest);
          assert Emit(v) + rest == [LBrace] + tail;
        }
    }
  }

  lemma {:induction false} ItemsParseBack(xs: seq<Value>, rest: seq<Token>)
    requires xs != []
    ensures ParseItems(EmitItems(xs) + [RBracket] + rest) == Some(Parsed(xs, rest))
    decreases xs, 0
  {
    hide ParseValue, ParseItems, Emit, EmitItems;
    ItemsShape(xs);
    var ts := EmitItems(xs) + [RBracket] + rest;
    if |xs| == 1 {
      var end := [RBracket] + rest;
      EmitParsesBack(xs[0], end);
      assert ts == Emit(xs[0]) + end;
      ItemsEnd(ts, xs[0], rest);
      assert xs == [xs[0]];
    } else {
      var tail := EmitItems(xs[1..]) + [RBracket] + rest;
      EmitParsesBack(xs[0], [Comma] + tail);
      ItemsParseBack(xs[1..], rest);
      assert ts == Emit(xs[0]) + ([Comma] + tail);
      ItemsGoOn(ts, xs[0], tail, xs[1..], rest);
      assert xs == [xs[0]] + xs[1..];
    }
  }

  lemma {:induction false} MembersParseBack(ms: seq<Member>, rest: seq<Token>)
    requires ms != []
    ensures ParseMembers(EmitMembers(ms) + [RBrace] + rest) == Some(Parsed(ms, rest))
    decreases ms, 0
  {
    hide ParseValue, ParseMembers, EmitMembers, Emit;
    MembersShape(ms);
    var m, head := ms[0], [Str(ms[0].key), Colon];
    var ts := EmitMembers(ms) + [RBrace] + rest;
    if |ms| == 1 {
      var body := Emit(m.value) + ([RBrace] + rest);
      EmitParsesBack(m.value, [RBrace] + rest);
      assert ts == head + body;
      MembersEnd(m.key, body, m.value, rest);
      assert ms == [m];
    } else {
      var tail := EmitMembers(ms[1..]) + [RBrace] + rest;
      var body := Emit(m.value) + ([Comma] + tail);
      EmitParsesBack(m.value, [Comma] + tail);
      MembersParseBack(ms[1..], rest);
      assert ts == head + body;
      MembersGoOn(m.key, body, m.value, tail, ms[1..], rest);
      assert ms == [m] + ms[1..];
    }
  }

  // ---------------------------------------------------------------- whole documents

  /** Section 2: a JSON text is one value. */
  function ParseText(text: string): Option<Value> {
    var ts := Lex(text);
    if ts.None? then None
    else
      var r := ParseValue(ts.value);
      if r.None? || r.value.rest != [] then None else Some(r.value.value)
  }

  lemma ApartConcat(a: seq<Token>, b: seq<Token>)
    requires WordsApart(a) && WordsApart(b)
    requires a != [] && b != [] ==> !(a[|a| - 1].Word? && b[0].Word?)
    ensures WordsApart(a + b)
  {}

  lemma {:induction false} EmitKeepsWordsApart(v: Value)
    ensures WordsApart(Emit(v))
    decreases v, 1
  {
    match v {
      case Obj(ms) =>
        MembersKeepWordsApart(ms);
        ApartConcat([LBrace], EmitMembers(ms));
        ApartConcat([LBrace] + EmitMembers(ms), [RBrace]);
      case Arr(xs) =>
        ItemsKeepWordsApart(xs);
        ApartConcat([LBracket], EmitItems(xs));
        ApartConcat([LBracket] + EmitItems(xs), [RBracket]);
      case _ =>
    }
  }

  lemma {:induction false} ItemsKeepWordsApart(xs: seq<Value>)
    ensures WordsApart(EmitItems(xs))
    decreases xs, 0
  {
    if xs != [] {
      EmitKeepsWordsApart(xs[0]);
      if |xs| > 1 {
        ItemsKeepWordsApart(xs[1..]);
        ApartConcat(Emit(xs[0]), [Comma]);
        ApartConcat(Emit(xs[0]) + [Comma], EmitItems(xs[1..]));
      }
    }
  }

  lemma {:induction false} MembersKeepWordsApart(ms: seq<Member>)
    ensures WordsApart(EmitMembers(ms))
    decreases ms, 0
  {
    if ms != [] {
      EmitKeepsWordsApart(ms[0].value);
      ApartConcat([Str(ms[0].key), Colon], Emit(ms[0].value));
      if |ms| > 1 {
        MembersKeepWordsApart(ms[1..]);
        ApartConcat(EmitMember(ms[0]), [Comma]);
        ApartConcat(EmitMember(ms[0]) + [Comma], EmitMembers(ms[1..]));
      }
    }
  }

  /** The parser is unambiguous: it accepts nothing but the canonical stream of its result. */
  lemma {:induction false} OnlyTheCanonicalStreamParses(ts: seq<Token>)
    requires ParseValue(ts).Some?
    ensures var r := ParseValue(ts).value; ts == Emit(r.value) + r.rest
    decreases |ts|, 0
  {
    hide ParseItems, ParseMembers, EmitItems, EmitMembers;
    var r := ParseValue(ts).value;
    assert ts == [ts[0]] + ts[1..];
    NothingEmitted();
    if |ts| > 1 { assert ts == [ts[0], ts[1]] + ts[2..]; }
    if ts[0] == LBracket && !(|ts| > 1 && ts[1] == RBracket) {
      OnlyCanonicalItems(ts[1..]);
    } else if ts[0] == LBrace && !(|ts| > 1 && ts[1] == RBrace) {
      OnlyCanonicalMembers(ts[1..]);
    }
  }

  lemma {:induction false} OnlyCanonicalItems(ts: seq<Token>)
    requires ParseItems(ts).Some?
    ensures var r := ParseItems(ts).value; r.value != [] && ts == EmitItems(r.value) + [RBracket] + r.rest
    decreases |ts|, 1
  {
    hide ParseValue, Emit, EmitItems;
    var first := ParseValue(ts).value;
    var r := ParseItems(ts).value;
    OnlyTheCanonicalStreamParses(ts);
    ItemsShape(r.value);
    assert first.rest == [first.rest[0]] + first.rest[1..];
    if first.rest[0] == Comma {
      OnlyCanonicalItems(first.rest[1..]);
      assert r.value[1..] == ParseItems(first.rest[1..]).value.value;
    }
  }

  /** A parsed member list starts with a member, and a comma leads to the others. */
  lemma {:induction false} FirstMember(ts: seq<Token>) returns (m: Member, next: seq<Token>)
    requires ParseMembers(ts).Some?
    ensures |ts| > 2 && ParseValue(ts[2..]) == Some(Parsed(m.value, next)) && ts == [Str(m.key), Colon] + ts[2..]
    ensures var r := ParseMembers(ts).value;
            && next != []
            && (next[0] == RBrace ==> r == Parsed([m], next[1..]))
            && (next[0] != RBrace ==>
                  && next[0] == Comma && ParseMembers(next[1..]).Some?
                  && var others := ParseMembers(next[1..]).value;
                     r == Parsed([m] + others.value, others.rest))
  {
    hide ParseValue;
    var first := ParseValue(ts[2..]).value;
    m, next := Member(ts[0].value, first.value), first.rest;
    assert ts == [ts[0], ts[1]] + ts[2..];
  }

  lemma {:induction false} OnlyCanonicalMembers(ts: seq<Token>)
    requires ParseMembers(ts).Some?
    ensures var r := ParseMembers(ts).value; r.value != [] && ts == EmitMembers(r.value) + [RBrace] + r.rest
    decreases |ts|, 1
  {
    hide ParseValue, ParseMembers, Emit, EmitMembers;
    var r := ParseMembers(ts).value;
    var m, next := FirstMember(ts);
    OnlyTheCanonicalStreamParses(ts[2..]);
    MembersShape(r.value);
    assert ts == EmitMember(m) + next;
    hide EmitMember;
    assert next == [next[0]] + next[1..];
    if next[0] == Comma {
      OnlyCanonicalMembers(next[1..]);
      var others := r.value[1..];
      assert others == ParseMembers(next[1..]).value.value;
      Regroup(EmitMember(m), [Comma], EmitMembers(others), [RBrace], r.rest);
    }
  }

  lemma Regroup<T>(a: seq<T>, b: seq<T>, c: seq<T>, d: seq<T>, e: seq<T>)
    ensures a + (b + (c + d + e)) == a + b + c + d + e
  {}

  lemma TextParsesExactly(text: string, v: Value)
    ensures ParseText(text) == Some(v) <==> Lex(text) == Some(Emit(v))
  {
    hide Lex, ParseValue, Emit;
    EmitParsesBack(v, []);
    assert Emit(v) + [] == Emit(v);
    if Lex(text).Some? && ParseValue(Lex(text).value).Some? {
      OnlyTheCanonicalStreamParses(Lex(text).value);
      assert Emit(ParseValue(Lex(text).value).value.value) + [] == Emit(ParseValue(Lex(text).value).value.value);
    }
  }

  /** The pieces are meant to print the value; whether it is read back is another matter. */
  ghost predicate Prints(ps: seq<Piece>, v: Value) {
    Tokens(ps) == Emit(v) && AllDecided(ps)
  }

  /** Whatever its layout, a text printed as the tokens of a value parses to that value exactly
      when every string in it is read back. */
  lemma PrintedValueParsesExactly(ps: seq<Piece>, v: Value, end: string)
    requires Prints(ps, v) && AllSpace(end)
    ensures ParseText(Text(ps) + end) == Some(v) <==> AllRead(ps)
  {
    hide ParseText;
    EmitKeepsWordsApart(v);
    PiecesLexBackExactly(ps, end);
    TextParsesExactly(Text(ps) + end, v);
  }

  // ---------------------------------------------------------------- dangling commas

  ghost predicate NoDanglingComma(ts: seq<Token>) {
    forall i, j :: 0 <= i < j < |ts| && j == i + 1 ==> !(ts[i] == Comma && ts[j] == RBracket)
  }

  lemma DanglingConcat(a: seq<Token>, b: seq<Token>)
    requires NoDanglingComma(a) && NoDanglingComma(b)
    requires a != [] && b != [] ==> !(a[|a| - 1] == Comma && b[0] == RBracket)
    ensures NoDanglingComma(a + b)
  {}

  lemma EmitEnds(v: Value)
    ensures Emit(v)[|Emit(v)| - 1] != Comma && Emit(v)[0] != RBracket
  {}

  lemma {:induction false} EmitLeavesNoComma(v: Value)
    ensures NoDanglingComma(Emit(v))
    decreases v, 1
  {
    match v {
      case Obj(ms) =>
        MembersLeaveNoComma(ms);
        DanglingConcat([LBrace], EmitMembers(ms));
        DanglingConcat([LBrace] + EmitMembers(ms), [RBrace]);
      case Arr(xs) =>
        ItemsLeaveNoComma(xs);
        DanglingConcat([LBracket], EmitItems(xs));
        DanglingConcat([LBracket] + EmitItems(xs), [RBracket]);
      case _ =>
    }
  }

  lemma {:induction false} ItemsLeaveNoComma(xs: seq<Value>)
    ensures NoDanglingComma(EmitItems(xs))
    ensures xs != [] ==>
              var ts := EmitItems(xs); ts != [] && ts[0] != RBracket && ts[|ts| - 1] != Comma
    decreases xs, 0
  {
    hide Emit;
    if xs != [] {
      EmitLeavesNoComma(xs[0]);
      EmitEnds(xs[0]);
      if |xs| > 1 {
        ItemsLeaveNoComma(xs[1..]);
        DanglingConcat(Emit(xs[0]), [Comma]);
        DanglingConcat(Emit(xs[0]) + [Comma], EmitItems(xs[1..]));
      }
    }
  }

  lemma {:induction false} MembersLeaveNoComma(ms: seq<Member>)
    ensures NoDanglingComma(EmitMembers(ms))
    ensures ms != [] ==> EmitMembers(ms) != [] && EmitMembers(ms)[0].Str?
    decreases ms, 0
  {
    hide Emit;
    if ms != [] {
      EmitLeavesNoComma(ms[0].value);
      EmitEnds(ms[0].value);
      DanglingConcat([Str(ms[0].key), Colon], Emit(ms[0].value));
      if |ms| > 1 {
        MembersLeaveNoComma(ms[1..]);
        DanglingConcat(EmitMember(ms[0]), [Comma]);
        DanglingConcat(EmitMember(ms[0]) + [Comma], EmitMembers(ms[1..]));
      }
    }
  }

  ghost predicate ReadUpTo(ps: seq<Piece>, k: nat)
    requires k <= |ps|
  {
    forall i :: 0 <= i < k ==> ReadsRight(ps[i])
  }

  /** Up to the first misread string the text lexes to the intended tokens. */
  lemma {:induction false} LexPrefix(ps: seq<Piece>, end: string, k: nat)
    requires AllSpace(end) && AllDecided(ps) && WordsApart(Tokens(ps)) && k <= |ps| && ReadUpTo(ps, k)
    requires Lex(Text(ps) + end).Some?
    ensures k <= |Lex(Text(ps) + end).value| && Lex(Text(ps) + end).value[..k] == Tokens(ps)[..k]
  {
    hide Lex, ReadsRight, AllDecided, WordsApart, AllSpace, Text;
    if k > 0 {
      FirstDecided(ps);
      assert ReadsRight(ps[0]);
      LexFirst(ps, end);
      assert ReadUpTo(ps[1..], k - 1);
      LexPrefix(ps[1..], end, k - 1);
      var ts := Lex(Text(ps[1..]) + end).value;
      assert ([ps[0].token] + ts)[..k] == [ps[0].token] + ts[..k - 1];
      assert Tokens(ps)[..k] == [ps[0].token] + Tokens(ps[1..])[..k - 1];
    }
  }

  /** A text with a comma before a closing bracket is no JSON text, even if strings after it are
      misread. */
  lemma {:induction false} DanglingCommaNeverParses(ps: seq<Piece>, end: string, k: nat)
    requires AllSpace(end) && AllDecided(ps) && WordsApart(Tokens(ps))
    requires k + 1 < |ps| && ps[k].token == Comma && ps[k + 1].token == RBracket && ReadUpTo(ps, k)
    ensures ParseText(Text(ps) + end) == None
  {
    hide Lex, AllDecided, WordsApart, AllSpace, Text, Emit;
    var text := Text(ps) + end;
    if ParseText(text).Some? {
      var v := ParseText(text).value;
      TextParsesExactly(text, v);
      LexPrefix(ps, end, k + 2);
      SamePrefixAt(Emit(v), Tokens(ps), k + 2, k);
      SamePrefixAt(Emit(v), Tokens(ps), k + 2, k + 1);
      EmitLeavesNoComma(v);
      assert false;
    }
  }

  lemma SamePrefixAt<T>(a: seq<T>, b: seq<T>, n: nat, k: nat)
    requires n <= |a| && n <= |b| && a[..n] == b[..n] && k < n
    ensures a[k] == b[k]
  {
    assert a[k] == a[..n][k] && b[k] == b[..n][k];
  }

  lemma CommaKeepsWordsApart(a: seq<Token>, b: seq<Token>)
    requires WordsApart(a + b)
    ensures WordsApart(a + [Comma] + b)
  {
    var ab, ts := a + b, a + [Comma] + b;
    forall i, j | 0 <= i < j < |ts| && j == i + 1 ensures !(ts[i].Word? && ts[j].Word?) {
      if j < |a| {
        assert ts[i] == ab[i] && ts[j] == ab[j];
      } else if i > |a| {
        assert ts[i] == ab[i - 1] && ts[j] == ab[j - 1];
      }
    }
  }

  // ---------------------------------------------------------------- growing at the end

  lemma {:induction false} ItemsGrow(xs: seq<Value>, x: Value)
    ensures EmitItems(xs + [x]) == EmitItems(xs) + (if xs == [] then [] else [Comma]) + Emit(x)
  {
    hide EmitItems, Emit;
    NothingEmitted();
    ItemsShape(xs + [x]);
    if xs == [] {
      assert xs + [x] == [x];
    } else {
      ItemsShape(xs);
      ItemsGrow(xs[1..], x);
      assert (xs + [x])[1..] == xs[1..] + [x];
    }
  }

  lemma {:induction false} MembersGrow(ms: seq<Member>, m: Member)
    ensures EmitMembers(ms + [m]) == EmitMembers(ms) + (if ms == [] then [] else [Comma]) + EmitMember(m)
  {
    hide EmitMembers, EmitMember;
    NothingEmitted();
    MembersShape(ms + [m]);
    if ms == [] {
      assert ms + [m] == [m];
    } else {
      MembersShape(ms);
      MembersGrow(ms[1..], m);
      assert (ms + [m])[1..] == ms[1..] + [m];
    }
  }

  lemma NothingEmitted()
    ensures EmitItems([]) == [] && EmitMembers([]) == []
  {}
}
