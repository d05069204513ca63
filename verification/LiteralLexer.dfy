/** A lexer of C++ text that knows string and character literals (C++20 [lex.string], [lex.ccon]),
    and where the comment stripper of audit/audit_ct_namespace.cpp, which does not, departs from
    it. Line splices, raw strings, digit separators and header names are not recognised. */
module LiteralLexer {
  import opened CommentStripper
  import opened TextScan

  /** What a source position belongs to: code or a comment outside every literal, or a part of a
      literal with the given quote. */
  datatype Place =
    | Outer(kind: Label)
    | Opened(quote: char) | Inner(quote: char) | Escape(quote: char) | Escaped(quote: char) | Closed

  function OuterAt(src: string, p: nat): Place
    requires p < |src|
  {
    if src[p] == '"' || src[p] == '\'' then Opened(src[p]) else Outer(Outside(src, p))
  }

  /** The place of a position reached inside a literal. An unclosed literal ends with its line. */
  function WithinAt(src: string, p: nat, quote: char): Place
    requires p < |src|
  {
    if src[p] == quote then Closed
    else if src[p] == '\\' then Escape(quote)
    else if src[p] == '\n' then Outer(Code)
    else Inner(quote)
  }

  function NextPlace(previous: Place, src: string, p: nat): Place
    requires p < |src|
  {
    match previous
    case Outer(Code) => OuterAt(src, p)
    case Outer(CloseSlash) => OuterAt(src, p)
    case Outer(Line) => if src[p] == '\n' then OuterAt(src, p) else Outer(Line)
    case Outer(kind) => Outer(Next(kind, src, p))
    case Opened(quote) => WithinAt(src, p, quote)
    case Inner(quote) => WithinAt(src, p, quote)
    case Escape(quote) => Escaped(quote)
    case Escaped(quote) => WithinAt(src, p, quote)
    case Closed => OuterAt(src, p)
  }

  function PlaceAt(src: string, p: nat): Place
    requires p < |src|
  {
    if p == 0 then OuterAt(src, 0) else NextPlace(PlaceAt(src, p - 1), src, p)
  }

  predicate InLiteral(src: string, p: nat) {
    p < |src| && !PlaceAt(src, p).Outer?
  }

  predicate InComment(src: string, p: nat) {
    p < |src| && PlaceAt(src, p).Outer? && PlaceAt(src, p).kind != Code
  }

  /** Code outside every comment and literal. */
  predicate Executable(src: string, p: nat) {
    p < |src| && PlaceAt(src, p) == Outer(Code)
  }

  predicate OpensComment(src: string, p: nat) {
    PairAt(src, p, '/', '/') || PairAt(src, p, '/', '*')
  }

  /** No literal position before `n` looks like the start of a comment. */
  ghost predicate LiteralsOpenNoComment(src: string, n: nat) {
    forall p :: 0 <= p < n && InLiteral(src, p) ==> !OpensComment(src, p)
  }

  /** What the stripper takes the place for. */
  function Flat(place: Place): Label {
    if place.Outer? then place.kind else Code
  }

  lemma {:induction false} SameLabel(src: string, p: nat)
    requires p < |src| && LiteralsOpenNoComment(src, p + 1)
    ensures LabelAt(src, p) == Flat(PlaceAt(src, p))
  {
    assert InLiteral(src, p) ==> !OpensComment(src, p);
    if p > 0 { SameLabel(src, p - 1); }
  }

  /** A comment opener inside a literal is stripped although it belongs to no comment. */
  lemma StrippedInALiteral(src: string, p: nat)
    requires InLiteral(src, p) && OpensComment(src, p) && LiteralsOpenNoComment(src, p)
    ensures !IsCode(src, p) && !InComment(src, p)
  {
    assert p > 0;
    SameLabel(src, p - 1);
  }

  ghost predicate StripsTheCommentsOf(src: string, n: nat) {
    forall p :: 0 <= p < n && p < |src| ==> (IsCode(src, p) <==> !InComment(src, p))
  }

  lemma {:induction false} FirstOpenerInALiteral(src: string, n: nat) returns (p: nat)
    requires !LiteralsOpenNoComment(src, n)
    ensures p < n && InLiteral(src, p) && OpensComment(src, p) && LiteralsOpenNoComment(src, p)
  {
    if LiteralsOpenNoComment(src, n - 1) {
      p := n - 1;
    } else {
      p := FirstOpenerInALiteral(src, n - 1);
    }
  }

  /** Up to any position, the stripper removes exactly the comments if and only if no literal
      before it looks like the start of one. */
  lemma StripsTheCommentsExactly(src: string, n: nat)
    requires n <= |src|
    ensures StripsTheCommentsOf(src, n) <==> LiteralsOpenNoComment(src, n)
  {
    hide PlaceAt, LabelAt, OpensComment;
    if LiteralsOpenNoComment(src, n) {
      forall p | 0 <= p < n ensures IsCode(src, p) <==> !InComment(src, p) {
        SameLabel(src, p);
      }
    } else {
      var p := FirstOpenerInALiteral(src, n);
      StrippedInALiteral(src, p);
    }
  }

  // ---------------------------------------------------------------- witnesses

  lemma {:induction false} LineGoesOn(src: string, start: nat, p: nat)
    requires start <= p < |src| && LabelAt(src, start) == Line && '\n' !in src
    ensures LabelAt(src, p) == Line
    decreases p
  {
    if start < p {
      LineGoesOn(src, start, p - 1);
      assert src[p] in src;
    }
  }

  predicate IsOrdinary(c: char) {
    c !in ['"', '\'', '/', '\\', '\n']
  }

  lemma {:induction false} CodeGoesOn(src: string, start: nat, p: nat)
    requires start <= p < |src| && forall q :: start <= q <= p ==> IsOrdinary(src[q])
    requires start > 0 && PlaceAt(src, start - 1) == Closed
    ensures PlaceAt(src, p) == Outer(Code)
    decreases p
  {
    if start < p { CodeGoesOn(src, start, p - 1); }
  }

  lemma {:induction false} InnerGoesOn(src: string, p: nat)
    requires 0 < p < |src| && src[0] == '"' && forall q :: 1 <= q <= p ==> IsOrdinary(src[q])
    ensures PlaceAt(src, p) == Inner('"')
  {
    if p > 1 { InnerGoesOn(src, p - 1); }
  }

  predicate AllOrdinary(s: string) {
    forall q :: 0 <= q < |s| ==> IsOrdinary(s[q])
  }

  /** What follows a literal that holds `//` on its line is executable, and the stripper loses it. */
  lemma LiteralHidesACall(call: string)
    requires |call| >= 2 && AllOrdinary(call)
    ensures var src := "\"//\";" + call;
            && OccursAt(src, call, 5) && (forall p :: 5 <= p < |src| ==> Executable(src, p))
            && !SpelledInCode(src, call)
  {
    hide PlaceAt, LabelAt, IsOrdinary, SpelledInCode;
    var src := "\"//\";" + call;
    assert src[5..5 + |call|] == call;
    SemicolonIsOrdinary();
    assert forall q :: 4 <= q < |src| ==> src[q] == if q == 4 then ';' else call[q - 5];
    LiteralPlaces(src);
    forall p | 5 <= p < |src| ensures Executable(src, p) {
      CodeGoesOn(src, 4, p);
    }
    assert '\n' !in src by { OrdinaryIsOneLine(call); }
    forall p | 1 <= p < |src| ensures !IsCode(src, p) {
      LineGoesOn(src, 1, p);
    }
    OneCodePosition(src, call);
  }

  lemma SemicolonIsOrdinary()
    ensures IsOrdinary(';')
  {}

  lemma OrdinaryIsOneLine(call: string)
    requires AllOrdinary(call)
    ensures '\n' !in "\"//\";" + call
  {}

  /** Where only the first position is code, nothing longer than one character is spelled in code. */
  lemma OneCodePosition(src: string, call: string)
    requires |call| >= 2 && forall p :: 1 <= p < |src| ==> !IsCode(src, p)
    ensures !SpelledInCode(src, call)
  {
    hide LabelAt;
    forall ps: seq<nat> ensures !SpelledAt(src, call, ps) {
      if |ps| == |call| && IsCode(src, ps[0]) && IsCode(src, ps[1]) {
        assert ps[0] == 0 == ps[1];
      }
    }
  }

  lemma LiteralPlaces(src: string)
    requires |src| > 3 && src[0] == '"' && src[1] == '/' && src[2] == '/' && src[3] == '"'
    ensures PlaceAt(src, 3) == Closed && LabelAt(src, 1) == Line
  {
    assert LabelAt(src, 0) == Code;
    assert PlaceAt(src, 1) == Inner('"');
    assert PlaceAt(src, 2) == Inner('"');
  }

  /** A literal that only names a call holds no executable code, and the stripper keeps it. */
  lemma LiteralNamesACall(call: string)
    requires AllOrdinary(call)
    ensures var src := "\"" + call + "\"";
            SpelledInCode(src, call) && forall p :: 0 <= p < |src| ==> !Executable(src, p)
  {
    hide IsOrdinary, SpelledInCode, IsCode, InLiteral, Executable;
    var src := "\"" + call + "\"";
    assert src[1..1 + |call|] == call;
    assert forall q :: 1 <= q < |src| - 1 ==> src[q] == call[q - 1];
    QuotedIsKept(src);
    PatternInCodeIsFound(src, call, 1);
    FoundExactlyWhenSpelledInCode(src, call);
    forall p | 0 <= p < |src| ensures !Executable(src, p) {
      QuotedIsLiteral(src, p);
      LiteralIsNotExecutable(src, p);
    }
  }

  ghost predicate IsQuoted(src: string) {
    |src| >= 2 && src[0] == '"' == src[|src| - 1] && forall q :: 1 <= q < |src| - 1 ==> IsOrdinary(src[q])
  }

  lemma QuotedIsKept(src: string)
    requires IsQuoted(src)
    ensures forall p :: 0 <= p < |src| ==> IsCode(src, p)
  {
    hide IsCode;
    assert forall k: nat :: k < |src| ==> src[k] != '/';
    forall p | 0 <= p < |src| ensures IsCode(src, p) {
      AllCode(src, p);
    }
  }

  lemma QuotedIsLiteral(src: string, p: nat)
    requires IsQuoted(src) && p < |src|
    ensures InLiteral(src, p)
  {
    if 0 < p < |src| - 1 {
      InnerGoesOn(src, p);
    } else if |src| > 2 {
      InnerGoesOn(src, |src| - 2);
    }
  }

  lemma LiteralIsNotExecutable(src: string, p: nat)
    requires InLiteral(src, p)
    ensures !Executable(src, p)
  {}

  /** Any character may be escaped in a literal, its own quote too: the literal goes on to the next
      quote, and code follows. */
  lemma EscapesGoOn(quote: char, x: char, rest: string)
    requires quote in "\"'"
    ensures var src := [quote] + "\\" + [x, quote] + rest;
            && InLiteral(src, 0) && InLiteral(src, 1) && InLiteral(src, 2) && InLiteral(src, 3)
            && (rest != "" && IsOrdinary(rest[0]) ==> Executable(src, 4))
  {
    var src := [quote] + "\\" + [x, quote] + rest;
    assert PlaceAt(src, 1) == Escape(quote);
    assert PlaceAt(src, 2) == Escaped(quote);
    assert PlaceAt(src, 3) == Closed;
    if rest != "" { assert src[4] == rest[0]; }
  }

  /** A literal holds the other quote, and one that is not closed ends with its line. */
  lemma LiteralsEnd(quote: char, other: char, rest: string)
    requires quote in "\"'" && other in "\"'" && quote != other
    ensures InLiteral([quote, other] + rest, 1)
    ensures var src := [quote] + "\n" + rest;
            InLiteral(src, 0) && Executable(src, 1)
            && (rest != "" && IsOrdinary(rest[0]) ==> Executable(src, 2))
  {
    var src := [quote] + "\n" + rest;
    assert PlaceAt(src, 1) == Outer(Code);
    if rest != "" { assert src[2] == rest[0]; }
  }

  /** In a comment no literal opens, and no comment opens in a literal. */
  lemma LiteralsAndComments(quote: char, rest: string)
    requires quote in "\"'"
    ensures var src := "//" + [quote] + rest; InComment(src, 0) && InComment(src, 1) && InComment(src, 2)
    ensures var src := "/*" + [quote] + rest; InComment(src, 0) && InComment(src, 1) && InComment(src, 2)
    ensures var src := [quote] + "/*" + rest; InLiteral(src, 0) && InLiteral(src, 1) && InLiteral(src, 2)
  {
    var line, block, literal := "//" + [quote] + rest, "/*" + [quote] + rest, [quote] + "/*" + rest;
    assert PlaceAt(line, 1) == Outer(Line) && PlaceAt(block, 1) == Outer(OpenStar);
    assert PlaceAt(literal, 1) == Inner(quote);
  }
}
