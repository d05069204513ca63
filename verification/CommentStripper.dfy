/** The comment stripper of audit/audit_ct_namespace.cpp, against a lexer that labels every
    source position as code or as part of a comment. */
module CommentStripper {
  import opened TextScan

  /** What a source position belongs to. A block comment's delimiters have labels of their own,
      because the `*` that opens a comment must not be reused to close it. */
  datatype Label = Code | Line | OpenSlash | OpenStar | Block | CloseStar | CloseSlash

  predicate PairAt(src: string, p: nat, first: char, second: char) {
    p + 1 < |src| && src[p] == first && src[p + 1] == second
  }

  /** The label of a position reached outside every comment. */
  function Outside(src: string, p: nat): Label
    requires p < |src|
  {
    if PairAt(src, p, '/', '/') then Line
    else if PairAt(src, p, '/', '*') then OpenSlash
    else Code
  }

  /** The label of a position reached inside a block comment, past its opening pair. */
  function Inside(src: string, p: nat): Label
    requires p < |src|
  {
    if PairAt(src, p, '*', '/') then CloseStar else Block
  }

  /** The label after `previous` (C++20 [lex.comment], except that string literals are not
      recognised, as in the source). */
  function Next(previous: Label, src: string, p: nat): Label
    requires p < |src|
  {
    match previous
    case Code => Outside(src, p)
    case Line => if src[p] == '\n' then Outside(src, p) else Line
    case OpenSlash => OpenStar
    case OpenStar => Inside(src, p)
    case Block => Inside(src, p)
    case CloseStar => CloseSlash
    case CloseSlash => Outside(src, p)
  }

  /** The lexer: each label follows from the one before it. */
  function LabelAt(src: string, p: nat): Label
    requires p < |src|
  {
    if p == 0 then Outside(src, 0) else Next(LabelAt(src, p - 1), src, p)
  }

  predicate IsCode(src: string, p: nat) {
    p < |src| && LabelAt(src, p) == Code
  }

  /** The code positions from `p` on, in order. */
  function CodePositions(src: string, p: nat): (ps: seq<nat>)
    ensures forall k :: 0 <= k < |ps| ==> p <= ps[k] && IsCode(src, ps[k])
    ensures forall j, k :: 0 <= j < k < |ps| ==> ps[j] < ps[k]
    decreases |src| - p
  {
    if p >= |src| then []
    else (if IsCode(src, p) then [p] else []) + CodePositions(src, p + 1)
  }

  lemma {:induction false} CodePositionsAreAll(src: string, p: nat, q: nat)
    requires p <= q && IsCode(src, q)
    ensures q in CodePositions(src, p)
    decreases q - p
  {
    if p == q {
    } else {
      CodePositionsAreAll(src, p + 1, q);
    }
  }

  lemma IndexOfCode(src: string, q: nat) returns (j: nat)
    requires IsCode(src, q)
    ensures j < |CodePositions(src, 0)| && CodePositions(src, 0)[j] == q
  {
    CodePositionsAreAll(src, 0, q);
    j :| j < |CodePositions(src, 0)| && CodePositions(src, 0)[j] == q;
  }

  /** The characters at the given positions. */
  function Spelled(src: string, ps: seq<nat>): (s: string)
    requires forall k :: 0 <= k < |ps| ==> ps[k] < |src|
    ensures |s| == |ps| && forall k :: 0 <= k < |ps| ==> s[k] == src[ps[k]]
  {
    seq(|ps|, k requires 0 <= k < |ps| => src[ps[k]])
  }

  /** The code characters from position `p` on, in order. */
  function CodeFrom(src: string, p: nat): string {
    Spelled(src, CodePositions(src, p))
  }

  /** What stripping is meant to keep. */
  function CodeText(src: string): string {
    CodeFrom(src, 0)
  }

  lemma CodeFromStep(src: string, p: nat)
    requires p < |src|
    ensures CodeFrom(src, p) == (if IsCode(src, p) then [src[p]] else "") + CodeFrom(src, p + 1)
  {
    assert Spelled(src, [p]) == [src[p]];
  }

  lemma LabelStep(src: string, p: nat)
    requires p < |src|
    ensures p + 1 < |src| ==> LabelAt(src, p + 1) == Next(LabelAt(src, p), src, p + 1)
  {}

  /** The stripping loop. `i` runs past the end when a block comment is not closed. */
  method StripComments(src: string) returns (out: string)
    ensures out == CodeText(src)
  {
    hide LabelAt, CodeFrom;
    out := "";
    var i := 0;
    assert |src| > 0 ==> LabelAt(src, 0) == Outside(src, 0) by { if |src| > 0 { FirstLabel(src); } }
    while i < |src|
      invariant out + CodeFrom(src, i) == CodeText(src)
      invariant i < |src| ==> LabelAt(src, i) == Outside(src, i)
    {
      CodeFromStep(src, i);
      LabelStep(src, i);
      if i + 1 < |src| && src[i] == '/' && src[i + 1] == '/' {
        ghost var start := i;
        while i < |src| && src[i] != '\n'
          invariant start <= i <= |src|
          invariant i < |src| ==> LabelAt(src, i) == if src[i] == '\n' then Outside(src, i) else Line
          invariant CodeFrom(src, i) == CodeFrom(src, start)
        {
          CodeFromStep(src, i);
          LabelStep(src, i);
          i := i + 1;
        }
        continue;
      }
      if i + 1 < |src| && src[i] == '/' && src[i + 1] == '*' {
        ghost var start := i;
        CodeFromStep(src, i + 1);
        LabelStep(src, i + 1);
        i := i + 2;
        while i + 1 < |src| && !(src[i] == '*' && src[i + 1] == '/')
          invariant start + 2 <= i <= |src|
          invariant i < |src| ==> LabelAt(src, i) == Inside(src, i)
          invariant CodeFrom(src, i) == CodeFrom(src, start)
        {
          CodeFromStep(src, i);
          LabelStep(src, i);
          i := i + 1;
        }
        LeaveBlock(src, i);
        i := i + 2;
        continue;
      }
      out := out + [src[i]];
      i := i + 1;
    }
    PastTheEnd(src, i);
  }

  lemma FirstLabel(src: string)
    requires |src| > 0
    ensures LabelAt(src, 0) == Outside(src, 0)
  {}

  lemma PastTheEnd(src: string, p: nat)
    requires |src| <= p
    ensures CodeFrom(src, p) == ""
  {}

  /** Stepping over the closing pair, or over the end of an unclosed comment, loses no code. */
  lemma LeaveBlock(src: string, i: nat)
    requires i < |src| ==> LabelAt(src, i) == Inside(src, i)
    requires i + 1 < |src| ==> src[i] == '*' && src[i + 1] == '/'
    ensures CodeFrom(src, i + 2) == CodeFrom(src, i)
    ensures i + 2 < |src| ==> LabelAt(src, i + 2) == Outside(src, i + 2)
  {
    hide LabelAt, CodeFrom;
    if i < |src| {
      CodeFromStep(src, i);
      LabelStep(src, i);
    }
    if i + 1 < |src| {
      CodeFromStep(src, i + 1);
      LabelStep(src, i + 1);
    } else {
      PastTheEnd(src, i + 1);
      PastTheEnd(src, i + 2);
      if |src| <= i { PastTheEnd(src, i); }
    }
  }

  /** No two neighbouring characters open a comment. */
  ghost predicate OpensNoComment(text: string) {
    forall k: nat :: !PairAt(text, k, '/', '/') && !PairAt(text, k, '/', '*')
  }

  lemma OpenersInPlainTerms(text: string)
    ensures OpensNoComment(text) <==> !Contains(text, "//") && !Contains(text, "/*")
  {
    hide Find;
    forall k: nat
      ensures PairAt(text, k, '/', '/') <==> OccursAt(text, "//", k)
      ensures PairAt(text, k, '/', '*') <==> OccursAt(text, "/*", k)
    {
      if k + 2 <= |text| { assert text[k..k + 2] == [text[k], text[k + 1]]; }
    }
  }

  /** After a code slash, the next source position is code as well, so the two stay neighbours. */
  lemma AfterCodeSlash(src: string, p: nat)
    requires IsCode(src, p) && src[p] == '/' && p + 1 < |src|
    ensures IsCode(src, p + 1) && src[p + 1] !in {'/', '*'}
  {
    LabelAtIsOutside(src, p);
  }

  /** A code position was reached outside every comment. */
  lemma LabelAtIsOutside(src: string, p: nat)
    requires IsCode(src, p)
    ensures Outside(src, p) == Code
  {}

  /** Stripping leaves no comment opener, whatever the source, closed comments or not. */
  lemma StrippedOpensNoComment(src: string)
    ensures OpensNoComment(CodeText(src))
  {
    hide CodePositions, LabelAt;
    var ps, text := CodePositions(src, 0), CodeText(src);
    forall k: nat | k + 1 < |text| && text[k] == '/' ensures text[k + 1] !in {'/', '*'} {
      assert ps[k] < ps[k + 1];
      AfterCodeSlash(src, ps[k]);
      var j := IndexOfCode(src, ps[k] + 1);
      assert k < j <= k + 1;
    }
  }

  lemma {:induction false} AllCode(text: string, p: nat)
    requires OpensNoComment(text) && p < |text|
    ensures IsCode(text, p)
  {
    assert !PairAt(text, p, '/', '/') && !PairAt(text, p, '/', '*');
    if p > 0 { AllCode(text, p - 1); }
  }

  lemma {:induction false} CodeFromOfPlainText(text: string, p: nat)
    requires OpensNoComment(text) && p <= |text|
    ensures CodeFrom(text, p) == text[p..]
    decreases |text| - p
  {
    hide LabelAt, CodeFrom, OpensNoComment;
    if p < |text| {
      AllCode(text, p);
      CodeFromStep(text, p);
      CodeFromOfPlainText(text, p + 1);
      assert text[p..] == [text[p]] + text[p + 1..];
    } else {
      PastTheEnd(text, p);
    }
  }

  /** Stripping is the identity exactly on text that opens no comment. */
  lemma FixedExactlyWithoutOpeners(text: string)
    ensures CodeText(text) == text <==> OpensNoComment(text)
  {
    if OpensNoComment(text) {
      CodeFromOfPlainText(text, 0);
    } else {
      StrippedOpensNoComment(text);
    }
  }

  lemma StrippingIsIdempotent(src: string)
    ensures CodeText(CodeText(src)) == CodeText(src)
  {
    StrippedOpensNoComment(src);
    FixedExactlyWithoutOpeners(CodeText(src));
  }

  /** `needle` is spelled by code positions of `src` with no code position left out between
      two of them: what a reader who ignores comments sees. */
  ghost predicate SpelledInCode(src: string, needle: string) {
    exists ps: seq<nat> :: SpelledAt(src, needle, ps)
  }

  ghost predicate SpelledAt(src: string, needle: string, ps: seq<nat>) {
    && |ps| == |needle|
    && (forall k :: 0 <= k < |ps| ==> IsCode(src, ps[k]) && src[ps[k]] == needle[k])
    && (forall j, k :: 0 <= j < k < |ps| && k == j + 1 ==> ps[j] < ps[k] && NoCodeBetween(src, ps[j], ps[k]))
  }

  predicate NoCodeBetween(src: string, p: nat, q: nat) {
    forall m :: p < m < q ==> !IsCode(src, m)
  }

  /** Searching the stripped text finds exactly the patterns spelled in code. */
  lemma FoundExactlyWhenSpelledInCode(src: string, needle: string)
    ensures Contains(CodeText(src), needle) <==> SpelledInCode(src, needle)
  {
    var all := CodePositions(src, 0);
    if Contains(CodeText(src), needle) {
      var p: nat :| OccursAt(CodeText(src), needle, p);
      WindowIsSpelled(src, needle, p);
    }
    if ps: seq<nat> :| SpelledAt(src, needle, ps) {
      var p := SpellingIsAWindow(src, needle, ps);
    }
  }

  lemma NeighboursInCode(src: string, j: nat)
    requires j + 1 < |CodePositions(src, 0)|
    ensures NoCodeBetween(src, CodePositions(src, 0)[j], CodePositions(src, 0)[j + 1])
  {
    hide LabelAt, CodePositions;
    var all := CodePositions(src, 0);
    forall m | all[j] < m < all[j + 1] ensures !IsCode(src, m) {
      if IsCode(src, m) {
        var i := IndexOfCode(src, m);
        assert false;
      }
    }
  }

  /** A character of a stripped window, traced back to the source. */
  lemma WindowCharacter(src: string, needle: string, p: nat, k: nat)
    requires OccursAt(CodeText(src), needle, p) && k < |needle|
    ensures p + |needle| <= |CodePositions(src, 0)|
    ensures src[CodePositions(src, 0)[p + k]] == needle[k]
  {
    hide LabelAt, CodePositions;
    assert CodeText(src)[p..p + |needle|][k] == CodeText(src)[p + k];
  }

  lemma WindowIsSpelled(src: string, needle: string, p: nat)
    requires OccursAt(CodeText(src), needle, p)
    ensures SpelledInCode(src, needle)
  {
    hide LabelAt, CodePositions, Spelled, OccursAt;
    var all := CodePositions(src, 0);
    assert p + |needle| <= |all| by { WindowFits(src, needle, p); }
    var ps := all[p..p + |needle|];
    forall k | 0 <= k < |ps| ensures IsCode(src, ps[k]) && src[ps[k]] == needle[k] {
      assert ps[k] == all[p + k];
      WindowCharacter(src, needle, p, k);
    }
    forall j, k | 0 <= j < k < |ps| && k == j + 1 ensures ps[j] < ps[k] && NoCodeBetween(src, ps[j], ps[k]) {
      assert ps[j] == all[p + j] && ps[k] == all[p + k];
      NeighboursInCode(src, p + j);
    }
    assert SpelledAt(src, needle, ps);
  }

  lemma WindowFits(src: string, needle: string, p: nat)
    requires OccursAt(CodeText(src), needle, p)
    ensures p + |needle| <= |CodePositions(src, 0)|
  {}

  lemma SpellingIsAWindow(src: string, needle: string, ps: seq<nat>) returns (p: nat)
    requires SpelledAt(src, needle, ps)
    ensures OccursAt(CodeText(src), needle, p)
  {
    hide LabelAt, CodePositions;
    var all := CodePositions(src, 0);
    if ps == [] {
      p := 0;
    } else {
      p := IndexOfCode(src, ps[0]);
      SpellingFollows(src, needle, ps, p, |ps|);
      assert CodeText(src)[p..p + |needle|] == needle;
    }
  }

  lemma CodeNeighboursAreAdjacent(src: string, i: nat, j: nat)
    requires i < |CodePositions(src, 0)| && j < |CodePositions(src, 0)|
    requires CodePositions(src, 0)[i] < CodePositions(src, 0)[j]
    requires NoCodeBetween(src, CodePositions(src, 0)[i], CodePositions(src, 0)[j])
    ensures j == i + 1
  {
    hide LabelAt, CodePositions;
    var all := CodePositions(src, 0);
    assert i < j;
    assert all[i] < all[i + 1] <= all[j];
  }

  lemma {:induction false} SpellingFollows(src: string, needle: string, ps: seq<nat>, p: nat, n: nat)
    requires SpelledAt(src, needle, ps) && 0 < n <= |ps|
    requires p < |CodePositions(src, 0)| && CodePositions(src, 0)[p] == ps[0]
    ensures p + n <= |CodePositions(src, 0)|
    ensures forall k :: 0 <= k < n ==> CodePositions(src, 0)[p + k] == ps[k]
    decreases n
  {
    hide LabelAt, CodePositions;
    if n > 1 {
      var all := CodePositions(src, 0);
      SpellingFollows(src, needle, ps, p, n - 1);
      var before, here := ps[n - 2], ps[n - 1];
      var j := IndexOfCode(src, here);
      CodeNeighboursAreAdjacent(src, p + n - 2, j);
    }
  }

  lemma {:induction false} StrippingShortens(src: string, p: nat)
    requires p <= |src|
    ensures |CodePositions(src, p)| <= |src| - p
    decreases |src| - p
  {
    if p < |src| { StrippingShortens(src, p + 1); }
  }

  /** Searching the raw text instead finds the same patterns exactly when it opens no comment. */
  lemma RawSearchAgreesExactly(src: string)
    ensures (forall needle :: Contains(src, needle) <==> Contains(CodeText(src), needle)) <==> OpensNoComment(src)
  {
    hide Find, CodePositions, LabelAt;
    FixedExactlyWithoutOpeners(src);
    if forall needle :: Contains(src, needle) <==> Contains(CodeText(src), needle) {
      assert OccursAt(src, src, 0);
      assert Contains(CodeText(src), src);
      var p: nat :| OccursAt(CodeText(src), src, p);
      StrippingShortens(src, 0);
      assert CodeText(src)[p..p + |src|] == CodeText(src);
    }
  }

  lemma {:induction false} LineCommentLabels(text: string, p: nat)
    requires p < |text| && |text| >= 2 && text[..2] == "//" && '\n' !in text
    ensures LabelAt(text, p) == Line
  {
    if p == 0 {
      assert text[0] == text[..2][0] && text[1] == text[..2][1];
    } else {
      LineCommentLabels(text, p - 1);
    }
  }

  /** A line comment holds no code. */
  lemma LineCommentIsStripped(text: string)
    requires |text| >= 2 && text[..2] == "//" && '\n' !in text
    ensures CodeText(text) == ""
  {
    hide LabelAt;
    if CodePositions(text, 0) != [] {
      LineCommentLabels(text, CodePositions(text, 0)[0]);
      assert false;
    }
  }

  /** A pattern that lies wholly in code is never lost. */
  lemma PatternInCodeIsFound(src: string, needle: string, p: nat)
    requires OccursAt(src, needle, p)
    requires forall q :: p <= q < p + |needle| ==> IsCode(src, q)
    ensures Contains(CodeText(src), needle)
  {
    hide LabelAt;
    var ps := seq(|needle|, (k: nat) => p + k);
    forall k | 0 <= k < |needle| ensures src[ps[k]] == needle[k] {
      assert src[p..p + |needle|][k] == src[p + k];
    }
    assert SpelledAt(src, needle, ps);
    FoundExactlyWhenSpelledInCode(src, needle);
  }

  // ---------------------------------------------------------------- comment by comment

  /** Reached outside every comment, the lexer starts afresh. */
  lemma {:induction false} LabelsRestart(src: string, n: nat, p: nat)
    requires n <= p < |src| && LabelAt(src, n) == Outside(src, n)
    ensures LabelAt(src, p) == LabelAt(src[n..], p - n)
  {
    if n < p { LabelsRestart(src, n, p - 1); }
  }

  lemma {:induction false} CodeRestarts(src: string, n: nat, p: nat)
    requires n <= p <= |src| && (n < |src| ==> LabelAt(src, n) == Outside(src, n))
    ensures CodeFrom(src, p) == CodeFrom(src[n..], p - n)
    decreases |src| - p
  {
    hide LabelAt, CodeFrom;
    if p < |src| {
      CodeFromStep(src, p);
      CodeFromStep(src[n..], p - n);
      LabelsRestart(src, n, p);
      CodeRestarts(src, n, p + 1);
    } else {
      PastTheEnd(src, p);
      PastTheEnd(src[n..], p - n);
    }
  }

  lemma {:induction false} NoCodeAhead(src: string, p: nat, q: nat)
    requires p <= q <= |src| && forall k :: p <= k < q ==> LabelAt(src, k) != Code
    ensures CodeFrom(src, p) == CodeFrom(src, q)
    decreases q - p
  {
    hide LabelAt, CodeFrom;
    if p < q {
      CodeFromStep(src, p);
      NoCodeAhead(src, p + 1, q);
    }
  }

  /** The front of a text that opens no comment and ends in no slash is code, whatever follows. */
  lemma {:induction false} FrontIsCode(src: string, n: nat, p: nat)
    requires p < n <= |src| && OpensNoComment(src[..n]) && src[n - 1] != '/'
    ensures LabelAt(src, p) == Code && (p + 1 < |src| ==> LabelAt(src, p + 1) == Outside(src, p + 1))
  {
    var front := src[..n];
    assert !PairAt(front, p, '/', '/') && !PairAt(front, p, '/', '*');
    if p > 0 { FrontIsCode(src, n, p - 1); }
  }

  lemma {:induction false} FrontIsKept(src: string, n: nat, p: nat)
    requires p <= n <= |src| && OpensNoComment(src[..n]) && (n > 0 ==> src[n - 1] != '/')
    ensures CodeFrom(src, p) == src[p..n] + CodeFrom(src, n)
    decreases n - p
  {
    hide LabelAt, CodeFrom, OpensNoComment;
    if p < n {
      FrontIsCode(src, n, p);
      CodeFromStep(src, p);
      FrontIsKept(src, n, p + 1);
      assert src[p..n] == [src[p]] + src[p + 1..n];
    }
  }

  /** From `n` on the source goes on after a front without comments. */
  ghost predicate AfterFront(src: string, n: nat) {
    n <= |src| && OpensNoComment(src[..n]) && (n > 0 ==> src[n - 1] != '/')
  }

  lemma OutsideAfterFront(src: string, n: nat)
    requires AfterFront(src, n) && n < |src|
    ensures LabelAt(src, n) == Outside(src, n)
  {
    if n > 0 { FrontIsCode(src, n, n - 1); }
  }

  lemma {:induction false} LineLabels(src: string, n: nat, m: nat, p: nat)
    requires AfterFront(src, n) && n + 2 <= m <= |src| && src[n] == '/' == src[n + 1]
    requires n <= p < m && forall k :: n <= k < m ==> src[k] != '\n'
    ensures LabelAt(src, p) == Line
  {
    if p == n {
      OutsideAfterFront(src, n);
    } else {
      LineLabels(src, n, m, p - 1);
    }
  }

  /** A line comment goes up to its newline, which stays. */
  lemma LineCommentInPlainTerms(front: string, line: string, rest: string)
    requires OpensNoComment(front) && (front != "" ==> front[|front| - 1] != '/') && '\n' !in line
    ensures CodeText(front + "//" + line) == front
    ensures CodeText(front + "//" + line + "\n" + rest) == front + CodeText("\n" + rest)
  {
    hide LabelAt, CodeFrom, OpensNoComment;
    LineGoes(front + "//" + line, front, line, "");
    assert front + "//" + line + "" == front + "//" + line;
    PastTheEnd("", 0);
    LineGoes(front + "//" + line + "\n" + rest, front, line, "\n" + rest);
    assert front + "//" + line + "\n" + rest == front + "//" + line + ("\n" + rest);
  }

  lemma LineGoes(src: string, front: string, line: string, rest: string)
    requires OpensNoComment(front) && (front != "" ==> front[|front| - 1] != '/') && '\n' !in line
    requires src == front + "//" + line + rest && (rest == "" || rest[0] == '\n')
    ensures CodeText(src) == front + CodeText(rest)
  {
    hide LabelAt, CodeFrom, OpensNoComment;
    var n, m := |front|, |front| + 2 + |line|;
    assert src[..n] == front && src[m..] == rest && src[0..n] == front;
    assert src[n] == '/' == src[n + 1];
    assert forall k :: n + 2 <= k < m ==> src[k] == line[k - n - 2] && line[k - n - 2] in line;
    forall k | n <= k < m ensures LabelAt(src, k) == Line {
      LineLabels(src, n, m, k);
    }
    FrontIsKept(src, n, 0);
    NoCodeAhead(src, n, m);
    if m < |src| { LabelStep(src, m - 1); }
    CodeRestarts(src, m, m);
  }

  /** The label within a block comment that opens at `n` and closes, if at all, at `m`. */
  lemma {:induction false} BlockLabels(src: string, n: nat, m: nat, p: nat)
    requires AfterFront(src, n) && n + 2 <= m <= |src| && src[n] == '/' && src[n + 1] == '*'
    requires n <= p < m && forall k :: n + 2 <= k < m ==> !PairAt(src, k, '*', '/')
    ensures LabelAt(src, p) == if p == n then OpenSlash else if p == n + 1 then OpenStar else Block
  {
    if p == n {
      OutsideAfterFront(src, n);
    } else {
      BlockLabels(src, n, m, p - 1);
    }
  }

  /** A block comment goes up to the first closing pair after its opening pair, or to the end. */
  lemma BlockCommentInPlainTerms(front: string, body: string, rest: string)
    requires OpensNoComment(front) && (front != "" ==> front[|front| - 1] != '/')
    requires forall k: nat :: k + 1 < |body| ==> !(body[k] == '*' && body[k + 1] == '/')
    ensures CodeText(front + "/*" + body) == front
    ensures CodeText(front + "/*" + body + "*/" + rest) == front + CodeText(rest)
  {
    BlockStaysOpen(front + "/*" + body, front, body);
    BlockCloses(front + "/*" + body + "*/" + rest, front, body, rest);
  }

  lemma BlockStaysOpen(src: string, front: string, body: string)
    requires OpensNoComment(front) && (front != "" ==> front[|front| - 1] != '/') && src == front + "/*" + body
    requires forall k: nat :: k + 1 < |body| ==> !(body[k] == '*' && body[k + 1] == '/')
    ensures CodeText(src) == front
  {
    hide LabelAt, CodeFrom, OpensNoComment;
    var n, m := |front|, |src|;
    assert src[..n] == front && src[0..n] == front && src[n] == '/' && src[n + 1] == '*';
    assert forall k :: n + 2 <= k < m ==> src[k] == body[k - n - 2];
    forall k | n <= k < m ensures LabelAt(src, k) != Code {
      BlockLabels(src, n, m, k);
    }
    FrontIsKept(src, n, 0);
    NoCodeAhead(src, n, m);
    PastTheEnd(src, m);
  }

  lemma BlockCloses(src: string, front: string, body: string, rest: string)
    requires OpensNoComment(front) && (front != "" ==> front[|front| - 1] != '/')
    requires forall k: nat :: k + 1 < |body| ==> !(body[k] == '*' && body[k + 1] == '/')
    requires src == front + "/*" + body + "*/" + rest
    ensures CodeText(src) == front + CodeText(rest)
  {
    hide LabelAt, CodeFrom, OpensNoComment;
    var n, m := |front|, |front| + 2 + |body|;
    assert src[..n] == front && src[0..n] == front && src[n] == '/' && src[n + 1] == '*' && src[m + 2..] == rest;
    assert forall k :: n + 2 <= k < m ==> src[k] == body[k - n - 2];
    assert src[m] == '*' && src[m + 1] == '/';
    forall k | n <= k < m ensures LabelAt(src, k) != Code && LabelAt(src, m - 1) in {OpenStar, Block} {
      BlockLabels(src, n, m, k);
      BlockLabels(src, n, m, m - 1);
    }
    LabelStep(src, m - 1);
    LabelStep(src, m);
    LabelStep(src, m + 1);
    assert LabelAt(src, n) != Code;
    assert LabelAt(src, m) == CloseStar && LabelAt(src, m + 1) == CloseSlash;
    FrontIsKept(src, n, 0);
    NoCodeAhead(src, n, m + 2);
    CodeRestarts(src, m + 2, m + 2);
  }
}
