/** The numbers a report prints with `%d` and `%.1f`, as section 6 of RFC 8259 reads them. */
module NumberText {
  import opened JsonDocument
  import opened Rounding

  function Digit(d: nat): char
    requires d < 10
  {
    ('0' as int + d) as char
  }

  function Digits(n: nat): (s: string)
    ensures s != ""
  {
    if n < 10 then [Digit(n)] else Digits(n / 10) + [Digit(n % 10)]
  }

  /** `%d`. */
  function IntText(n: int): string {
    if n < 0 then "-" + Digits(-n) else Digits(n)
  }

  /** `%.1f`. */
  function TenthsText(x: real): string {
    (if x < 0.0 then "-" else "") + PointText(RoundTenths(if x < 0.0 then -x else x))
  }

  /** A number of tenths with its decimal point. */
  function PointText(t: nat): string {
    Digits(t / 10) + "." + [Digit(t % 10)]
  }

  /** `%.0f`. */
  function UnitsText(x: real): string {
    (if x < 0.0 then "-" else "") + Digits(RoundUnits(if x < 0.0 then -x else x))
  }

  /** The number a digit string spells. */
  function NatOf(s: string): nat
    requires forall k :: 0 <= k < |s| ==> IsDigit(s[k])
  {
    if s == "" then 0
    else
      assert IsDigit(s[|s| - 1]);
      10 * NatOf(s[..|s| - 1]) + (s[|s| - 1] as int - '0' as int)
  }

  lemma {:induction false} DigitsAreDigits(n: nat)
    ensures forall k :: 0 <= k < |Digits(n)| ==> IsDigit(Digits(n)[k])
    ensures Digits(n)[0] == '0' ==> |Digits(n)| == 1
    ensures n > 0 ==> Digits(n)[0] != '0'
  {
    if n >= 10 { DigitsAreDigits(n / 10); }
  }

  lemma {:induction false} DigitsSpellTheNumber(n: nat)
    ensures forall k :: 0 <= k < |Digits(n)| ==> IsDigit(Digits(n)[k])
    ensures NatOf(Digits(n)) == n
  {
    DigitsAreDigits(n);
    if n >= 10 {
      DigitsSpellTheNumber(n / 10);
      assert Digits(n)[..|Digits(n)| - 1] == Digits(n / 10);
    } else {
      assert Digits(n)[..0] == "";
    }
  }

  /** A printed integer is a minus sign if it is negative and the digits of its absolute value,
      which do not start with a zero unless it is zero. */
  lemma IntTextInPlainTerms(n: int)
    ensures n < 0 ==> IntText(n) == "-" + IntText(-n)
    ensures n >= 0 ==>
              && IntText(n) != "" && (forall k :: 0 <= k < |IntText(n)| ==> '0' <= IntText(n)[k] <= '9')
              && NatOf(IntText(n)) == n && (IntText(n)[0] == '0' ==> n == 0 && IntText(n) == "0")
  {
    var a := if n < 0 then -n else n;
    DigitsSpellTheNumber(a);
    DigitsAreDigits(a);
  }

  /** Digit strings are decimal. */
  lemma DecimalInPlainTerms(s: string, c: char)
    requires (forall k :: 0 <= k < |s| ==> '0' <= s[k] <= '9') && '0' <= c <= '9'
    ensures NatOf("") == 0
    ensures NatOf(s + [c]) == 10 * NatOf(s) + (c as int - '0' as int)
  {
    assert (s + [c])[..|s|] == s;
  }

  /** `%.1f`: the tenths nearest to the absolute value, the last digit behind the point, and a
      minus sign before a negative number. */
  lemma TenthsTextInPlainTerms(x: real) returns (whole: string, last: char)
    ensures (forall k :: 0 <= k < |whole| ==> '0' <= whole[k] <= '9') && '0' <= last <= '9'
    ensures x >= 0.0 ==> TenthsText(x) == whole + "." + [last]
    ensures x < 0.0 ==> TenthsText(x) == "-" + whole + "." + [last]
    ensures var tenths := 10 * NatOf(whole) + (last as int - '0' as int);
            && -0.5 <= tenths as real - 10.0 * (if x < 0.0 then -x else x) <= 0.5
            && (tenths as real - 10.0 * (if x < 0.0 then -x else x) in {0.5, -0.5} ==> tenths % 2 == 0)
            && whole == IntText(tenths / 10)
  {
    var t: nat := RoundTenths(if x < 0.0 then -x else x);
    whole, last := Digits(t / 10), Digit(t % 10);
    DigitsSpellTheNumber(t / 10);
  }

  /** `%.0f`. */
  lemma UnitsTextInPlainTerms(x: real) returns (n: nat)
    ensures -0.5 <= n as real - (if x < 0.0 then -x else x) <= 0.5
    ensures UnitsText(x) == (if x < 0.0 then "-" else "") + IntText(n)
  {
    n := RoundUnits(if x < 0.0 then -x else x);
  }

  /** Different numbers print differently. */
  lemma IntTextIsInjective(m: int, n: int)
    requires IntText(m) == IntText(n)
    ensures m == n
  {
    var a, b := if m < 0 then -m else m, if n < 0 then -n else n;
    DigitsSpellTheNumber(a);
    DigitsSpellTheNumber(b);
    assert IsDigit(Digits(a)[0]) && IsDigit(Digits(b)[0]);
    if m < 0 && n < 0 {
      assert Digits(a) == IntText(m)[1..] == IntText(n)[1..] == Digits(b);
    }
  }

  lemma {:induction false} DigitRun(s: string, rest: string)
    requires forall k :: 0 <= k < |s| ==> IsDigit(s[k])
    requires rest == "" || !IsDigit(rest[0])
    ensures DigitsLength(s + rest) == |s|
  {
    if s == "" {
      assert s + rest == rest;
    } else {
      DigitRun(s[1..], rest);
      assert (s + rest)[1..] == s[1..] + rest;
    }
  }

  ghost predicate Figures(s: string) {
    s != "" && forall k :: 0 <= k < |s| ==> '0' <= s[k] <= '9'
  }

  /** The grammar of section 6, rule by rule. */
  ghost predicate Grammatical(w: string, sign: string, whole: string, fraction: string, exponent: string) {
    && w == sign + whole + fraction + exponent
    && (sign == "" || sign == "-")
    && Figures(whole) && (whole[0] == '0' ==> whole == "0")
    && (fraction == "" || (fraction[0] == '.' && Figures(fraction[1..])))
    && GrammaticalExponent(exponent)
  }

  ghost predicate GrammaticalExponent(s: string) {
    s == "" || (s[0] in "eE" && (Figures(s[1..]) || (|s| > 1 && s[1] in "+-" && Figures(s[2..]))))
  }

  lemma {:induction false} DigitsLengthIsLongest(s: string)
    ensures var n := DigitsLength(s);
            && (forall k :: 0 <= k < n ==> '0' <= s[k] <= '9')
            && (n < |s| ==> !('0' <= s[n] <= '9'))
  {
    if s != "" && IsDigit(s[0]) { DigitsLengthIsLongest(s[1..]); }
  }

  lemma ExponentMeans(s: string)
    ensures IsExponent(s) <==> GrammaticalExponent(s)
  {
    if s != "" {
      DigitsLengthIsLongest(s[1..]);
      if |s| > 1 { DigitsLengthIsLongest(s[2..]); }
    }
  }

  /** The reader's numbers are exactly those of the grammar. */
  lemma NumberMeans(w: string)
    ensures IsNumber(w) <==> exists sign, whole, fraction, exponent :: Grammatical(w, sign, whole, fraction, exponent)
  {
    if IsNumber(w) {
      NumberSplits(w);
    }
    if sign, whole, fraction, exponent :| Grammatical(w, sign, whole, fraction, exponent) {
      GrammaticalIsANumber(w, sign, whole, fraction, exponent);
    }
  }

  /** The same rules for what follows the integer part. */
  ghost predicate GrammaticalTail(s: string, fraction: string, exponent: string) {
    && s == fraction + exponent
    && (fraction == "" || (fraction[0] == '.' && Figures(fraction[1..])))
    && GrammaticalExponent(exponent)
  }

  lemma TailSplits(s: string) returns (fraction: string, exponent: string)
    requires IsFraction(s)
    ensures GrammaticalTail(s, fraction, exponent)
  {
    hide IsExponent, GrammaticalExponent;
    if s == "" || s[0] != '.' {
      fraction, exponent := "", s;
      assert s == "" + s;
    } else {
      var n := DigitsLength(s[1..]);
      fraction, exponent := s[..1 + n], s[1 + n..];
      DigitsLengthIsLongest(s[1..]);
      assert fraction[1..] == s[1..][..n];
    }
    ExponentMeans(exponent);
  }

  lemma TailIsAFraction(s: string, fraction: string, exponent: string)
    requires GrammaticalTail(s, fraction, exponent)
    ensures IsFraction(s) && (s == "" || !IsDigit(s[0]))
  {
    hide IsExponent;
    ExponentMeans(exponent);
    if fraction == "" {
      assert s == exponent;
    } else {
      DigitRun(fraction[1..], exponent);
      assert s[1..] == fraction[1..] + exponent && s[|fraction|..] == exponent;
    }
  }

  lemma NumberSplits(w: string)
    requires IsNumber(w)
    ensures exists sign, whole, fraction, exponent :: Grammatical(w, sign, whole, fraction, exponent)
  {
    hide IsFraction, Figures, GrammaticalExponent;
    var sign := if w[0] == '-' then "-" else "";
    var s := if w[0] == '-' then w[1..] else w;
    var n := DigitsLength(s);
    FirstFigures(s);
    var fraction, exponent := TailSplits(s[n..]);
    Rejoin(w, sign, s, n, fraction, exponent);
    assert Grammatical(w, sign, s[..n], fraction, exponent);
  }

  lemma FirstFigures(s: string)
    requires DigitsLength(s) > 0
    ensures Figures(s[..DigitsLength(s)])
  {
    DigitsLengthIsLongest(s);
  }

  lemma Rejoin(w: string, sign: string, s: string, n: nat, fraction: string, exponent: string)
    requires n <= |s| && w == sign + s && s[n..] == fraction + exponent
    ensures w == sign + s[..n] + fraction + exponent
  {}

  /** Where the integer part of an unsigned number ends. */
  lemma WholePart(s: string, whole: string, tail: string)
    requires Figures(whole) && s == whole + tail && (tail == "" || !IsDigit(tail[0]))
    ensures DigitsLength(s) == |whole| && s[|whole|..] == tail && s[0] == whole[0]
  {
    DigitRun(whole, tail);
  }

  lemma GrammaticalIsANumber(w: string, sign: string, whole: string, fraction: string, exponent: string)
    requires Grammatical(w, sign, whole, fraction, exponent)
    ensures IsNumber(w)
  {
    hide IsFraction, GrammaticalExponent, DigitsLength;
    var s := whole + (fraction + exponent);
    TailIsAFraction(fraction + exponent, fraction, exponent);
    WholePart(s, whole, fraction + exponent);
    assert w == sign + s;
    hide Figures;
    if sign == "-" {
      assert w[1..] == s;
    } else {
      assert w == s;
    }
  }

  lemma {:induction false} WordRun(s: string)
    requires forall k :: 0 <= k < |s| ==> IsWordChar(s[k])
    ensures WordLength(s) == |s|
  {
    if s != "" { WordRun(s[1..]); }
  }

  /** A digit string with a sound fraction is a number, with or without a sign. */
  lemma NumberOf(n: nat, rest: string)
    requires IsFraction(rest) && (rest == "" || !IsDigit(rest[0]))
    ensures IsNumber(Digits(n) + rest) && IsNumber("-" + Digits(n) + rest)
  {
    hide IsFraction, Digits;
    DigitsAreDigits(n);
    DigitRun(Digits(n), rest);
    var s := Digits(n) + rest;
    assert s[|Digits(n)|..] == rest;
    assert s[0] == Digits(n)[0] != '-';
    assert ("-" + Digits(n) + rest)[1..] == s;
  }

  lemma IntTextIsANumber(n: int)
    ensures IsWord(IntText(n)) && WordLength(IntText(n)) == |IntText(n)|
  {
    var a := if n < 0 then -n else n;
    NumberOf(a, "");
    DigitsAreDigits(a);
    assert Digits(a) + "" == Digits(a) && "-" + Digits(a) + "" == "-" + Digits(a);
    WordRun(IntText(n));
  }

  lemma LastDigitIsAFraction(d: nat)
    requires d < 10
    ensures IsFraction("." + [Digit(d)])
  {
    var fraction := "." + [Digit(d)];
    assert fraction[1..] == [Digit(d)] && fraction[2..] == "";
    DigitRun([Digit(d)], "");
    assert [Digit(d)] + "" == [Digit(d)];
  }

  lemma PointTextIsANumber(t: nat)
    ensures IsNumber(PointText(t)) && IsNumber("-" + PointText(t))
    ensures forall k :: 0 <= k < |PointText(t)| ==> IsWordChar(PointText(t)[k])
  {
    hide IsNumber, IsFraction, Digits;
    var fraction := "." + [Digit(t % 10)];
    LastDigitIsAFraction(t % 10);
    NumberOf(t / 10, fraction);
    DigitsAreDigits(t / 10);
    assert PointText(t) == Digits(t / 10) + fraction;
    assert "-" + PointText(t) == "-" + Digits(t / 10) + fraction;
  }

  lemma TenthsTextIsANumber(x: real)
    ensures IsWord(TenthsText(x)) && WordLength(TenthsText(x)) == |TenthsText(x)|
  {
    hide IsNumber, PointText, WordLength;
    var t: nat := RoundTenths(if x < 0.0 then -x else x);
    PointTextIsANumber(t);
    assert TenthsText(x) == if x < 0.0 then "-" + PointText(t) else PointText(t);
    WordRun(TenthsText(x));
  }
}
