/** The JSON string escaping of audit/unified_audit_runner.cpp and a reader for it after
    section 7 of RFC 8259. A `char` stands for one byte of the source's strings. */
module JsonString {
  import opened Wrappers

  const QUOTE: char := '"'
  const BACKSLASH: char := '\\'
  const BACKSPACE: char := '\U{08}'
  const FORM_FEED: char := '\U{0C}'

  function HexDigit(d: nat): char
    requires d < 16
  {
    if d < 10 then ('0' as int + d) as char else ('a' as int + d - 10) as char
  }

  /** The escaped form of one byte. `%04x` of a byte below 0x20 starts with two zeros. */
  function EscapeChar(c: char): string {
    if c == QUOTE then [BACKSLASH, QUOTE]
    else if c == BACKSLASH then [BACKSLASH, BACKSLASH]
    else if c == '\n' then [BACKSLASH, 'n']
    else if c == '\r' then [BACKSLASH, 'r']
    else if c == '\t' then [BACKSLASH, 't']
    else if c == BACKSPACE then [BACKSLASH, 'b']
    else if c == FORM_FEED then [BACKSLASH, 'f']
    else if c as int < 0x20 then [BACKSLASH, 'u', '0', '0', HexDigit(c as int / 16), HexDigit(c as int % 16)]
    else [c]
  }

  function Escape(s: string): string {
    if s == "" then "" else EscapeChar(s[0]) + Escape(s[1..])
  }

  method JsonEscape(s: string) returns (out: string)
    ensures out == Escape(s)
  {
    out := "";
    for i := 0 to |s|
      invariant out + Escape(s[i..]) == Escape(s)
    {
      assert s[i..][1..] == s[i + 1..];
      out := out + EscapeChar(s[i]);
    }
  }

  /** The escapes, byte by byte: RFC 8259's short ones, its four-digit one in lower-case hex for
      the other control bytes, and every other byte for itself. */
  lemma EscapesInPlainTerms(c: char)
    ensures EscapeChar("\""[0]) == "\\\"" && EscapeChar("\\"[0]) == "\\\\"
    ensures EscapeChar("\n"[0]) == "\\n" && EscapeChar("\r"[0]) == "\\r" && EscapeChar("\t"[0]) == "\\t"
    ensures EscapeChar("\U{08}"[0]) == "\\b" && EscapeChar("\U{0C}"[0]) == "\\f"
    ensures c as int < 0x20 && c !in "\n\r\t\U{08}\U{0C}" ==>
              EscapeChar(c) == "\\u00" + ["01"[c as int / 16], "0123456789abcdef"[c as int % 16]]
    ensures c as int >= 0x20 && c !in "\"\\" ==> EscapeChar(c) == [c]
  {}

  /** A string is escaped byte after byte. */
  lemma EscapeAddsUp(s: string, c: char)
    ensures Escape("") == ""
    ensures Escape(s + [c]) == Escape(s) + EscapeChar(c)
  {
    hide EscapeChar;
    EscapeConcat(s, [c]);
    assert [c][1..] == "" && Escape([c]) == EscapeChar(c) + Escape("");
  }

  // ---------------------------------------------------------------- the reader

  function HexValue(c: char): Option<nat> {
    if '0' <= c <= '9' then Some(c as int - '0' as int)
    else if 'a' <= c <= 'f' then Some(c as int - 'a' as int + 10)
    else if 'A' <= c <= 'F' then Some(c as int - 'A' as int + 10)
    else None
  }

  function Hex4(a: char, b: char, c: char, d: char): Option<nat> {
    var w, x, y, z := HexValue(a), HexValue(b), HexValue(c), HexValue(d);
    if w.None? || x.None? || y.None? || z.None? then None
    else Some(4096 * w.value + 256 * x.value + 16 * y.value + z.value)
  }

  /** The UTF-8 bytes of a code unit outside the surrogate range. */
  function Utf8(code: nat): (s: string)
    requires code < 0x10000
    ensures 1 <= |s| <= 3
  {
    if code < 0x80 then [code as char]
    else if code < 0x800 then [(0xC0 + code / 0x40) as char, (0x80 + code % 0x40) as char]
    else [(0xE0 + code / 0x1000) as char, (0x80 + code / 0x40 % 0x40) as char, (0x80 + code % 0x40) as char]
  }

  /** One character of a string literal: what it denotes and how much text it takes. A surrogate
      escape, which the printer never writes, is refused. */
  datatype Unit = Unit(value: string, length: nat)

  function ReadEscape(text: string): Option<Unit>
    requires text != "" && text[0] == BACKSLASH
  {
    if |text| < 2 then None
    else
      match text[1]
      case '"' => Some(Unit([QUOTE], 2))
      case '\\' => Some(Unit([BACKSLASH], 2))
      case '/' => Some(Unit("/", 2))
      case 'b' => Some(Unit([BACKSPACE], 2))
      case 'f' => Some(Unit([FORM_FEED], 2))
      case 'n' => Some(Unit("\n", 2))
      case 'r' => Some(Unit("\r", 2))
      case 't' => Some(Unit("\t", 2))
      case 'u' =>
        if |text| < 6 then None
        else (
          var code := Hex4(text[2], text[3], text[4], text[5]);
          if code.None? || code.value > 0xFFFF || 0xD800 <= code.value < 0xE000 then None
          else Some(Unit(Utf8(code.value), 6))
        )
      case _ => None
  }

  function ReadUnit(text: string): Option<Unit>
    requires text != "" && text[0] != QUOTE
  {
    if text[0] == BACKSLASH then ReadEscape(text)
    else if text[0] as int < 0x20 then None
    else Some(Unit([text[0]], 1))
  }

  datatype Read = Read(value: string, rest: string)

  /** Reads a string literal from just after its opening quote. */
  function ReadString(text: string): (r: Option<Read>)
    ensures r.Some? ==> |r.value.rest| < |text|
    decreases |text|
  {
    if text == "" then None
    else if text[0] == QUOTE then Some(Read("", text[1..]))
    else
      var unit := ReadUnit(text);
      if unit.None? || unit.value.length > |text| then None
      else
        var tail := ReadString(text[unit.value.length..]);
        if tail.None? then None else Some(Read(unit.value.value + tail.value.value, tail.value.rest))
  }

  /** Section 7's table of escapes. */
  lemma ReadEscapesInPlainTerms(text: string)
    requires |text| >= 2 && text[0] == BACKSLASH && text[1] != 'u'
    ensures text[1] in "\"\\/" ==> ReadUnit(text) == Some(Unit([text[1]], 2))
    ensures text[1] == 'b' ==> ReadUnit(text) == Some(Unit("\U{08}", 2))
    ensures text[1] == 'f' ==> ReadUnit(text) == Some(Unit("\U{0C}", 2))
    ensures text[1] == 'n' ==> ReadUnit(text) == Some(Unit("\n", 2))
    ensures text[1] == 'r' ==> ReadUnit(text) == Some(Unit("\r", 2))
    ensures text[1] == 't' ==> ReadUnit(text) == Some(Unit("\t", 2))
    ensures text[1] !in "\"\\/bfnrt" ==> ReadUnit(text) == None
  {}

  /** A hexadecimal escape denotes the UTF-8 bytes of its code unit; surrogates are refused. */
  lemma ReadHexInPlainTerms(text: string, a: nat, b: nat, c: nat, d: nat)
    requires |text| >= 6 && text[0] == BACKSLASH && text[1] == 'u' && a < 16 && b < 16 && c < 16 && d < 16
    requires text[2] == "0123456789abcdef"[a] && text[3] == "0123456789abcdef"[b]
    requires text[4] == "0123456789abcdef"[c] && text[5] == "0123456789abcdef"[d]
    ensures var code := 0x1000 * a + 0x100 * b + 0x10 * c + d;
            ReadUnit(text) == if 0xD800 <= code < 0xE000 then None else Some(Unit(Utf8(code), 6))
  {
    HexRoundTrip(a);
    HexRoundTrip(b);
    HexRoundTrip(c);
    HexRoundTrip(d);
    hide HexValue, Utf8;
  }

  /** A code unit can be computed from its UTF-8 bytes. */
  lemma Utf8InPlainTerms(code: nat)
    requires code < 0x10000
    ensures var s := Utf8(code);
            && (|s| == 1 <==> code < 0x80) && (|s| == 3 <==> code >= 0x800)
            && (|s| == 1 ==> code == s[0] as int)
            && (|s| == 2 ==> code == 0x40 * (s[0] as int - 0xC0) + (s[1] as int - 0x80))
            && (|s| == 3 ==>
                  code == 0x1000 * (s[0] as int - 0xE0) + 0x40 * (s[1] as int - 0x80) + (s[2] as int - 0x80))
            && forall k :: 1 <= k < |s| ==> 0x80 <= s[k] as int < 0xC0
  {}

  // ---------------------------------------------------------------- framing

  lemma HexRoundTrip(d: nat)
    requires d < 16
    ensures HexDigit(d) == "0123456789abcdef"[d]
    ensures HexValue(HexDigit(d)) == Some(d)
  {}

  lemma EscapedUnit(c: char, rest: string)
    ensures var e := EscapeChar(c);
            && |e| > 0 && e[0] != QUOTE
            && ReadUnit(e + rest) == Some(Unit([c], |e|))
  {
    var e := EscapeChar(c);
    if c as int < 0x20 {
      HexRoundTrip(c as int / 16);
      HexRoundTrip(c as int % 16);
    }
  }

  /** What a reading becomes when more characters have been read before it. */
  function After(s: string, r: Option<Read>): Option<Read> {
    if r.None? then None else Some(Read(s + r.value.value, r.value.rest))
  }

  lemma EscapeStep(s: string)
    requires s != ""
    ensures Escape(s) == EscapeChar(s[0]) + Escape(s[1..])
  {}

  lemma UnitRead(text: string, unit: Unit)
    requires text != "" && text[0] != QUOTE && ReadUnit(text) == Some(unit) && unit.length <= |text|
    ensures ReadString(text) == After(unit.value, ReadString(text[unit.length..]))
  {
    hide ReadUnit;
  }

  /** The reader takes escaped text for what it stands for, whatever follows. */
  lemma {:induction false} EscapedPrefix(s: string, text: string)
    ensures ReadString(Escape(s) + text) == After(s, ReadString(text))
  {
    hide EscapeChar, ReadUnit, ReadString;
    if s == "" {
      assert Escape(s) + text == text;
      if ReadString(text).Some? { assert "" + ReadString(text).value.value == ReadString(text).value.value; }
    } else {
      hide Escape;
      var e, tail := EscapeChar(s[0]), Escape(s[1..]) + text;
      EscapeStep(s);
      EscapedUnit(s[0], tail);
      assert Escape(s) + text == e + tail && (e + tail)[|e|..] == tail && (e + tail)[0] == e[0];
      UnitRead(e + tail, Unit([s[0]], |e|));
      EscapedPrefix(s[1..], text);
      if ReadString(text).Some? {
        var v := ReadString(text).value.value;
        assert [s[0]] + (s[1..] + v) == s + v;
      }
    }
  }

  /** Framing: started after the opening quote of an escaped string, the reader stops at exactly
      its closing quote, returns the string and leaves whatever follows. */
  lemma FramingRoundTrip(s: string, suffix: string)
    ensures ReadString(Escape(s) + [QUOTE] + suffix) == Some(Read(s, suffix))
  {
    hide EscapeChar, ReadUnit;
    EscapedPrefix(s, [QUOTE] + suffix);
    assert Escape(s) + [QUOTE] + suffix == Escape(s) + ([QUOTE] + suffix);
    assert ([QUOTE] + suffix)[1..] == suffix && s + "" == s;
  }

  lemma EscapingIsInjective(s: string, t: string)
    requires Escape(s) == Escape(t)
    ensures s == t
  {
    FramingRoundTrip(s, "");
    FramingRoundTrip(t, "");
  }

  /** Escaped text holds no control byte and is at most six times as long. */
  lemma {:induction false} EscapedTextIsPrintable(s: string)
    ensures forall k :: 0 <= k < |Escape(s)| ==> Escape(s)[k] as int >= 0x20
    ensures |s| <= |Escape(s)| <= 6 * |s|
  {
    if s != "" { EscapedTextIsPrintable(s[1..]); }
  }

  lemma {:induction false} EscapeConcat(s: string, t: string)
    ensures Escape(s + t) == Escape(s) + Escape(t)
  {
    hide EscapeChar;
    if s == "" {
      assert s + t == t;
    } else {
      hide Escape;
      EscapeStep(s);
      EscapeStep(s + t);
      EscapeConcat(s[1..], t);
      assert (s + t)[1..] == s[1..] + t && (s + t)[0] == s[0];
    }
  }

  // ---------------------------------------------------------------- raw printing

  /** A string that needs no escape. */
  predicate RawSafe(s: string) {
    forall k :: 0 <= k < |s| ==> s[k] != QUOTE && s[k] != BACKSLASH && s[k] as int >= 0x20
  }

  lemma {:induction false} RawSafeIsUnescaped(s: string)
    ensures RawSafe(s) ==> Escape(s) == s
  {
    if s != "" && RawSafe(s) {
      assert s == [s[0]] + s[1..];
      RawSafeIsUnescaped(s[1..]);
      assert EscapeChar(s[0]) == [s[0]];
    }
  }

  /** A string needs no escape exactly when escaping leaves it alone. */
  lemma {:induction false} RawSafeExactly(s: string)
    ensures RawSafe(s) <==> Escape(s) == s
  {
    hide ReadString, EscapeChar;
    RawSafeIsUnescaped(s);
    if Escape(s) == s {
      FramingRoundTrip(s, "");
      RawPrintReadsBackExactly(s, "");
    }
  }

  /** The number of quotes in a text. */
  function Quotes(s: string): nat {
    if s == "" then 0 else (if s[0] == QUOTE then 1 else 0) + Quotes(s[1..])
  }

  lemma {:induction false} QuotesConcat(s: string, t: string)
    ensures Quotes(s + t) == Quotes(s) + Quotes(t)
  {
    if s == "" {
      assert s + t == t;
    } else {
      QuotesConcat(s[1..], t);
      assert (s + t)[1..] == s[1..] + t;
    }
  }

  lemma {:induction false} NoQuotes(s: string)
    requires forall k :: 0 <= k < |s| ==> s[k] != QUOTE
    ensures Quotes(s) == 0
  {
    if s != "" { NoQuotes(s[1..]); }
  }

  lemma UnitShrinks(text: string)
    requires text != "" && text[0] != QUOTE && ReadUnit(text).Some?
    ensures var unit := ReadUnit(text).value;
            && 0 < |unit.value| <= unit.length
            && (|unit.value| == unit.length ==> unit.length == 1 && unit.value == [text[0]] && RawSafe([text[0]]))
  {}

  /** A quote is only passed over in its own escape, which yields one. */
  lemma UnitKeepsQuotes(text: string)
    requires text != "" && text[0] != QUOTE && ReadUnit(text).Some?
    ensures var unit := ReadUnit(text).value;
            unit.length <= |text| && Quotes(text[..unit.length]) <= Quotes(unit.value)
  {
    var unit := ReadUnit(text).value;
    var read := text[..unit.length];
    if unit.length == 2 && text[1] == QUOTE {
      assert read == [BACKSLASH] + [QUOTE];
      QuotesConcat([BACKSLASH], [QUOTE]);
    } else {
      forall k | 0 <= k < |read| ensures read[k] != QUOTE {
        if unit.length == 6 { HexHasNoQuote(text[2], text[3], text[4], text[5]); }
      }
      NoQuotes(read);
    }
  }

  lemma HexHasNoQuote(a: char, b: char, c: char, d: char)
    requires Hex4(a, b, c, d).Some?
    ensures a != QUOTE && b != QUOTE && c != QUOTE && d != QUOTE
  {}

  /** A reading takes at least as much text as it yields, as much only without escapes, and
      passes over no more quotes than it yields. */
  lemma {:induction false} ReadingShrinks(text: string)
    requires ReadString(text).Some?
    ensures var r := ReadString(text).value;
            var n := |text| - |r.rest| - 1;
            && |r.value| <= n
            && (|r.value| == n ==> RawSafe(r.value))
            && Quotes(text[..n]) <= Quotes(r.value)
    decreases |text|
  {
    hide ReadUnit, Quotes;
    if text[0] != QUOTE {
      var unit := ReadUnit(text).value;
      UnitShrinks(text);
      UnitKeepsQuotes(text);
      var tail := text[unit.length..];
      ReadingShrinks(tail);
      var r := ReadString(tail).value;
      var n := |tail| - |r.rest| - 1;
      assert text[..unit.length + n] == text[..unit.length] + tail[..n];
      QuotesConcat(text[..unit.length], tail[..n]);
      QuotesConcat(unit.value, r.value);
    } else {
      assert text[..0] == "";
    }
  }

  /** A string printed between quotes without escaping is read for itself exactly when it needs
      no escape, and then the reading stops where it should. */
  lemma {:induction false} RawPrintReadsBackExactly(s: string, suffix: string)
    ensures var r := ReadString(s + [QUOTE] + suffix);
            && (r.Some? && r.value.value == s <==> RawSafe(s))
            && (RawSafe(s) ==> r == Some(Read(s, suffix)))
  {
    hide ReadString, Quotes;
    RawSafeIsUnescaped(s);
    FramingRoundTrip(s, suffix);
    var text := s + [QUOTE] + suffix;
    if ReadString(text).Some? && ReadString(text).value.value == s {
      ReadingShrinks(text);
      var n := |text| - |ReadString(text).value.rest| - 1;
      if n > |s| {
        var more := text[|s| + 1..n];
        assert text[..n] == s + ([QUOTE] + more);
        QuotesConcat(s, [QUOTE] + more);
        QuotesConcat([QUOTE], more);
        OneQuote();
      }
    }
  }

  lemma OneQuote()
    ensures Quotes([QUOTE]) == 1
  {
    assert [QUOTE][1..] == "";
  }
}
