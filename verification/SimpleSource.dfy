/** simpleSource of jsfunfuzz/jsfunfuzz.js: a string as a double-quoted literal of printable ASCII. */
module SimpleSource {
  import opened Wrappers
  import opened Units

  const NUL: CodeUnit := 0
  const NEWLINE: CodeUnit := 10
  const QUOTE: CodeUnit := 34
  const ZERO: CodeUnit := 48
  const BACKSLASH: CodeUnit := 92
  const LOWER_N: CodeUnit := 110
  const LOWER_U: CodeUnit := 117

  // ---------- hexadecimal ----------

  /** The lower-case digit of a value below sixteen. */
  function HexDigit(value: nat): CodeUnit
    requires value < 16
  {
    if value < 10 then 48 + value else 87 + value
  }

  /** code.toString(16) */
  function Hex(code: nat): (r: Text)
    ensures |r| >= 1
  {
    if code < 16 then [HexDigit(code)] else Hex(code / 16) + [HexDigit(code % 16)]
  }

  /** All four digits of a code unit. */
  function Hex4(c: CodeUnit): Text {
    [HexDigit(c / 4096), HexDigit(c / 256 % 16), HexDigit(c / 16 % 16), HexDigit(c % 16)]
  }

  function Zeros(n: nat): Text {
    seq(n, _ => ZERO)
  }

  lemma HexStep(code: nat)
    requires code >= 16
    ensures Hex(code) == Hex(code / 16) + [HexDigit(code % 16)]
  {
  }

  /** Padding with zeros to four digits gives all four digits. */
  lemma PaddedHex(c: CodeUnit)
    ensures |Hex(c)| <= 4 && Zeros(4 - |Hex(c)|) + Hex(c) == Hex4(c)
  {
    if c >= 16 {
      HexStep(c);
      if c >= 256 {
        HexStep(c / 16);
        assert c / 16 / 16 == c / 256;
        if c >= 4096 {
          HexStep(c / 256);
          assert c / 256 / 16 == c / 4096;
        }
      }
    }
  }

  method Hexify(c: CodeUnit) returns (r: Text)
    ensures r == [BACKSLASH, LOWER_U] + Hex4(c)
  {
    var hex := Hex(c);
    PaddedHex(c);
    while |hex| < 4
      invariant |hex| <= 4 && Zeros(4 - |hex|) + hex == Hex4(c)
      decreases 4 - |hex|
    {
      assert Zeros(4 - |hex|) == Zeros(4 - |hex| - 1) + [ZERO];
      hex := [ZERO] + hex;
    }
    assert Zeros(0) == [];
    r := [BACKSLASH, LOWER_U] + hex;
  }

  // ---------- the chain of replacements ----------

  /** s.replace with a global pattern for one code unit. */
  function Replace(s: Text, c: CodeUnit, with: Text): Text {
    if s == [] then [] else (if s[0] == c then with else [s[0]]) + Replace(s[1..], c, with)
  }

  predicate Printable(c: CodeUnit) { 32 <= c <= 126 }

  /** The last replacement: every unit that is not space through tilde goes through hexify. */
  function ReplaceUnprintable(s: Text): Text {
    if s == [] then []
    else (if Printable(s[0]) then [s[0]] else [BACKSLASH, LOWER_U] + Hex4(s[0])) + ReplaceUnprintable(s[1..])
  }

  function Chain(s: Text): Text {
    var s1 := Replace(s, BACKSLASH, [BACKSLASH, BACKSLASH]);
    var s2 := Replace(s1, QUOTE, [BACKSLASH, QUOTE]);
    var s3 := Replace(s2, NUL, [BACKSLASH, ZERO]);
    var s4 := Replace(s3, NEWLINE, [BACKSLASH, LOWER_N]);
    ReplaceUnprintable(s4)
  }

  function Source(s: Text): Text {
    [QUOTE] + Chain(s) + [QUOTE]
  }

  // ---------- one substitution per code unit ----------

  function Substitute(c: CodeUnit): (r: Text)
    ensures |r| >= 1
  {
    if c == BACKSLASH then [BACKSLASH, BACKSLASH]
    else if c == QUOTE then [BACKSLASH, QUOTE]
    else if c == NUL then [BACKSLASH, ZERO]
    else if c == NEWLINE then [BACKSLASH, LOWER_N]
    else if Printable(c) then [c]
    else [BACKSLASH, LOWER_U] + Hex4(c)
  }

  function Escape(s: Text): Text {
    if s == [] then [] else Substitute(s[0]) + Escape(s[1..])
  }

  lemma {:induction false} ReplaceConcat(a: Text, b: Text, c: CodeUnit, with: Text)
    ensures Replace(a + b, c, with) == Replace(a, c, with) + Replace(b, c, with)
  {
    if a == [] {
      assert a + b == b;
    } else {
      assert (a + b)[1..] == a[1..] + b;
      ReplaceConcat(a[1..], b, c, with);
    }
  }

  lemma {:induction false} ReplaceUnprintableConcat(a: Text, b: Text)
    ensures ReplaceUnprintable(a + b) == ReplaceUnprintable(a) + ReplaceUnprintable(b)
  {
    if a == [] {
      assert a + b == b;
    } else {
      assert (a + b)[1..] == a[1..] + b;
      ReplaceUnprintableConcat(a[1..], b);
    }
  }

  lemma ChainConcat(a: Text, b: Text)
    ensures Chain(a + b) == Chain(a) + Chain(b)
  {
    var bs, q, z, n := [BACKSLASH, BACKSLASH], [BACKSLASH, QUOTE], [BACKSLASH, ZERO], [BACKSLASH, LOWER_N];
    ReplaceConcat(a, b, BACKSLASH, bs);
    var a1, b1 := Replace(a, BACKSLASH, bs), Replace(b, BACKSLASH, bs);
    ReplaceConcat(a1, b1, QUOTE, q);
    var a2, b2 := Replace(a1, QUOTE, q), Replace(b1, QUOTE, q);
    ReplaceConcat(a2, b2, NUL, z);
    var a3, b3 := Replace(a2, NUL, z), Replace(b2, NUL, z);
    ReplaceConcat(a3, b3, NEWLINE, n);
    ReplaceUnprintableConcat(Replace(a3, NEWLINE, n), Replace(b3, NEWLINE, n));
  }

  lemma ReplaceOne(x: CodeUnit, c: CodeUnit, with: Text)
    ensures Replace([x], c, with) == if x == c then with else [x]
  {
  }

  lemma ReplaceTwo(x: CodeUnit, y: CodeUnit, c: CodeUnit, with: Text)
    requires x != c && y != c
    ensures Replace([x, y], c, with) == [x, y]
  {
    assert [x, y][1..] == [y];
    ReplaceOne(y, c, with);
  }

  lemma KeepTwo(x: CodeUnit, y: CodeUnit)
    requires Printable(x) && Printable(y)
    ensures ReplaceUnprintable([x, y]) == [x, y]
  {
    assert [x, y][1..] == [y];
    assert ReplaceUnprintable([y]) == [y];
  }

  lemma ChainOfOne(c: CodeUnit)
    ensures Chain([c]) == Substitute(c)
  {
    var bs, q, z, n := [BACKSLASH, BACKSLASH], [BACKSLASH, QUOTE], [BACKSLASH, ZERO], [BACKSLASH, LOWER_N];
    ReplaceOne(c, BACKSLASH, bs);
    ReplaceOne(c, QUOTE, q);
    ReplaceOne(c, NUL, z);
    ReplaceOne(c, NEWLINE, n);
    ReplaceTwo(BACKSLASH, BACKSLASH, QUOTE, q);
    ReplaceTwo(BACKSLASH, BACKSLASH, NUL, z);
    ReplaceTwo(BACKSLASH, BACKSLASH, NEWLINE, n);
    ReplaceTwo(BACKSLASH, QUOTE, NUL, z);
    ReplaceTwo(BACKSLASH, QUOTE, NEWLINE, n);
    ReplaceTwo(BACKSLASH, ZERO, NEWLINE, n);
    KeepTwo(BACKSLASH, BACKSLASH);
    KeepTwo(BACKSLASH, QUOTE);
    KeepTwo(BACKSLASH, ZERO);
    KeepTwo(BACKSLASH, LOWER_N);
    assert ReplaceUnprintable([c]) == if Printable(c) then [c] else [BACKSLASH, LOWER_U] + Hex4(c);
  }

  /** No replacement disturbs the work of an earlier one. */
  lemma {:induction false} ChainIsOneSubstitution(s: Text)
    ensures Chain(s) == Escape(s)
  {
    if s != [] {
      ChainConcat([s[0]], s[1..]);
      assert [s[0]] + s[1..] == s;
      ChainOfOne(s[0]);
      ChainIsOneSubstitution(s[1..]);
    }
  }

  /** What becomes of each unit: just five have a short form or no change. */
  lemma {:induction false} UnitsOfEscape(c: CodeUnit)
    ensures Chain([c]) ==
      if c == 92 then [92, 92] else if c == 34 then [92, 34] else if c == 0 then [92, 48]
      else if c == 10 then [92, 110] else if 32 <= c <= 126 then [c] else [92, 117] + Hex4(c)
  {
    ChainOfOne(c);
  }

  // ---------- the result ----------

  lemma SubstituteIsPrintable(c: CodeUnit)
    ensures forall k | 0 <= k < |Substitute(c)| :: Printable(Substitute(c)[k])
  {
  }

  lemma {:induction false} EscapeIsPrintable(s: Text)
    ensures forall k | 0 <= k < |Escape(s)| :: Printable(Escape(s)[k])
  {
    if s != [] {
      SubstituteIsPrintable(s[0]);
      EscapeIsPrintable(s[1..]);
    }
  }

  /** The literal is printable ASCII. */
  lemma SourceIsPrintable(s: Text)
    ensures forall k | 0 <= k < |Source(s)| :: Printable(Source(s)[k])
  {
    ChainIsOneSubstitution(s);
    EscapeIsPrintable(s);
  }

  /** The method itself: the chain with hexify on each unprintable unit. */
  method SimpleSource(s: Text) returns (r: Text)
    ensures r == Source(s) == [QUOTE] + Escape(s) + [QUOTE]
  {
    var s1 := Replace(s, BACKSLASH, [BACKSLASH, BACKSLASH]);
    var s2 := Replace(s1, QUOTE, [BACKSLASH, QUOTE]);
    var s3 := Replace(s2, NUL, [BACKSLASH, ZERO]);
    var s4 := Replace(s3, NEWLINE, [BACKSLASH, LOWER_N]);
    var hexified: Text := [];
    for i := 0 to |s4|
      invariant hexified == ReplaceUnprintable(s4[..i])
    {
      var piece := [s4[i]];
      if !Printable(s4[i]) {
        piece := Hexify(s4[i]);
      }
      ReplaceUnprintableConcat(s4[..i], [s4[i]]);
      assert s4[..i + 1] == s4[..i] + [s4[i]];
      hexified := hexified + piece;
    }
    assert s4[..|s4|] == s4;
    ChainIsOneSubstitution(s);
    return [QUOTE] + hexified + [QUOTE];
  }

  // ---------- reading the literal back ----------

  predicate IsDigit(c: CodeUnit) { 48 <= c <= 57 }

  predicate IsLineTerminator(c: CodeUnit) { c == 10 || c == 13 || c == 0x2028 || c == 0x2029 }

  function HexValue(c: CodeUnit): Option<nat> {
    if IsDigit(c) then Some(c - 48)
    else if 97 <= c <= 102 then Some(c - 87)
    else if 65 <= c <= 70 then Some(c - 55)
    else None
  }

  /** The value of a run of hexadecimal digits. */
  function HexRun(s: Text): Option<nat> {
    if s == [] then Some(0)
    else
      var high, low := HexRun(s[..|s| - 1]), HexValue(s[|s| - 1]);
      if high.Some? && low.Some? then Some(16 * high.value + low.value) else None
  }

  /** The character of a SingleEscapeCharacter. */
  function SingleEscape(c: CodeUnit): Option<CodeUnit> {
    if c == 39 || c == 34 || c == 92 then Some(c)
    else if c == 98 then Some(8)
    else if c == 102 then Some(12)
    else if c == 110 then Some(10)
    else if c == 114 then Some(13)
    else if c == 116 then Some(9)
    else if c == 118 then Some(11)
    else None
  }

  /** An escape of the given hexadecimal digits, then the rest. */
  function HexEscape(t: Text, digits: nat): Option<(CodeUnit, nat)>
    requires 2 <= digits <= 4
  {
    if |t| < 2 + digits then None
    else
      var value := HexRun(t[2..2 + digits]);
      if value.Some? && value.value < 0x1_0000 then Some((value.value, 2 + digits)) else None
  }

  /**
   The first character of a double-quoted literal's contents and its length, by section 7.8.4 of
   ECMA-262, 3rd edition; None where the grammar has no production.
   */
  function FirstChar(t: Text): (r: Option<(CodeUnit, nat)>)
    requires t != []
    ensures r.Some? ==> 1 <= r.value.1 <= |t|
  {
    if t[0] == 34 || IsLineTerminator(t[0]) then None
    else if t[0] != 92 then Some((t[0], 1))
    else if |t| < 2 then None
    else if SingleEscape(t[1]).Some? then Some((SingleEscape(t[1]).value, 2))
    else if t[1] == 48 then (if |t| > 2 && IsDigit(t[2]) then None else Some((0, 2)))
    else if t[1] == 120 then HexEscape(t, 2)
    else if t[1] == 117 then HexEscape(t, 4)
    else if IsDigit(t[1]) || IsLineTerminator(t[1]) then None
    else Some((t[1], 2))
  }

  /** The string value of a double-quoted literal's contents. */
  function Decode(t: Text): Option<Text> {
    if t == [] then Some([])
    else
      var first := FirstChar(t);
      if first.None? then None
      else
        var rest := Decode(t[first.value.1..]);
        if rest.None? then None else Some([first.value.0] + rest.value)
  }

  /** A NUL directly followed by a decimal digit. */
  predicate NulBeforeDigit(s: Text) {
    |s| >= 2 && ((s[0] == 0 && IsDigit(s[1])) || NulBeforeDigit(s[1..]))
  }

  lemma HexDigitValue(value: nat)
    requires value < 16
    ensures HexValue(HexDigit(value)) == Some(value)
  {
  }

  lemma Hex4Value(c: CodeUnit)
    ensures HexRun(Hex4(c)) == Some(c)
  {
    var h := Hex4(c);
    HexDigitValue(c / 4096);
    HexDigitValue(c / 256 % 16);
    HexDigitValue(c / 16 % 16);
    HexDigitValue(c % 16);
    assert h[..3][..2] == h[..2] && h[..2][..1] == h[..1] && h[..1][..0] == [];
    assert HexRun(h[..1]) == Some(c / 4096);
    assert HexRun(h[..2]) == Some(c / 256);
    assert HexRun(h[..3]) == Some(c / 16);
  }

  /** The substitute of a unit reads back as that unit, unless it is a NUL before a digit. */
  lemma FirstOfSubstitute(c: CodeUnit, tail: Text)
    ensures FirstChar(Substitute(c) + tail) ==
      if c == NUL && tail != [] && IsDigit(tail[0]) then None else Some((c, |Substitute(c)|))
  {
    var t := Substitute(c) + tail;
    if |Substitute(c)| > 2 {
      assert t[2..6] == Hex4(c);
      Hex4Value(c);
    }
  }

  lemma DigitStartsEscape(s: Text)
    ensures Escape(s) != [] && IsDigit(Escape(s)[0]) <==> s != [] && IsDigit(s[0])
  {
  }

  /**
   The literal reads back as the string exactly when no NUL is directly followed by a decimal
   digit; otherwise it is no literal at all.
   */
  lemma {:induction false} ReadsBackIffNoNulBeforeDigit(s: Text)
    ensures Decode(Escape(s)) == if NulBeforeDigit(s) then None else Some(s)
  {
    if s != [] {
      var tail := Escape(s[1..]);
      var t := Substitute(s[0]) + tail;
      ReadsBackIffNoNulBeforeDigit(s[1..]);
      FirstOfSubstitute(s[0], tail);
      DigitStartsEscape(s[1..]);
      assert t[|Substitute(s[0])|..] == tail;
      assert [s[0]] + s[1..] == s;
    }
  }

  lemma SubstituteIsPrefixCode(a: CodeUnit, x: Text, b: CodeUnit, y: Text)
    requires Substitute(a) + x == Substitute(b) + y
    ensures a == b && x == y
  {
    var t := Substitute(a) + x;
    assert t == Substitute(b) + y;
    assert t[0] == Substitute(a)[0] == Substitute(b)[0];
    if |Substitute(a)| > 1 && |Substitute(b)| > 1 {
      assert t[1] == Substitute(a)[1] == Substitute(b)[1];
      if |Substitute(a)| > 2 && |Substitute(b)| > 2 {
        Hex4Value(a);
        Hex4Value(b);
        assert Hex4(a) == t[2..6] == Hex4(b);
      }
    }
    assert x == t[|Substitute(a)|..] && y == t[|Substitute(b)|..];
  }

  /** Different strings have different literals, with or without NULs. */
  lemma {:induction false} EscapeIsInjective(s: Text, t: Text)
    requires Escape(s) == Escape(t)
    ensures s == t
  {
    if s != [] && t != [] {
      SubstituteIsPrefixCode(s[0], Escape(s[1..]), t[0], Escape(t[1..]));
      EscapeIsInjective(s[1..], t[1..]);
      assert s == [s[0]] + s[1..] && t == [t[0]] + t[1..];
    }
  }
}
