/** The words of JSON as sections 2, 6 and 7 of RFC 8259 describe them (space, numbers, spelled strings),
    without reference to the decoder, which reads exactly these. */
module Grammar {
  import opened Text
  import opened Json
  import opened Decoding

  // ---------------------------------------------------------------- numbers (section 6)

  /** How many digits the text begins with. */
  function Run(s: string): (n: nat)
    ensures n <= |s|
  {
    if s == "" || !('0' <= s[0] <= '9') then 0 else 1 + Run(s[1..])
  }

  predicate IsSigned(s: string) {
    var t := if s != "" && (s[0] == '+' || s[0] == '-') then s[1..] else s;
    t != "" && AllDigits(t)
  }

  predicate IsExponent(s: string) {
    s == "" || ((s[0] == 'e' || s[0] == 'E') && IsSigned(s[1..]))
  }

  predicate IsFractionExponent(s: string) {
    if s != "" && s[0] == '.' then Run(s[1..]) >= 1 && IsExponent(s[1..][Run(s[1..])..])
    else IsExponent(s)
  }

  /** number = [ minus ] int [ frac ] [ exp ]; an int has no leading zero. */
  predicate IsNumber(s: string) {
    var t := if s != "" && s[0] == '-' then s[1..] else s;
    t != "" &&
    if t[0] == '0' then IsFractionExponent(t[1..])
    else '1' <= t[0] <= '9' && IsFractionExponent(t[Run(t)..])
  }

  lemma {:induction false} ExponentDigits(s: string)
    ensures NumberFrom(NExpInt, s) <==> AllDigits(s)
  {
    if s != "" {
      ExponentDigits(s[1..]);
      BadStaysBad(s[1..]);
      assert AllDigits(s) <==> '0' <= s[0] <= '9' && AllDigits(s[1..]) by {
        assert s == [s[0]] + s[1..];
      }
    }
  }

  lemma ExponentIs(s: string)
    ensures NumberFrom(NExp, s) <==> IsSigned(s)
  {
    if s != "" {
      BadStaysBad(s[1..]);
      ExponentDigits(s[1..]);
      var t := s[1..];
      if t != "" {
        BadStaysBad(t[1..]);
        ExponentDigits(t[1..]);
        assert t == [t[0]] + t[1..];
      }
      assert s == [s[0]] + s[1..];
    }
  }

  lemma ExponentPart(q: NumberState, s: string)
    requires q == NFrac || q == NInt || q == NZero
    requires s == "" || (s[0] != '.' && !('0' <= s[0] <= '9'))
    ensures NumberFrom(q, s) <==> IsExponent(s)
  {
    if s != "" {
      BadStaysBad(s[1..]);
      ExponentIs(s[1..]);
    }
  }

  lemma {:induction false} FractionIs(s: string)
    ensures NumberFrom(NFrac, s) <==> IsExponent(s[Run(s)..])
  {
    if s != "" && '0' <= s[0] <= '9' {
      FractionIs(s[1..]);
      assert s[Run(s)..] == s[1..][Run(s[1..])..];
    } else {
      assert s[0..] == s;
      if s != "" && s[0] == '.' {
        BadStaysBad(s[1..]);
      } else {
        ExponentPart(NFrac, s);
      }
    }
  }

  lemma PointIs(q: NumberState, s: string)
    requires q == NInt || q == NZero
    requires s == "" || !('0' <= s[0] <= '9')
    ensures NumberFrom(q, s) <==> IsFractionExponent(s)
  {
    if s != "" && s[0] == '.' {
      var t := s[1..];
      if t != "" {
        BadStaysBad(t[1..]);
        FractionIs(t[1..]);
        if '0' <= t[0] <= '9' {
          assert t[Run(t)..] == t[1..][Run(t[1..])..];
        }
      }
    } else {
      ExponentPart(q, s);
    }
  }

  lemma {:induction false} IntegerIs(s: string)
    ensures NumberFrom(NInt, s) <==> IsFractionExponent(s[Run(s)..])
  {
    if s != "" && '0' <= s[0] <= '9' {
      IntegerIs(s[1..]);
      assert s[Run(s)..] == s[1..][Run(s[1..])..];
    } else {
      assert s[0..] == s;
      PointIs(NInt, s);
    }
  }

  lemma ZeroIs(s: string)
    ensures NumberFrom(NZero, s) <==> IsFractionExponent(s)
  {
    if s != "" && '0' <= s[0] <= '9' {
      BadStaysBad(s[1..]);
    } else {
      PointIs(NZero, s);
    }
  }

  lemma UnsignedIs(q: NumberState, t: string)
    requires q == NMinus || (q == NStart && (t == "" || t[0] != '-'))
    ensures NumberFrom(q, t) <==>
            t != "" && if t[0] == '0' then IsFractionExponent(t[1..]) else '1' <= t[0] <= '9' && IsFractionExponent(t[Run(t)..])
  {
    if t != "" {
      BadStaysBad(t[1..]);
      ZeroIs(t[1..]);
      IntegerIs(t[1..]);
      if '0' <= t[0] <= '9' {
        assert t[Run(t)..] == t[1..][Run(t[1..])..];
      }
    }
  }

  /** The states of the decoder's number scanner accept exactly the grammar. */
  lemma NumberIs(s: string)
    ensures ValidNumber(s) <==> IsNumber(s)
  {
    if s != "" && s[0] == '-' {
      UnsignedIs(NMinus, s[1..]);
    } else {
      UnsignedIs(NStart, s);
    }
  }

  lemma {:induction false} MunchEnds(q: NumberState, s: string)
    ensures Ends(NumberAfter(q, s[..Munch(q, s)]), s[Munch(q, s)..])
    decreases |s|
  {
    if s == "" || NumberStep(q, s[0]).NBad? {
      assert s[..0] == "" && s[0..] == s;
    } else {
      var n := Munch(q, s);
      MunchEnds(NumberStep(q, s[0]), s[1..]);
      assert s[..n][1..] == s[1..][..n - 1] && s[n..] == s[1..][n - 1..];
    }
  }

  // ---------------------------------------------------------------- space (section 2)

  predicate Blank(ws: string) {
    forall i :: 0 <= i < |ws| ==> ws[i] as int == 0x20 || ws[i] as int == 0x09 || ws[i] as int == 0x0A || ws[i] as int == 0x0D
  }

  lemma {:induction false} SkipsBlank(ws: string, rest: string)
    requires Blank(ws)
    ensures SkipSpace(ws + rest) == SkipSpace(rest)
  {
    if ws == "" {
      assert ws + rest == rest;
    } else {
      assert (ws + rest)[1..] == ws[1..] + rest;
      SkipsBlank(ws[1..], rest);
    }
  }

  lemma {:induction false} SkipSplits(s: string) returns (ws: string)
    ensures Blank(ws) && s == ws + SkipSpace(s)
    ensures SkipSpace(s) == "" || !IsSpace(SkipSpace(s)[0])
  {
    if s != "" && IsSpace(s[0]) {
      ws := SkipSplits(s[1..]);
      ws := [s[0]] + ws;
    } else {
      ws := "";
    }
  }

  /** A value may be preceded by any space. */
  lemma ParseSkips(ws: string, text: string)
    requires Blank(ws)
    ensures ParseValue(ws + text) == ParseValue(text)
  {
    hide ParseText, ParseArray, ParseObject, ParseNumber, ParseLiteral;
    SkipsBlank(ws, text);
  }

  lemma BlankStops(ws: string, c: char, rest: string)
    requires Blank(ws) && !NumberChar(c)
    ensures NumberStop(ws + [c] + rest)
  {
    assert ws != "" ==> (ws + [c] + rest)[0] == ws[0];
  }

  // ---------------------------------------------------------------- strings (section 7)

  predicate IsHexDigitOf(c: char, d: nat) {
    d < 16 && (c == "0123456789abcdef"[d] || c == "0123456789ABCDEF"[d])
  }

  /** Four hexadecimal digits, in either case. */
  predicate IsHexOf(h: string, n: nat) {
    && |h| == 4 && n < 0x10000
    && IsHexDigitOf(h[0], n / 0x1000) && IsHexDigitOf(h[1], n / 0x100 % 16)
    && IsHexDigitOf(h[2], n / 0x10 % 16) && IsHexDigitOf(h[3], n % 16)
  }

  lemma HexDigitIs(c: char, d: nat)
    ensures HexValue(c) == Some(d) <==> IsHexDigitOf(c, d)
  {
    if d < 8 {
      assert "0123456789abcdef"[d] == "01234567"[d] == "0123456789ABCDEF"[d];
    }
  }

  lemma HexRead(h: string, n: nat, rest: string)
    requires IsHexOf(h, n)
    ensures Hex4Value(h + rest) == Some(n)
  {
    hide IsHexDigitOf, HexValue;
    HexDigitIs(h[0], n / 0x1000);
    HexDigitIs(h[1], n / 0x100 % 16);
    HexDigitIs(h[2], n / 0x10 % 16);
    HexDigitIs(h[3], n % 16);
    Positional16(n);
  }

  lemma HexSpelled(s: string)
    requires Hex4Value(s).Some?
    ensures |s| >= 4 && IsHexOf(s[..4], Hex4Value(s).value)
  {
    hide IsHexDigitOf, HexValue;
    var a, b, c, d := HexValue(s[0]).value, HexValue(s[1]).value, HexValue(s[2]).value, HexValue(s[3]).value;
    HexDigitIs(s[0], a);
    HexDigitIs(s[1], b);
    HexDigitIs(s[2], c);
    HexDigitIs(s[3], d);
    PlacesOf(a, b, c, d);
  }

  lemma PlacesOf(a: nat, b: nat, c: nat, d: nat)
    requires a < 16 && b < 16 && c < 16 && d < 16
    ensures var n := 0x1000 * a + 0x100 * b + 16 * c + d;
            n < 0x10000 && n / 0x1000 == a && n / 0x100 % 16 == b && n / 0x10 % 16 == c && n % 16 == d
  {
    var n := 0x1000 * a + 0x100 * b + 16 * c + d;
    assert n / 0x100 == 16 * a + b && n / 0x10 == 256 * a + 16 * b + c;
  }

  /** One spelled character of a string: itself; a two-character escape; a \\uXXXX escape; or the two
      escapes of a UTF-16 surrogate pair. */
  datatype Glyph =
    | Plain(c: char)
    | Short(letter: char)
    | Hex(n: nat, h: string)
    | Pair(c: char, h: string, l: string)

  predicate GlyphOk(u: Glyph) {
    match u
    case Plain(c) => c as int >= 0x20 && c != '\"' && c != '\\'
    case Short(letter) => letter in "\"\\/bfnrt"
    case Hex(n, h) => IsHexOf(h, n)
    case Pair(c, h, l) =>
      c as int >= 0x10000 &&
      IsHexOf(h, 0xD800 + (c as int - 0x10000) / 0x400) && IsHexOf(l, 0xDC00 + (c as int - 0x10000) % 0x400)
  }

  function GlyphText(u: Glyph): string {
    match u
    case Plain(c) => [c]
    case Short(letter) => ['\\', letter]
    case Hex(_, h) => "\\u" + h
    case Pair(_, h, l) => "\\u" + h + "\\u" + l
  }

  /** The character; half a surrogate pair reads as U+FFFD. */
  function GlyphChar(u: Glyph): char {
    match u
    case Plain(c) => c
    case Short(letter) =>
      if letter == 'b' then 0x08 as char
      else if letter == 'f' then 0x0C as char
      else if letter == 'n' then 0x0A as char
      else if letter == 'r' then 0x0D as char
      else if letter == 't' then 0x09 as char
      else letter
    case Hex(n, _) => if 0xD800 <= n < 0xE000 || n >= 0x10000 then 0xFFFD as char else n as char
    case Pair(c, _, _) => c
  }

  predicate High(u: Glyph) {
    u.Hex? && 0xD800 <= u.n < 0xDC00
  }

  predicate Low(u: Glyph) {
    u.Hex? && 0xDC00 <= u.n < 0xE000
  }

  /** Adjacent halves are a pair, not two halves. */
  predicate GlyphsOk(us: seq<Glyph>) {
    && (forall i :: 0 <= i < |us| ==> GlyphOk(us[i]))
    && forall i :: 0 <= i < |us| - 1 ==> !(High(us[i]) && Low(us[i + 1]))
  }

  function GlyphsText(us: seq<Glyph>): string {
    if us == [] then "" else GlyphText(us[0]) + GlyphsText(us[1..])
  }

  function GlyphsChars(us: seq<Glyph>): string {
    if us == [] then "" else [GlyphChar(us[0])] + GlyphsChars(us[1..])
  }

  /** The text goes on with the escape of a low surrogate. */
  predicate LowFollows(s: string) {
    |s| >= 6 && s[0] == '\\' && s[1] == 'u' && Hex4Value(s[2..]).Some? && 0xDC00 <= Hex4Value(s[2..]).value < 0xE000
  }

  lemma GlyphScans(u: Glyph, rest: string)
    requires GlyphOk(u) && (High(u) ==> !LowFollows(rest))
    ensures GlyphText(u) != "" && GlyphText(u)[0] != '\"'
    ensures ScanChar(GlyphText(u) + rest) == Some((GlyphChar(u), rest))
  {
    hide Hex4Value, IsHexOf;
    var s := GlyphText(u) + rest;
    match u
    case Plain(c) =>
      assert s[1..] == rest;
    case Short(letter) =>
      assert s[2..] == rest;
    case Hex(n, h) =>
      HexFacts(h, n);
      HexRead(h, n, rest);
      assert s[2..] == h + rest && (h + rest)[4..] == rest;
      assert n >= 0xD800 && n < 0xDC00 && |rest| >= 6 ==> (h + rest)[4] == rest[0] && (h + rest)[5] == rest[1] && (h + rest)[6..] == rest[2..];
    case Pair(c, h, l) => PairScans(c, h, l, rest);
  }

  lemma HexFacts(h: string, n: nat)
    requires IsHexOf(h, n)
    ensures |h| == 4 && n < 0x10000
  {
  }

  lemma PairScans(c: char, h: string, l: string, rest: string)
    requires GlyphOk(Pair(c, h, l))
    ensures ScanChar(GlyphText(Pair(c, h, l)) + rest) == Some((c, rest))
  {
    hide Hex4Value, IsHexOf;
    var s := GlyphText(Pair(c, h, l)) + rest;
    var v := c as int - 0x10000;
    HexFacts(h, 0xD800 + v / 0x400);
    HexFacts(l, 0xDC00 + v % 0x400);
    var t := h + ("\\u" + (l + rest));
    assert s[2..] == t;
    HexRead(h, 0xD800 + v / 0x400, "\\u" + (l + rest));
    HexRead(l, 0xDC00 + v % 0x400, rest);
    assert t[4] == '\\' && t[5] == 'u' && t[6..] == l + rest && t[10..] == rest;
    assert ScanHex(t) == Some((c, rest));
  }

  lemma EscapeFollows(h: string, n: nat, more: string)
    requires IsHexOf(h, n)
    ensures LowFollows("\\u" + h + more) <==> 0xDC00 <= n < 0xE000
  {
    hide Hex4Value, IsHexOf;
    HexFacts(h, n);
    HexRead(h, n, more);
    var s := "\\u" + h + more;
    assert s[2..] == h + more;
  }

  lemma GlyphIsNotLow(u: Glyph, more: string)
    requires GlyphOk(u) && !Low(u)
    ensures !LowFollows(GlyphText(u) + more)
  {
    hide Hex4Value, IsHexOf, LowFollows;
    match u
    case Plain(c) => NoEscape([c] + more);
    case Short(letter) => NoEscape(['\\', letter] + more);
    case Hex(n, h) => EscapeFollows(h, n, more);
    case Pair(c, h, l) =>
      EscapeFollows(h, 0xD800 + (c as int - 0x10000) / 0x400, "\\u" + l + more);
      assert GlyphText(u) + more == "\\u" + h + ("\\u" + l + more);
  }

  lemma NoEscape(s: string)
    requires s != "" && (s[0] != '\\' || (|s| > 1 && s[1] != 'u'))
    ensures !LowFollows(s)
  {
  }

  /** What can follow half a pair within a string. */
  lemma NoLowFollows(us: seq<Glyph>, rest: string)
    requires GlyphsOk(us) && (us == [] || !Low(us[0]))
    ensures !LowFollows(GlyphsText(us) + "\"" + rest)
  {
    hide LowFollows, GlyphText, GlyphOk;
    if us == [] {
      NoEscape(GlyphsText(us) + "\"" + rest);
    } else {
      var more := GlyphsText(us[1..]) + "\"" + rest;
      assert GlyphsText(us) + "\"" + rest == GlyphText(us[0]) + more;
      GlyphIsNotLow(us[0], more);
    }
  }

  lemma TailOk(us: seq<Glyph>)
    requires GlyphsOk(us) && us != []
    ensures GlyphOk(us[0]) && GlyphsOk(us[1..]) && (High(us[0]) ==> us[1..] == [] || !Low(us[1..][0]))
  {
    var t := us[1..];
    forall i | 0 <= i < |t| - 1
      ensures !(High(t[i]) && Low(t[i + 1]))
    {
      assert t[i] == us[i + 1] && t[i + 1] == us[i + 1 + 1];
    }
    assert |us| > 1 ==> us[0 + 1] == t[0];
  }

  /** However a string is spelled, it is read. */
  lemma {:induction false} StringScans(us: seq<Glyph>, rest: string)
    requires GlyphsOk(us)
    ensures ParseString(GlyphsText(us) + "\"" + rest) == Some((GlyphsChars(us), rest))
  {
    hide ScanChar, GlyphOk, GlyphText, GlyphChar, LowFollows, GlyphsOk;
    var s := GlyphsText(us) + "\"" + rest;
    if us == [] {
      assert s[1..] == rest;
    } else {
      TailOk(us);
      StringScans(us[1..], rest);
      var more := GlyphsText(us[1..]) + "\"" + rest;
      assert s == GlyphText(us[0]) + more;
      if High(us[0]) {
        NoLowFollows(us[1..], rest);
      }
      GlyphScans(us[0], more);
    }
  }

  lemma ScannedGlyph(s: string) returns (u: Glyph)
    requires ScanChar(s).Some?
    ensures GlyphOk(u) && GlyphChar(u) == ScanChar(s).value.0
    ensures s == GlyphText(u) + ScanChar(s).value.1
    ensures High(u) ==> !LowFollows(ScanChar(s).value.1)
  {
    hide Hex4Value, IsHexOf;
    if s[0] != '\\' {
      u := Plain(s[0]);
    } else if s[1] == 'u' {
      u := ScannedHex(s[2..]);
      assert s == "\\u" + s[2..];
    } else {
      u := Short(s[1]);
      assert s == ['\\', s[1]] + s[2..];
    }
  }

  lemma ScannedHex(s: string) returns (u: Glyph)
    requires ScanHex(s).Some?
    ensures GlyphOk(u) && GlyphChar(u) == ScanHex(s).value.0
    ensures "\\u" + s == GlyphText(u) + ScanHex(s).value.1
    ensures High(u) ==> !LowFollows(ScanHex(s).value.1)
  {
    hide Hex4Value, IsHexOf;
    var hi := Hex4Value(s).value;
    HexSpelled(s);
    assert s == s[..4] + s[4..];
    u := Hex(hi, s[..4]);
    assert "\\u" + s == GlyphText(u) + s[4..];
    if 0xD800 <= hi < 0xDC00 && |s| >= 6 && s[4] == '\\' && s[5] == 'u' {
      var t := s[4..];
      assert t[2..] == s[6..];
      if Hex4Value(s[6..]).Some? && 0xDC00 <= Hex4Value(s[6..]).value < 0xE000 {
        u := ScannedPair(s);
      }
    } else if 0xD800 <= hi < 0xDC00 && |s| >= 6 {
      assert s[4..][0] == s[4] && s[4..][1] == s[5];
    }
  }

  lemma ScannedPair(s: string) returns (u: Glyph)
    requires |s| >= 6 && s[4] == '\\' && s[5] == 'u'
    requires Hex4Value(s).Some? && 0xD800 <= Hex4Value(s).value < 0xDC00
    requires Hex4Value(s[6..]).Some? && 0xDC00 <= Hex4Value(s[6..]).value < 0xE000
    ensures GlyphOk(u) && !High(u) && |s| >= 10 && GlyphChar(u) == ScanHex(s).value.0
    ensures "\\u" + s == GlyphText(u) + s[10..] && ScanHex(s).value.1 == s[10..]
  {
    hide Hex4Value, IsHexOf;
    var hi, lo := Hex4Value(s).value, Hex4Value(s[6..]).value;
    HexSpelled(s);
    HexSpelled(s[6..]);
    var v := (hi - 0xD800) * 0x400 + (lo - 0xDC00);
    assert v / 0x400 == hi - 0xD800 && v % 0x400 == lo - 0xDC00;
    u := Pair((0x10000 + v) as char, s[..4], s[6..][..4]);
    assert s[4..6] == "\\u";
    assert s[6..] == s[6..][..4] + s[10..];
    assert s == s[..4] + s[4..6] + s[6..];
    assert "\\u" + s == "\\u" + s[..4] + "\\u" + s[6..][..4] + s[10..];
  }

  /** Every string that is read was spelled so. */
  lemma {:induction false} StringSpelled(s: string) returns (us: seq<Glyph>)
    requires ParseString(s).Some?
    ensures GlyphsOk(us) && GlyphsChars(us) == ParseString(s).value.0
    ensures s == GlyphsText(us) + "\"" + ParseString(s).value.1
    decreases |s|
  {
    hide ScanChar, GlyphOk, GlyphText, GlyphChar, LowFollows;
    if s[0] == '\"' {
      us := [];
      assert s == "\"" + s[1..];
    } else {
      var u := ScannedGlyph(s);
      var rest := ScanChar(s).value.1;
      var more := StringSpelled(rest);
      if High(u) && more != [] && Low(more[0]) {
        LowAtStart(more, ParseString(rest).value.1);
      }
      us := [u] + more;
      ConsOk(u, more);
      assert us[1..] == more;
      assert GlyphsText(us) + "\"" == GlyphText(u) + (GlyphsText(more) + "\"");
    }
  }

  lemma ConsOk(u: Glyph, us: seq<Glyph>)
    requires GlyphOk(u) && GlyphsOk(us) && !(High(u) && us != [] && Low(us[0]))
    ensures GlyphsOk([u] + us)
  {
    var t := [u] + us;
    forall i | 0 <= i < |t| - 1
      ensures !(High(t[i]) && Low(t[i + 1]))
    {
      assert i > 0 ==> t[i] == us[i - 1] && t[i + 1] == us[i - 1 + 1];
    }
  }

  lemma LowAtStart(us: seq<Glyph>, rest: string)
    requires GlyphsOk(us) && us != [] && Low(us[0])
    ensures LowFollows(GlyphsText(us) + "\"" + rest)
  {
    hide Hex4Value, IsHexOf, LowFollows;
    var more := GlyphsText(us[1..]) + "\"" + rest;
    assert GlyphsText(us) + "\"" + rest == "\\u" + us[0].h + more;
    EscapeFollows(us[0].h, us[0].n, more);
  }
}
