/** Printed documents, laid out with any space after commas and colons, are spellings of the document;
    without space they are what json.Marshal writes. */
module JsonRoundTrip {
  import opened Text
  import opened Json
  import opened Grammar
  import opened Spellings

  // ---------------------------------------------------------------- strings as json.Marshal spells them

  function EscapeGlyph(c: char): Glyph {
    if c == '\"' || c == '\\' then Short(c)
    else if c == 8 as char then Short('b')
    else if c == 12 as char then Short('f')
    else if c == '\n' then Short('n')
    else if c == '\r' then Short('r')
    else if c == '\t' then Short('t')
    else if HexEscaped(c) then Hex(c as int, Hex4(c as int))
    else Plain(c)
  }

  lemma HexDigitSpelled(d: nat)
    requires d < 16
    ensures IsHexDigitOf(HexDigit(d), d) && HexDigit(d) == "0123456789abcdef"[d]
  {
    if d < 10 {
      assert "0123456789abcdef"[d] == "0123456789"[d];
    } else {
      assert "0123456789abcdef"[d] == "abcdef"[d - 10];
    }
  }

  lemma Hex4Spelled(n: nat)
    requires n < 0x10000
    ensures IsHexOf(Hex4(n), n)
  {
    hide IsHexDigitOf, HexDigit;
    HexDigitSpelled(n / 0x1000);
    HexDigitSpelled(n / 0x100 % 16);
    HexDigitSpelled(n / 16 % 16);
    HexDigitSpelled(n % 16);
  }

  lemma EscapeIsGlyph(c: char)
    ensures GlyphOk(EscapeGlyph(c)) && GlyphText(EscapeGlyph(c)) == EscapeChar(c) && GlyphChar(EscapeGlyph(c)) == c
    ensures !High(EscapeGlyph(c)) && !Low(EscapeGlyph(c))
  {
    hide IsHexOf, Hex4;
    if HexEscaped(c) {
      Hex4Spelled(c as int);
    }
  }

  /** Which characters json.Marshal escapes, and how: a character stands for itself unless it is a
      quote, a backslash, a control character, one of < > & or a line separator; control
      characters without a short form and the latter get four lower-case digits. */
  lemma EscapeIs(c: char)
    ensures EscapeChar(c) == [c] <==>
            c as int >= 0x20 && c != '\"' && c != '\\' && c != '<' && c != '>' && c != '&' && c as int != 0x2028 && c as int != 0x2029
    ensures c == '\"' || c == '\\' ==> EscapeChar(c) == ['\\', c]
    ensures c as int == 0x08 ==> EscapeChar(c) == "\\b"
    ensures c as int == 0x0C ==> EscapeChar(c) == "\\f"
    ensures c as int == 0x0A ==> EscapeChar(c) == "\\n"
    ensures c as int == 0x0D ==> EscapeChar(c) == "\\r"
    ensures c as int == 0x09 ==> EscapeChar(c) == "\\t"
    ensures |EscapeChar(c)| > 2 ==>
              && |EscapeChar(c)| == 6 && EscapeChar(c)[..2] == "\\u" && IsHexOf(EscapeChar(c)[2..], c as int)
              && forall i :: 2 <= i < 6 ==> EscapeChar(c)[i] in "0123456789abcdef"
  {
    hide IsHexOf;
    if HexEscaped(c) {
      var n := c as int;
      Hex4Spelled(n);
      HexDigitSpelled(n / 0x1000);
      HexDigitSpelled(n / 0x100 % 16);
      HexDigitSpelled(n / 16 % 16);
      HexDigitSpelled(n % 16);
    }
  }

  function EscapeGlyphs(s: string): (us: seq<Glyph>)
    ensures |us| == |s|
  {
    if s == "" then [] else [EscapeGlyph(s[0])] + EscapeGlyphs(s[1..])
  }

  lemma {:induction false} EscapeIsSpelling(s: string)
    ensures GlyphsOk(EscapeGlyphs(s)) && GlyphsText(EscapeGlyphs(s)) == Escape(s) && GlyphsChars(EscapeGlyphs(s)) == s
    ensures s != "" ==> !Low(EscapeGlyphs(s)[0])
  {
    hide EscapeGlyph, EscapeChar, GlyphOk, GlyphText, GlyphChar, High, Low;
    if s != "" {
      EscapeIsGlyph(s[0]);
      EscapeIsSpelling(s[1..]);
      var us := EscapeGlyphs(s);
      assert us[1..] == EscapeGlyphs(s[1..]);
      ConsOk(us[0], us[1..]);
      assert us == [us[0]] + us[1..];
      assert s == [s[0]] + s[1..];
    }
  }

  // ---------------------------------------------------------------- documents

  /** A document with `gap` after every comma and colon. */
  function Laid(r: Raw, gap: string): Cst
    decreases r, 0
  {
    match r
    case RNull => CNull
    case RBool(b) => CBool(b)
    case RNum(t) => CNum(t)
    case RStr(s) => CStr(EscapeGlyphs(s))
    case RArr(items) => CArr("", LaidItems(items, "", gap))
    case RObj(ms) => CObj("", LaidMembers(ms, "", gap))
  }

  function LaidItems(items: seq<Raw>, before: string, gap: string): (js: seq<Item>)
    ensures |js| == |items|
    decreases items, 1
  {
    if items == [] then [] else [Item(before, Laid(items[0], gap), "")] + LaidItems(items[1..], gap, gap)
  }

  function LaidMembers(ms: seq<Member>, before: string, gap: string): (es: seq<Entry>)
    ensures |es| == |ms|
    decreases ms, 1
  {
    if ms == [] then []
    else
      var m := ms[0];
      [Entry(before, EscapeGlyphs(m.key), "", Item(gap, Laid(m.value, gap), ""))] + LaidMembers(ms[1..], gap, gap)
  }

  /** However it is laid out, the text spells the document; without space it is the printed text. */
  lemma {:induction false} LaidIsSpelling(r: Raw, gap: string)
    requires WellFormed(r) && Blank(gap)
    ensures Legal(Laid(r, gap)) && Meaning(Laid(r, gap)) == r
    ensures gap == "" ==> Show(Laid(r, gap)) == Print(r)
    decreases r, 0
  {
    hide IsNumber, GlyphsOk, LegalItem, LegalEntry, Blank;
    NoSpace();
    match r
    case RNum(t) => NumberIs(t);
    case RStr(s) => EscapeIsSpelling(s);
    case RArr(items) => LaidItemsAreSpelling(items, "", gap);
    case RObj(ms) => LaidMembersAreSpelling(ms, "", gap);
    case _ =>
  }

  lemma {:induction false} LaidItemsAreSpelling(items: seq<Raw>, before: string, gap: string)
    requires (forall i :: 0 <= i < |items| ==> WellFormed(items[i])) && Blank(before) && Blank(gap)
    ensures forall i :: 0 <= i < |items| ==> LegalItem(LaidItems(items, before, gap)[i])
    ensures ItemsMeaning(LaidItems(items, before, gap)) == items
    ensures gap == "" && before == "" ==> ItemsText(LaidItems(items, before, gap)) == PrintItems(items)
    decreases items, 1
  {
    hide WellFormed, Legal, Meaning, Show, Print, Blank, Laid;
    if items != [] {
      NoSpace();
      LaidIsSpelling(items[0], gap);
      LaidItemsAreSpelling(items[1..], gap, gap);
      var js := LaidItems(items, before, gap);
      assert js[1..] == LaidItems(items[1..], gap, gap);
      forall i | 0 <= i < |js|
        ensures LegalItem(js[i])
      {
        assert i > 0 ==> js[i] == js[1..][i - 1];
      }
      ItemsUnfold(js);
      assert items == [items[0]] + items[1..];
    }
  }

  lemma LaidEntry(m: Member, before: string, gap: string)
    requires Legal(Laid(m.value, gap)) && Blank(before) && Blank(gap)
    ensures var e := Entry(before, EscapeGlyphs(m.key), "", Item(gap, Laid(m.value, gap), ""));
            && LegalEntry(e) && GlyphsChars(e.key) == m.key
            && (gap == "" && before == "" && Show(Laid(m.value, gap)) == Print(m.value) ==> EntryText(e) == PrintMember(m))
  {
    hide Legal, Show, Print, Blank, Laid, GlyphsText, GlyphsChars, GlyphsOk, EscapeGlyphs, Escape;
    NoSpace();
    EscapeIsSpelling(m.key);
  }

  lemma {:induction false} LaidMembersAreSpelling(ms: seq<Member>, before: string, gap: string)
    requires (forall i :: 0 <= i < |ms| ==> WellFormed(ms[i].value)) && Blank(before) && Blank(gap)
    ensures forall i :: 0 <= i < |ms| ==> LegalEntry(LaidMembers(ms, before, gap)[i])
    ensures EntriesMeaning(LaidMembers(ms, before, gap)) == ms
    ensures gap == "" && before == "" ==> EntriesText(LaidMembers(ms, before, gap)) == PrintMembers(ms)
    decreases ms, 1
  {
    hide WellFormed, Legal, Meaning, Show, Print, Blank, Laid, GlyphsChars, EscapeGlyphs, LegalEntry, EntryText, PrintMember, EntriesText, EntriesMeaning;
    if ms == [] {
      NoItems();
    } else {
      NoSpace();
      LaidIsSpelling(ms[0].value, gap);
      LaidEntry(ms[0], before, gap);
      LaidMembersAreSpelling(ms[1..], gap, gap);
      var es := LaidMembers(ms, before, gap);
      assert es[1..] == LaidMembers(ms[1..], gap, gap);
      forall i | 0 <= i < |es|
        ensures LegalEntry(es[i])
      {
        assert i > 0 ==> es[i] == es[1..][i - 1];
      }
      EntriesUnfold(es);
      assert ms == [ms[0]] + ms[1..];
    }
  }

  /** Decoding a printed document in front of any text that cannot extend a number yields
      that document and leaves exactly that text. */
  lemma RoundTrip(r: Raw, rest: string)
    requires WellFormed(r) && NumberStop(rest)
    ensures ParseValue(Print(r) + rest) == Some((r, rest))
  {
    hide ParseValue, Legal, Meaning, Show, Print, Laid;
    NoSpace();
    LaidIsSpelling(r, "");
    ItemStops(Laid(r, ""), rest);
    Spelled(Laid(r, ""), rest);
  }
}
