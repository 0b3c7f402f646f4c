/** JSON texts as RFC 8259 describes them, as syntax trees that keep every space, escape and digit. The
    decoder reads exactly these, each as the document it spells. */
module Spellings {
  import opened Text
  import opened Json
  import opened Decoding
  import opened Grammar

  // ---------------------------------------------------------------- values (sections 3 to 5)

  /** A value as spelled. `gap` is the space inside empty brackets; otherwise the space belongs to the
      elements and members. */
  datatype Cst =
    | CNull
    | CBool(b: bool)
    | CNum(text: string)
    | CStr(glyphs: seq<Glyph>)
    | CArr(gap: string, items: seq<Item>)
    | CObj(gap: string, members: seq<Entry>)

  datatype Item = Item(before: string, value: Cst, after: string)

  datatype Entry = Entry(before: string, key: seq<Glyph>, colon: string, item: Item)

  predicate Legal(c: Cst) {
    match c
    case CNum(t) => IsNumber(t)
    case CStr(us) => GlyphsOk(us)
    case CArr(gap, items) => Blank(gap) && forall i :: 0 <= i < |items| ==> LegalItem(items[i])
    case CObj(gap, ms) => Blank(gap) && forall i :: 0 <= i < |ms| ==> LegalEntry(ms[i])
    case _ => true
  }

  predicate LegalItem(it: Item) {
    Blank(it.before) && Legal(it.value) && Blank(it.after)
  }

  predicate LegalEntry(m: Entry) {
    Blank(m.before) && GlyphsOk(m.key) && Blank(m.colon) && LegalItem(m.item)
  }

  function Show(c: Cst): string
    decreases c, 0
  {
    match c
    case CNull => "null"
    case CBool(b) => if b then "true" else "false"
    case CNum(t) => t
    case CStr(us) => "\"" + GlyphsText(us) + "\""
    case CArr(gap, items) => "[" + (if items == [] then gap else ItemsText(items)) + "]"
    case CObj(gap, ms) => "{" + (if ms == [] then gap else EntriesText(ms)) + "}"
  }

  function ItemText(it: Item): string
    decreases it, 0
  {
    it.before + Show(it.value) + it.after
  }

  function ItemsText(items: seq<Item>): string
    decreases items, 1
  {
    if items == [] then ""
    else if |items| == 1 then ItemText(items[0])
    else ItemText(items[0]) + "," + ItemsText(items[1..])
  }

  function EntryText(m: Entry): string
    decreases m, 1
  {
    m.before + "\"" + GlyphsText(m.key) + "\"" + m.colon + ":" + ItemText(m.item)
  }

  function EntriesText(ms: seq<Entry>): string
    decreases ms, 2
  {
    if ms == [] then ""
    else if |ms| == 1 then EntryText(ms[0])
    else EntryText(ms[0]) + "," + EntriesText(ms[1..])
  }

  /** The document that is spelled. */
  function Meaning(c: Cst): Raw
    decreases c, 0
  {
    match c
    case CNull => RNull
    case CBool(b) => RBool(b)
    case CNum(t) => RNum(t)
    case CStr(us) => RStr(GlyphsChars(us))
    case CArr(_, items) => RArr(ItemsMeaning(items))
    case CObj(_, ms) => RObj(EntriesMeaning(ms))
  }

  function ItemsMeaning(items: seq<Item>): (rs: seq<Raw>)
    ensures |rs| == |items|
    decreases items, 1
  {
    if items == [] then [] else [Meaning(items[0].value)] + ItemsMeaning(items[1..])
  }

  function EntriesMeaning(ms: seq<Entry>): (rs: seq<Member>)
    ensures |rs| == |ms|
    decreases ms, 1
  {
    if ms == [] then [] else [Member(GlyphsChars(ms[0].key), Meaning(ms[0].item.value))] + EntriesMeaning(ms[1..])
  }

  /** The rest does not continue the value: only a number can be continued. */
  predicate StopsAt(c: Cst, rest: string) {
    c.CNum? ==> Ends(NumberAfter(NStart, c.text), rest)
  }

  // ---------------------------------------------------------------- every spelling is read

  lemma TextHead(c: Cst)
    requires Legal(c)
    ensures Show(c) != "" && !IsSpace(Show(c)[0])
    ensures Show(c)[0] != ']' && Show(c)[0] != '}' && Show(c)[0] != ','
  {
  }

  lemma AfterSpace(ws: string, c: char, rest: string)
    requires Blank(ws) && !IsSpace(c)
    ensures SkipSpace(ws + ([c] + rest)) == [c] + rest
    ensures At([c] + rest, c) && ([c] + rest)[1..] == rest
  {
    SkipsBlank(ws, [c] + rest);
    Uncons(c, rest);
  }

  lemma LastItem(text: string, v: Raw, ws: string, rest: string)
    requires Blank(ws) && ParseValue(text) == Some((v, ws + ([']'] + rest)))
    ensures ParseItems(text) == Some(([v], rest))
  {
    hide ParseValue;
    AfterSpace(ws, ']', rest);
  }

  lemma NextItem(text: string, v: Raw, ws: string, more: string, vs: seq<Raw>, rest: string)
    requires Blank(ws) && ParseValue(text) == Some((v, ws + ([','] + more))) && ParseItems(more) == Some((vs, rest))
    ensures ParseItems(text) == Some(([v] + vs, rest))
  {
    hide ParseValue;
    AfterSpace(ws, ',', more);
  }

  lemma OneMember(before: string, body: string, k: string, colon: string, text: string, v: Raw, rest: string)
    requires Blank(before) && Blank(colon)
    requires ParseString(body) == Some((k, colon + ([':'] + text))) && ParseValue(text) == Some((v, rest))
    ensures ParseMember(before + (['\"'] + body)) == Some((Member(k, v), rest))
  {
    hide ParseValue, ParseString;
    AfterSpace(before, '\"', body);
    AfterSpace(colon, ':', text);
  }

  lemma LastMember(text: string, m: Member, ws: string, rest: string)
    requires Blank(ws) && ParseMember(text) == Some((m, ws + (['}'] + rest)))
    ensures ParseMembers(text) == Some(([m], rest))
  {
    hide ParseMember;
    AfterSpace(ws, '}', rest);
  }

  lemma NextMember(text: string, m: Member, ws: string, more: string, ms: seq<Member>, rest: string)
    requires Blank(ws) && ParseMember(text) == Some((m, ws + ([','] + more))) && ParseMembers(more) == Some((ms, rest))
    ensures ParseMembers(text) == Some(([m] + ms, rest))
  {
    hide ParseMember;
    AfterSpace(ws, ',', more);
  }

  lemma ItemReads(it: Item, c: char, rest: string)
    requires LegalItem(it) && !NumberChar(c)
    ensures ParseValue(ItemText(it) + ([c] + rest)) == Some((Meaning(it.value), it.after + ([c] + rest)))
    decreases it, 1
  {
    hide ParseValue, Meaning, Show;
    var tail := it.after + ([c] + rest);
    BlankStops(it.after, c, rest);
    assert it.after + [c] + rest == tail;
    ItemStops(it.value, tail);
    Spelled(it.value, tail);
    ParseSkips(it.before, Show(it.value) + tail);
    assert ItemText(it) + ([c] + rest) == it.before + (Show(it.value) + tail);
  }

  lemma ItemStops(c: Cst, rest: string)
    requires NumberStop(rest)
    ensures StopsAt(c, rest)
  {
    if c.CNum? {
      StopEnds(NumberAfter(NStart, c.text), rest);
    }
  }

  lemma ItemsUnfold(items: seq<Item>)
    requires items != []
    ensures |items| == 1 ==> ItemsText(items) == ItemText(items[0]) && ItemsMeaning(items) == [Meaning(items[0].value)]
    ensures |items| > 1 ==> ItemsText(items) == ItemText(items[0]) + "," + ItemsText(items[1..])
    ensures ItemsMeaning(items) == [Meaning(items[0].value)] + ItemsMeaning(items[1..])
  {
    hide Meaning, ItemText;
  }

  lemma EntriesUnfold(ms: seq<Entry>)
    requires ms != []
    ensures var m := Member(GlyphsChars(ms[0].key), Meaning(ms[0].item.value));
            && (|ms| == 1 ==> EntriesText(ms) == EntryText(ms[0]) && EntriesMeaning(ms) == [m])
            && (|ms| > 1 ==> EntriesText(ms) == EntryText(ms[0]) + "," + EntriesText(ms[1..]))
            && EntriesMeaning(ms) == [m] + EntriesMeaning(ms[1..])
  {
    hide Meaning, EntryText, GlyphsChars;
  }

  lemma {:induction false} ItemsRead(items: seq<Item>, rest: string)
    requires items != [] && forall i :: 0 <= i < |items| ==> LegalItem(items[i])
    ensures ParseItems(ItemsText(items) + ([']'] + rest)) == Some((ItemsMeaning(items), rest))
    decreases items, 2
  {
    hide ParseValue, ParseItems, Meaning, ItemText, LegalItem, Legal, Blank, IsSpace, ItemsText, ItemsMeaning;
    var it, tail := items[0], [']'] + rest;
    AfterIsBlank(it);
    ItemsUnfold(items);
    if |items| == 1 {
      ItemReads(it, ']', rest);
      LastItem(ItemText(it) + tail, Meaning(it.value), it.after, rest);
    } else {
      var more := ItemsText(items[1..]) + tail;
      ItemsRead(items[1..], rest);
      ItemReads(it, ',', more);
      NextItem(ItemText(it) + ([','] + more), Meaning(it.value), it.after, more, ItemsMeaning(items[1..]), rest);
      RegroupList(ItemText(it), ItemsText(items[1..]), tail);
    }
  }

  lemma AfterIsBlank(it: Item)
    requires LegalItem(it)
    ensures Blank(it.before) && Blank(it.after) && Legal(it.value)
  {
  }

  lemma EntryReads(m: Entry, c: char, rest: string)
    requires LegalEntry(m) && !NumberChar(c)
    ensures ParseMember(EntryText(m) + ([c] + rest)) ==
            Some((Member(GlyphsChars(m.key), Meaning(m.item.value)), m.item.after + ([c] + rest)))
    decreases m, 2
  {
    hide ParseValue, ParseString, ParseMember, Meaning, Show, GlyphsText, GlyphsChars, ItemText, Legal, GlyphsOk;
    var text := ItemText(m.item) + ([c] + rest);
    var body := GlyphsText(m.key) + "\"" + (m.colon + ([':'] + text));
    ItemReads(m.item, c, rest);
    StringScans(m.key, m.colon + ([':'] + text));
    OneMember(m.before, body, GlyphsChars(m.key), m.colon, text, Meaning(m.item.value), m.item.after + ([c] + rest));
    EntryRegroups(m.before, GlyphsText(m.key), m.colon, ItemText(m.item), [c] + rest);
  }

  lemma EntryRegroups(before: string, key: string, colon: string, item: string, tail: string)
    ensures before + "\"" + key + "\"" + colon + ":" + item + tail == before + (['\"'] + (key + "\"" + (colon + ([':'] + (item + tail)))))
  {
    var x := colon + ([':'] + (item + tail));
    assert colon + ":" + item + tail == x;
    assert before + "\"" + key + "\"" + colon + ":" + item + tail == before + "\"" + key + "\"" + x;
  }

  lemma {:induction false} EntriesRead(ms: seq<Entry>, rest: string)
    requires ms != [] && forall i :: 0 <= i < |ms| ==> LegalEntry(ms[i])
    ensures ParseMembers(EntriesText(ms) + (['}'] + rest)) == Some((EntriesMeaning(ms), rest))
    decreases ms, 3
  {
    hide ParseMember, ParseMembers, Meaning, EntryText, LegalEntry, Legal, GlyphsChars, GlyphsOk, Blank, IsSpace, EntriesText, EntriesMeaning;
    var m, tail := ms[0], ['}'] + rest;
    EntryParts(m);
    EntriesUnfold(ms);
    var mean := Member(GlyphsChars(m.key), Meaning(m.item.value));
    if |ms| == 1 {
      EntryReads(m, '}', rest);
      LastMember(EntryText(m) + tail, mean, m.item.after, rest);
    } else {
      var more := EntriesText(ms[1..]) + tail;
      EntriesRead(ms[1..], rest);
      EntryReads(m, ',', more);
      NextMember(EntryText(m) + ([','] + more), mean, m.item.after, more, EntriesMeaning(ms[1..]), rest);
      RegroupList(EntryText(m), EntriesText(ms[1..]), tail);
    }
  }

  lemma EntryParts(m: Entry)
    requires LegalEntry(m)
    ensures GlyphsOk(m.key) && Legal(m.item.value) && Blank(m.item.after)
  {
  }

  /** Whatever its spacing and escapes, a legal text in front of anything that does not continue it is
      read as the document it spells, and the rest is left. */
  lemma {:induction false} Spelled(c: Cst, rest: string)
    requires Legal(c) && StopsAt(c, rest)
    ensures ParseValue(Show(c) + rest) == Some((Meaning(c), rest))
    decreases c, 0
  {
    hide ParseValue, ParseString, IsNumber, GlyphsText, GlyphsChars, GlyphsOk, LegalItem, LegalEntry, ItemsText, EntriesText, Ends, NumberAfter;
    match c
    case CNull => LiteralRoundTrip(RNull, rest);
    case CBool(b) => LiteralRoundTrip(RBool(b), rest);
    case CNum(t) =>
      NumberIs(t);
      NumberRoundTrip(t, rest);
    case CStr(us) =>
      StringScans(us, rest);
      StringStep(GlyphsText(us) + "\"" + rest, GlyphsChars(us), rest);
      assert Show(c) + rest == ['\"'] + (GlyphsText(us) + "\"" + rest);
    case CArr(gap, items) => ArrayReads(c, rest);
    case CObj(gap, ms) => ObjectReads(c, rest);
  }

  lemma BracketsRead(body: string, rest: string)
    ensures var s := SkipSpace(body);
            && (s == [']'] + rest ==> ParseValue(['['] + body) == Some((RArr([]), rest)))
            && (s != "" && !At(s, ']') && ParseItems(s).Some? ==>
                  ParseValue(['['] + body) == Some((RArr(ParseItems(s).value.0), ParseItems(s).value.1)))
  {
    hide ParseItems;
    Uncons('[', body);
    Uncons(']', rest);
  }

  lemma BracesRead(body: string, rest: string)
    ensures var s := SkipSpace(body);
            && (s == ['}'] + rest ==> ParseValue(['{'] + body) == Some((RObj([]), rest)))
            && (s != "" && !At(s, '}') && ParseMembers(s).Some? ==>
                  ParseValue(['{'] + body) == Some((RObj(ParseMembers(s).value.0), ParseMembers(s).value.1)))
  {
    hide ParseMembers;
    Uncons('{', body);
    Uncons('}', rest);
  }

  lemma ArrayReads(c: Cst, rest: string)
    requires c.CArr? && Legal(c)
    ensures ParseValue(Show(c) + rest) == Some((Meaning(c), rest))
    decreases c, 0, 1
  {
    hide ParseValue, ParseItems, SkipSpace, ItemsText, LegalItem, ItemText, IsNumber, GlyphsOk, ItemsMeaning, Blank;
    var items, tail := c.items, [']'] + rest;
    var body := (if items == [] then c.gap else ItemsText(items)) + tail;
    Bracketed('[', if items == [] then c.gap else ItemsText(items), ']', rest);
    BracketsRead(body, rest);
    if items == [] {
      AfterSpace(c.gap, ']', rest);
      NoItems();
    } else {
      ItemsRead(items, rest);
      ItemsStart(items, tail);
    }
  }

  lemma Bracketed(open: char, body: string, close: char, rest: string)
    ensures [open] + body + [close] + rest == [open] + (body + ([close] + rest))
  {
  }

  lemma Assoc(a: string, b: string, c: string, d: string)
    ensures a + b + c + d == a + (b + (c + d))
  {
  }

  lemma FirstItem(items: seq<Item>) returns (more: string)
    requires items != []
    ensures ItemsText(items) == ItemText(items[0]) + more
  {
    hide ItemText;
    more := if |items| == 1 then "" else "," + ItemsText(items[1..]);
  }

  lemma FirstEntry(ms: seq<Entry>) returns (more: string)
    requires ms != []
    ensures EntriesText(ms) == EntryText(ms[0]) + more
  {
    hide EntryText;
    more := if |ms| == 1 then "" else "," + EntriesText(ms[1..]);
  }

  lemma ItemsStart(items: seq<Item>, tail: string)
    requires items != [] && LegalItem(items[0])
    ensures var body := ItemsText(items) + tail;
            && SkipSpace(body) != "" && !At(SkipSpace(body), ']') && ParseItems(SkipSpace(body)) == ParseItems(body)
  {
    hide ParseValue, Show, Legal, IsSpace, ItemsText, Blank, SkipSpace;
    var it, body := items[0], ItemsText(items) + tail;
    var e := FirstItem(items);
    var more := Show(it.value) + (it.after + (e + tail));
    TextHead(it.value);
    Assoc(it.before, Show(it.value), it.after, e + tail);
    assert body == it.before + more && more[0] == Show(it.value)[0];
    SkipsBlank(it.before, more);
    NoSkip(more);
    ParseSkips(it.before, more);
  }

  lemma ObjectReads(c: Cst, rest: string)
    requires c.CObj? && Legal(c)
    ensures ParseValue(Show(c) + rest) == Some((Meaning(c), rest))
    decreases c, 0, 1
  {
    hide ParseValue, ParseMembers, SkipSpace, EntriesText, LegalEntry, EntryText, IsNumber, GlyphsOk, EntriesMeaning, Blank;
    var ms, tail := c.members, ['}'] + rest;
    var body := (if ms == [] then c.gap else EntriesText(ms)) + tail;
    Bracketed('{', if ms == [] then c.gap else EntriesText(ms), '}', rest);
    BracesRead(body, rest);
    if ms == [] {
      AfterSpace(c.gap, '}', rest);
      NoItems();
    } else {
      EntriesRead(ms, rest);
      EntriesStart(ms, tail);
    }
  }

  lemma EntriesStart(ms: seq<Entry>, tail: string)
    requires ms != [] && LegalEntry(ms[0])
    ensures var body := EntriesText(ms) + tail;
            && SkipSpace(body) != "" && !At(SkipSpace(body), '}') && ParseMembers(SkipSpace(body)) == ParseMembers(body)
  {
    hide ParseValue, ParseString, ItemText, GlyphsText, GlyphsOk, EntriesText, Blank, SkipSpace;
    var m, body := ms[0], EntriesText(ms) + tail;
    var e := FirstEntry(ms);
    var more := ['\"'] + (GlyphsText(m.key) + "\"" + (m.colon + ([':'] + (ItemText(m.item) + (e + tail)))));
    EntryRegroups(m.before, GlyphsText(m.key), m.colon, ItemText(m.item), e + tail);
    assert body == m.before + more && more[0] == '\"';
    SkipsBlank(m.before, more);
    NoSkip(more);
    assert ParseMember(body) == ParseMember(more);
  }

  // ---------------------------------------------------------------- everything read was spelled

  /** Conversely: whatever is read is a legal text behind some space, spelling the document that was
      read, in front of a rest that does not continue it. */
  lemma {:induction false} Spelling(text: string) returns (ws: string, c: Cst)
    requires ParseValue(text).Some?
    ensures Blank(ws) && Legal(c) && Meaning(c) == ParseValue(text).value.0
    ensures text == ws + Show(c) + ParseValue(text).value.1 && StopsAt(c, ParseValue(text).value.1)
    decreases |text|, 1
  {
    hide ParseText, ParseArray, ParseObject, ParseNumber, ParseLiteral, Blank, Legal, Meaning, Show, SkipSpace;
    ws := SkipSplits(text);
    var s := SkipSpace(text);
    if s[0] == 'n' {
      c := CNull;
      Literals();
      SpelledLiteral(s, c);
    } else if s[0] == 't' {
      c := CBool(true);
      Literals();
      SpelledLiteral(s, c);
    } else if s[0] == 'f' {
      c := CBool(false);
      Literals();
      SpelledLiteral(s, c);
    } else if s[0] == '\"' {
      c := SpelledText(s);
    } else if s[0] == '[' {
      c := SpelledArray(s);
    } else if s[0] == '{' {
      c := SpelledObject(s);
    } else {
      c := SpelledNumber(s);
    }
  }

  lemma Literals()
    ensures Show(CNull) == "null" && Show(CBool(true)) == "true" && Show(CBool(false)) == "false"
    ensures Meaning(CNull) == RNull && forall b :: Meaning(CBool(b)) == RBool(b)
  {
  }

  lemma SpelledLiteral(s: string, c: Cst)
    requires c.CNull? || c.CBool?
    requires ParseLiteral(s, Show(c), Meaning(c)).Some?
    ensures Legal(c) && s == Show(c) + ParseLiteral(s, Show(c), Meaning(c)).value.1
  {
  }

  lemma SpelledText(s: string) returns (c: Cst)
    requires s != "" && s[0] == '\"' && ParseText(s[1..]).Some?
    ensures c.CStr? && Legal(c) && Meaning(c) == ParseText(s[1..]).value.0
    ensures s == Show(c) + ParseText(s[1..]).value.1
  {
    hide ParseString, GlyphsText, GlyphsOk;
    var us := StringSpelled(s[1..]);
    c := CStr(us);
    var rest := ParseString(s[1..]).value.1;
    assert s == "\"" + s[1..];
    assert Show(c) + rest == "\"" + (GlyphsText(us) + "\"" + rest);
  }

  lemma SpelledNumber(s: string) returns (c: Cst)
    requires ParseNumber(s).Some?
    ensures Legal(c) && Meaning(c) == ParseNumber(s).value.0
    ensures s == Show(c) + ParseNumber(s).value.1 && StopsAt(c, ParseNumber(s).value.1)
  {
    hide NumberStep, IsNumber, Munch, ValidNumber;
    var n := Munch(NStart, s);
    c := CNum(s[..n]);
    NumberIs(s[..n]);
    MunchEnds(NStart, s);
    assert s == s[..n] + s[n..];
  }

  /** The tree for brackets with space `ws` after the opening one. */
  function ArrayWith(ws: string, items: seq<Item>): Cst {
    if items == [] then CArr(ws, []) else CArr("", WithSpace(ws, items))
  }

  lemma ArrayIsLegal(ws: string, items: seq<Item>)
    requires Blank(ws) && forall i :: 0 <= i < |items| ==> LegalItem(items[i])
    ensures Legal(ArrayWith(ws, items)) && Meaning(ArrayWith(ws, items)) == RArr(ItemsMeaning(items))
  {
    hide LegalItem, WithSpace, ItemsText, ItemsMeaning, Blank;
    NoItems();
    if items != [] {
      NoSpace();
      SpaceInFront(ws, items);
    }
  }

  lemma ArrayShows(ws: string, items: seq<Item>, rest: string)
    requires Blank(ws) && forall i :: 0 <= i < |items| ==> LegalItem(items[i])
    ensures Show(ArrayWith(ws, items)) + rest == "[" + (ws + (ItemsText(items) + "]" + rest))
  {
    hide LegalItem, WithSpace, ItemsText, ItemsMeaning, Blank, Show;
    if items == [] {
      NoItems();
      ShowBrackets(ws, []);
      EmptyBrackets("[", ws, "]", rest);
    } else {
      SpaceInFront(ws, items);
      ShowBrackets(ws, WithSpace(ws, items));
      Enclosed("[", ws, ItemsText(items), "]", rest);
    }
  }

  lemma ShowBrackets(ws: string, items: seq<Item>)
    ensures Show(CArr(ws, [])) == "[" + ws + "]"
    ensures items != [] ==> Show(CArr("", items)) == "[" + ItemsText(items) + "]"
  {
    hide ItemsText;
  }

  lemma ShowBraces(ws: string, ms: seq<Entry>)
    ensures Show(CObj(ws, [])) == "{" + ws + "}"
    ensures ms != [] ==> Show(CObj("", ms)) == "{" + EntriesText(ms) + "}"
  {
    hide EntriesText;
  }

  lemma NoSpace()
    ensures Blank("")
  {
  }

  lemma Enclosed(open: string, ws: string, body: string, close: string, rest: string)
    ensures open + (ws + body) + close + rest == open + (ws + (body + close + rest))
  {
    assert (ws + body) + close + rest == ws + (body + close + rest);
  }

  lemma EmptyBrackets(open: string, ws: string, close: string, rest: string)
    ensures open + ws + close + rest == open + (ws + ("" + close + rest))
  {
    assert ws + close + rest == ws + ("" + close + rest);
  }

  lemma SpelledArray(s: string) returns (c: Cst)
    requires s != "" && s[0] == '[' && ParseArray(SkipSpace(s[1..])).Some?
    ensures c.CArr? && Legal(c) && Meaning(c) == ParseArray(SkipSpace(s[1..])).value.0
    ensures s == Show(c) + ParseArray(SkipSpace(s[1..])).value.1
    decreases |s|, 0
  {
    hide ParseItems, Legal, Blank, LegalItem, SkipSpace, ItemsMeaning, WithSpace, Meaning, Show;
    var ws := SkipSplits(s[1..]);
    var body := SkipSpace(s[1..]);
    assert s == "[" + (ws + body);
    var items := [];
    if At(body, ']') {
      NoItems();
      assert body == "]" + body[1..];
      assert body == ItemsText([]) + "]" + body[1..];
    } else {
      items := SpelledItems(body);
    }
    ArrayIsLegal(ws, items);
    ArrayShows(ws, items, ParseArray(body).value.1);
    c := ArrayWith(ws, items);
  }

  lemma NoItems()
    ensures ItemsText([]) == "" && EntriesText([]) == "" && ItemsMeaning([]) == [] && EntriesMeaning([]) == []
  {
  }

  /** More space in front of the first element. */
  function WithSpace(ws: string, items: seq<Item>): (js: seq<Item>)
    requires items != []
    ensures js != []
  {
    [items[0].(before := ws + items[0].before)] + items[1..]
  }

  lemma SpaceInFront(ws: string, items: seq<Item>)
    requires Blank(ws) && items != [] && forall i :: 0 <= i < |items| ==> LegalItem(items[i])
    ensures var js := WithSpace(ws, items);
            && (forall i :: 0 <= i < |js| ==> LegalItem(js[i]))
            && ItemsText(js) == ws + ItemsText(items) && ItemsMeaning(js) == ItemsMeaning(items)
  {
    hide Show, Meaning, Legal;
    var js := WithSpace(ws, items);
    assert js[1..] == items[1..];
    assert ItemText(js[0]) == ws + ItemText(items[0]);
    forall i | 0 <= i < |js|
      ensures LegalItem(js[i])
    {
      assert i > 0 ==> js[i] == items[i];
    }
  }

  lemma MakeItem(before: string, v: Cst, after: string, next: string)
    requires Blank(before) && Legal(v) && Blank(after)
    ensures LegalItem(Item(before, v, after))
    ensures ItemText(Item(before, v, after)) + next == before + Show(v) + (after + next)
  {
    hide Show, Legal, Blank;
  }

  lemma {:induction false} SpelledItems(text: string) returns (items: seq<Item>)
    requires ParseItems(text).Some?
    ensures items != [] && (forall i :: 0 <= i < |items| ==> LegalItem(items[i]))
    ensures ItemsMeaning(items) == ParseItems(text).value.0
    ensures text == ItemsText(items) + "]" + ParseItems(text).value.1
    decreases |text|, 2
  {
    hide ParseValue, Show, Meaning, Legal, ItemText, LegalItem, Blank, IsSpace, SkipSpace;
    var before, v := Spelling(text);
    var rest := ParseValue(text).value.1;
    var after := SkipSplits(rest);
    var next := SkipSpace(rest);
    var it := Item(before, v, after);
    MakeItem(before, v, after, next);
    assert text == ItemText(it) + next;
    assert next == [next[0]] + next[1..];
    if At(next, ']') {
      items := [it];
    } else {
      var more := SpelledItems(next[1..]);
      items := [it] + more;
      assert items[1..] == more;
      assert text == ItemText(it) + ("," + (ItemsText(more) + "]" + ParseItems(text).value.1));
    }
  }

  /** The tree for brackets with space `ws` after the opening one. */
  function ObjectWith(ws: string, ms: seq<Entry>): Cst {
    if ms == [] then CObj(ws, []) else CObj("", WithSpaceBefore(ws, ms))
  }

  lemma ObjectIsLegal(ws: string, ms: seq<Entry>)
    requires Blank(ws) && forall i :: 0 <= i < |ms| ==> LegalEntry(ms[i])
    ensures Legal(ObjectWith(ws, ms)) && Meaning(ObjectWith(ws, ms)) == RObj(EntriesMeaning(ms))
  {
    hide LegalEntry, WithSpaceBefore, EntriesText, EntriesMeaning, Blank;
    NoItems();
    if ms != [] {
      NoSpace();
      SpaceBeforeEntries(ws, ms);
    }
  }

  lemma ObjectShows(ws: string, ms: seq<Entry>, rest: string)
    requires Blank(ws) && forall i :: 0 <= i < |ms| ==> LegalEntry(ms[i])
    ensures Show(ObjectWith(ws, ms)) + rest == "{" + (ws + (EntriesText(ms) + "}" + rest))
  {
    hide LegalEntry, WithSpaceBefore, EntriesText, EntriesMeaning, Blank, Show;
    if ms == [] {
      NoItems();
      ShowBraces(ws, []);
      EmptyBrackets("{", ws, "}", rest);
    } else {
      SpaceBeforeEntries(ws, ms);
      ShowBraces(ws, WithSpaceBefore(ws, ms));
      Enclosed("{", ws, EntriesText(ms), "}", rest);
    }
  }

  lemma SpelledObject(s: string) returns (c: Cst)
    requires s != "" && s[0] == '{' && ParseObject(SkipSpace(s[1..])).Some?
    ensures c.CObj? && Legal(c) && Meaning(c) == ParseObject(SkipSpace(s[1..])).value.0
    ensures s == Show(c) + ParseObject(SkipSpace(s[1..])).value.1
    decreases |s|, 0
  {
    hide ParseMembers, Legal, Blank, LegalEntry, SkipSpace, EntriesMeaning, WithSpaceBefore, Meaning, Show;
    var ws := SkipSplits(s[1..]);
    var body := SkipSpace(s[1..]);
    assert s == "{" + (ws + body);
    var ms := [];
    if At(body, '}') {
      NoItems();
      assert body == "}" + body[1..];
      assert body == EntriesText([]) + "}" + body[1..];
    } else {
      ms := SpelledEntries(body);
    }
    ObjectIsLegal(ws, ms);
    ObjectShows(ws, ms, ParseObject(body).value.1);
    c := ObjectWith(ws, ms);
  }

  function WithSpaceBefore(ws: string, ms: seq<Entry>): (js: seq<Entry>)
    requires ms != []
    ensures js != []
  {
    [ms[0].(before := ws + ms[0].before)] + ms[1..]
  }

  lemma SpaceBeforeEntries(ws: string, ms: seq<Entry>)
    requires Blank(ws) && ms != [] && forall i :: 0 <= i < |ms| ==> LegalEntry(ms[i])
    ensures var js := WithSpaceBefore(ws, ms);
            && (forall i :: 0 <= i < |js| ==> LegalEntry(js[i]))
            && EntriesText(js) == ws + EntriesText(ms) && EntriesMeaning(js) == EntriesMeaning(ms)
  {
    hide ItemText, Meaning, LegalItem, GlyphsText, GlyphsOk, GlyphsChars;
    var js := WithSpaceBefore(ws, ms);
    assert js[1..] == ms[1..];
    assert EntryText(js[0]) == ws + EntryText(ms[0]);
    forall i | 0 <= i < |js|
      ensures LegalEntry(js[i])
    {
      assert i > 0 ==> js[i] == ms[i];
    }
  }

  lemma SpelledEntry(text: string) returns (m: Entry)
    requires ParseMember(text).Some?
    ensures LegalEntry(m) && m.item.after == ""
    ensures Member(GlyphsChars(m.key), Meaning(m.item.value)) == ParseMember(text).value.0
    ensures text == EntryText(m) + ParseMember(text).value.1
    decreases |text|, 2
  {
    hide ParseValue, ParseString, Show, Meaning, Legal, GlyphsText, GlyphsOk, GlyphsChars;
    var before := SkipSplits(text);
    var s := SkipSpace(text);
    var key := StringSpelled(s[1..]);
    var rest := ParseString(s[1..]).value.1;
    var colon := SkipSplits(rest);
    var next := SkipSpace(rest);
    var ws, v := Spelling(next[1..]);
    var left := ParseValue(next[1..]).value.1;
    m := Entry(before, key, colon, Item(ws, v, ""));
    assert next == [':'] + (ItemText(m.item) + left);
    assert s == ['\"'] + (GlyphsText(key) + "\"" + (colon + next));
    EntryRegroups(before, GlyphsText(key), colon, ItemText(m.item), left);
  }

  lemma SpaceAfter(m: Entry, after: string, next: string)
    requires LegalEntry(m) && m.item.after == "" && Blank(after)
    ensures var e := m.(item := m.item.(after := after));
            LegalEntry(e) && EntryText(e) + next == EntryText(m) + (after + next)
  {
    hide Show, Legal, Blank, GlyphsText, GlyphsOk;
    var e := m.(item := m.item.(after := after));
    assert ItemText(e.item) == ItemText(m.item) + after;
  }

  lemma {:induction false} SpelledEntries(text: string) returns (ms: seq<Entry>)
    requires ParseMembers(text).Some?
    ensures ms != [] && (forall i :: 0 <= i < |ms| ==> LegalEntry(ms[i]))
    ensures EntriesMeaning(ms) == ParseMembers(text).value.0
    ensures text == EntriesText(ms) + "}" + ParseMembers(text).value.1
    decreases |text|, 3
  {
    hide ParseMember, Show, Meaning, Legal, GlyphsText, GlyphsOk, GlyphsChars, EntryText, LegalEntry, Blank, IsSpace, SkipSpace;
    var m := SpelledEntry(text);
    var rest := ParseMember(text).value.1;
    var after := SkipSplits(rest);
    var next := SkipSpace(rest);
    var e := m.(item := m.item.(after := after));
    SpaceAfter(m, after, next);
    assert text == EntryText(e) + next;
    assert next == [next[0]] + next[1..];
    if At(next, '}') {
      ms := [e];
    } else {
      var more := SpelledEntries(next[1..]);
      ms := [e] + more;
      assert ms[1..] == more;
      assert text == EntryText(e) + ("," + (EntriesText(more) + "}" + ParseMembers(text).value.1));
    }
  }
}
