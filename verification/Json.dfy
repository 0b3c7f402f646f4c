/** JSON documents as encoding/json writes them: a compact printer over syntax trees whose
    object members are still in written order, and a decoder for such text (sections 4 to 7
    of RFC 8259). The decoder inverts the printer in front of any continuation. */
module Json {
  import opened Text

  /** A document as written: members in order, numbers as their exact text. */
  datatype Raw =
    | RNull
    | RBool(b: bool)
    | RNum(text: string)
    | RStr(s: string)
    | RArr(items: seq<Raw>)
    | RObj(members: seq<Member>)

  datatype Member = Member(key: string, value: Raw)

  // ---------------------------------------------------------------- numbers

  predicate NumberChar(c: char) {
    IsDigit(c) || c in "+-.eE"
  }

  /** Positions within the number grammar of section 6 of RFC 8259. */
  datatype NumberState = NStart | NMinus | NZero | NInt | NDot | NFrac | NExp | NExpSign | NExpInt | NBad

  function NumberStep(q: NumberState, c: char): NumberState {
    match q
    case NStart => if c == '-' then NMinus else if c == '0' then NZero else if IsDigit(c) then NInt else NBad
    case NMinus => if c == '0' then NZero else if IsDigit(c) then NInt else NBad
    case NZero => if c == '.' then NDot else if c in "eE" then NExp else NBad
    case NInt => if IsDigit(c) then NInt else if c == '.' then NDot else if c in "eE" then NExp else NBad
    case NDot => if IsDigit(c) then NFrac else NBad
    case NFrac => if IsDigit(c) then NFrac else if c in "eE" then NExp else NBad
    case NExp => if c in "+-" then NExpSign else if IsDigit(c) then NExpInt else NBad
    case NExpSign => if IsDigit(c) then NExpInt else NBad
    case NExpInt => if IsDigit(c) then NExpInt else NBad
    case NBad => NBad
  }

  predicate NumberFrom(q: NumberState, s: string)
    decreases |s|
  {
    if s == [] then q in {NZero, NInt, NFrac, NExpInt} else NumberFrom(NumberStep(q, s[0]), s[1..])
  }

  predicate ValidNumber(s: string) {
    NumberFrom(NStart, s)
  }

  lemma {:induction false} BadStaysBad(s: string)
    ensures !NumberFrom(NBad, s)
  {
    if s != [] {
      BadStaysBad(s[1..]);
    }
  }

  /** How far the grammar can follow the text from state `q`: the decoder's scanner ends a number
      at the first character that cannot extend it. */
  function Munch(q: NumberState, s: string): (n: nat)
    ensures n <= |s|
    decreases |s|
  {
    if s == [] || NumberStep(q, s[0]).NBad? then 0 else 1 + Munch(NumberStep(q, s[0]), s[1..])
  }

  function NumberAfter(q: NumberState, s: string): NumberState
    decreases |s|
  {
    if s == [] then q else NumberAfter(NumberStep(q, s[0]), s[1..])
  }

  /** The text cannot continue a number read up to state `q`. */
  predicate Ends(q: NumberState, rest: string) {
    rest == [] || NumberStep(q, rest[0]).NBad?
  }

  /** The text cannot continue any number. */
  predicate NumberStop(rest: string) {
    rest == [] || !NumberChar(rest[0])
  }

  lemma StopEnds(q: NumberState, rest: string)
    requires NumberStop(rest)
    ensures Ends(q, rest)
  {
  }

  /** A number is followed exactly to its end. */
  lemma {:induction false} MunchStops(q: NumberState, t: string, rest: string)
    requires NumberFrom(q, t) && Ends(NumberAfter(q, t), rest)
    ensures Munch(q, t + rest) == |t|
    decreases |t|
  {
    if t == [] {
      assert t + rest == rest;
    } else {
      assert (t + rest)[1..] == t[1..] + rest;
      BadStaysBad(t[1..]);
      MunchStops(NumberStep(q, t[0]), t[1..], rest);
    }
  }

  // ---------------------------------------------------------------- strings

  function HexDigit(d: nat): (c: char)
    requires d < 16
  {
    if d < 10 then '0' + (d as char) else 'a' + ((d - 10) as char)
  }

  function HexValue(c: char): (v: Option<nat>)
    ensures v.Some? ==> v.value < 16
  {
    if '0' <= c <= '9' then Some(c as int - '0' as int)
    else if 'a' <= c <= 'f' then Some(c as int - 'a' as int + 10)
    else if 'A' <= c <= 'F' then Some(c as int - 'A' as int + 10)
    else None
  }

  function Hex4(n: nat): (s: string)
    requires n < 0x10000
    ensures |s| == 4
  {
    [HexDigit(n / 0x1000), HexDigit(n / 0x100 % 16), HexDigit(n / 16 % 16), HexDigit(n % 16)]
  }

  function Hex4Value(s: string): (v: Option<nat>)
    ensures v.Some? ==> |s| >= 4 && v.value < 0x10000
  {
    if |s| < 4 then None
    else
      var a, b, c, d := HexValue(s[0]), HexValue(s[1]), HexValue(s[2]), HexValue(s[3]);
      if a.Some? && b.Some? && c.Some? && d.Some?
      then Some(0x1000 * a.value + 0x100 * b.value + 16 * c.value + d.value)
      else None
  }

  lemma Positional16(n: nat)
    requires n < 0x10000
    ensures 0x1000 * (n / 0x1000) + 0x100 * (n / 0x100 % 16) + 16 * (n / 16 % 16) + n % 16 == n
  {
    assert n / 0x100 / 16 == n / 0x1000 && n / 16 / 16 == n / 0x100;
  }

  /** Characters json.Marshal writes as \uXXXX: control characters without a short form, the
      three HTML-sensitive ones, and the two line separators. */
  predicate HexEscaped(c: char) {
    || (c < ' ' && c !in "\n\r\t" && c != 8 as char && c != 12 as char)
    || c in "<>&"
    || c == 0x2028 as char || c == 0x2029 as char
  }

  function EscapeChar(c: char): (s: string)
    ensures |s| > 0
  {
    if c == '\"' then "\\\""
    else if c == '\\' then "\\\\"
    else if c == 8 as char then "\\b"
    else if c == 12 as char then "\\f"
    else if c == '\n' then "\\n"
    else if c == '\r' then "\\r"
    else if c == '\t' then "\\t"
    else if HexEscaped(c) then "\\u" + Hex4(c as int)
    else [c]
  }

  function Escape(s: string): string {
    if s == [] then [] else EscapeChar(s[0]) + Escape(s[1..])
  }

  /** json.Marshal of a Go string. */
  function PrintString(s: string): string {
    "\"" + Escape(s) + "\""
  }

  /** One \uXXXX escape, or a surrogate pair of them; a lone surrogate decodes to U+FFFD. */
  function ScanHex(s: string): (r: Option<(char, string)>)
    ensures r.Some? ==> |r.value.1| < |s|
  {
    match Hex4Value(s)
    case None => None
    case Some(hi) =>
      if hi < 0xD800 || 0xE000 <= hi then Some((hi as char, s[4..]))
      else if hi < 0xDC00 && |s| >= 6 && s[4] == '\\' && s[5] == 'u' then
        match Hex4Value(s[6..])
        case Some(lo) =>
          if 0xDC00 <= lo < 0xE000
          then Some(((0x10000 + (hi - 0xD800) * 0x400 + (lo - 0xDC00)) as char, s[10..]))
          else Some((0xFFFD as char, s[4..]))
        case None => Some((0xFFFD as char, s[4..]))
      else Some((0xFFFD as char, s[4..]))
  }

  /** One character of a string body (not the closing quote). */
  function ScanChar(s: string): (r: Option<(char, string)>)
    ensures r.Some? ==> |r.value.1| < |s|
  {
    if s == [] || s[0] == '\"' || s[0] < ' ' then None
    else if s[0] != '\\' then Some((s[0], s[1..]))
    else if |s| < 2 then None
    else
      var c, rest := s[1], s[2..];
      if c == '\"' then Some(('\"', rest))
      else if c == '\\' then Some(('\\', rest))
      else if c == '/' then Some(('/', rest))
      else if c == 'b' then Some((8 as char, rest))
      else if c == 'f' then Some((12 as char, rest))
      else if c == 'n' then Some(('\n', rest))
      else if c == 'r' then Some(('\r', rest))
      else if c == 't' then Some(('\t', rest))
      else if c == 'u' then ScanHex(rest)
      else None
  }

  /** The body of a string up to and including its closing quote. */
  function ParseString(s: string): (r: Option<(string, string)>)
    ensures r.Some? ==> |r.value.1| < |s|
  {
    if s != [] && s[0] == '\"' then Some(([], s[1..]))
    else
      match ScanChar(s)
      case None => None
      case Some((c, rest)) =>
        match ParseString(rest)
        case None => None
        case Some((t, rest')) => Some(([c] + t, rest'))
  }

  // ---------------------------------------------------------------- the printer

  function Print(r: Raw): string
    decreases r, 0
  {
    match r
    case RNull => "null"
    case RBool(b) => if b then "true" else "false"
    case RNum(t) => t
    case RStr(s) => PrintString(s)
    case RArr(items) => "[" + PrintItems(items) + "]"
    case RObj(members) => "{" + PrintMembers(members) + "}"
  }

  function PrintItems(items: seq<Raw>): string
    decreases items, 1
  {
    if items == [] then []
    else if |items| == 1 then Print(items[0])
    else Print(items[0]) + "," + PrintItems(items[1..])
  }

  function PrintMember(m: Member): string
    decreases m, 1
  {
    PrintString(m.key) + ":" + Print(m.value)
  }

  function PrintMembers(ms: seq<Member>): string
    decreases ms, 1
  {
    if ms == [] then []
    else if |ms| == 1 then PrintMember(ms[0])
    else PrintMember(ms[0]) + "," + PrintMembers(ms[1..])
  }

  /** Every number carries text of the number grammar, as every json.Marshal output does. */
  predicate WellFormed(r: Raw) {
    match r
    case RNum(t) => ValidNumber(t)
    case RArr(items) => forall i :: 0 <= i < |items| ==> WellFormed(items[i])
    case RObj(ms) => forall i :: 0 <= i < |ms| ==> WellFormed(ms[i].value)
    case _ => true
  }

  /** What json.Marshal can write. */
  type Document = r: Raw | WellFormed(r) witness RNull

  // ---------------------------------------------------------------- the decoder

  predicate IsSpace(c: char) {
    c == ' ' || c == '\t' || c == '\r' || c == '\n'
  }

  function SkipSpace(s: string): (t: string)
    ensures |t| <= |s|
  {
    if s != [] && IsSpace(s[0]) then SkipSpace(s[1..]) else s
  }

  predicate At(s: string, c: char) {
    s != [] && s[0] == c
  }

  function ParseLiteral(s: string, lit: string, r: Raw): (p: Option<(Raw, string)>)
    ensures p.Some? ==> p.value.0 == r && (lit != [] ==> |p.value.1| < |s|)
  {
    if |lit| <= |s| && s[..|lit|] == lit then Some((r, s[|lit|..])) else None
  }

  function ParseNumber(s: string): (p: Option<(Raw, string)>)
    ensures p.Some? ==> |p.value.1| < |s| && WellFormed(p.value.0)
  {
    var n := Munch(NStart, s);
    if n > 0 && ValidNumber(s[..n]) then Some((RNum(s[..n]), s[n..])) else None
  }

  function ParseText(s: string): (p: Option<(Raw, string)>)
    ensures p.Some? ==> |p.value.1| < |s| && WellFormed(p.value.0)
  {
    match ParseString(s)
    case None => None
    case Some((t, rest)) => Some((RStr(t), rest))
  }

  /** One value, after any leading space. */
  function ParseValue(text: string): (r: Option<(Raw, string)>)
    ensures r.Some? ==> |r.value.1| < |text| && WellFormed(r.value.0)
    decreases |text|, 1
  {
    var s := SkipSpace(text);
    if s == [] then None
    else if s[0] == 'n' then ParseLiteral(s, "null", RNull)
    else if s[0] == 't' then ParseLiteral(s, "true", RBool(true))
    else if s[0] == 'f' then ParseLiteral(s, "false", RBool(false))
    else if s[0] == '\"' then ParseText(s[1..])
    else if s[0] == '[' then ParseArray(SkipSpace(s[1..]))
    else if s[0] == '{' then ParseObject(SkipSpace(s[1..]))
    else ParseNumber(s)
  }

  /** An array after its opening bracket. */
  function ParseArray(body: string): (r: Option<(Raw, string)>)
    ensures r.Some? ==> |r.value.1| < |body| && WellFormed(r.value.0)
    decreases |body|, 3
  {
    if At(body, ']') then Some((RArr([]), body[1..]))
    else match ParseItems(body)
      case None => None
      case Some((items, rest)) => Some((RArr(items), rest))
  }

  /** An object after its opening brace. */
  function ParseObject(body: string): (r: Option<(Raw, string)>)
    ensures r.Some? ==> |r.value.1| < |body| && WellFormed(r.value.0)
    decreases |body|, 4
  {
    if At(body, '}') then Some((RObj([]), body[1..]))
    else match ParseMembers(body)
      case None => None
      case Some((ms, rest)) => Some((RObj(ms), rest))
  }

  /** The elements of a non-empty array, up to and including the closing bracket. */
  function ParseItems(text: string): (r: Option<(seq<Raw>, string)>)
    ensures r.Some? ==> |r.value.1| < |text| && forall i :: 0 <= i < |r.value.0| ==> WellFormed(r.value.0[i])
    decreases |text|, 2
  {
    match ParseValue(text)
    case None => None
    case Some((v, rest)) =>
      var next := SkipSpace(rest);
      if At(next, ']') then Some(([v], next[1..]))
      else if At(next, ',') then
        match ParseItems(next[1..])
        case None => None
        case Some((vs, rest')) => Some(([v] + vs, rest'))
      else None
  }

  function ParseMember(text: string): (r: Option<(Member, string)>)
    ensures r.Some? ==> |r.value.1| < |text| && WellFormed(r.value.0.value)
    decreases |text|, 2
  {
    var s := SkipSpace(text);
    if !At(s, '\"') then None
    else match ParseString(s[1..])
      case None => None
      case Some((k, rest)) =>
        var next := SkipSpace(rest);
        if !At(next, ':') then None
        else match ParseValue(next[1..])
          case None => None
          case Some((v, rest')) => Some((Member(k, v), rest'))
  }

  /** The members of a non-empty object, up to and including the closing brace. */
  function ParseMembers(text: string): (r: Option<(seq<Member>, string)>)
    ensures r.Some? ==> |r.value.1| < |text| && forall i :: 0 <= i < |r.value.0| ==> WellFormed(r.value.0[i].value)
    decreases |text|, 3
  {
    match ParseMember(text)
    case None => None
    case Some((m, rest)) =>
      var next := SkipSpace(rest);
      if At(next, '}') then Some(([m], next[1..]))
      else if At(next, ',') then
        match ParseMembers(next[1..])
        case None => None
        case Some((ms, rest')) => Some(([m] + ms, rest'))
      else None
  }
}
