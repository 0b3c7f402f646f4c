/** Storing an entry and reading it back: payloads as JSON text, timestamps at the precision of the
    store. The recomputed hash is the one computed at write time exactly when the store gives
    the payload's value back. */
module Storage {
  import opened Text
  import opened Json
  import opened Canonical
  import opened Calendar
  import opened Chain
  import opened Hash
  import opened Grammar
  import opened Spellings
  import Decoding
  import JsonRoundTrip

  /** marshalPayload: nil is stored as no bytes. */
  function MarshalPayload(p: Payload): Option<string> {
    match p
    case Nil => Some("")
    case Tree(raw) => Some(Print(raw))
    case Bad => None
  }

  /** The value in stored text (nil for no text), or none if it is not JSON; like
      json.Decoder.Decode, text after the first value is ignored. */
  function DecodeValue(text: string): Option<Value> {
    if text == "" then Some(Null)
    else
      match ParseValue(text)
      case None => None
      case Some((r, _)) => Some(Normalise(r))
  }

  /** A decoded value as a payload: nil for null, otherwise what json.Marshal writes for it. */
  ghost function AsPayload(v: Value): Payload
    requires ValidNumbers(v)
  {
    CanonWellFormed(v);
    if v == Null then Nil else Tree(Canon(v))
  }

  /** DecodeStoredPayload; undecodable bytes are an error. */
  ghost function DecodeStoredPayload(text: string): Payload {
    if text == "" then Nil
    else
      match ParseValue(text)
      case None => Bad
      case Some((r, _)) =>
        NormaliseValid(r);
        AsPayload(Normalise(r))
  }

  lemma AsPayloadKeepsValue(v: Value)
    requires ValidNumbers(v)
    ensures PayloadValue(AsPayload(v)) == v
  {
    NormaliseCanon(v);
  }

  lemma DecodedValue(text: string)
    ensures DecodeStoredPayload(text).Bad? <==> DecodeValue(text).None?
    ensures DecodeStoredPayload(text).Nil? <==> DecodeValue(text) == Some(Null)
    ensures DecodeValue(text).Some? ==> PayloadValue(DecodeStoredPayload(text)) == DecodeValue(text).value
  {
    if text != "" {
      match ParseValue(text)
      case None =>
      case Some((r, _)) =>
        NormaliseValid(r);
        AsPayloadKeepsValue(Normalise(r));
    }
  }

  /** How a store represents text: the identity for Mongo's byte field, JSONB's own rendering for
      Postgres. */
  type Rendering = string -> string

  /** What comes back for a payload; no bytes are stored as an absent field. Record stores nothing
      that it cannot marshal; a row with undecodable bytes put there otherwise stays undecodable. */
  ghost function ReadBack(render: Rendering, p: Payload): Payload {
    match MarshalPayload(p)
    case None => Bad
    case Some(text) => DecodeStoredPayload(if text == "" then "" else render(text))
  }

  /** The store gives back the value of this payload, with its number text. */
  predicate Preserved(render: Rendering, p: Payload) {
    p.Tree? ==> DecodeValue(render(Print(p.raw))) == Some(Normalise(p.raw))
  }

  lemma PrintedIsNotEmpty(r: Raw)
    requires WellFormed(r)
    ensures Print(r) != "" && DecodeValue(Print(r)) == Some(Normalise(r))
  {
    JsonRoundTrip.RoundTrip(r, []);
    assert Print(r) + [] == Print(r);
  }

  /** Only nil is stored as no bytes. */
  lemma ReadBackDecodes(render: Rendering, p: Payload)
    ensures ReadBack(render, p) == if p.Tree? then DecodeStoredPayload(render(Print(p.raw))) else p
  {
    if p.Tree? {
      PrintedIsNotEmpty(p.raw);
    }
  }

  // ---------------------------------------------------------------- which texts are read back

  /** The text spells a document with the value `v`: some space, a JSON text with any spacing, escapes
      and member order, and a rest that does not continue it. */
  ghost predicate SpellsValue(text: string, v: Value) {
    exists ws: string, c: Cst, rest: string :: SpelledAs(text, v, ws, c, rest)
  }

  ghost predicate SpelledAs(text: string, v: Value, ws: string, c: Cst, rest: string) {
    text == ws + Show(c) + rest && Blank(ws) && Legal(c) && StopsAt(c, rest) && Normalise(Meaning(c)) == v
  }

  /** Stored text decodes to a value exactly when it spells one, by the grammar alone. */
  lemma DecodesWhatIsSpelled(text: string, v: Value)
    requires text != ""
    ensures DecodeValue(text) == Some(v) <==> SpellsValue(text, v)
  {
    hide ParseValue, Legal, Show, Meaning, Normalise, Blank, StopsAt;
    if DecodeValue(text) == Some(v) {
      var ws, c := Spelling(text);
      assert SpelledAs(text, v, ws, c, ParseValue(text).value.1);
    }
    if SpellsValue(text, v) {
      var ws, c, rest :| SpelledAs(text, v, ws, c, rest);
      Spelled(c, rest);
      ParseSkips(ws, Show(c) + rest);
      assert ws + Show(c) + rest == ws + (Show(c) + rest);
    }
  }

  /** A store preserves a payload exactly when what it makes of the printed text still spells the
      payload's value (an empty field stands for null). */
  lemma PreservedExactly(render: Rendering, p: Payload)
    requires p.Tree?
    ensures Preserved(render, p) <==>
            if render(Print(p.raw)) == "" then Normalise(p.raw) == Null else SpellsValue(render(Print(p.raw)), Normalise(p.raw))
  {
    hide SpellsValue, ParseValue;
    if render(Print(p.raw)) != "" {
      DecodesWhatIsSpelled(render(Print(p.raw)), Normalise(p.raw));
    }
  }

  /** So spacing is immaterial: a store that puts any space after commas and colons, as JSONB does,
      preserves every payload. */
  lemma SpacingIsPreserved(render: Rendering, gap: string, p: Payload)
    requires Blank(gap)
    requires forall r: Document :: render(Print(r)) == Show(JsonRoundTrip.Laid(r, gap))
    ensures Preserved(render, p)
  {
    hide Legal, Show, Meaning, Normalise, Blank, StopsAt, DecodeValue, SpellsValue;
    if p.Tree? {
      var c := JsonRoundTrip.Laid(p.raw, gap);
      JsonRoundTrip.LaidIsSpelling(p.raw, gap);
      SpelledAlone(c, Normalise(p.raw));
      DecodesWhatIsSpelled(Show(c), Normalise(p.raw));
    }
  }

  lemma SpelledAlone(c: Cst, v: Value)
    requires Legal(c) && Normalise(Meaning(c)) == v
    ensures Show(c) != "" && SpellsValue(Show(c), v)
  {
    hide Legal, Show, Meaning, Normalise;
    TextHead(c);
    ItemStops(c, "");
    assert "" + Show(c) + "" == Show(c);
    assert SpelledAs(Show(c), v, "", c, "");
  }

  /** A store that keeps the bytes preserves every payload. */
  lemma BytesArePreserved(p: Payload)
    ensures Preserved(text => text, p)
  {
    if p.Tree? {
      PrintedIsNotEmpty(p.raw);
    }
  }

  /** The canonical text of what comes back is the original one exactly when the value is preserved. */
  lemma ReadBackCanonical(render: Rendering, p: Payload)
    ensures CanonicalJson(ReadBack(render, p)) == CanonicalJson(p) <==> Preserved(render, p)
  {
    hide CanonicalJson, Normalise, ParseValue, DecodeValue, DecodeStoredPayload, ReadBack;
    ReadBackDecodes(render, p);
    if p.Tree? {
      var text := render(Print(p.raw));
      DecodedValue(text);
      var q := ReadBack(render, p);
      if q.Bad? {
        BadHasNoText();
        CanonicalJsonValue(p);
      } else {
        CanonicalJsonInjective(p, q);
      }
    }
  }

  lemma PreservedValue(render: Rendering, p: Payload)
    requires Preserved(render, p)
    ensures ReadBack(render, p).Bad? <==> p.Bad?
    ensures PayloadValue(ReadBack(render, p)) == PayloadValue(p)
  {
    hide DecodeStoredPayload, DecodeValue, Normalise, ReadBack;
    ReadBackDecodes(render, p);
    if p.Tree? {
      DecodedValue(render(Print(p.raw)));
    }
  }

  lemma BadHasNoText()
    ensures CanonicalJson(Bad) == None
  {
  }

  // ---------------------------------------------------------------- whole entries

  /** An entry as a durable backend reads it back, with timestamps kept to `unit` nanoseconds. */
  ghost function Stored(render: Rendering, unit: Unit, e: Event): Event {
    e.(payload := ReadBack(render, e.payload), timestamp := Floor(e.timestamp, unit))
  }

  /** What a store keeps of an entry: everything but the payload's text and, of the timestamp, the whole
      units. */
  lemma StoredTime(render: Rendering, unit: Unit, e: Event)
    ensures var f := Stored(render, unit, e);
            && f == e.(payload := f.payload, timestamp := f.timestamp)
            && f.timestamp % unit == 0 && f.timestamp <= e.timestamp < f.timestamp + unit
  {
    hide ReadBack;
    Quotient(unit * (e.timestamp / unit), unit, e.timestamp / unit, 0);
  }

  lemma SamePartsSameHead(e: Event, f: Event)
    requires f == e.(payload := f.payload, timestamp := f.timestamp)
    requires Timestamp(f.timestamp) == Timestamp(e.timestamp)
    ensures CanonicalJson(f.payload) == CanonicalJson(e.payload) ==> HeadOf(f) == HeadOf(e)
    ensures HeadOf(f) == HeadOf(e) ==> CanonicalJson(f.payload) == CanonicalJson(e.payload)
  {
    hide CanonicalJson, Timestamp;
    var a, b := CanonicalJson(e.payload), CanonicalJson(f.payload);
    if a.Some? && b.Some? && HeadOf(f) == HeadOf(e) {
      CancelHead(e, a.value, f, b.value);
    }
  }

  lemma CancelHead(e: Event, a: string, f: Event, b: string)
    requires f == e.(payload := f.payload, timestamp := f.timestamp)
    requires Timestamp(f.timestamp) == Timestamp(e.timestamp)
    requires Head(e, a) == Head(f, b)
    ensures a == b
  {
    hide Timestamp, Decimal;
    var p := e.chainID + Decimal(e.id) + e.actorID + e.entityType + e.entityID + e.action;
    CancelSuffix(p + a, p + b, Timestamp(e.timestamp));
    CancelPrefix(p, a, b);
  }

  /** Store and read-back: at any precision that divides the millisecond, the text that Verify hashes is
      the one that Record hashed exactly when the store preserves the payload's value. */
  lemma ReadBackKeepsHash(render: Rendering, unit: Unit, e: Event)
    requires MILLI % unit == 0
    ensures View(Stored(render, unit, e)) == View(e) <==> Preserved(render, e.payload)
  {
    hide HeadOf, CanonicalJson, ReadBack, Preserved, Timestamp;
    FloorKeepsMillis(e.timestamp, unit);
    SamePartsSameHead(e, Stored(render, unit, e));
    ReadBackCanonical(render, e.payload);
  }

  /** A number comes back with its hash intact exactly when the store keeps its spelling. */
  lemma NumberTextMatters(render: Rendering, unit: Unit, e: Event, t: string)
    requires MILLI % unit == 0
    requires ValidNumber(t) && e.payload == Tree(RNum(t)) && ValidNumber(render(t))
    ensures View(Stored(render, unit, e)) == View(e) <==> render(t) == t
  {
    hide View, Stored, ParseValue, ValidNumber;
    var u := render(t);
    NumberDecodes(u);
    assert Print(RNum(t)) == t;
    ReadBackKeepsHash(render, unit, e);
  }

  lemma NumberDecodes(t: string)
    requires ValidNumber(t)
    ensures DecodeValue(t) == Some(Num(t))
  {
    hide ParseValue;
    Decoding.NumberRoundTrip(t, []);
    assert t + [] == t;
  }

  /** The text with the exponent is in the grammar. */
  lemma ExponentIsANumber()
    ensures ValidNumber("1e+2")
  {
    assert "1e+2"[1..] == "e+2" && "e+2"[1..] == "+2" && "+2"[1..] == "2" && "2"[1..] == [];
  }

  /** A store that writes `1e+2` as `100` breaks every chain that holds it, and a payload can hold it. */
  lemma RespelledNumberIsLost(render: Rendering, unit: Unit, e: Event)
    requires MILLI % unit == 0
    requires e.payload.Tree? && e.payload.raw == RNum("1e+2") && render("1e+2") == "100"
    ensures ValidNumber("1e+2") && View(Stored(render, unit, e)) != View(e)
  {
    hide View, Stored;
    ExponentIsANumber();
    DigitsAreInteger("00");
    assert "100"[1..] == "00";
    assert ValidNumber("100");
    NumberTextMatters(render, unit, e, "1e+2");
  }

  lemma {:induction false} DigitsAreInteger(t: string)
    requires forall i :: 0 <= i < |t| ==> IsDigit(t[i])
    ensures NumberFrom(NInt, t)
  {
    if t != [] {
      DigitsAreInteger(t[1..]);
    }
  }

  // ---------------------------------------------------------------- whole lists

  ghost function StoredAll(render: Rendering, unit: Unit, es: seq<Event>): (fs: seq<Event>)
    ensures |fs| == |es| && forall i :: 0 <= i < |es| ==> fs[i] == Stored(render, unit, es[i])
  {
    seq(|es|, i requires 0 <= i < |es| => Stored(render, unit, es[i]))
  }

  /** Verify gives the same verdict on what a durable store reads back as on the entries as they
      were written, valid or tampered with, as long as the store preserves their payloads. */
  lemma ReadBackKeepsVerdict(sha: Digest, render: Rendering, unit: Unit, es: seq<Event>)
    requires MILLI % unit == 0
    requires forall i :: 0 <= i < |es| ==> Preserved(render, es[i].payload)
    ensures Views(StoredAll(render, unit, es)) == Views(es)
    ensures Check(sha, GENESIS, Views(StoredAll(render, unit, es))) == Check(sha, GENESIS, Views(es))
  {
    hide View, Stored;
    var fs := StoredAll(render, unit, es);
    forall i | 0 <= i < |es|
      ensures View(fs[i]) == View(es[i])
    {
      ReadBackKeepsHash(render, unit, es[i]);
    }
  }
}
