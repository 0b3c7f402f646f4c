/** Entries of the log and the text their hash covers (hash.go, audit.go). */
module Hash {
  import opened Text
  import opened Chain
  import opened Json
  import opened Canonical
  import opened Calendar
  import JsonRoundTrip

  /** A Go value offered as payload: nil, a value json.Marshal writes as `raw`, or one that
      json.Marshal (or, for stored bytes, the decoder) rejects. */
  datatype Payload = Nil | Tree(raw: Document) | Bad

  /** AuditEvent. */
  datatype Event = Event(
    chainID: string, id: nat,
    actorID: string, entityType: string, entityID: string, action: string,
    payload: Payload, timestamp: int,
    hash: string, prevHash: string)

  /** AuditEvent.Validate. */
  predicate Validate(e: Event) {
    e.chainID != "" && e.actorID != "" && e.entityType != "" && e.entityID != "" && e.action != "" && !e.payload.Bad?
  }

  /** canonicalJSON: marshal, decode with exact numbers, write canonically. */
  ghost function CanonicalJson(p: Payload): Option<string> {
    match p
    case Nil => Some("null")
    case Bad => None
    case Tree(raw) =>
      match ParseValue(Print(raw))
      case None => None
      case Some((r, _)) => Some(Encode(Normalise(r)))
  }

  /** The payload as the canonical encoder sees it. */
  function PayloadValue(p: Payload): Value {
    if p.Tree? then Normalise(p.raw) else Null
  }

  /** For everything json.Marshal can write, the detour through text changes nothing. */
  lemma CanonicalJsonValue(p: Payload)
    requires !p.Bad?
    ensures CanonicalJson(p) == Some(Encode(PayloadValue(p)))
  {
    if p.Tree? {
      JsonRoundTrip.RoundTrip(p.raw, []);
      assert Print(p.raw) + [] == Print(p.raw);
    }
  }

  lemma {:induction false} NormaliseValid(r: Raw)
    requires WellFormed(r)
    ensures ValidNumbers(Normalise(r))
  {
    match r
    case RArr(items) =>
      forall i | 0 <= i < |items|
        ensures ValidNumbers(NormaliseItems(items)[i])
      {
        NormaliseItemsAt(items, i);
        NormaliseValid(items[i]);
      }
    case RObj(ms) => NormaliseMembersValid(ms);
    case _ =>
  }

  lemma {:induction false} NormaliseMembersValid(ms: seq<Member>)
    requires forall i :: 0 <= i < |ms| ==> WellFormed(ms[i].value)
    ensures forall k :: k in NormaliseMembers(ms) ==> ValidNumbers(NormaliseMembers(ms)[k])
  {
    if ms != [] {
      NormaliseMembersValid(ms[..|ms| - 1]);
      NormaliseValid(ms[|ms| - 1].value);
    }
  }

  /** Two payloads have the same canonical text exactly when they normalise to the same value. */
  lemma CanonicalJsonInjective(p: Payload, q: Payload)
    requires !p.Bad? && !q.Bad?
    ensures CanonicalJson(p) == CanonicalJson(q) <==> PayloadValue(p) == PayloadValue(q)
  {
    CanonicalJsonValue(p);
    CanonicalJsonValue(q);
    if p.Tree? {
      NormaliseValid(p.raw);
    }
    if q.Tree? {
      NormaliseValid(q.raw);
    }
    EncodeInjective(PayloadValue(p), PayloadValue(q));
  }

  // ---------------------------------------------------------------- the preimage

  /** Everything the hash covers except PrevHash, with no delimiters. */
  ghost function Head(e: Event, canon: string): string {
    e.chainID + Decimal(e.id) + e.actorID + e.entityType + e.entityID + e.action + canon + Timestamp(e.timestamp)
  }

  ghost function HeadOf(e: Event): Option<string> {
    match CanonicalJson(e.payload)
    case None => None
    case Some(canon) => Some(Head(e, canon))
  }

  /** What the check loops read of an entry. */
  ghost function View(e: Event): Row {
    Row(e.id, HeadOf(e), e.hash, e.prevHash)
  }

  ghost function Views(es: seq<Event>): (rows: seq<Row>)
    ensures |rows| == |es|
    ensures forall i :: 0 <= i < |es| ==> rows[i] == View(es[i])
  {
    seq(|es|, i requires 0 <= i < |es| => View(es[i]))
  }

  ghost function PreimageOf(e: Event): Option<string> {
    Preimage(View(e))
  }

  /** ComputeHash: the buffer is filled field by field and hashed; only a payload that cannot be
      encoded makes it fail. */
  method ComputeHash(sha: Digest, e: Event) returns (h: Option<string>)
    ensures h == HashOf(sha, View(e))
    ensures h.None? <==> e.payload.Bad?
  {
    var canon := CanonicalText(e.payload);
    if canon.None? {
      return None;
    }
    var buf := new Buffer();
    WriteHead(buf, e, canon.value);
    buf.Write(e.prevHash);
    h := Some(sha(buf.text));
  }

  /** canonicalJSON over a buffer. */
  method CanonicalText(p: Payload) returns (canon: Option<string>)
    ensures canon == CanonicalJson(p)
    ensures canon.None? <==> p.Bad?
  {
    if p.Bad? {
      return None;
    }
    CanonicalJsonValue(p);
    var buf := new Buffer();
    var v := PayloadValue(p);
    EncodeCanonical(buf, v);
    assert "" + Encode(v) == Encode(v);
    canon := Some(buf.text);
  }

  method WriteHead(buf: Buffer, e: Event, canon: string)
    requires buf.text == ""
    modifies buf
    ensures buf.text == Head(e, canon)
  {
    buf.Write(e.chainID);
    assert buf.text == e.chainID;
    buf.Write(Decimal(e.id));
    buf.Write(e.actorID);
    buf.Write(e.entityType);
    buf.Write(e.entityID);
    buf.Write(e.action);
    buf.Write(canon);
    buf.Write(Timestamp(e.timestamp));
  }

  // ---------------------------------------------------------------- what a preimage determines

  /** For entries of one chain position whose four free-text fields have equal lengths and whose
      years have four digits, the preimage determines every field it covers. */
  lemma PreimageDecodable(e: Event, f: Event)
    requires e.chainID == f.chainID && e.id == f.id
    requires |e.actorID| == |f.actorID| && |e.entityType| == |f.entityType|
    requires |e.entityID| == |f.entityID| && |e.action| == |f.action|
    requires |e.prevHash| == 64 && |f.prevHash| == 64
    requires FourDigitYear(e.timestamp) && FourDigitYear(f.timestamp)
    requires PreimageOf(e).Some? && PreimageOf(e) == PreimageOf(f)
    ensures e.actorID == f.actorID && e.entityType == f.entityType
    ensures e.entityID == f.entityID && e.action == f.action
    ensures CanonicalJson(e.payload) == CanonicalJson(f.payload)
    ensures PayloadValue(e.payload) == PayloadValue(f.payload)
    ensures Millis(e.timestamp) == Millis(f.timestamp)
    ensures e.prevHash == f.prevHash
  {
    var c, d := CanonicalJson(e.payload).value, CanonicalJson(f.payload).value;
    SplitByRight(Head(e, c), e.prevHash, Head(f, d), f.prevHash);
    HeadDecodable(e, c, f, d);
    CanonicalJsonInjective(e.payload, f.payload);
  }

  lemma HeadDecodable(e: Event, c: string, f: Event, d: string)
    requires e.chainID == f.chainID && e.id == f.id
    requires |e.actorID| == |f.actorID| && |e.entityType| == |f.entityType|
    requires |e.entityID| == |f.entityID| && |e.action| == |f.action|
    requires FourDigitYear(e.timestamp) && FourDigitYear(f.timestamp)
    requires Head(e, c) == Head(f, d)
    ensures e.actorID == f.actorID && e.entityType == f.entityType
    ensures e.entityID == f.entityID && e.action == f.action
    ensures c == d && Millis(e.timestamp) == Millis(f.timestamp)
  {
    var p := e.chainID + Decimal(e.id);
    var x, y := p + e.actorID + e.entityType + e.entityID + e.action, p + f.actorID + f.entityType + f.entityID + f.action;
    SuffixDecodable(x + c, e.timestamp, y + d, f.timestamp);
    SplitByLeft(x, c, y, d);
    SplitByRight(p + e.actorID + e.entityType + e.entityID, e.action, p + f.actorID + f.entityType + f.entityID, f.action);
    SplitByRight(p + e.actorID + e.entityType, e.entityID, p + f.actorID + f.entityType, f.entityID);
    SplitByRight(p + e.actorID, e.entityType, p + f.actorID, f.entityType);
    SplitByRight(p, e.actorID, p, f.actorID);
  }

  /** The four free-text fields and the canonical payload, as they run together in the preimage. */
  ghost function FreeText(e: Event): Option<string> {
    match CanonicalJson(e.payload)
    case None => None
    case Some(canon) => Some(e.actorID + e.entityType + e.entityID + e.action + canon)
  }

  /** The part of an entry that its hash covers besides its label. */
  ghost predicate SameCovered(e: Event, f: Event) {
    FreeText(e) == FreeText(f) && Millis(e.timestamp) == Millis(f.timestamp) && e.prevHash == f.prevHash
  }

  /** Exactly what the preimage determines at one chain position, for four-digit years: the text the
      free fields and the payload make when run together, the millisecond and PrevHash. The
      boundaries between the fields are not determined. */
  lemma PreimageDetermines(e: Event, f: Event)
    requires e.chainID == f.chainID && e.id == f.id && |e.prevHash| == |f.prevHash|
    requires FourDigitYear(e.timestamp) && FourDigitYear(f.timestamp)
    requires PreimageOf(e).Some? && PreimageOf(f).Some?
    ensures PreimageOf(e) == PreimageOf(f) <==> SameCovered(e, f)
  {
    hide CanonicalJson, Timestamp, Decimal, FourDigitYear, Millis;
    var c, d := CanonicalJson(e.payload).value, CanonicalJson(f.payload).value;
    var tag := e.chainID + Decimal(e.id);
    HeadRegroups(e, c);
    HeadRegroups(f, d);
    if PreimageOf(e) == PreimageOf(f) {
      SplitByRight(Head(e, c), e.prevHash, Head(f, d), f.prevHash);
      SuffixDecodable(tag + FreeText(e).value, e.timestamp, tag + FreeText(f).value, f.timestamp);
      CancelPrefix(tag, FreeText(e).value, FreeText(f).value);
    }
    if SameCovered(e, f) {
      SameMillisSameText(e.timestamp, f.timestamp);
    }
  }

  lemma HeadRegroups(e: Event, canon: string)
    ensures Head(e, canon) == (e.chainID + Decimal(e.id)) + (e.actorID + e.entityType + e.entityID + e.action + canon) + Timestamp(e.timestamp)
  {
    hide Timestamp, Decimal;
    var l, a, b, c, d := e.chainID + Decimal(e.id), e.actorID, e.entityType, e.entityID, e.action;
    assert l + a + b + c + d + canon == l + (a + b + c + d + canon);
  }

  lemma SameMillisSameText(t: int, u: int)
    requires Millis(t) == Millis(u)
    ensures Timestamp(t) == Timestamp(u)
  {
  }

  /** What follows the chain and position labels in the preimage. */
  ghost function Covered(e: Event, canon: string): string {
    e.actorID + e.entityType + e.entityID + e.action + canon + Timestamp(e.timestamp) + e.prevHash
  }

  lemma HeadSplits(e: Event, canon: string)
    ensures Head(e, canon) + e.prevHash == (e.chainID + Decimal(e.id)) + Covered(e, canon)
  {
    Regroup(e.chainID + Decimal(e.id), e.actorID, e.entityType, e.entityID, e.action, canon, Timestamp(e.timestamp), e.prevHash);
  }

  lemma Regroup(l: string, a: string, b: string, c: string, d: string, x: string, t: string, p: string)
    ensures l + a + b + c + d + x + t + p == l + (a + b + c + d + x + t + p)
  {
    assert l + a + b + c + d == l + (a + b + c + d);
    assert l + a + b + c + d + x + t == l + (a + b + c + d + x + t);
  }

  /** Re-labelling an entry with another chain and position keeps its preimage exactly when the
      two run-together labels spell the same text. */
  lemma RelabelKeepsPreimage(e: Event, chainID: string, id: nat)
    requires PreimageOf(e).Some?
    ensures PreimageOf(e.(chainID := chainID, id := id)) == PreimageOf(e)
            <==> chainID + Decimal(id) == e.chainID + Decimal(e.id)
  {
    var canon := CanonicalJson(e.payload).value;
    var f := e.(chainID := chainID, id := id);
    var rest := Covered(e, canon);
    HeadSplits(e, canon);
    HeadSplits(f, canon);
    if PreimageOf(f) == PreimageOf(e) {
      CancelSuffix(chainID + Decimal(id), e.chainID + Decimal(e.id), rest);
    }
  }

  /** Moving an entry to another chain at the same position always changes its preimage. */
  lemma ChainIsCovered(e: Event, chainID: string)
    requires PreimageOf(e).Some? && chainID != e.chainID
    ensures PreimageOf(e.(chainID := chainID)).Some?
    ensures PreimageOf(e.(chainID := chainID)) != PreimageOf(e)
  {
    RelabelKeepsPreimage(e, chainID, e.id);
    if chainID + Decimal(e.id) == e.chainID + Decimal(e.id) {
      CancelSuffix(chainID, e.chainID, Decimal(e.id));
    }
  }

  /** ... and so does changing only its position. */
  lemma PositionIsCovered(e: Event, id: nat)
    requires PreimageOf(e).Some? && id != e.id
    ensures PreimageOf(e.(id := id)).Some?
    ensures PreimageOf(e.(id := id)) != PreimageOf(e)
  {
    hide Decimal;
    RelabelKeepsPreimage(e, e.chainID, id);
    if e.chainID + Decimal(id) == e.chainID + Decimal(e.id) {
      CancelPrefix(e.chainID, Decimal(id), Decimal(e.id));
      DecimalValue(id);
      DecimalValue(e.id);
    }
  }

  /** At a different position and chain it need not: chain "acme1" at 1 and chain "acme" at 11 share a label. */
  lemma LabelsCanCoincide(e: Event)
    requires PreimageOf(e).Some? && e.chainID == "acme1" && e.id == 1
    ensures PreimageOf(e.(chainID := "acme", id := 11)) == PreimageOf(e)
  {
    hide PreimageOf, Decimal;
    SharedLabel();
    RelabelKeepsPreimage(e, "acme", 11);
  }

  lemma SharedLabel()
    ensures "acme" + Decimal(11) == "acme1" + Decimal(1)
  {
    assert Decimal(11) == Decimal(1) + ['1'] == "11";
  }
}
