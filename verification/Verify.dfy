/** The check loop over stored entries, and honest chains. */
module Verify {
  import opened Text
  import opened Chain
  import opened Calendar
  import opened Hash

  /** verifyMemoryChain; postgres.go and mongo.go run the same loop over decoded rows. */
  method VerifyRows(sha: Digest, es: seq<Event>) returns (v: Verdict)
    ensures Reports(sha, GENESIS, Views(es), v)
    ensures v == Check(sha, GENESIS, Views(es))
  {
    hide HeadOf;
    ghost var rows := Views(es);
    var prevHash := "";
    var i := 0;
    while i < |es|
      invariant 0 <= i <= |es|
      invariant i > 0 ==> prevHash == rows[i - 1].hash
      invariant forall j :: 0 <= j < i ==> RowOk(sha, GENESIS, rows, j)
    {
      var e := es[i];
      assert rows[i] == View(e);
      var expectPrev: string := GENESIS;
      if i > 0 {
        expectPrev := prevHash;
      }
      if e.prevHash != expectPrev {
        v := Broken(e.id, expectPrev, e.prevHash);
        Stopped(sha, GENESIS, rows, i, v);
        return;
      }
      var recomputed := ComputeHash(sha, e);
      if recomputed.None? {
        v := Failed;
        Stopped(sha, GENESIS, rows, i, v);
        return;
      }
      if recomputed.value != e.hash {
        v := Broken(e.id, recomputed.value, e.hash);
        Stopped(sha, GENESIS, rows, i, v);
        return;
      }
      prevHash := e.hash;
      i := i + 1;
    }
    v := Valid;
    CheckReports(sha, GENESIS, rows);
    ReportsIsFunctional(sha, GENESIS, rows, v, Check(sha, GENESIS, rows));
  }

  /** A row moved from its chain to another one, position and contents kept, makes every range
      that contains it fail, unless its two texts collide. */
  lemma MovedRowIsSeen(sha: Digest, e: Event, chainID: string, es: seq<Event>, i: nat)
    requires HashOk(sha, View(e)) && chainID != e.chainID
    requires i < |es| && es[i] == e.(chainID := chainID)
    ensures PreimageOf(e).Some? && PreimageOf(es[i]).Some?
    ensures Check(sha, GENESIS, Views(es)) == Valid ==> Collide(sha, PreimageOf(es[i]).value, PreimageOf(e).value)
  {
    ChainIsCovered(e, chainID);
    if Check(sha, GENESIS, Views(es)) == Valid {
      ValidMeansPasses(sha, GENESIS, Views(es));
      assert RowOk(sha, GENESIS, Views(es), i);
    }
  }

  // ---------------------------------------------------------------- honest chains

  /** Entries of one chain at positions 1, 2, ... */
  ghost predicate NumberedChain(chainID: string, es: seq<Event>) {
    forall i :: 0 <= i < |es| ==> es[i].chainID == chainID && es[i].id == i + 1
  }

  /** What Record builds up for one chain: numbered from 1 without gaps, linked, correctly hashed. */
  ghost predicate Honest(sha: Digest, chainID: string, es: seq<Event>) {
    NumberedChain(chainID, es) && Passes(sha, GENESIS, Views(es))
  }

  /** The draft with its timestamp defaulted, as every Record does first. */
  function Timed(draft: Event, now: int): Event {
    if draft.timestamp == ZERO_TIME then draft.(timestamp := now) else draft
  }

  /** Only the timestamp can change, and a given one is kept. */
  lemma TimedIsDraft(draft: Event, now: int)
    ensures var e := Timed(draft, now);
            && e == draft.(timestamp := e.timestamp) && (Validate(e) <==> Validate(draft))
            && (draft.timestamp != ZERO_TIME ==> e == draft)
            && (draft.timestamp == ZERO_TIME ==> e.timestamp == now)
  {
  }

  /** The entry Record writes once it knows the tail: the draft with position, PrevHash and Hash
      filled in. */
  ghost function Linked(sha: Digest, draft: Event, prevHash: string, id: nat): (e: Event) {
    var linked := draft.(id := id, prevHash := prevHash);
    linked.(hash := match HashOf(sha, View(linked)) case Some(h) => h case None => "")
  }

  /** The entry Record appends to a chain. */
  ghost function Stamp(sha: Digest, es: seq<Event>, draft: Event): (e: Event) {
    Linked(sha, draft, if es == [] then GENESIS else es[|es| - 1].hash, |es| + 1)
  }

  lemma ViewsAppend(es: seq<Event>, e: Event)
    ensures Views(es + [e]) == Views(es) + [View(e)]
  {
  }

  lemma HeadIgnoresHashes(e: Event, hash: string, prevHash: string)
    ensures HeadOf(e.(hash := hash, prevHash := prevHash)) == HeadOf(e)
  {
  }

  /** Only an unencodable payload leaves an entry without a hash. */
  lemma EncodableHasHead(e: Event)
    requires !e.payload.Bad?
    ensures HeadOf(e).Some?
  {
    CanonicalJsonValue(e.payload);
  }

  /** Appending a stamped entry keeps a chain honest. */
  lemma StampKeepsHonest(sha: Digest, chainID: string, es: seq<Event>, draft: Event)
    requires Honest(sha, chainID, es)
    requires draft.chainID == chainID && !draft.payload.Bad?
    ensures Honest(sha, chainID, es + [Stamp(sha, es, draft)])
  {
    hide HeadOf;
    var e := Stamp(sha, es, draft);
    var linked := draft.(id := |es| + 1, prevHash := e.prevHash);
    EncodableHasHead(linked);
    HeadIgnoresHashes(linked, e.hash, linked.prevHash);
    ViewsAppend(es, e);
    PassesAppend(sha, GENESIS, Views(es), View(e));
  }

  /** Every honest chain verifies from entry 1 to any entry. */
  lemma HonestVerifies(sha: Digest, chainID: string, es: seq<Event>, to: nat)
    requires Honest(sha, chainID, es)
    ensures Check(sha, GENESIS, Window(Views(es), 1, to)) == Valid
  {
    hide HeadOf;
    GenesisSeededRange(sha, Views(es), 1, to);
  }

  // ---------------------------------------------------------------- edits that keep the stored hashes

  /** An entry of an honest chain rewritten in place, its stored hashes kept: Verify accepts it exactly
      when the rewritten fields still run together to the same text, at the same millisecond, or
      the two hashed texts collide. */
  lemma RewrittenEntryAccepted(sha: Digest, c: string, es: seq<Event>, k: nat, f: Event)
    requires Honest(sha, c, es) && k < |es|
    requires f.chainID == c && f.id == k + 1 && f.hash == es[k].hash && f.prevHash == es[k].prevHash
    requires FourDigitYear(es[k].timestamp) && FourDigitYear(f.timestamp)
    ensures PreimageOf(es[k]).Some?
    ensures Check(sha, GENESIS, Views(es[k := f])) == Valid <==>
            PreimageOf(f).Some? && (SameCovered(es[k], f) || Collide(sha, PreimageOf(es[k]).value, PreimageOf(f).value))
  {
    hide Check, HeadOf, FourDigitYear, SameCovered;
    var e := es[k];
    assert RowOk(sha, GENESIS, Views(es), k);
    assert Views(es[k := f]) == Views(es)[k := View(f)];
    TamperLocalised(sha, Views(es), k, View(f));
    if PreimageOf(f).Some? {
      PreimageDetermines(e, f);
    }
  }

  /** Text moved across a field boundary is such an edit: actor "alice" and type "user" rewritten as
      "aliceu" and "ser" at any entry of any honest chain is not seen. */
  lemma ShiftedFieldsAreNotSeen(sha: Digest, c: string, es: seq<Event>, k: nat)
    requires Honest(sha, c, es) && k < |es| && es[k].actorID == "alice" && es[k].entityType == "user"
    requires FourDigitYear(es[k].timestamp)
    ensures Check(sha, GENESIS, Views(es[k := es[k].(actorID := "aliceu", entityType := "ser")])) == Valid
  {
    hide Check, FourDigitYear, HashOf, CanonicalJson;
    var e, f := es[k], es[k].(actorID := "aliceu", entityType := "ser");
    assert "alice" + "user" == "aliceu" + "ser";
    assert e.actorID + e.entityType == f.actorID + f.entityType;
    assert RowOk(sha, GENESIS, Views(es), k);
    RewrittenEntryAccepted(sha, c, es, k, f);
  }

  // ---------------------------------------------------------------- re-labelled entries

  /** Moving an entry to another chain and position: Verify accepts a list that contains it exactly
      when the rest of the list passes, the entry links to its new predecessor (for the first row
      fetched, the genesis constant), and the two labels spell the same text or the two hashed
      texts collide. */
  lemma RelabelledRowAccepted(sha: Digest, e: Event, chainID: string, id: nat, es: seq<Event>, i: nat)
    requires HashOk(sha, View(e))
    requires i < |es| && es[i] == e.(chainID := chainID, id := id)
    ensures PreimageOf(e).Some? && PreimageOf(es[i]).Some?
    ensures Check(sha, GENESIS, Views(es)) == Valid <==>
            && (forall j :: 0 <= j < |es| && j != i ==> RowOk(sha, GENESIS, Views(es), j))
            && e.prevHash == Expected(GENESIS, Views(es), i)
            && (chainID + Decimal(id) == e.chainID + Decimal(e.id) || Collide(sha, PreimageOf(es[i]).value, PreimageOf(e).value))
  {
    hide Check, CanonicalJson, Head;
    ValidMeansPasses(sha, GENESIS, Views(es));
    RelabelKeepsPreimage(e, chainID, id);
    assert HashOk(sha, View(es[i])) <==> sha(PreimageOf(es[i]).value) == sha(PreimageOf(e).value);
    if Passes(sha, GENESIS, Views(es)) {
      assert RowOk(sha, GENESIS, Views(es), i);
    }
  }

  /** With the genesis-rooted partial ranges this bites: entry 1 of chain "acme1", moved to position
      11 of chain "acme", is accepted by Verify("acme", 11, 11). */
  lemma MovedRowIsAcceptedAlone(sha: Digest, e: Event)
    requires HashOk(sha, View(e)) && e.chainID == "acme1" && e.id == 1 && e.prevHash == GENESIS
    ensures Check(sha, GENESIS, Views([e.(chainID := "acme", id := 11)])) == Valid
  {
    hide Check, HashOf, View;
    var es := [e.(chainID := "acme", id := 11)];
    SharedLabel();
    RelabelledRowAccepted(sha, e, "acme", 11, es, 0);
    assert Views(es)[0] == View(es[0]);
  }

  /** Verified from entry 1, though, the missing delimiter does no harm: an entry of one honest chain
      that stands, re-labelled, at its new position in a chain that passes was not moved at all,
      or the digest is cracked. */
  lemma RelabelledRowWasNotMoved(sha: Digest, c: string, es: seq<Event>, p: nat, d: string, fs: seq<Event>, q: nat)
    requires Honest(sha, c, es) && 1 <= p <= |es|
    requires 1 <= q <= |fs| && fs[q - 1] == es[p - 1].(chainID := d, id := q)
    requires Check(sha, GENESIS, Views(fs)) == Valid
    ensures Cracked(sha, Preimages(Views(es)) + Preimages(Views(fs))) || (d == c && q == p)
  {
    hide Check, View, Cracked, Preimages, Preimage, Passes;
    var a, b := Views(es), Views(fs);
    ValidMeansPasses(sha, GENESIS, b);
    SamePredecessor(sha, es, p, fs, q);
    PassesPrefix(sha, GENESIS, a, p - 1);
    PassesPrefix(sha, GENESIS, b, q - 1);
    Binding(sha, a[..p - 1], b[..q - 1]);
    if Cracked(sha, Preimages(a[..p - 1]) + Preimages(b[..q - 1])) {
      CrackedMonotone(sha, Preimages(a[..p - 1]) + Preimages(b[..q - 1]), Preimages(a) + Preimages(b));
    } else if d != c {
      MovedTextsCollide(sha, es, p, d, fs);
    }
  }

  lemma SamePredecessor(sha: Digest, es: seq<Event>, p: nat, fs: seq<Event>, q: nat)
    requires Passes(sha, GENESIS, Views(es)) && Passes(sha, GENESIS, Views(fs))
    requires 1 <= p <= |es| && 1 <= q <= |fs| && fs[q - 1].prevHash == es[p - 1].prevHash
    ensures EndHash(Views(es)[..p - 1]) == EndHash(Views(fs)[..q - 1])
  {
    hide HeadOf, Passes;
    LinksTo(sha, Views(es), p - 1);
    LinksTo(sha, Views(fs), q - 1);
  }

  lemma MovedTextsCollide(sha: Digest, es: seq<Event>, p: nat, d: string, fs: seq<Event>)
    requires Passes(sha, GENESIS, Views(es)) && Passes(sha, GENESIS, Views(fs))
    requires 1 <= p <= |es| && p <= |fs| && es[p - 1].id == p
    requires fs[p - 1] == es[p - 1].(chainID := d, id := p) && d != es[p - 1].chainID
    ensures Cracked(sha, Preimages(Views(es)) + Preimages(Views(fs)))
  {
    hide HeadOf;
    var e, f := es[p - 1], fs[p - 1];
    PassingRow(sha, GENESIS, Views(es), p - 1);
    PassingRow(sha, GENESIS, Views(fs), p - 1);
    ChainIsCovered(e, d);
    assert Collide(sha, PreimageOf(e).value, PreimageOf(f).value);
  }
}
