/** A durable table of entries keyed by (chain, position), as schema.sql's primary key and the
    Mongo compound unique index declare it, and the chains it holds. */
module Table {
  import opened Text
  import opened Chain
  import opened Hash
  import opened Verify
  import opened Log

  type Key = (string, nat)
  type Rows = map<Key, Event>

  function KeyOf(e: Event): Key {
    (e.chainID, e.id)
  }

  /** The PrevHash that position `id` of chain `c` must carry, given the rows before it. */
  ghost predicate Follows(t: Rows, c: string, id: nat, prev: string) {
    && id >= 1
    && (id == 1 ==> prev == GENESIS)
    && (id > 1 ==> (c, id - 1) in t && prev == t[(c, id - 1)].hash)
  }

  /** A row that may stand in the table: it names its own key, links to its predecessor and
      carries the hash of its own fields. */
  ghost predicate GoodRow(sha: Digest, t: Rows, e: Event) {
    Follows(t, e.chainID, e.id, e.prevHash) && HashOk(sha, View(e))
  }

  ghost predicate GoodAt(sha: Digest, t: Rows, k: Key) {
    k in t ==> KeyOf(t[k]) == k && GoodRow(sha, t, t[k])
  }

  ghost predicate GoodTable(sha: Digest, t: Rows) {
    forall k :: GoodAt(sha, t, k)
  }

  /** The rows of a chain from position `k` on, up to the first missing position. */
  function WalkFrom(t: Rows, c: string, k: nat): (es: seq<Event>)
    decreases |t|
  {
    if (c, k) in t then [t[(c, k)]] + WalkFrom(t - {(c, k)}, c, k + 1) else []
  }

  /** The chain `c` as the table holds it. */
  function ChainIn(t: Rows, c: string): seq<Event> {
    WalkFrom(t, c, 1)
  }

  lemma {:induction false} WalkContents(t: Rows, c: string, k: nat, i: nat)
    ensures i < |WalkFrom(t, c, k)| ==> (c, k + i) in t && WalkFrom(t, c, k)[i] == t[(c, k + i)]
    ensures i == |WalkFrom(t, c, k)| ==> (c, k + i) !in t
    decreases |t|
  {
    if (c, k) in t {
      if i > 0 {
        WalkContents(t - {(c, k)}, c, k + 1, i - 1);
      }
    }
  }

  /** Without gaps, the walk reaches every row of the chain. */
  lemma {:induction false} WalkReaches(sha: Digest, t: Rows, c: string, id: nat)
    requires GoodTable(sha, t) && (c, id) in t
    ensures 1 <= id <= |ChainIn(t, c)|
    decreases id
  {
    hide View, WalkFrom;
    assert GoodAt(sha, t, (c, id));
    if id > 1 {
      WalkReaches(sha, t, c, id - 1);
      WalkContents(t, c, 1, id - 1);
    } else {
      WalkContents(t, c, 1, 0);
    }
  }

  /** In a good table the committed positions of each chain are exactly 1..n. */
  lemma NoGaps(sha: Digest, t: Rows, c: string, id: nat)
    requires GoodTable(sha, t)
    ensures (c, id) in t <==> 1 <= id <= |ChainIn(t, c)|
    ensures (c, id) in t ==> t[(c, id)] == ChainIn(t, c)[id - 1]
  {
    hide GoodTable, WalkFrom;
    if 1 <= id <= |ChainIn(t, c)| {
      WalkContents(t, c, 1, id - 1);
    }
    if (c, id) in t {
      WalkReaches(sha, t, c, id);
    }
  }

  /** ... and each chain is honest. */
  lemma TableIsHonest(sha: Digest, t: Rows, c: string)
    requires GoodTable(sha, t)
    ensures Honest(sha, c, ChainIn(t, c))
  {
    hide View, WalkFrom;
    var es := ChainIn(t, c);
    forall i | 0 <= i < |es|
      ensures es[i].chainID == c && es[i].id == i + 1
      ensures RowOk(sha, GENESIS, Views(es), i)
    {
      RowIsHonest(sha, t, c, i);
    }
  }

  lemma RowIsHonest(sha: Digest, t: Rows, c: string, i: nat)
    requires GoodTable(sha, t) && i < |ChainIn(t, c)|
    ensures ChainIn(t, c)[i].chainID == c && ChainIn(t, c)[i].id == i + 1
    ensures RowOk(sha, GENESIS, Views(ChainIn(t, c)), i)
  {
    hide HeadOf, WalkFrom;
    var es := ChainIn(t, c);
    NoGaps(sha, t, c, i + 1);
    assert GoodAt(sha, t, (c, i + 1));
    if i > 0 {
      NoGaps(sha, t, c, i);
    }
  }

  /** Adding a good row at a fresh key keeps the table good. */
  lemma InsertKeepsGood(sha: Digest, t: Rows, e: Event)
    requires GoodTable(sha, t) && GoodRow(sha, t, e) && KeyOf(e) !in t
    ensures GoodTable(sha, t[KeyOf(e) := e])
  {
    hide View;
    var u := t[KeyOf(e) := e];
    forall k
      ensures GoodAt(sha, u, k)
    {
      assert GoodAt(sha, t, k);
    }
  }

  /** ... and appends it to its own chain, leaving the others alone. */
  lemma InsertAppends(sha: Digest, t: Rows, e: Event, c: string)
    requires GoodTable(sha, t) && GoodRow(sha, t, e) && KeyOf(e) !in t
    ensures ChainIn(t[KeyOf(e) := e], c) == if c == e.chainID then ChainIn(t, c) + [e] else ChainIn(t, c)
    ensures e.id == |ChainIn(t, e.chainID)| + 1
    ensures e.prevHash == (if ChainIn(t, e.chainID) == [] then GENESIS else ChainIn(t, e.chainID)[e.id - 2].hash)
  {
    hide View, WalkFrom, GoodTable;
    var u := t[KeyOf(e) := e];
    InsertKeepsGood(sha, t, e);
    NextIsFresh(sha, t, e);
    var es, fs := ChainIn(t, c), ChainIn(u, c);
    LengthAfterInsert(sha, t, e, c);
    forall i | 0 <= i < |fs|
      ensures fs[i] == (if c == e.chainID then es + [e] else es)[i]
    {
      NoGaps(sha, u, c, i + 1);
      NoGaps(sha, t, c, i + 1);
    }
  }

  lemma NextIsFresh(sha: Digest, t: Rows, e: Event)
    requires GoodTable(sha, t) && GoodRow(sha, t, e) && KeyOf(e) !in t
    ensures e.id == |ChainIn(t, e.chainID)| + 1
    ensures e.prevHash == (if ChainIn(t, e.chainID) == [] then GENESIS else ChainIn(t, e.chainID)[e.id - 2].hash)
  {
    hide View, WalkFrom, GoodTable;
    NoGaps(sha, t, e.chainID, e.id);
    if e.id > 1 {
      NoGaps(sha, t, e.chainID, e.id - 1);
    }
  }

  lemma LengthAfterInsert(sha: Digest, t: Rows, e: Event, c: string)
    requires GoodTable(sha, t) && GoodRow(sha, t, e) && KeyOf(e) !in t
    requires GoodTable(sha, t[KeyOf(e) := e])
    ensures |ChainIn(t[KeyOf(e) := e], c)| == |ChainIn(t, c)| + (if c == e.chainID then 1 else 0)
  {
    hide View, WalkFrom, GoodTable;
    var u := t[KeyOf(e) := e];
    NextIsFresh(sha, t, e);
    var n := |ChainIn(t, c)| + (if c == e.chainID then 1 else 0);
    NoGaps(sha, u, c, n);
    NoGaps(sha, u, c, n + 1);
    NoGaps(sha, t, c, n);
    NoGaps(sha, t, c, n + 1);
  }

  /** The tail row: GetLastEntry's ORDER BY entry_id DESC LIMIT 1 over one chain. */
  ghost predicate IsLast(t: Rows, c: string, last: Option<Event>) {
    match last
    case None => forall k :: k in t ==> k.0 != c
    case Some(e) => e.chainID == c && KeyOf(e) in t && t[KeyOf(e)] == e && forall k :: k in t && k.0 == c ==> k.1 <= e.id
  }

  lemma LastIsEnd(sha: Digest, t: Rows, c: string, last: Option<Event>)
    requires GoodTable(sha, t) && IsLast(t, c, last)
    ensures var es := ChainIn(t, c);
            last == if es == [] then None else Some(es[|es| - 1])
  {
    hide View, WalkFrom, GoodTable;
    var es := ChainIn(t, c);
    NoGaps(sha, t, c, 1);
    NoGaps(sha, t, c, |es|);
    if last.Some? {
      NoGaps(sha, t, c, last.value.id);
    }
  }

  lemma LastExists(sha: Digest, t: Rows, c: string) returns (last: Option<Event>)
    requires GoodTable(sha, t)
    ensures IsLast(t, c, last)
  {
    hide View, WalkFrom;
    var es := ChainIn(t, c);
    if es == [] {
      last := None;
      forall k | k in t
        ensures k.0 != c
      {
        NoGaps(sha, t, k.0, k.1);
      }
    } else {
      last := Some(es[|es| - 1]);
      NoGaps(sha, t, c, |es|);
      assert GoodAt(sha, t, (c, |es|));
      forall k | k in t && k.0 == c
        ensures k.1 <= |es|
      {
        NoGaps(sha, t, c, k.1);
        assert k == (c, k.1);
      }
    }
  }

  /** A good row at a fresh key is what Record stamps onto the chain it extends. */
  lemma FreshRowIsStamped(sha: Digest, t: Rows, draft: Event, e: Event)
    requires GoodTable(sha, t) && GoodRow(sha, t, e) && KeyOf(e) !in t
    requires RowFrom(draft, e)
    ensures e == Stamp(sha, ChainIn(t, e.chainID), draft)
  {
    hide HeadOf, WalkFrom, GoodTable;
    NextIsFresh(sha, t, e);
    var linked := draft.(id := e.id, prevHash := e.prevHash);
    HeadIgnoresHashes(linked, e.hash, e.prevHash);
  }

  // ---------------------------------------------------------------- rows made from drafts

  /** The row is the draft with position and hashes filled in. */
  predicate RowFrom(draft: Event, row: Event) {
    row == draft.(id := row.id, hash := row.hash, prevHash := row.prevHash)
  }

  lemma LinkedRowIsGood(sha: Digest, t: Rows, draft: Event, prevHash: string, nextID: nat)
    requires !draft.payload.Bad? && Follows(t, draft.chainID, nextID, prevHash)
    ensures var e := Linked(sha, draft, prevHash, nextID);
            RowFrom(draft, e) && GoodRow(sha, t, e) && KeyOf(e) == (draft.chainID, nextID)
  {
    hide HeadOf;
    var linked := draft.(id := nextID, prevHash := prevHash);
    EncodableHasHead(linked);
    HeadIgnoresHashes(linked, Linked(sha, draft, prevHash, nextID).hash, prevHash);
  }

  /** At a free position that follows the rows before it, that is the entry Record stamps. */
  lemma LinkedRowIsStamped(sha: Digest, t: Rows, draft: Event, prevHash: string, nextID: nat)
    requires GoodTable(sha, t) && !draft.payload.Bad?
    requires Follows(t, draft.chainID, nextID, prevHash) && (draft.chainID, nextID) !in t
    ensures Linked(sha, draft, prevHash, nextID) == Stamp(sha, ChainIn(t, draft.chainID), draft)
    ensures KeyOf(Linked(sha, draft, prevHash, nextID)) == (draft.chainID, nextID)
  {
    hide Stamp, ChainIn, Linked, GoodTable, Follows;
    LinkedRowIsGood(sha, t, draft, prevHash, nextID);
    FreshRowIsStamped(sha, t, draft, Linked(sha, draft, prevHash, nextID));
  }

  ghost predicate NoRepeats(es: seq<Event>) {
    forall m, n :: 0 <= m < n < |es| ==> es[m] != es[n]
  }

  /** The abstract log a table stands for. */
  ghost function Abstract(t: Rows): AbstractLog {
    imap c: string | ChainIn(t, c) == ChainIn(t, c) :: ChainIn(t, c)
  }

  lemma AbstractIsTotal(t: Rows)
    ensures Total(Abstract(t))
  {
  }

  lemma EmptyTable()
    ensures Blank(Abstract(map[]))
  {
  }

  /** Committing a good row at a fresh key is one abstract Record. */
  lemma InsertRefines(sha: Digest, t: Rows, draft: Event, e: Event)
    requires GoodTable(sha, t) && GoodRow(sha, t, e) && KeyOf(e) !in t
    requires RowFrom(draft, e)
    ensures Total(Abstract(t)) && Appends(sha, Abstract(t), draft, Abstract(t[KeyOf(e) := e]))
  {
    hide View, WalkFrom, GoodTable, Stamp;
    FreshRowIsStamped(sha, t, draft, e);
    forall c: string
      ensures ChainIn(t[KeyOf(e) := e], c) == if c == e.chainID then ChainIn(t, c) + [e] else ChainIn(t, c)
    {
      InsertAppends(sha, t, e, c);
    }
  }
}
