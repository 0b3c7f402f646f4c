/** What Verify reports after somebody has edited the stored rows of a chain that was recorded
    honestly: a replaced row, or any set of rows taken out, in a durable table or in memory. */
module Tampering {
  import opened Text
  import opened Chain
  import opened Hash
  import opened Verify
  import opened Log
  import opened Table
  import opened Storage
  import opened Backends
  import Memory
  import Mongo

  // ---------------------------------------------------------------- lists of entries

  /** The verdict on positions 1..to of a chain whose entry `k` was replaced by `r`. */
  ghost function AlteredReport(sha: Digest, es: seq<Event>, k: nat, r: Event, to: nat): Verdict
    requires 1 <= k <= |es|
  {
    if to < k then Verdict.Valid else TamperReport(sha, Window(Views(es), 1, to), k - 1, View(r))
  }

  lemma AlteredChain(sha: Digest, c: string, es: seq<Event>, k: nat, r: Event, to: nat)
    requires Honest(sha, c, es) && 1 <= k <= |es| && r.id == k
    ensures Check(sha, GENESIS, Views(Window(es[k - 1 := r], 1, to))) == AlteredReport(sha, es, k, r, to)
  {
    hide HeadOf, Check, TamperReport;
    var n := if to <= |es| then to else |es|;
    var rows := Views(es)[..n];
    PassesPrefix(sha, GENESIS, Views(es), n);
    var fs := es[k - 1 := r];
    assert Window(fs, 1, to) == fs[..n] && Window(Views(es), 1, to) == rows;
    if to < k {
      assert Views(fs[..n]) == rows;
      ValidMeansPasses(sha, GENESIS, rows);
    } else {
      assert Views(fs[..n]) == rows[k - 1 := View(r)];
      TamperLocalised(sha, rows, k - 1, View(r));
    }
  }

  /** `kept` holds some entries of `es`, in order. */
  ghost predicate KeptFrom(es: seq<Event>, kept: seq<Event>) {
    Ascending(kept) && forall i :: 0 <= i < |kept| ==> 1 <= kept[i].id <= |es| && kept[i] == es[kept[i].id - 1]
  }

  ghost function Places(es: seq<Event>, kept: seq<Event>): (at: seq<nat>)
    requires KeptFrom(es, kept)
    ensures |at| == |kept| && Increasing(at)
    ensures forall i :: 0 <= i < |at| ==> at[i] < |es| && at[i] == kept[i].id - 1 && kept[i] == es[at[i]]
  {
    seq(|kept|, i requires 0 <= i < |kept| => kept[i].id - 1)
  }

  /** What is left passes exactly when it is numbered 1, 2, ..., that is, a prefix. */
  lemma KeptEntries(sha: Digest, c: string, es: seq<Event>, kept: seq<Event>)
    requires Honest(sha, c, es) && KeptFrom(es, kept)
    ensures Cracked(sha, Preimages(Views(es))) ||
            (Check(sha, GENESIS, Views(kept)) == Verdict.Valid <==> forall i :: 0 <= i < |kept| ==> kept[i].id == i + 1)
  {
    hide View, Check, Cracked, Preimages;
    var at := Places(es, kept);
    assert Views(kept) == Pick(Views(es), at);
    Deletion(sha, Views(es), at);
    ValidMeansPasses(sha, GENESIS, Views(kept));
  }

  /** ... and otherwise the first kept entry behind a gap is reported. */
  lemma KeptEntriesReport(sha: Digest, c: string, es: seq<Event>, kept: seq<Event>, i: nat)
    requires Honest(sha, c, es) && KeptFrom(es, kept)
    requires i < |kept| && kept[i].id != i + 1 && forall j :: 0 <= j < i ==> kept[j].id == j + 1
    ensures kept[i].id > i + 1
    ensures Cracked(sha, Preimages(Views(es))) ||
            Check(sha, GENESIS, Views(kept)) == Broken(kept[i].id, EndHash(Views(es)[..i]), es[kept[i].id - 2].hash)
  {
    hide HeadOf, Check, Cracked, Preimages;
    var at := Places(es, kept);
    assert Views(kept) == Pick(Views(es), at);
    GapReported(sha, Views(es), at, i);
  }

  // ---------------------------------------------------------------- durable tables

  /** Putting `r` in the place of row `k` puts it in the place of entry `k`. */
  lemma ReplacedInList(sha: Digest, t: Rows, c: string, k: nat, r: Event)
    requires GoodTable(sha, t) && 1 <= k <= |ChainIn(t, c)| && KeyOf(r) == (c, k)
    ensures var fs := ChainIn(t, c)[k - 1 := r];
            NumberedChain(c, fs) && ListsChain(t[(c, k) := r], c, fs)
  {
    hide View, WalkFrom, GoodTable;
    var es := ChainIn(t, c);
    var fs, u := es[k - 1 := r], t[(c, k) := r];
    ChainAscends(sha, t, c);
    forall e
      ensures e in fs <==> InTable(u, e) && e.chainID == c
    {
      NoGaps(sha, t, c, e.id);
      if e in fs {
        var i :| 0 <= i < |fs| && fs[i] == e;
        assert e.id == i + 1;
      }
      if InTable(u, e) && e.chainID == c {
        assert fs[e.id - 1] == e;
      }
    }
  }

  /** The read-back views of a range, with `r` in the place of entry `k`. */
  lemma ReadBackAltered(st: Store, es: seq<Event>, k: nat, r: Event, hi: nat)
    requires StoreOk(st) && AllPreserved(st.render, es) && 1 <= k <= |es|
    ensures Views(StoredAll(st.render, st.unit, Window(es[k - 1 := r], 1, hi))) ==
            Views(Window(es[k - 1 := Stored(st.render, st.unit, r)], 1, hi))
  {
    hide View, Stored, Preserved;
    var a, b := Window(es[k - 1 := r], 1, hi), Window(es[k - 1 := Stored(st.render, st.unit, r)], 1, hi);
    forall i | 0 <= i < |a|
      ensures View(Stored(st.render, st.unit, a[i])) == View(b[i])
    {
      if i != k - 1 {
        ReadBackKeepsHash(st.render, st.unit, es[i]);
      }
    }
  }

  /** A replaced row, end to end: Verify from the start to any bound reports exactly what the row
      that comes back deserves, at the row, or at its successor when it was re-hashed
      consistently. The new row is arbitrary but for its key; its bytes may be undecodable. */
  lemma ReplacedRowIsReported(sha: Digest, st: Store, t: Rows, c: string, k: nat, r: Event, from: nat, to: nat,
                              latest: Option<nat>, rows: seq<Event>, report: Memory.Report)
    requires StoreOk(st) && GoodTable(sha, t) && AllPreserved(st.render, ChainIn(t, c))
    requires 1 <= k <= |ChainIn(t, c)| < TWO63 && KeyOf(r) == (c, k) && from <= 1 && to < TWO63
    requires IsLatest(t, c, latest) && DurableVerify(sha, st, t[(c, k) := r], c, from, to, latest, rows, report)
    ensures var es := ChainIn(t, c);
            report == Memory.Report(AlteredReport(sha, es, k, Stored(st.render, st.unit, r), if to == 0 then |es| else to), false)
  {
    hide View, WalkFrom, GoodTable, Check, Select, Window, Preserved, IsAnswer, AlteredReport, Honest, ListsChain, IsLatest;
    var es, u := ChainIn(t, c), t[(c, k) := r];
    var fs := es[k - 1 := r];
    ReplacedInList(sha, t, c, k, r);
    NoGaps(sha, t, c, k);
    LatestAgrees(sha, t, c, latest);
    var hi := if to == 0 then |es| else to;
    ParamsAgree(st, c, fs, 1, hi);
    AnswerOfList(u, Range(c, IdParam(st, 1), IdParam(st, hi)), fs, rows);
    ReadBackAltered(st, es, k, r, hi);
    TableIsHonest(sha, t, c);
    AlteredChain(sha, c, es, k, Stored(st.render, st.unit, r), hi);
  }

  /** The latest id is the recorded one for both backends: Mongo's tail document still names it, and
      the table still has the same keys. */
  lemma SameKeysSameLatest(t: Rows, u: Rows, c: string, latest: Option<nat>)
    requires u.Keys == t.Keys
    ensures IsLatest(u, c, latest) <==> IsLatest(t, c, latest)
  {
  }

  /** The rows of the chain up to `hi` have no gap below them. */
  ghost predicate Gapless(u: Rows, c: string, hi: nat) {
    forall id: nat, j: nat :: (c, id) in u && id <= hi && 1 <= j < id ==> (c, j) in u
  }

  /** `u` is `t` without some of its rows. */
  ghost predicate Without(t: Rows, u: Rows) {
    forall k :: k in u ==> k in t && u[k] == t[k]
  }

  /** The row with this id is still there, and in range. */
  ghost predicate Kept(u: Rows, c: string, hi: nat, id: nat) {
    (c, id) in u && id <= hi
  }

  ghost predicate HasId(rows: seq<Event>, id: nat) {
    exists i :: 0 <= i < |rows| && rows[i].id == id
  }

  /** `rows` are the rows that are left in range, by position. */
  ghost predicate Fetched(u: Rows, c: string, hi: nat, rows: seq<Event>) {
    && Ascending(rows)
    && (forall i :: 0 <= i < |rows| ==> rows[i].id >= 1)
    && forall id: nat :: Kept(u, c, hi, id) <==> HasId(rows, id)
  }

  lemma KeptInRange(sha: Digest, t: Rows, u: Rows, c: string, lo: int, hi: nat, rows: seq<Event>)
    requires GoodTable(sha, t) && Without(t, u) && lo == 1
    requires IsAnswer(u, Range(c, lo, hi), rows)
    ensures KeptFrom(ChainIn(t, c), rows) && Fetched(u, c, hi, rows)
  {
    hide View, WalkFrom, GoodTable;
    var es := ChainIn(t, c);
    forall i | 0 <= i < |rows|
      ensures 1 <= rows[i].id <= |es| && rows[i] == es[rows[i].id - 1]
      ensures Kept(u, c, hi, rows[i].id)
    {
      assert rows[i] in rows;
      assert InTable(u, rows[i]) && Matches(Range(c, lo, hi), rows[i]);
      assert KeyOf(rows[i]) == (c, rows[i].id);
      NoGaps(sha, t, c, rows[i].id);
    }
    forall id: nat | Kept(u, c, hi, id)
      ensures HasId(rows, id)
    {
      NoGaps(sha, t, c, id);
      ChainAscends(sha, t, c);
      var e := u[(c, id)];
      assert e == es[id - 1] && InTable(u, e) && Matches(Range(c, lo, hi), e);
      assert e in rows;
    }
  }

  lemma KeptAt(u: Rows, c: string, hi: nat, rows: seq<Event>, i: nat)
    requires Fetched(u, c, hi, rows) && i < |rows|
    ensures Kept(u, c, hi, rows[i].id)
  {
    assert HasId(rows, rows[i].id);
  }

  /** As long as nothing is missing, positions are ids. */
  lemma {:induction false} PositionIsId(u: Rows, c: string, hi: nat, rows: seq<Event>, j: nat)
    requires Fetched(u, c, hi, rows) && j >= 1 && forall id: nat :: 1 <= id <= j ==> Kept(u, c, hi, id)
    ensures j <= |rows| && rows[j - 1].id == j
    decreases j
  {
    hide Kept;
    if j > 1 {
      PositionIsId(u, c, hi, rows, j - 1);
    }
    assert HasId(rows, j);
    var i :| 0 <= i < |rows| && rows[i].id == j;
    assert i >= j - 1;
  }

  lemma GaplessIsNumbered(u: Rows, c: string, hi: nat, rows: seq<Event>)
    requires Fetched(u, c, hi, rows)
    ensures Gapless(u, c, hi) <==> forall i :: 0 <= i < |rows| ==> rows[i].id == i + 1
  {
    if forall i :: 0 <= i < |rows| ==> rows[i].id == i + 1 {
      forall id: nat, j: nat | (c, id) in u && id <= hi && 1 <= j < id
        ensures (c, j) in u
      {
        assert Kept(u, c, hi, id) && HasId(rows, id);
        KeptAt(u, c, hi, rows, j - 1);
      }
    }
    if Gapless(u, c, hi) {
      forall i | 0 <= i < |rows|
        ensures rows[i].id == i + 1
      {
        KeptAt(u, c, hi, rows, i);
        PositionIsId(u, c, hi, rows, rows[i].id);
        assert rows[rows[i].id - 1].id == rows[i].id;
      }
    }
  }

  /** The rows Verify fetches from a table that lost some rows, and its verdict on them. */
  lemma FetchedAfterDeletion(sha: Digest, st: Store, t: Rows, u: Rows, c: string, from: nat, to: nat,
                             latest: Option<nat>, rows: seq<Event>, report: Memory.Report)
    requires StoreOk(st) && GoodTable(sha, t) && AllPreserved(st.render, ChainIn(t, c)) && Without(t, u)
    requires from <= 1 && to < TWO63 && (to == 0 ==> latest.Some? && latest.value < TWO63)
    requires DurableVerify(sha, st, u, c, from, to, latest, rows, report)
    ensures var hi := if to == 0 then latest.value else to;
            && KeptFrom(ChainIn(t, c), rows) && Fetched(u, c, hi, rows)
            && report == Memory.Report(Check(sha, GENESIS, Views(rows)), false)
  {
    hide View, WalkFrom, GoodTable, Check, Preserved, IsAnswer, Fetched, KeptFrom, ChainIn;
    var es, hi := ChainIn(t, c), if to == 0 then latest.value else to;
    KeptInRange(sha, t, u, c, IdParam(st, 1), hi, rows);
    KeptArePreserved(st, es, rows);
    ReadBackKeepsVerdict(sha, st.render, st.unit, rows);
  }

  lemma KeptArePreserved(st: Store, es: seq<Event>, kept: seq<Event>)
    requires KeptFrom(es, kept) && AllPreserved(st.render, es)
    ensures AllPreserved(st.render, kept)
  {
    hide Preserved;
  }

  /** Deleted rows, end to end: after any set of rows was taken out of an honestly recorded table,
      Verify from the start accepts exactly when the rows left in range have no gap (so the loss
      of tail rows is not seen), or the digest is cracked. This holds for any resolution of the
      latest id: from the rows left, or from a tail document that survived them. */
  lemma DeletedRowsAreSeen(sha: Digest, st: Store, t: Rows, u: Rows, c: string, from: nat, to: nat,
                           latest: Option<nat>, rows: seq<Event>, report: Memory.Report)
    requires StoreOk(st) && GoodTable(sha, t) && AllPreserved(st.render, ChainIn(t, c)) && Without(t, u)
    requires from <= 1 && to < TWO63 && (latest.Some? ==> latest.value < TWO63)
    requires DurableVerify(sha, st, u, c, from, to, latest, rows, report)
    ensures || Cracked(sha, Preimages(Views(ChainIn(t, c))))
            || (report.verdict == Verdict.Valid <==> (to == 0 && latest.None?) || Gapless(u, c, if to == 0 then latest.value else to))
  {
    hide View, WalkFrom, GoodTable, Check, Preserved, Cracked, Preimages, Gapless, Honest, KeptFrom, IsAnswer, Fetched, ChainIn;
    var es := ChainIn(t, c);
    if to > 0 || latest.Some? {
      var hi := if to == 0 then latest.value else to;
      FetchedAfterDeletion(sha, st, t, u, c, from, to, latest, rows, report);
      TableIsHonest(sha, t, c);
      KeptEntries(sha, c, es, rows);
      GaplessIsNumbered(u, c, hi, rows);
    }
  }

  /** ... and the report names the first row behind the first gap g..id-1, the hash that was expected
      there and the hash of the missing row it links to. */
  lemma DeletionIsLocated(sha: Digest, st: Store, t: Rows, u: Rows, c: string, from: nat, to: nat,
                          latest: Option<nat>, rows: seq<Event>, report: Memory.Report, g: nat, id: nat)
    requires StoreOk(st) && GoodTable(sha, t) && AllPreserved(st.render, ChainIn(t, c)) && Without(t, u)
    requires from <= 1 && to < TWO63 && (latest.Some? ==> latest.value < TWO63)
    requires DurableVerify(sha, st, u, c, from, to, latest, rows, report)
    requires 1 <= g < id && (c, id) in u && if to == 0 then latest.Some? && id <= latest.value else id <= to
    requires (forall j: nat :: 1 <= j < g ==> (c, j) in u) && forall j: nat :: g <= j < id ==> (c, j) !in u
    ensures id <= |ChainIn(t, c)|
    ensures || Cracked(sha, Preimages(Views(ChainIn(t, c))))
            || report == Memory.Report(Broken(id, EndHash(Views(ChainIn(t, c))[..g - 1]), ChainIn(t, c)[id - 2].hash), false)
  {
    hide View, WalkFrom, GoodTable, Check, Preserved, Cracked, Preimages, Honest, KeptFrom, Fetched, ChainIn, DurableVerify;
    var es := ChainIn(t, c);
    NoGaps(sha, t, c, id);
    var hi := if to == 0 then latest.value else to;
    FetchedAfterDeletion(sha, st, t, u, c, from, to, latest, rows, report);
    FirstGap(u, c, hi, rows, g, id);
    TableIsHonest(sha, t, c);
    KeptEntriesReport(sha, c, es, rows, g - 1);
  }

  lemma FirstGap(u: Rows, c: string, hi: nat, rows: seq<Event>, g: nat, id: nat)
    requires Fetched(u, c, hi, rows) && 1 <= g < id && Kept(u, c, hi, id)
    requires (forall j: nat :: 1 <= j < g ==> (c, j) in u) && forall j: nat :: g <= j < id ==> (c, j) !in u
    ensures g - 1 < |rows| && rows[g - 1].id == id && forall i :: 0 <= i < g - 1 ==> rows[i].id == i + 1
  {
    forall i | 0 <= i < g - 1
      ensures i < |rows| && rows[i].id == i + 1
    {
      PositionIsId(u, c, hi, rows, i + 1);
    }
    assert HasId(rows, id);
    var i :| 0 <= i < |rows| && rows[i].id == id;
    assert g > 1 ==> rows[g - 2].id == g - 1;
    assert i >= g - 1;
    KeptAt(u, c, hi, rows, g - 1);
  }

  // ---------------------------------------------------------------- the two durable backends

  /** Postgres on a table with a replaced row. */
  lemma PostgresReplacedRow(sha: Digest, st: Store, t: Rows, c: string, k: nat, r: Event, from: nat, to: nat,
                            rows: seq<Event>, report: Memory.Report)
    requires StoreOk(st) && GoodTable(sha, t) && AllPreserved(st.render, ChainIn(t, c))
    requires 1 <= k <= |ChainIn(t, c)| < TWO63 && KeyOf(r) == (c, k) && from <= 1 && to < TWO63
    requires PostgresVerify(sha, st, t[(c, k) := r], c, from, to, rows, report)
    ensures var es := ChainIn(t, c);
            report == Memory.Report(AlteredReport(sha, es, k, Stored(st.render, st.unit, r), if to == 0 then |es| else to), false)
  {
    hide GoodTable, ChainIn, AllPreserved, DurableVerify, IsLatest, AlteredReport, Stored;
    var u := t[(c, k) := r];
    var latest :| IsLatest(u, c, latest) && DurableVerify(sha, st, u, c, from, to, latest, rows, report);
    NoGaps(sha, t, c, k);
    SameKeysSameLatest(t, u, c, latest);
    ReplacedRowIsReported(sha, st, t, c, k, r, from, to, latest, rows, report);
  }

  /** Mongo in a reachable state with a replaced entry document. */
  lemma MongoReplacedRow(sha: Digest, ss: seq<Mongo.State>, acts: seq<Mongo.Action>, n: nat, st: Store, c: string, k: nat, r: Event,
                         from: nat, to: nat, rows: seq<Event>, report: Memory.Report)
    requires Mongo.Execution(sha, ss, acts) && n < |ss|
    requires StoreOk(st) && AllPreserved(st.render, ChainIn(ss[n].entries, c))
    requires 1 <= k <= |ChainIn(ss[n].entries, c)| < TWO63 && KeyOf(r) == (c, k) && from <= 1 && to < TWO63
    requires MongoVerify(sha, st, ss[n].(entries := ss[n].entries[(c, k) := r]), c, from, to, rows, report)
    ensures var es := ChainIn(ss[n].entries, c);
            report == Memory.Report(AlteredReport(sha, es, k, Stored(st.render, st.unit, r), if to == 0 then |es| else to), false)
  {
    hide GoodTable, ChainIn, AllPreserved, DurableVerify, IsLatest, AlteredReport, Stored, Mongo.Execution;
    TailDocumentIsLatest(sha, ss, acts, n, c);
    ReplacedRowIsReported(sha, st, ss[n].entries, c, k, r, from, to, TailLatest(ss[n], c), rows, report);
  }

  /** A bound past the end asks no more than the bound at the end. */
  lemma GaplessPastTheEnd(sha: Digest, t: Rows, u: Rows, c: string, hi: nat)
    requires GoodTable(sha, t) && Without(t, u)
    requires forall id: nat :: (c, id) in u ==> id <= hi
    ensures Gapless(u, c, hi) <==> Gapless(u, c, |ChainIn(t, c)|)
  {
    hide View, WalkFrom, GoodTable, ChainIn;
    forall id: nat | (c, id) in u
      ensures id <= |ChainIn(t, c)|
    {
      NoGaps(sha, t, c, id);
    }
  }

  /** Postgres after deletions: Empty is reported exactly when no upper bound was given and no row of
      the chain is left. */
  lemma PostgresDeletedRows(sha: Digest, st: Store, t: Rows, u: Rows, c: string, from: nat, to: nat,
                            rows: seq<Event>, report: Memory.Report)
    requires StoreOk(st) && GoodTable(sha, t) && AllPreserved(st.render, ChainIn(t, c)) && Without(t, u)
    requires |ChainIn(t, c)| < TWO63 && from <= 1 && to < TWO63
    requires PostgresVerify(sha, st, u, c, from, to, rows, report)
    ensures report.empty <==> to == 0 && forall id: nat :: (c, id) !in u
    ensures || Cracked(sha, Preimages(Views(ChainIn(t, c))))
            || (report.verdict == Verdict.Valid <==> Gapless(u, c, if to == 0 then |ChainIn(t, c)| else to))
  {
    hide View, GoodTable, ChainIn, AllPreserved, Cracked, Preimages, Gapless, IsAnswer, Check;
    var latest :| IsLatest(u, c, latest) && DurableVerify(sha, st, u, c, from, to, latest, rows, report);
    LatestOfRest(sha, t, u, c, latest);
    DeletedRowsAreSeen(sha, st, t, u, c, from, to, latest, rows, report);
    GaplessPastTheEnd(sha, t, u, c, if latest.Some? then latest.value else 0);
    NoRowsNoGaps(u, c);
  }

  lemma LatestOfRest(sha: Digest, t: Rows, u: Rows, c: string, latest: Option<nat>)
    requires GoodTable(sha, t) && Without(t, u) && IsLatest(u, c, latest)
    ensures latest.None? <==> forall id: nat :: (c, id) !in u
    ensures latest.Some? ==> latest.value <= |ChainIn(t, c)|
    ensures forall id: nat :: (c, id) in u ==> id <= if latest.Some? then latest.value else 0
  {
    hide View, WalkFrom, GoodTable, ChainIn;
    if latest.Some? {
      NoGaps(sha, t, c, latest.value);
    }
    forall id: nat | (c, id) in u
      ensures latest.Some? && id <= latest.value
    {
      assert (c, id).0 == c;
    }
    if latest.None? {
      assert forall id: nat :: (c, id) in u ==> (c, id).0 == c;
    }
  }

  lemma NoRowsNoGaps(u: Rows, c: string)
    ensures (forall id: nat :: (c, id) !in u) ==> forall hi :: Gapless(u, c, hi)
  {
  }

  /** Mongo after deletions: the tail document survives them, so Empty is reported exactly for a chain
      that never had entries, and a chain with all its entries gone is still walked, and accepted. */
  lemma MongoDeletedRows(sha: Digest, ss: seq<Mongo.State>, acts: seq<Mongo.Action>, n: nat, st: Store, u: Rows, c: string,
                         from: nat, to: nat, rows: seq<Event>, report: Memory.Report)
    requires Mongo.Execution(sha, ss, acts) && n < |ss|
    requires StoreOk(st) && AllPreserved(st.render, ChainIn(ss[n].entries, c)) && Without(ss[n].entries, u)
    requires |ChainIn(ss[n].entries, c)| < TWO63 && from <= 1 && to < TWO63
    requires MongoVerify(sha, st, ss[n].(entries := u), c, from, to, rows, report)
    ensures report.empty <==> to == 0 && ChainIn(ss[n].entries, c) == []
    ensures || Cracked(sha, Preimages(Views(ChainIn(ss[n].entries, c))))
            || (report.verdict == Verdict.Valid <==> Gapless(u, c, if to == 0 then |ChainIn(ss[n].entries, c)| else to))
  {
    hide View, GoodTable, ChainIn, AllPreserved, Cracked, Preimages, Gapless, IsAnswer, Check, IsLatest, Mongo.Execution;
    var t, latest := ss[n].entries, TailLatest(ss[n], c);
    TailDocumentIsLatest(sha, ss, acts, n, c);
    LatestAgrees(sha, t, c, latest);
    DeletedRowsAreSeen(sha, st, t, u, c, from, to, latest, rows, report);
    NothingLeft(sha, t, u, c);
  }

  lemma NothingLeft(sha: Digest, t: Rows, u: Rows, c: string)
    requires GoodTable(sha, t) && Without(t, u)
    ensures ChainIn(t, c) == [] ==> Gapless(u, c, 0)
  {
    hide View, WalkFrom, GoodTable, ChainIn;
    forall id: nat | (c, id) in u
      ensures ChainIn(t, c) != []
    {
      NoGaps(sha, t, c, id);
    }
  }

  // ---------------------------------------------------------------- arbitrary tampering

  /** Rows that pass and end in the hash of recorded entry `n` were hashed from exactly the recorded
      texts 1..n, or the digest is cracked. */
  lemma AnchoredRows(sha: Digest, c: string, es: seq<Event>, n: nat, fetched: seq<Event>)
    requires Honest(sha, c, es) && n <= |es|
    requires Check(sha, GENESIS, Views(fetched)) == Verdict.Valid && EndHash(Views(fetched)) == EndHash(Views(es)[..n])
    ensures || Cracked(sha, Preimages(Views(fetched)) + Preimages(Views(es)))
            || SamePreimages(Views(fetched), Views(es)[..n])
  {
    hide View, Check, Cracked, Preimages, Preimage, SamePreimages;
    var a, b := Views(fetched), Views(es);
    ValidMeansPasses(sha, GENESIS, a);
    PassesPrefix(sha, GENESIS, b, n);
    Binding(sha, a, b[..n]);
    if Cracked(sha, Preimages(a) + Preimages(b[..n])) {
      CrackedMonotone(sha, Preimages(a) + Preimages(b[..n]), Preimages(a) + Preimages(b));
    }
  }

  /** Whatever a table has been turned into: if Verify accepts a range of it, and the last row fetched
      carries the recorded hash of entry `n`, then the rows fetched were hashed from exactly the
      texts recorded for entries 1..n, or the digest is cracked. */
  lemma AcceptedTableIsRecorded(sha: Digest, st: Store, c: string, es: seq<Event>, n: nat, u: Rows, from: nat, to: nat,
                                latest: Option<nat>, rows: seq<Event>, report: Memory.Report)
    requires StoreOk(st) && Honest(sha, c, es) && n <= |es| && from < TWO64 && to < TWO64
    requires DurableVerify(sha, st, u, c, from, to, latest, rows, report) && report == Memory.Report(Verdict.Valid, false)
    requires EndHash(Views(StoredAll(st.render, st.unit, rows))) == EndHash(Views(es)[..n])
    ensures var read := Views(StoredAll(st.render, st.unit, rows));
            Cracked(sha, Preimages(read) + Preimages(Views(es))) || SamePreimages(read, Views(es)[..n])
  {
    hide View, Check, Cracked, Preimages, SamePreimages, IsAnswer, EndHash, Honest;
    AnchoredRows(sha, c, es, n, StoredAll(st.render, st.unit, rows));
  }

  /** The same for any list of entries in memory. */
  lemma AcceptedEntriesAreRecorded(sha: Digest, c: string, es: seq<Event>, n: nat, s: Memory.State, from: nat, to: nat)
    requires Honest(sha, c, es) && n <= |es|
    requires Memory.VerifyOf(sha, s, c, from, to) == Memory.Ok(Memory.Report(Verdict.Valid, false))
    requires var rows := Select(s.entries, Range(c, if from < 1 then 1 else from, Memory.ResolveTo(s.chains, c, to)));
             EndHash(Views(rows)) == EndHash(Views(es)[..n])
    ensures var rows := Select(s.entries, Range(c, if from < 1 then 1 else from, Memory.ResolveTo(s.chains, c, to)));
            || Cracked(sha, Preimages(Views(rows)) + Preimages(Views(es)))
            || SamePreimages(Views(rows), Views(es)[..n])
  {
    hide View, Check, Cracked, Preimages, SamePreimages, Select, EndHash, Honest;
    AnchoredRows(sha, c, es, n, Select(s.entries, Range(c, if from < 1 then 1 else from, Memory.ResolveTo(s.chains, c, to))));
  }

  // ---------------------------------------------------------------- in memory

  lemma SplitChain(before: seq<Event>, e: Event, after: seq<Event>)
    ensures ChainOf(before + [e] + after, e.chainID) == ChainOf(before, e.chainID) + [e] + ChainOf(after, e.chainID)
  {
    var s := Whole(e.chainID);
    SelectConcat(before + [e], after, s);
    SelectAppend(before, e, s);
  }

  /** Overwriting a stored entry overwrites it in its chain. */
  lemma ReplacedInChain(c: string, entries: seq<Event>, p: nat, r: Event)
    requires NumberedChain(c, ChainOf(entries, c)) && p < |entries| && entries[p].chainID == c
    requires r.chainID == c && r.id == entries[p].id
    ensures 1 <= r.id <= |ChainOf(entries, c)|
    ensures ChainOf(entries[p := r], c) == ChainOf(entries, c)[r.id - 1 := r]
  {
    hide ChainOf;
    var before, e, after := entries[..p], entries[p], entries[p + 1..];
    assert entries == before + [e] + after;
    assert entries[p := r] == before + [r] + after;
    SplitChain(before, e, after);
    SplitChain(before, r, after);
    var k := |ChainOf(before, c)|;
    assert ChainOf(entries, c)[k] == e;
  }

  /** A replaced entry in memory: the same report as in a durable table, for any entry put there
      under the same chain and position. */
  lemma ReplacedEntryIsReported(sha: Digest, s: Memory.State, p: nat, r: Event, from: nat, to: nat)
    requires Memory.Consistent(sha, s.entries, s.chains) && from <= 1
    requires p < |s.entries| && r.chainID == s.entries[p].chainID && r.id == s.entries[p].id
    ensures var es := ChainOf(s.entries, r.chainID);
            1 <= r.id <= |es| &&
            Memory.VerifyOf(sha, s.(entries := s.entries[p := r]), r.chainID, from, to) ==
            Memory.Reported(AlteredReport(sha, es, r.id, r, if to == 0 then |es| else to))
  {
    hide View, Select, Check, Window, AlteredReport, Passes;
    var c := r.chainID;
    var es := ChainOf(s.entries, c);
    assert Honest(sha, c, es) && Memory.TailAgrees(s.chains, c, es);
    ReplacedInChain(c, s.entries, p, r);
    var hi := if to == 0 then |es| else to;
    SelectFromChain(s.entries[p := r], Range(c, 1, hi));
    RangeIsWindow(c, es[r.id - 1 := r], 1, hi);
    AlteredChain(sha, c, es, r.id, r, hi);
  }

  /** The entries of a chain are stored by ascending position. */
  ghost predicate StoredInOrder(entries: seq<Event>, c: string) {
    forall i, j :: 0 <= i < j < |entries| && entries[i].chainID == c && entries[j].chainID == c ==> entries[i].id < entries[j].id
  }

  lemma {:induction false} ChainIsStoredInOrder(entries: seq<Event>, c: string)
    requires Ascending(ChainOf(entries, c))
    ensures StoredInOrder(entries, c)
  {
    hide ChainOf;
    if entries != [] {
      var front, last := entries[..|entries| - 1], entries[|entries| - 1];
      assert entries == front + [last];
      Memory.ChainAfterAppend(front, last, c);
      var es := ChainOf(front, c);
      assert Ascending(es) by {
        assert forall i :: 0 <= i < |es| ==> es[i] == ChainOf(entries, c)[i];
      }
      ChainIsStoredInOrder(front, c);
      forall i | 0 <= i < |front| && front[i].chainID == c && last.chainID == c
        ensures front[i].id < last.id
      {
        Memory.InItsChain(front, front[i]);
        var j :| 0 <= j < |es| && es[j] == front[i];
        assert ChainOf(entries, c)[j] == es[j] && ChainOf(entries, c)[|es|] == last;
      }
    }
  }

  lemma {:induction false} InOrderSelects(entries: seq<Event>, s: Selector)
    requires StoredInOrder(entries, Scope(s))
    ensures Ascending(Select(entries, s))
  {
    hide MatchesFilter, MatchesFloored;
    if entries != [] {
      var front, last := entries[..|entries| - 1], entries[|entries| - 1];
      InOrderSelects(front, s);
      var r := Select(front, s);
      forall i | 0 <= i < |r| && Matches(s, last)
        ensures r[i].id < last.id
      {
        SelectMembers(front, s, r[i]);
        var j :| 0 <= j < |front| && front[j] == r[i];
        assert entries[j] == front[j];
      }
    }
  }

  lemma SurvivorsAreKept(sha: Digest, c: string, entries: seq<Event>, at: seq<nat>, hi: nat)
    requires Honest(sha, c, ChainOf(entries, c))
    requires Increasing(at) && forall i :: 0 <= i < |at| ==> at[i] < |entries|
    ensures KeptFrom(ChainOf(entries, c), Select(Pick(entries, at), Range(c, 1, hi)))
  {
    hide Select, Passes, View, ChainOf, StoredInOrder, Pick, Ascending;
    var left := Pick(entries, at);
    var rows := Select(left, Range(c, 1, hi));
    assert Ascending(ChainOf(entries, c)) by {
      NumberedAscends(c, ChainOf(entries, c));
    }
    ChainIsStoredInOrder(entries, c);
    StillInOrder(entries, at, c);
    InOrderSelects(left, Range(c, 1, hi));
    forall i | 0 <= i < |rows|
      ensures 1 <= rows[i].id <= |ChainOf(entries, c)| && rows[i] == ChainOf(entries, c)[rows[i].id - 1]
    {
      assert rows[i] in rows;
      SelectMembers(left, Range(c, 1, hi), rows[i]);
      SurvivorInChain(c, entries, at, rows[i]);
    }
  }

  lemma NumberedAscends(c: string, es: seq<Event>)
    requires NumberedChain(c, es)
    ensures Ascending(es)
  {
  }

  lemma StillInOrder(entries: seq<Event>, at: seq<nat>, c: string)
    requires Increasing(at) && forall i :: 0 <= i < |at| ==> at[i] < |entries|
    requires StoredInOrder(entries, c)
    ensures StoredInOrder(Pick(entries, at), c)
  {
  }

  lemma SurvivorInChain(c: string, entries: seq<Event>, at: seq<nat>, e: Event)
    requires NumberedChain(c, ChainOf(entries, c)) && forall i :: 0 <= i < |at| ==> at[i] < |entries|
    requires e in Pick(entries, at) && e.chainID == c
    ensures 1 <= e.id <= |ChainOf(entries, c)| && e == ChainOf(entries, c)[e.id - 1]
  {
    hide ChainOf;
    assert e in entries;
    Memory.InItsChain(entries, e);
    var j :| 0 <= j < |ChainOf(entries, c)| && ChainOf(entries, c)[j] == e;
  }

  /** Deleted entries in memory: after any set of stored entries was taken out, Verify from the start
      accepts exactly when what is left of the chain in range is numbered 1, 2, ..., or the digest
      is cracked. */
  lemma DeletedEntriesAreSeen(sha: Digest, s: Memory.State, at: seq<nat>, c: string, from: nat, to: nat)
    requires Memory.Consistent(sha, s.entries, s.chains) && from <= 1
    requires Increasing(at) && forall i :: 0 <= i < |at| ==> at[i] < |s.entries|
    ensures var rows := Select(Pick(s.entries, at), Range(c, 1, Memory.ResolveTo(s.chains, c, to)));
            var v := Memory.VerifyOf(sha, s.(entries := Pick(s.entries, at)), c, from, to);
            || Cracked(sha, Preimages(Views(ChainOf(s.entries, c))))
            || (v.Ok? && v.value.verdict == Verdict.Valid <==> forall i :: 0 <= i < |rows| ==> rows[i].id == i + 1)
  {
    hide View, Select, Check, Cracked, Preimages, Passes, KeptFrom;
    var es, hi := ChainOf(s.entries, c), Memory.ResolveTo(s.chains, c, to);
    var rows := Select(Pick(s.entries, at), Range(c, 1, hi));
    assert Honest(sha, c, es);
    SurvivorsAreKept(sha, c, s.entries, at, hi);
    KeptEntries(sha, c, es, rows);
    if to == 0 && c !in s.chains {
      NothingInRange(Pick(s.entries, at), c);
    }
  }

  lemma NothingInRange(entries: seq<Event>, c: string)
    ensures Select(entries, Range(c, 1, 0)) == []
  {
    hide Select;
    var rows := Select(entries, Range(c, 1, 0));
    forall e
      ensures e !in rows
    {
      SelectMembers(entries, Range(c, 1, 0), e);
    }
    SomeMember(rows);
  }

  /** ... and otherwise the first entry behind a gap is reported. */
  lemma EntryDeletionIsLocated(sha: Digest, s: Memory.State, at: seq<nat>, c: string, from: nat, to: nat, i: nat)
    requires Memory.Consistent(sha, s.entries, s.chains) && from <= 1
    requires Increasing(at) && forall i :: 0 <= i < |at| ==> at[i] < |s.entries|
    requires var rows := Select(Pick(s.entries, at), Range(c, 1, Memory.ResolveTo(s.chains, c, to)));
             i < |rows| && rows[i].id != i + 1 && forall j :: 0 <= j < i ==> rows[j].id == j + 1
    ensures var es := ChainOf(s.entries, c);
            var id := Select(Pick(s.entries, at), Range(c, 1, Memory.ResolveTo(s.chains, c, to)))[i].id;
            i + 1 < id <= |es| &&
            (|| Cracked(sha, Preimages(Views(es)))
             || Memory.VerifyOf(sha, s.(entries := Pick(s.entries, at)), c, from, to) ==
                Memory.Reported(Broken(id, EndHash(Views(es)[..i]), es[id - 2].hash)))
  {
    hide View, Select, Check, Cracked, Preimages, Passes;
    var es, hi := ChainOf(s.entries, c), Memory.ResolveTo(s.chains, c, to);
    var rows := Select(Pick(s.entries, at), Range(c, 1, hi));
    assert Honest(sha, c, es);
    SurvivorsAreKept(sha, c, s.entries, at, hi);
    KeptEntriesReport(sha, c, es, rows, i);
    NothingInRange(Pick(s.entries, at), c);
  }
}
