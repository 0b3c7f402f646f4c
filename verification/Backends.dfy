/** The read side of the durable backends as SQL states it (filter, sort by id, limit), and its
    agreement with the in-memory scan over the same chain. */
module Backends {
  import opened Text
  import opened Calendar
  import opened Chain
  import opened Hash
  import opened Verify
  import opened Log
  import opened Table
  import opened Storage
  import Memory
  import Postgres
  import Mongo
  import Canonical

  // ---------------------------------------------------------------- row selection

  ghost predicate InTable(t: Rows, e: Event) {
    KeyOf(e) in t && t[KeyOf(e)] == e
  }

  /** The meaning of SELECT ... WHERE chain_id = ... AND ... ORDER BY entry_id ASC. */
  ghost predicate IsAnswer(t: Rows, s: Selector, out: seq<Event>) {
    Ascending(out) && forall e :: e in out <==> InTable(t, e) && Matches(s, e)
  }

  /** Whatever the table holds, a selection has at most one answer. */
  lemma AnswerIsUnique(t: Rows, s: Selector, xs: seq<Event>, ys: seq<Event>)
    requires IsAnswer(t, s, xs) && IsAnswer(t, s, ys)
    ensures xs == ys
  {
    hide InTable, Matches;
    AscendingIsUnique(xs, ys);
  }

  /** An ascending list is determined by its members. */
  lemma {:induction false} AscendingIsUnique(xs: seq<Event>, ys: seq<Event>)
    requires Ascending(xs) && Ascending(ys)
    requires forall e :: e in xs <==> e in ys
    ensures xs == ys
  {
    hide Ascending;
    SomeMember(xs);
    SomeMember(ys);
    if xs != [] && ys != [] {
      var x, y := xs[|xs| - 1], ys[|ys| - 1];
      SameLast(xs, ys);
      var fx, fy := xs[..|xs| - 1], ys[..|ys| - 1];
      forall e
        ensures e in fx <==> e in fy
      {
        DropLast(xs, e);
        DropLast(ys, e);
      }
      FrontAscends(xs);
      FrontAscends(ys);
      AscendingIsUnique(fx, fy);
      assert xs == fx + [x] && ys == fy + [y];
    }
  }

  lemma FrontAscends(xs: seq<Event>)
    requires Ascending(xs) && xs != []
    ensures Ascending(xs[..|xs| - 1])
  {
  }

  lemma SameLast(xs: seq<Event>, ys: seq<Event>)
    requires Ascending(xs) && Ascending(ys) && xs != [] && ys != []
    requires forall e :: e in xs <==> e in ys
    ensures xs[|xs| - 1] == ys[|ys| - 1]
  {
    assert xs[|xs| - 1] in ys && ys[|ys| - 1] in xs;
    LastIsLargest(ys, xs[|xs| - 1]);
    LastIsLargest(xs, ys[|ys| - 1]);
  }

  lemma LastIsLargest(xs: seq<Event>, e: Event)
    requires Ascending(xs) && e in xs
    ensures e == xs[|xs| - 1] || e.id < xs[|xs| - 1].id
  {
  }

  lemma SomeMember(xs: seq<Event>)
    ensures xs == [] || exists e :: e in xs
  {
    if xs != [] {
      assert xs[0] in xs;
    }
  }

  lemma DropLast(xs: seq<Event>, e: Event)
    requires Ascending(xs) && xs != []
    ensures e in xs[..|xs| - 1] <==> e in xs && e != xs[|xs| - 1]
  {
    var front, last := xs[..|xs| - 1], xs[|xs| - 1];
    assert xs == front + [last];
    forall i | 0 <= i < |front|
      ensures front[i] != last
    {
      assert xs[i].id < xs[|xs| - 1].id;
    }
  }

  /** `fs` lists the rows of chain `c` by position. */
  ghost predicate ListsChain(t: Rows, c: string, fs: seq<Event>) {
    Ascending(fs) && forall e :: e in fs <==> InTable(t, e) && e.chainID == c
  }

  /** Whatever the table holds, a selection has exactly one answer: the scan of its chain. */
  lemma AnswerOfList(t: Rows, s: Selector, fs: seq<Event>, out: seq<Event>)
    requires ListsChain(t, Scope(s), fs)
    ensures IsAnswer(t, s, out) <==> out == Select(fs, s)
  {
    hide MatchesFilter, MatchesFloored, Select, InTable;
    var r := Select(fs, s);
    SelectAscends(fs, s);
    forall e
      ensures e in r <==> InTable(t, e) && Matches(s, e)
    {
      SelectMembers(fs, s, e);
    }
    if IsAnswer(t, s, out) {
      AnswerIsUnique(t, s, out, r);
    }
  }

  /** In every table a run can reach, that is the scan of the chain 1..n. */
  lemma AnswerIsScan(sha: Digest, t: Rows, s: Selector, out: seq<Event>)
    requires GoodTable(sha, t)
    ensures IsAnswer(t, s, out) <==> out == Select(ChainIn(t, Scope(s)), s)
  {
    hide Matches, WalkFrom, GoodTable, Select, InTable, IsAnswer;
    ChainAscends(sha, t, Scope(s));
    forall e
      ensures e in ChainIn(t, Scope(s)) <==> InTable(t, e) && e.chainID == Scope(s)
    {
      MembersOfChain(sha, t, Scope(s), e);
    }
    AnswerOfList(t, s, ChainIn(t, Scope(s)), out);
  }

  lemma ChainAscends(sha: Digest, t: Rows, c: string)
    requires GoodTable(sha, t)
    ensures Ascending(ChainIn(t, c)) && NumberedChain(c, ChainIn(t, c))
  {
    hide View, WalkFrom, GoodTable;
    TableIsHonest(sha, t, c);
  }

  lemma MembersOfChain(sha: Digest, t: Rows, c: string, e: Event)
    requires GoodTable(sha, t)
    ensures e in ChainIn(t, c) <==> InTable(t, e) && e.chainID == c
  {
    hide View, WalkFrom, GoodTable;
    var es := ChainIn(t, c);
    TableIsHonest(sha, t, c);
    if e in es {
      var i :| 0 <= i < |es| && es[i] == e;
      NoGaps(sha, t, c, i + 1);
    }
    NoGaps(sha, t, c, e.id);
  }

  // ---------------------------------------------------------------- ids as int64

  const TWO63 := 0x8000_0000_0000_0000
  const TWO64 := 0x1_0000_0000_0000_0000

  /** toPgEntryID: the wrap-around of a uint64 converted to int64. */
  function ToInt64(n: nat): (i: int)
    requires n < TWO64
    ensures -TWO63 <= i < TWO63 && (i - n) % TWO64 == 0
  {
    if n < TWO63 then n else n - TWO64
  }

  /** Postgres range rows against the range asked for: for a chain within the column's range,
      they are the same rows exactly when the upper bound converts faithfully (or nothing is in
      range), or, for a lower bound that does not, when the upper bound does not either. */
  lemma SignedRange(c: string, es: seq<Event>, from: nat, to: nat)
    requires NumberedChain(c, es) && |es| < TWO63
    requires 1 <= from < TWO64 && to < TWO64
    ensures Select(es, Range(c, ToInt64(from), ToInt64(to))) == Window(es, from, to) <==>
            if from < TWO63 then to < TWO63 || |es| < from else to >= TWO63 || to == 0 || es == []
  {
    hide Select;
    RangeIsWindow(c, es, ToInt64(from), ToInt64(to));
  }

  /** ... so with an upper bound past 2^63 Verify checks no row and reports valid, whatever the
      table holds. */
  lemma WrappedRangeChecksNothing(sha: Digest, t: Rows, c: string, from: nat, to: nat, rows: seq<Event>)
    requires 1 <= from < TWO63 <= to < TWO64
    requires IsAnswer(t, Range(c, ToInt64(from), ToInt64(to)), rows)
    ensures rows == [] && Check(sha, GENESIS, Views(rows)) == Verdict.Valid
  {
    hide View;
    SomeMember(rows);
  }

  // ---------------------------------------------------------------- times at the store's precision

  /** A lower bound floored with the timestamps selects as the exact one does, for every
      timestamp, exactly when the bound is aligned. */
  lemma LowerBoundAgrees(from: int, unit: Unit)
    ensures (forall ts :: from <= ts <==> Floor(from, unit) <= Floor(ts, unit)) <==> from % unit == 0
  {
    if from % unit == 0 {
      forall ts
        ensures from <= ts <==> Floor(from, unit) <= Floor(ts, unit)
      {
        AlignedLower(from, ts, unit);
      }
    } else {
      var ts := Floor(from, unit);
      FloorIsAligned(from, unit);
      assert Floor(ts, unit) == ts < from;
    }
  }

  /** An upper bound does exactly when it is the last instant of its unit. */
  lemma UpperBoundAgrees(to: int, unit: Unit)
    ensures (forall ts :: ts <= to <==> Floor(ts, unit) <= Floor(to, unit)) <==> (to + 1) % unit == 0
  {
    if (to + 1) % unit == 0 {
      forall ts
        ensures ts <= to <==> Floor(ts, unit) <= Floor(to, unit)
      {
        LastInstantUpper(to, ts, unit);
      }
    } else {
      NotLastInstant(to, unit);
      assert Floor(to + 1, unit) == Floor(to, unit);
      assert !(to + 1 <= to);
    }
  }

  lemma FloorIsAligned(t: int, unit: Unit)
    ensures Floor(t, unit) == unit * (t / unit) && Floor(t, unit) % unit == 0
    ensures Floor(Floor(t, unit), unit) == Floor(t, unit)
  {
    Quotient(unit * (t / unit), unit, t / unit, 0);
  }

  /** Floors are ordered as the units are. */
  lemma FloorOrder(s: int, t: int, unit: Unit)
    ensures Floor(s, unit) <= Floor(t, unit) <==> s / unit <= t / unit
    ensures Floor(s, unit) < Floor(t, unit) ==> Floor(s, unit) + unit <= Floor(t, unit)
  {
    hide Floor;
    FloorIsAligned(s, unit);
    FloorIsAligned(t, unit);
    Grows(unit, s / unit, t / unit);
    Grows(unit, t / unit, s / unit);
  }

  lemma AlignedLower(from: int, ts: int, unit: Unit)
    requires from % unit == 0
    ensures from <= ts <==> Floor(from, unit) <= Floor(ts, unit)
  {
    FloorOrder(from, ts, unit);
    FloorOrder(ts, from, unit);
  }

  lemma LastInstantUpper(to: int, ts: int, unit: Unit)
    requires (to + 1) % unit == 0
    ensures ts <= to <==> Floor(ts, unit) <= Floor(to, unit)
  {
    AlignedLower(to + 1, ts, unit);
    FloorOrder(to, to + 1, unit);
    FloorOrder(ts, to, unit);
    FloorOrder(to, ts, unit);
  }

  lemma NotLastInstant(to: int, unit: Unit)
    requires (to + 1) % unit != 0
    ensures Floor(to + 1, unit) == Floor(to, unit)
  {
    FloorOrder(to, to + 1, unit);
    FloorOrder(to + 1, to, unit);
  }

  lemma AlignedUpper(to: int, ts: int, unit: Unit)
    requires ts % unit == 0
    ensures ts <= to <==> Floor(ts, unit) <= Floor(to, unit)
  {
    FloorOrder(ts, to, unit);
    FloorOrder(to, ts, unit);
  }

  /** The filter's bounds and the entries' timestamps are such that precision does not matter. */
  predicate TimesAgree(f: QueryFilter, unit: Unit, es: seq<Event>)
  {
    && (f.from == ZERO_TIME || f.from % unit == 0)
    && (f.to == ZERO_TIME || (f.to + 1) % unit == 0 || forall i :: 0 <= i < |es| ==> es[i].timestamp % unit == 0)
  }

  lemma FlooredIsExact(f: QueryFilter, unit: Unit, es: seq<Event>, i: nat)
    requires TimesAgree(f, unit, es) && i < |es|
    ensures Matches(FilteredAt(f, unit), es[i]) <==> Matches(Filtered(f), es[i])
  {
    hide Floor;
    var ts := es[i].timestamp;
    if f.from % unit == 0 {
      AlignedLower(f.from, ts, unit);
    }
    if ts % unit == 0 {
      AlignedUpper(f.to, ts, unit);
    }
    if (f.to + 1) % unit == 0 {
      LastInstantUpper(f.to, ts, unit);
    }
  }

  /** The SQL filter at the store's precision selects what the exact in-memory filter selects. */
  lemma {:induction false} FilterIsScan(f: QueryFilter, unit: Unit, es: seq<Event>)
    requires TimesAgree(f, unit, es)
    ensures Select(es, FilteredAt(f, unit)) == Select(es, Filtered(f))
  {
    hide Matches;
    if es != [] {
      FilterIsScan(f, unit, es[..|es| - 1]);
      FlooredIsExact(f, unit, es, |es| - 1);
    }
  }

  // ---------------------------------------------------------------- one set of answers

  /** How a durable backend keeps entries: Postgres is (JSONB's rendering, 1_000, signed ids),
      Mongo is (the identity, MILLI, unsigned ids). */
  datatype Store = Store(render: Rendering, unit: Unit, signedIDs: bool)

  ghost predicate StoreOk(st: Store) {
    MILLI % st.unit == 0
  }

  function IdParam(st: Store, id: nat): int
    requires id < TWO64
  {
    if st.signedIDs then ToInt64(id) else id
  }

  /** What every backend should answer about a chain holding `es`. */
  ghost function VerifyAnswer(sha: Digest, es: seq<Event>, from: nat, to: nat): Memory.Report {
    if to == 0 && es == [] then Memory.Report(Verdict.Valid, true)
    else Memory.Report(Check(sha, GENESIS, Views(Window(es, if from < 1 then 1 else from, if to == 0 then |es| else to))), false)
  }

  /** The largest id of a chain, as GetLastEntry finds it and Mongo's tail document names it. */
  ghost predicate IsLatest(t: Rows, c: string, latest: Option<nat>) {
    match latest
    case None => forall k :: k in t ==> k.0 != c
    case Some(id) => (c, id) in t && forall k :: k in t && k.0 == c ==> k.1 <= id
  }

  /** LatestEntryID agrees: it is the length of the chain, and not found for an empty one. */
  lemma LatestAgrees(sha: Digest, t: Rows, c: string, latest: Option<nat>)
    requires GoodTable(sha, t)
    ensures IsLatest(t, c, latest) <==> latest == if ChainIn(t, c) == [] then None else Some(|ChainIn(t, c)|)
  {
    hide View, WalkFrom, GoodTable;
    var n := |ChainIn(t, c)|;
    NoGaps(sha, t, c, n);
    NoGaps(sha, t, c, 1);
    forall k | k in t && k.0 == c
      ensures k == (c, k.1) && 1 <= k.1 <= n
    {
      assert k == (c, k.1);
      NoGaps(sha, t, c, k.1);
    }
  }

  /** How mongo.go resolves the latest id: from the tail document, whatever the entries are. */
  function TailLatest(s: Mongo.State, c: string): Option<nat> {
    if c in s.tails then Some(s.tails[c].lastEntryID) else None
  }

  lemma TailDocumentIsLatest(sha: Digest, ss: seq<Mongo.State>, acts: seq<Mongo.Action>, n: nat, c: string)
    requires Mongo.Execution(sha, ss, acts) && n < |ss|
    ensures GoodTable(sha, ss[n].entries)
    ensures IsLatest(ss[n].entries, c, TailLatest(ss[n], c))
  {
    hide Mongo.Execution, IsLatest, GoodTable, Honest;
    Mongo.ReachableOk(sha, ss, acts, n);
    Mongo.EveryRunKeepsTails(sha, ss, acts, n, c);
    LatestAgrees(sha, ss[n].entries, c, TailLatest(ss[n], c));
  }

  /** A durable Verify: `to` 0 stands for the latest id as the backend resolves it; list the range,
      check what comes back. */
  ghost predicate DurableVerify(sha: Digest, st: Store, t: Rows, c: string, from: nat, to: nat,
                                latest: Option<nat>, rows: seq<Event>, r: Memory.Report)
    requires StoreOk(st) && from < TWO64 && to < TWO64
  {
    && (latest.Some? ==> latest.value < TWO64)
    && if to == 0 && latest.None? then r == Memory.Report(Verdict.Valid, true)
       else
         && IsAnswer(t, Range(c, IdParam(st, if from < 1 then 1 else from),
                              IdParam(st, if to == 0 then latest.value else to)), rows)
         && r == Memory.Report(Check(sha, GENESIS, Views(StoredAll(st.render, st.unit, rows))), false)
  }

  /** Postgres resolves the latest id from the rows, by GetLastEntry. */
  ghost predicate PostgresVerify(sha: Digest, st: Store, t: Rows, c: string, from: nat, to: nat, rows: seq<Event>, r: Memory.Report)
    requires StoreOk(st) && from < TWO64 && to < TWO64
  {
    exists latest :: IsLatest(t, c, latest) && DurableVerify(sha, st, t, c, from, to, latest, rows, r)
  }

  /** Mongo from the tail document. */
  ghost predicate MongoVerify(sha: Digest, st: Store, s: Mongo.State, c: string, from: nat, to: nat, rows: seq<Event>, r: Memory.Report)
    requires StoreOk(st) && from < TWO64 && to < TWO64
  {
    DurableVerify(sha, st, s.entries, c, from, to, TailLatest(s, c), rows, r)
  }

  ghost predicate AllPreserved(render: Rendering, es: seq<Event>) {
    forall i :: 0 <= i < |es| ==> Preserved(render, es[i].payload)
  }

  lemma WindowIsPreserved(render: Rendering, es: seq<Event>, from: nat, to: nat)
    requires AllPreserved(render, es) && 1 <= from
    ensures AllPreserved(render, Window(es, from, to))
  {
    hide Preserved;
  }

  lemma ParamsAgree(st: Store, c: string, es: seq<Event>, from: nat, to: nat)
    requires NumberedChain(c, es) && |es| < TWO63 && 1 <= from < TWO63 && to < TWO63
    ensures Select(es, Range(c, IdParam(st, from), IdParam(st, to))) == Window(es, from, to)
  {
    RangeIsWindow(c, es, from, to);
  }

  /** Verify agrees: whatever rows the store hands back, a durable backend reports what the
      abstract chain deserves, for bounds below 2^63 and stores that preserve number text. */
  lemma VerifyAgrees(sha: Digest, st: Store, t: Rows, c: string, from: nat, to: nat,
                     latest: Option<nat>, rows: seq<Event>, r: Memory.Report)
    requires StoreOk(st) && GoodTable(sha, t) && AllPreserved(st.render, ChainIn(t, c))
    requires |ChainIn(t, c)| < TWO63 && from < TWO63 && to < TWO63
    requires IsLatest(t, c, latest) && DurableVerify(sha, st, t, c, from, to, latest, rows, r)
    ensures r == VerifyAnswer(sha, ChainIn(t, c), from, to)
  {
    hide View, WalkFrom, GoodTable, Check, Select, Window, Preserved, IsLatest, IsAnswer;
    var es := ChainIn(t, c);
    LatestAgrees(sha, t, c, latest);
    ChainAscends(sha, t, c);
    if !(to == 0 && latest.None?) {
      var lo, hi := if from < 1 then 1 else from, if to == 0 then |es| else to;
      ParamsAgree(st, c, es, lo, hi);
      AnswerIsScan(sha, t, Range(c, IdParam(st, lo), IdParam(st, hi)), rows);
      WindowIsPreserved(st.render, es, lo, hi);
      ReadBackKeepsVerdict(sha, st.render, st.unit, rows);
    }
  }

  /** So on every table a run of Record calls can reach, Verify from the start finds nothing and
      reports Empty exactly for a chain without entries and no upper bound. */
  lemma DurableChainsVerify(sha: Digest, st: Store, t: Rows, c: string, from: nat, to: nat,
                            latest: Option<nat>, rows: seq<Event>, r: Memory.Report)
    requires StoreOk(st) && GoodTable(sha, t) && AllPreserved(st.render, ChainIn(t, c))
    requires |ChainIn(t, c)| < TWO63 && from <= 1 && to < TWO63
    requires IsLatest(t, c, latest) && DurableVerify(sha, st, t, c, from, to, latest, rows, r)
    ensures r == Memory.Report(Verdict.Valid, to == 0 && ChainIn(t, c) == [])
  {
    hide View, WalkFrom, GoodTable, Check, Window, Preserved, DurableVerify, Honest, IsLatest;
    var es := ChainIn(t, c);
    VerifyAgrees(sha, st, t, c, from, to, latest, rows, r);
    TableIsHonest(sha, t, c);
    var hi := if to == 0 then |es| else to;
    ViewsOfWindow(es, 1, hi);
    HonestVerifies(sha, c, es, hi);
  }

  /** In particular in every reachable state of the two protocols, each with its own way of resolving
      the latest id. */
  lemma PostgresChainsVerify(cfg: Postgres.Config, ss: seq<Postgres.State>, acts: seq<Postgres.Action>, n: nat, st: Store, c: string,
                             from: nat, to: nat, rows: seq<Event>, r: Memory.Report)
    requires Postgres.Execution(cfg, ss, acts) && n < |ss|
    requires StoreOk(st) && AllPreserved(st.render, ChainIn(ss[n].table, c))
    requires |ChainIn(ss[n].table, c)| < TWO63 && from <= 1 && to < TWO63
    requires PostgresVerify(cfg.sha, st, ss[n].table, c, from, to, rows, r)
    ensures r == Memory.Report(Verdict.Valid, to == 0 && ChainIn(ss[n].table, c) == [])
  {
    hide ChainIn, GoodTable, AllPreserved, DurableVerify, IsLatest, Postgres.Execution;
    var t := ss[n].table;
    Postgres.ReachableOk(cfg, ss, acts, n);
    var latest :| IsLatest(t, c, latest) && DurableVerify(cfg.sha, st, t, c, from, to, latest, rows, r);
    DurableChainsVerify(cfg.sha, st, t, c, from, to, latest, rows, r);
  }

  lemma MongoChainsVerify(sha: Digest, ss: seq<Mongo.State>, acts: seq<Mongo.Action>, n: nat, st: Store, c: string,
                          from: nat, to: nat, rows: seq<Event>, r: Memory.Report)
    requires Mongo.Execution(sha, ss, acts) && n < |ss|
    requires StoreOk(st) && AllPreserved(st.render, ChainIn(ss[n].entries, c))
    requires |ChainIn(ss[n].entries, c)| < TWO63 && from <= 1 && to < TWO63
    requires MongoVerify(sha, st, ss[n], c, from, to, rows, r)
    ensures r == Memory.Report(Verdict.Valid, to == 0 && ChainIn(ss[n].entries, c) == [])
  {
    hide ChainIn, GoodTable, AllPreserved, DurableVerify, IsLatest, Mongo.Execution;
    TailDocumentIsLatest(sha, ss, acts, n, c);
    DurableChainsVerify(sha, st, ss[n].entries, c, from, to, TailLatest(ss[n], c), rows, r);
  }

  /** ... and so does the in-memory backend, for every bound. */
  lemma MemoryVerifyAgrees(sha: Digest, s: Memory.State, c: string, from: nat, to: nat)
    requires Memory.Consistent(sha, s.entries, s.chains)
    ensures var r := VerifyAnswer(sha, ChainOf(s.entries, c), from, to);
            Memory.VerifyOf(sha, s, c, from, to) == if r.verdict == Failed then Memory.Err(Memory.ErrUndecodable) else Memory.Ok(r)
  {
    hide View, Select, Check, Window, Memory.VerifyOf;
    Memory.VerifyOfChain(sha, s, c, from, to);
  }

  /** The same entry up to how its payload value is represented. */
  ghost predicate SameEntry(e: Event, f: Event) {
    f == e.(payload := f.payload) && PayloadValue(f.payload) == PayloadValue(e.payload)
  }

  lemma StoredIsSame(st: Store, e: Event)
    requires StoreOk(st) && Preserved(st.render, e.payload) && e.timestamp % st.unit == 0
    ensures SameEntry(e, Stored(st.render, st.unit, e))
  {
    hide DecodeValue, DecodeStoredPayload, Canonical.Normalise, Preserved;
    PreservedValue(st.render, e.payload);
  }

  /** The store gives the entry back: it decodes, and as the same entry. */
  ghost predicate Returns(st: Store, e: Event)
    requires StoreOk(st)
  {
    var f := Stored(st.render, st.unit, e);
    !f.payload.Bad? && SameEntry(e, f)
  }

  ghost predicate AllAligned(st: Store, es: seq<Event>)
    requires StoreOk(st)
  {
    forall i :: 0 <= i < |es| ==> es[i].timestamp % st.unit == 0
  }

  lemma ChainIsReturned(sha: Digest, st: Store, t: Rows, c: string, i: nat)
    requires StoreOk(st) && GoodTable(sha, t) && AllPreserved(st.render, ChainIn(t, c)) && AllAligned(st, ChainIn(t, c))
    requires i < |ChainIn(t, c)|
    ensures Returns(st, ChainIn(t, c)[i])
  {
    hide WalkFrom, GoodTable, Preserved, DecodeStoredPayload, ReadBack;
    var e := ChainIn(t, c)[i];
    TableIsHonest(sha, t, c);
    assert RowOk(sha, GENESIS, Views(ChainIn(t, c)), i);
    BadHasNoText();
    PreservedValue(st.render, e.payload);
    StoredIsSame(st, e);
  }

  /** Query agrees: the durable answer is, entry by entry, the in-memory one. */
  lemma QueryAgrees(sha: Digest, st: Store, t: Rows, f: QueryFilter, rows: seq<Event>)
    requires StoreOk(st) && GoodTable(sha, t)
    requires AllPreserved(st.render, ChainIn(t, f.chainID)) && AllAligned(st, ChainIn(t, f.chainID))
    requires f.from == ZERO_TIME || f.from % st.unit == 0
    requires IsAnswer(t, FilteredAt(f, st.unit), rows)
    ensures var mine := Limited(Select(ChainIn(t, f.chainID), Filtered(f)), f.limit);
            Limited(rows, f.limit) == mine && forall i :: 0 <= i < |mine| ==> Returns(st, mine[i])
  {
    hide View, WalkFrom, GoodTable, Select, Preserved, Returns, IsAnswer, Matches;
    var es := ChainIn(t, f.chainID);
    AnswerIsScan(sha, t, FilteredAt(f, st.unit), rows);
    FilterIsScan(f, st.unit, es);
    forall i | 0 <= i < |rows|
      ensures Returns(st, rows[i])
    {
      SelectMembers(es, Filtered(f), rows[i]);
      var j :| 0 <= j < |es| && es[j] == rows[i];
      ChainIsReturned(sha, st, t, f.chainID, j);
    }
  }

  /** The durable filter column by column: what QueryEntries' WHERE clause keeps, with times kept to the
      unit of the store, and the order it puts the rows in. */
  lemma QueryRows(t: Rows, f: QueryFilter, unit: Unit, rows: seq<Event>)
    requires IsAnswer(t, FilteredAt(f, unit), rows)
    ensures forall e :: e in rows <==>
              && (e.chainID, e.id) in t && t[(e.chainID, e.id)] == e && e.chainID == f.chainID
              && (f.actorID != "" ==> e.actorID == f.actorID)
              && (f.entityType != "" ==> e.entityType == f.entityType)
              && (f.entityID != "" ==> e.entityID == f.entityID)
              && (f.from != ZERO_TIME ==> f.from / unit <= e.timestamp / unit)
              && (f.to != ZERO_TIME ==> e.timestamp / unit <= f.to / unit)
    ensures forall i, j :: 0 <= i < j < |rows| ==> rows[i].id < rows[j].id
  {
    hide Floor;
    forall e: Event
      ensures Floor(f.from, unit) <= Floor(e.timestamp, unit) <==> f.from / unit <= e.timestamp / unit
      ensures Floor(e.timestamp, unit) <= Floor(f.to, unit) <==> e.timestamp / unit <= f.to / unit
    {
      FloorOrder(f.from, e.timestamp, unit);
      FloorOrder(e.timestamp, f.to, unit);
    }
  }

  /** GetEntry agrees for every uint64 id, on chains within the column's range: an id that wraps
      to a negative number is not found, as it should be, and what is found is returned as the
      same entry. */
  lemma GetEntryAgrees(sha: Digest, st: Store, t: Rows, c: string, id: nat, rows: seq<Event>)
    requires StoreOk(st) && GoodTable(sha, t) && |ChainIn(t, c)| < TWO63 && id < TWO64
    requires IsAnswer(t, Position(c, IdParam(st, id)), rows)
    ensures rows == if 1 <= id <= |ChainIn(t, c)| then [ChainIn(t, c)[id - 1]] else []
    ensures AllPreserved(st.render, ChainIn(t, c)) && AllAligned(st, ChainIn(t, c)) && rows != [] ==> Returns(st, rows[0])
  {
    hide View, WalkFrom, GoodTable, Select, Preserved, Returns, IsAnswer, Matches;
    var es := ChainIn(t, c);
    ChainAscends(sha, t, c);
    AnswerIsScan(sha, t, Position(c, IdParam(st, id)), rows);
    PositionInChain(c, es, IdParam(st, id));
    if AllPreserved(st.render, es) && AllAligned(st, es) && rows != [] {
      ChainIsReturned(sha, st, t, c, id - 1);
    }
  }
}
