/** Chain isolation in the durable backends: whatever happens to other chains, by Record calls or by
    tampering, in any order, no answer about this chain changes. */
module Isolation {
  import opened Text
  import opened Chain
  import opened Hash
  import opened Log
  import opened Table
  import opened Backends
  import Postgres
  import Mongo

  /** The two tables hold the same rows of chain `c`. */
  ghost predicate SameRows(t: Rows, u: Rows, c: string) {
    forall id: nat :: ((c, id) in t <==> (c, id) in u) && ((c, id) in t ==> t[(c, id)] == u[(c, id)])
  }

  /** A row of another chain put in, overwritten or taken out. */
  ghost predicate EditedElsewhere(t: Rows, u: Rows, c: string) {
    || t == u
    || (exists e: Event :: e.chainID != c && u == t[KeyOf(e) := e])
    || (exists k: Key :: k.0 != c && u == t - {k})
  }

  lemma EditKeepsRows(t: Rows, u: Rows, c: string)
    requires EditedElsewhere(t, u, c)
    ensures SameRows(t, u, c)
  {
  }

  /** Every question asked of the table about chain `c` has the same answer. */
  ghost predicate SameAnswers(t: Rows, u: Rows, c: string) {
    && (forall s: Selector, out :: Scope(s) == c ==> (IsAnswer(t, s, out) <==> IsAnswer(u, s, out)))
    && (forall latest :: IsLatest(t, c, latest) <==> IsLatest(u, c, latest))
  }

  lemma SameRowsSameAnswers(t: Rows, u: Rows, c: string)
    requires SameRows(t, u, c)
    ensures SameAnswers(t, u, c)
  {
    hide Matches;
    forall e: Event | e.chainID == c
      ensures InTable(t, e) <==> InTable(u, e)
    {
      assert KeyOf(e) == (c, e.id);
    }
    forall s: Selector, out | Scope(s) == c
      ensures IsAnswer(t, s, out) <==> IsAnswer(u, s, out)
    {
      SameSelection(t, u, s, out);
      SameSelection(u, t, s, out);
    }
    forall latest
      ensures IsLatest(t, c, latest) <==> IsLatest(u, c, latest)
    {
      SameLatest(t, u, c, latest);
      SameLatest(u, t, c, latest);
    }
  }

  lemma SameSelection(t: Rows, u: Rows, s: Selector, out: seq<Event>)
    requires forall e: Event :: e.chainID == Scope(s) ==> (InTable(t, e) <==> InTable(u, e))
    ensures IsAnswer(t, s, out) ==> IsAnswer(u, s, out)
  {
    hide InTable, MatchesFilter, MatchesFloored;
  }

  lemma SameLatest(t: Rows, u: Rows, c: string, latest: Option<nat>)
    requires SameRows(t, u, c)
    ensures IsLatest(t, c, latest) ==> IsLatest(u, c, latest)
  {
    forall k: Key | k in u && k.0 == c
      ensures k in t
    {
      assert k == (c, k.1);
    }
  }

  /** In particular Verify reports the same, for every store and all bounds, however the latest id is
      resolved. */
  ghost predicate SameVerify(t: Rows, u: Rows, c: string) {
    forall sha: Digest, st: Store, from: nat, to: nat, latest: Option<nat>, rows, r | StoreOk(st) && from < TWO64 && to < TWO64 ::
      DurableVerify(sha, st, t, c, from, to, latest, rows, r) <==> DurableVerify(sha, st, u, c, from, to, latest, rows, r)
  }

  /** Postgres resolves it from the rows. */
  ghost predicate SamePostgresVerify(t: Rows, u: Rows, c: string) {
    forall sha: Digest, st: Store, from: nat, to: nat, rows, r | StoreOk(st) && from < TWO64 && to < TWO64 ::
      PostgresVerify(sha, st, t, c, from, to, rows, r) <==> PostgresVerify(sha, st, u, c, from, to, rows, r)
  }

  lemma SameLatestSameVerify(t: Rows, u: Rows, c: string)
    requires SameAnswers(t, u, c) && SameVerify(t, u, c)
    ensures SamePostgresVerify(t, u, c)
  {
    hide DurableVerify, IsLatest, IsAnswer;
  }

  lemma SameAnswersSameVerify(t: Rows, u: Rows, c: string)
    requires SameAnswers(t, u, c)
    ensures SameVerify(t, u, c)
  {
    hide IsAnswer, IsLatest, Check;
  }

  // ---------------------------------------------------------------- Postgres

  /** Any step of the protocol but a commit on `c`, or tampering with another chain. */
  ghost predicate PostgresStep(cfg: Postgres.Config, s: Postgres.State, s': Postgres.State, c: string) {
    || (exists a :: Postgres.Takes(cfg, s, a, s') && (a.Commit? ==> s.calls[a.i].phase.row.chainID != c))
    || (s' == s.(table := s'.table) && EditedElsewhere(s.table, s'.table, c))
  }

  ghost predicate PostgresRun(cfg: Postgres.Config, ss: seq<Postgres.State>, c: string) {
    |ss| > 0 && forall n :: 0 <= n < |ss| - 1 ==> PostgresStep(cfg, ss[n], ss[n + 1], c)
  }

  lemma PostgresStepKeepsRows(cfg: Postgres.Config, s: Postgres.State, s': Postgres.State, c: string)
    requires PostgresStep(cfg, s, s', c)
    ensures SameRows(s.table, s'.table, c)
  {
    hide Postgres.NewRow, Postgres.Taken, Postgres.Pending, IsLast, Validate, EditedElsewhere;
    if a :| Postgres.Takes(cfg, s, a, s') && (a.Commit? ==> s.calls[a.i].phase.row.chainID != c) {
    } else {
      EditKeepsRows(s.table, s'.table, c);
    }
  }

  lemma {:induction false} PostgresRunKeepsRows(cfg: Postgres.Config, ss: seq<Postgres.State>, c: string, n: nat)
    requires PostgresRun(cfg, ss, c) && n < |ss|
    ensures SameRows(ss[0].table, ss[n].table, c)
    decreases n
  {
    hide PostgresStep;
    if n > 0 {
      PostgresRunKeepsRows(cfg, ss, c, n - 1);
      assert PostgresStep(cfg, ss[n - 1], ss[n - 1 + 1], c);
      PostgresStepKeepsRows(cfg, ss[n - 1], ss[n], c);
    }
  }

  /** Isolation over whole runs: however the protocol's steps, commits on other chains and tampering
      with other chains interleave, every answer about `c` stays the same. */
  lemma PostgresIsolation(cfg: Postgres.Config, ss: seq<Postgres.State>, c: string, n: nat)
    requires PostgresRun(cfg, ss, c) && n < |ss|
    ensures SameAnswers(ss[0].table, ss[n].table, c) && SamePostgresVerify(ss[0].table, ss[n].table, c)
  {
    hide PostgresRun, SameRows, SameAnswers, SameVerify, SamePostgresVerify;
    PostgresRunKeepsRows(cfg, ss, c, n);
    SameRowsSameAnswers(ss[0].table, ss[n].table, c);
    SameAnswersSameVerify(ss[0].table, ss[n].table, c);
    SameLatestSameVerify(ss[0].table, ss[n].table, c);
  }

  // ---------------------------------------------------------------- Mongo

  /** The same tail document of chain `c`. */
  predicate SameTail(s: Mongo.State, s': Mongo.State, c: string) {
    (c in s.tails <==> c in s'.tails) && (c in s.tails ==> s.tails[c] == s'.tails[c])
  }

  ghost predicate MongoStep(sha: Digest, s: Mongo.State, s': Mongo.State, c: string) {
    || (exists a :: Mongo.Takes(sha, s, a, s') &&
                    (a.Commit? ==> s.calls[a.i].draft.chainID != c && s.calls[a.i].phase.row.chainID != c))
    || (s' == s.(entries := s'.entries, tails := s'.tails) && EditedElsewhere(s.entries, s'.entries, c) && SameTail(s, s', c))
  }

  ghost predicate MongoRun(sha: Digest, ss: seq<Mongo.State>, c: string) {
    |ss| > 0 && forall n :: 0 <= n < |ss| - 1 ==> MongoStep(sha, ss[n], ss[n + 1], c)
  }

  lemma MongoStepKeepsRows(sha: Digest, s: Mongo.State, s': Mongo.State, c: string)
    requires MongoStep(sha, s, s', c)
    ensures SameRows(s.entries, s'.entries, c) && SameTail(s, s', c)
  {
    hide Mongo.NewRow, Validate, EditedElsewhere;
    if a :| Mongo.Takes(sha, s, a, s') &&
            (a.Commit? ==> s.calls[a.i].draft.chainID != c && s.calls[a.i].phase.row.chainID != c) {
    } else {
      EditKeepsRows(s.entries, s'.entries, c);
    }
  }

  lemma {:induction false} MongoRunKeepsRows(sha: Digest, ss: seq<Mongo.State>, c: string, n: nat)
    requires MongoRun(sha, ss, c) && n < |ss|
    ensures SameRows(ss[0].entries, ss[n].entries, c) && SameTail(ss[0], ss[n], c)
    decreases n
  {
    hide MongoStep;
    if n > 0 {
      MongoRunKeepsRows(sha, ss, c, n - 1);
      assert MongoStep(sha, ss[n - 1], ss[n - 1 + 1], c);
      MongoStepKeepsRows(sha, ss[n - 1], ss[n], c);
    }
  }

  /** Mongo's Verify, which resolves the latest id from the tail document, reports the same. */
  ghost predicate SameMongoVerify(s: Mongo.State, s': Mongo.State, c: string) {
    forall sha: Digest, st: Store, from: nat, to: nat, rows, r | StoreOk(st) && from < TWO64 && to < TWO64 ::
      MongoVerify(sha, st, s, c, from, to, rows, r) <==> MongoVerify(sha, st, s', c, from, to, rows, r)
  }

  lemma SameTailSameVerify(s: Mongo.State, s': Mongo.State, c: string)
    requires SameTail(s, s', c) && SameVerify(s.entries, s'.entries, c)
    ensures SameMongoVerify(s, s', c)
  {
    hide DurableVerify;
    assert TailLatest(s, c) == TailLatest(s', c);
  }

  /** The same for Mongo, with the tail document that LatestEntryID and Verify resolve. */
  lemma MongoIsolation(sha: Digest, ss: seq<Mongo.State>, c: string, n: nat)
    requires MongoRun(sha, ss, c) && n < |ss|
    ensures SameAnswers(ss[0].entries, ss[n].entries, c) && SameTail(ss[0], ss[n], c)
    ensures SameMongoVerify(ss[0], ss[n], c)
  {
    hide MongoRun, SameRows, SameAnswers, SameVerify, SameTail, SameMongoVerify;
    MongoRunKeepsRows(sha, ss, c, n);
    SameRowsSameAnswers(ss[0].entries, ss[n].entries, c);
    SameAnswersSameVerify(ss[0].entries, ss[n].entries, c);
    SameTailSameVerify(ss[0], ss[n], c);
  }
}
