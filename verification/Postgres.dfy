/** The Postgres append protocol (postgres.go): every Record is a transaction that takes an advisory
    lock, reads the tail, inserts one row and commits; transactions interleave step by step.
    Read-committed reads, the primary key and the unique hash index are the database's part.
    With `useLock` false the advisory lock is left out, and only the uniqueness constraints remain. */
module Postgres {
  import opened Text
  import opened Chain
  import opened Hash
  import opened Verify
  import opened Log
  import opened Table

  /** The digest, whether Record takes the lock, and the lock key of each chain: any function. */
  datatype Config = Config(sha: Digest, useLock: bool, lockKey: string -> int)

  datatype Phase =
    | Began                                    // transaction open, lock not yet held
    | Locked
    | Tailed(prevHash: string, nextID: nat)    // tail read
    | Inserted(row: Event)                     // row written, not yet visible to others
    | Committed(row: Event)                    // committed, not yet published
    | Returned(row: Event)                     // Record returned row.id
    | Lost(row: Event)                         // committed, but the acknowledgement was lost: Record returned an error
    | RolledBack                               // Record returned ErrBackendUnavailable

  datatype Call = Call(draft: Event, phase: Phase)

  datatype State = State(table: Rows, locks: map<int, nat>, calls: map<nat, Call>, published: seq<Event>)

  datatype Action =
    | Begin(i: nat, draft: Event, now: int)
    | Lock(i: nat)
    | ReadTail(i: nat, last: Option<Event>)
    | Insert(i: nat)
    | Violate(i: nat)                          // a committed row has the key or the hash
    | Abort(i: nat)                            // any error or cancellation before commit
    | Commit(i: nat, acknowledged: bool)
    | Publish(i: nat, accepted: bool)

  ghost predicate Initial(s: State) {
    s == State(map[], map[], map[], [])
  }

  function Key(cfg: Config, c: Call): int {
    cfg.lockKey(c.draft.chainID)
  }

  /** The row InsertEntry writes. */
  ghost function NewRow(sha: Digest, c: Call): Event
    requires c.phase.Tailed?
  {
    Linked(sha, c.draft, c.phase.prevHash, c.phase.nextID)
  }

  predicate Clash(e: Event, f: Event) {
    KeyOf(e) == KeyOf(f) || e.hash == f.hash
  }

  /** A committed row has the same key or the same hash. */
  ghost predicate Taken(t: Rows, e: Event) {
    KeyOf(e) in t || exists k :: k in t && t[k].hash == e.hash
  }

  /** An open transaction has written such a row: the insert has to wait for it. */
  ghost predicate Pending(s: State, e: Event) {
    exists j :: j in s.calls && s.calls[j].phase.Inserted? && Clash(s.calls[j].phase.row, e)
  }

  predicate Open(p: Phase) {
    p.Began? || p.Locked? || p.Tailed? || p.Inserted?
  }

  predicate Finished(p: Phase) {
    p.Returned? || p.Lost? || p.RolledBack?
  }

  ghost predicate Enabled(cfg: Config, s: State, a: Action) {
    match a
    case Begin(i, draft, _) => i !in s.calls && Validate(draft)
    case Lock(i) => i in s.calls && s.calls[i].phase.Began? && (cfg.useLock ==> Key(cfg, s.calls[i]) !in s.locks)
    case ReadTail(i, last) => i in s.calls && s.calls[i].phase.Locked? && IsLast(s.table, s.calls[i].draft.chainID, last)
    case Insert(i) =>
      i in s.calls && s.calls[i].phase.Tailed? &&
      var e := NewRow(cfg.sha, s.calls[i]);
      !Taken(s.table, e) && !Pending(s, e)
    case Violate(i) =>
      i in s.calls && s.calls[i].phase.Tailed? && Taken(s.table, NewRow(cfg.sha, s.calls[i]))
    case Abort(i) => i in s.calls && Open(s.calls[i].phase)
    case Commit(i, _) => i in s.calls && s.calls[i].phase.Inserted?
    case Publish(i, _) => i in s.calls && s.calls[i].phase.Committed?
  }

  function Move(s: State, i: nat, p: Phase): State
    requires i in s.calls
  {
    s.(calls := s.calls[i := s.calls[i].(phase := p)])
  }

  /** The transaction of call `i` ends: its lock, if it holds one, is released. */
  function Release(cfg: Config, s: State, i: nat): map<int, nat>
    requires i in s.calls
  {
    var k := Key(cfg, s.calls[i]);
    if k in s.locks && s.locks[k] == i then s.locks - {k} else s.locks
  }

  ghost function Apply(cfg: Config, s: State, a: Action): State
    requires Enabled(cfg, s, a)
  {
    match a
    case Begin(i, draft, now) => s.(calls := s.calls[i := Call(Timed(draft, now), Began)])
    case Lock(i) =>
      Move(s, i, Locked).(locks := if cfg.useLock then s.locks[Key(cfg, s.calls[i]) := i] else s.locks)
    case ReadTail(i, last) =>
      Move(s, i, if last.Some? then Tailed(last.value.hash, last.value.id + 1) else Tailed(GENESIS, 1))
    case Insert(i) => Move(s, i, Inserted(NewRow(cfg.sha, s.calls[i])))
    case Violate(i) => Move(s, i, RolledBack).(locks := Release(cfg, s, i))
    case Abort(i) => Move(s, i, RolledBack).(locks := Release(cfg, s, i))
    case Commit(i, acknowledged) =>
      var row := s.calls[i].phase.row;
      Move(s, i, if acknowledged then Committed(row) else Lost(row))
        .(table := s.table[KeyOf(row) := row], locks := Release(cfg, s, i))
    case Publish(i, accepted) =>
      var row := s.calls[i].phase.row;
      Move(s, i, Returned(row)).(published := if accepted then s.published + [row] else s.published)
  }

  // ---------------------------------------------------------------- the invariant

  predicate InTable(p: Phase) {
    p.Committed? || p.Returned? || p.Lost?
  }

  predicate Owns(p: Phase) {
    p.Inserted? || InTable(p)
  }

  ghost predicate CallOk(sha: Digest, t: Rows, c: Call) {
    && Validate(c.draft)
    && (c.phase.Tailed? ==> Follows(t, c.draft.chainID, c.phase.nextID, c.phase.prevHash))
    && (Owns(c.phase) ==> RowFrom(c.draft, c.phase.row))
    && (c.phase.Inserted? ==> GoodRow(sha, t, c.phase.row) && !Taken(t, c.phase.row))
    && (InTable(c.phase) ==> KeyOf(c.phase.row) in t && t[KeyOf(c.phase.row)] == c.phase.row)
  }

  /** No two calls own rows that clash: at most one row per call, one call per row. */
  ghost predicate Apart(s: State, i: nat, j: nat) {
    i in s.calls && j in s.calls && i != j && Owns(s.calls[i].phase) && Owns(s.calls[j].phase) ==>
      !Clash(s.calls[i].phase.row, s.calls[j].phase.row)
  }

  ghost predicate RowOfCall(s: State, e: Event, i: nat) {
    i in s.calls && InTable(s.calls[i].phase) && s.calls[i].phase.row == e
  }

  /** Every committed row is the row of some call. */
  ghost predicate HasOrigin(s: State, k: Table.Key) {
    k in s.table ==> exists i :: RowOfCall(s, s.table[k], i)
  }

  /** The entry is a committed row whose call has returned it. */
  ghost predicate Attributed(s: State, e: Event) {
    exists i :: RowOfCall(s, e, i) && s.calls[i].phase.Returned?
  }

  ghost predicate PublishedOk(s: State) {
    (forall e :: e in s.published ==> Attributed(s, e)) && NoRepeats(s.published)
  }

  ghost predicate Inv(cfg: Config, s: State) {
    && GoodTable(cfg.sha, s.table)
    && (forall i :: i in s.calls ==> CallOk(cfg.sha, s.table, s.calls[i]))
    && (forall i, j :: Apart(s, i, j))
    && (forall k :: HasOrigin(s, k))
    && PublishedOk(s)
  }

  // ---------------------------------------------------------------- every step keeps it

  /** The tail GetLastEntry returns is what the next row has to follow. */
  lemma TailFollows(sha: Digest, t: Rows, c: string, last: Option<Event>)
    requires GoodTable(sha, t) && IsLast(t, c, last)
    ensures match last
            case Some(e) => Follows(t, c, e.id + 1, e.hash) && (c, e.id + 1) !in t
            case None => Follows(t, c, 1, GENESIS) && (c, 1) !in t
  {
    hide View;
    if last.Some? {
      assert GoodAt(sha, t, KeyOf(last.value));
      assert (c, last.value.id + 1).1 > last.value.id;
    } else {
      assert (c, 1).0 == c;
    }
  }

  /** Changing the phase of one call, with the table and the bus untouched. */
  lemma Rephase(cfg: Config, s: State, i: nat, call: Call, s': State)
    requires Inv(cfg, s)
    requires s'.table == s.table && s'.published == s.published && s'.calls == s.calls[i := call]
    requires CallOk(cfg.sha, s.table, call)
    requires Owns(call.phase) ==> forall j :: j in s.calls && j != i && Owns(s.calls[j].phase) ==> !Clash(s.calls[j].phase.row, call.phase.row)
    requires i in s.calls && InTable(s.calls[i].phase) ==>
               InTable(call.phase) && call.phase.row == s.calls[i].phase.row && (s.calls[i].phase.Returned? ==> call.phase.Returned?)
    ensures Inv(cfg, s')
  {
    hide GoodTable, CallOk, NoRepeats;
    assert forall j :: j in s'.calls ==> CallOk(cfg.sha, s'.table, s'.calls[j]);
    forall j, k
      ensures Apart(s', j, k)
    {
      assert Apart(s, j, k);
    }
    forall e, j | RowOfCall(s, e, j)
      ensures RowOfCall(s', e, j) && (s.calls[j].phase.Returned? ==> s'.calls[j].phase.Returned?)
    {
    }
    RowsStayAttributed(s, s');
  }

  /** Origins and publications survive as long as no call gives up a row it has committed. */
  lemma RowsStayAttributed(s: State, s': State)
    requires forall k :: HasOrigin(s, k)
    requires PublishedOk(s) && s'.table == s.table && s'.published == s.published
    requires forall e, j :: RowOfCall(s, e, j) ==> RowOfCall(s', e, j) && (s.calls[j].phase.Returned? ==> s'.calls[j].phase.Returned?)
    ensures PublishedOk(s') && forall k :: HasOrigin(s', k)
  {
    forall k
      ensures HasOrigin(s', k)
    {
      assert HasOrigin(s, k);
    }
    forall e | e in s'.published
      ensures Attributed(s', e)
    {
      assert Attributed(s, e);
      var j :| RowOfCall(s, e, j) && s.calls[j].phase.Returned?;
      assert RowOfCall(s', e, j);
    }
  }

  lemma InsertKeepsInv(cfg: Config, s: State, i: nat)
    requires Inv(cfg, s) && Enabled(cfg, s, Action.Insert(i))
    ensures Inv(cfg, Apply(cfg, s, Action.Insert(i)))
  {
    hide GoodTable, Linked, GoodRow;
    var c := s.calls[i];
    var e := NewRow(cfg.sha, c);
    LinkedRowIsGood(cfg.sha, s.table, c.draft, c.phase.prevHash, c.phase.nextID);
    forall j | j in s.calls && j != i && Owns(s.calls[j].phase)
      ensures !Clash(s.calls[j].phase.row, e)
    {
      assert CallOk(cfg.sha, s.table, s.calls[j]);
    }
    Rephase(cfg, s, i, c.(phase := Inserted(e)), Apply(cfg, s, Action.Insert(i)));
  }

  /** A call stays in order when another call's row becomes visible. */
  lemma CallOkStable(sha: Digest, t: Rows, e: Event, c: Call)
    requires CallOk(sha, t, c) && KeyOf(e) !in t
    requires c.phase.Inserted? ==> !Clash(c.phase.row, e)
    ensures CallOk(sha, t[KeyOf(e) := e], c)
  {
    hide View;
    var u := t[KeyOf(e) := e];
    if c.phase.Inserted? {
      forall k | k in u
        ensures u[k].hash != c.phase.row.hash
      {
        assert k == KeyOf(e) || k in t;
      }
    }
  }

  lemma CommitKeepsInv(cfg: Config, s: State, i: nat, acknowledged: bool)
    requires Inv(cfg, s) && Enabled(cfg, s, Commit(i, acknowledged))
    ensures Inv(cfg, Apply(cfg, s, Commit(i, acknowledged)))
  {
    hide GoodTable, GoodRow, Taken, PublishedOk, HasOrigin;
    var s' := Apply(cfg, s, Commit(i, acknowledged));
    var e := s.calls[i].phase.row;
    assert CallOk(cfg.sha, s.table, s.calls[i]);
    CommitTable(cfg.sha, s.table, e);
    forall j | j in s'.calls
      ensures CallOk(cfg.sha, s'.table, s'.calls[j])
    {
      CommitCall(cfg, s, i, acknowledged, j);
    }
    forall j, k
      ensures Apart(s', j, k)
    {
      assert Apart(s, j, k);
    }
    CommitOrigins(cfg, s, i, acknowledged);
  }

  lemma CommitCall(cfg: Config, s: State, i: nat, acknowledged: bool, j: nat)
    requires Inv(cfg, s) && Enabled(cfg, s, Commit(i, acknowledged)) && j in s.calls
    ensures CallOk(cfg.sha, Apply(cfg, s, Commit(i, acknowledged)).table, Apply(cfg, s, Commit(i, acknowledged)).calls[j])
  {
    hide GoodTable, PublishedOk, HasOrigin, GoodRow;
    assert CallOk(cfg.sha, s.table, s.calls[i]) && CallOk(cfg.sha, s.table, s.calls[j]) && Apart(s, i, j);
    if j != i {
      CallOkStable(cfg.sha, s.table, s.calls[i].phase.row, s.calls[j]);
    }
  }

  lemma CommitTable(sha: Digest, t: Rows, e: Event)
    requires GoodTable(sha, t) && GoodRow(sha, t, e) && !Taken(t, e)
    ensures KeyOf(e) !in t && GoodTable(sha, t[KeyOf(e) := e])
  {
    InsertKeepsGood(sha, t, e);
  }

  lemma CommitOrigins(cfg: Config, s: State, i: nat, acknowledged: bool)
    requires Inv(cfg, s) && Enabled(cfg, s, Commit(i, acknowledged))
    ensures var s' := Apply(cfg, s, Commit(i, acknowledged));
            PublishedOk(s') && forall k :: HasOrigin(s', k)
  {
    hide GoodTable, CallOk;
    var s' := Apply(cfg, s, Commit(i, acknowledged));
    var e := s.calls[i].phase.row;
    forall k
      ensures HasOrigin(s', k)
    {
      assert HasOrigin(s, k);
      if k == KeyOf(e) {
        assert RowOfCall(s', e, i);
      } else if k in s.table {
        var j :| RowOfCall(s, s.table[k], j);
        assert RowOfCall(s', s.table[k], j);
      }
    }
    forall e | e in s'.published
      ensures Attributed(s', e)
    {
      assert Attributed(s, e);
      var j :| RowOfCall(s, e, j) && s.calls[j].phase.Returned?;
      assert RowOfCall(s', e, j);
    }
  }

  lemma PublishKeepsInv(cfg: Config, s: State, i: nat, accepted: bool)
    requires Inv(cfg, s) && Enabled(cfg, s, Publish(i, accepted))
    ensures Inv(cfg, Apply(cfg, s, Publish(i, accepted)))
  {
    hide GoodTable;
    var row := s.calls[i].phase.row;
    var quiet := Move(s, i, Returned(row));
    forall j | j in s.calls && j != i && Owns(s.calls[j].phase)
      ensures !Clash(s.calls[j].phase.row, row)
    {
      assert Apart(s, j, i);
    }
    assert CallOk(cfg.sha, s.table, s.calls[i]);
    Rephase(cfg, s, i, s.calls[i].(phase := Returned(row)), quiet);
    if accepted {
      PublishedOnce(cfg, s, i);
      AppendPublished(quiet, row, i);
      KeepOrigins(cfg, quiet, row);
    }
  }

  /** The row of a call that has not published yet is not on the bus. */
  lemma PublishedOnce(cfg: Config, s: State, i: nat)
    requires Inv(cfg, s) && i in s.calls && s.calls[i].phase.Committed?
    ensures s.calls[i].phase.row !in s.published
  {
    hide GoodTable, CallOk;
    var row := s.calls[i].phase.row;
    forall e | e in s.published
      ensures e != row
    {
      assert Attributed(s, e);
      var j :| RowOfCall(s, e, j) && s.calls[j].phase.Returned?;
      assert Apart(s, i, j);
    }
  }

  lemma AppendPublished(s: State, row: Event, i: nat)
    requires PublishedOk(s) && row !in s.published
    requires RowOfCall(s, row, i) && s.calls[i].phase.Returned?
    ensures PublishedOk(s.(published := s.published + [row]))
  {
    var s' := s.(published := s.published + [row]);
    forall e | e in s'.published
      ensures Attributed(s', e)
    {
      if e in s.published {
        assert Attributed(s, e);
        var j :| RowOfCall(s, e, j) && s.calls[j].phase.Returned?;
        assert RowOfCall(s', e, j);
      } else {
        assert RowOfCall(s', row, i);
      }
    }
    assert NoRepeats(s'.published);
  }

  lemma KeepOrigins(cfg: Config, s: State, row: Event)
    requires Inv(cfg, s) && PublishedOk(s.(published := s.published + [row]))
    ensures Inv(cfg, s.(published := s.published + [row]))
  {
    hide GoodTable, CallOk, PublishedOk;
    var s' := s.(published := s.published + [row]);
    forall j, k
      ensures Apart(s', j, k)
    {
      assert Apart(s, j, k);
    }
    forall k
      ensures HasOrigin(s', k)
    {
      assert HasOrigin(s, k);
      if k in s.table {
        var j :| RowOfCall(s, s.table[k], j);
        assert RowOfCall(s', s.table[k], j);
      }
    }
  }

  /** Steps that write nothing: the transaction starts, takes its lock, reads the tail or ends in vain. */
  predicate Quiet(a: Action) {
    a.Begin? || a.Lock? || a.ReadTail? || a.Violate? || a.Abort?
  }

  lemma QuietCallOk(cfg: Config, s: State, a: Action)
    requires Inv(cfg, s) && Enabled(cfg, s, a) && Quiet(a)
    ensures var s' := Apply(cfg, s, a);
            && s'.table == s.table && s'.published == s.published && a.i in s'.calls && s'.calls == s.calls[a.i := s'.calls[a.i]]
            && CallOk(cfg.sha, s.table, s'.calls[a.i]) && !Owns(s'.calls[a.i].phase)
            && (a.i in s.calls ==> !InTable(s.calls[a.i].phase))
  {
    hide GoodTable, GoodRow, PublishedOk, Taken, Pending, HasOrigin, Apart, Follows, IsLast, NewRow, Validate, RowFrom;
    if a.Begin? {
      TimedIsDraft(a.draft, a.now);
    } else {
      assert CallOk(cfg.sha, s.table, s.calls[a.i]);
      if a.ReadTail? {
        TailFollows(cfg.sha, s.table, s.calls[a.i].draft.chainID, a.last);
      }
    }
  }

  lemma QuietKeepsInv(cfg: Config, s: State, a: Action)
    requires Inv(cfg, s) && Enabled(cfg, s, a) && Quiet(a)
    ensures Inv(cfg, Apply(cfg, s, a))
  {
    hide Inv, Enabled, Apply, CallOk;
    var s' := Apply(cfg, s, a);
    QuietCallOk(cfg, s, a);
    Rephase(cfg, s, a.i, s'.calls[a.i], s');
  }

  /** Every step of every interleaving, with or without the lock, keeps the invariant. */
  lemma StepKeepsInv(cfg: Config, s: State, a: Action)
    requires Inv(cfg, s) && Enabled(cfg, s, a)
    ensures Inv(cfg, Apply(cfg, s, a))
  {
    hide Inv, Enabled, Apply;
    match a
    case Insert(i) => InsertKeepsInv(cfg, s, i);
    case Commit(i, acknowledged) => CommitKeepsInv(cfg, s, i, acknowledged);
    case Publish(i, accepted) => PublishKeepsInv(cfg, s, i, accepted);
    case _ => QuietKeepsInv(cfg, s, a);
  }

  // ---------------------------------------------------------------- what the lock adds

  predicate Holding(p: Phase) {
    p.Locked? || p.Tailed? || p.Inserted?
  }

  /** A working transaction holds the key of its chain, and a tail it has read is still the tail. */
  ghost predicate LockOk(cfg: Config, s: State, i: nat) {
    i in s.calls && Holding(s.calls[i].phase) ==>
      && Key(cfg, s.calls[i]) in s.locks && s.locks[Key(cfg, s.calls[i])] == i
      && (s.calls[i].phase.Tailed? ==> (s.calls[i].draft.chainID, s.calls[i].phase.nextID) !in s.table)
  }

  /** A held key belongs to a working transaction. */
  ghost predicate HolderOk(cfg: Config, s: State, k: int) {
    k in s.locks ==>
      var i := s.locks[k];
      i in s.calls && Holding(s.calls[i].phase) && Key(cfg, s.calls[i]) == k
  }

  ghost predicate LockInv(cfg: Config, s: State) {
    (forall i :: LockOk(cfg, s, i)) && (forall k :: HolderOk(cfg, s, k))
  }

  lemma StepKeepsLockInv(cfg: Config, s: State, a: Action)
    requires cfg.useLock && Inv(cfg, s) && LockInv(cfg, s) && Enabled(cfg, s, a)
    ensures LockInv(cfg, Apply(cfg, s, a))
  {
    hide Inv, Enabled, Apply, LockOk, HolderOk;
    var s' := Apply(cfg, s, a);
    forall j
      ensures LockOk(cfg, s', j)
    {
      StepKeepsLockOk(cfg, s, a, j);
    }
    forall k
      ensures HolderOk(cfg, s', k)
    {
      StepKeepsHolderOk(cfg, s, a, k);
    }
  }

  lemma StepKeepsLockOk(cfg: Config, s: State, a: Action, j: nat)
    requires cfg.useLock && Inv(cfg, s) && LockInv(cfg, s) && Enabled(cfg, s, a)
    ensures LockOk(cfg, Apply(cfg, s, a), j)
  {
    hide GoodTable, PublishedOk, Taken, Pending, NewRow, HasOrigin, Apart, GoodRow, Validate;
    assert LockOk(cfg, s, j) && LockOk(cfg, s, a.i);
    if a.ReadTail? {
      TailFollows(cfg.sha, s.table, s.calls[a.i].draft.chainID, a.last);
    } else if a.Commit? {
      assert CallOk(cfg.sha, s.table, s.calls[a.i]);
    }
  }

  lemma StepKeepsHolderOk(cfg: Config, s: State, a: Action, k: int)
    requires cfg.useLock && LockInv(cfg, s) && Enabled(cfg, s, a)
    ensures HolderOk(cfg, Apply(cfg, s, a), k)
  {
    hide Taken, Pending, NewRow, IsLast;
    assert HolderOk(cfg, s, k) && LockOk(cfg, s, a.i);
  }

  // ---------------------------------------------------------------- executions

  /** A run: states joined by enabled actions, from the empty database. */
  ghost predicate Execution(cfg: Config, ss: seq<State>, acts: seq<Action>) {
    && |ss| == |acts| + 1 && Initial(ss[0])
    && forall n :: 0 <= n < |acts| ==> Enabled(cfg, ss[n], acts[n]) && ss[n + 1] == Apply(cfg, ss[n], acts[n])
  }

  lemma InitialOk(cfg: Config, s: State)
    requires Initial(s)
    ensures Inv(cfg, s) && LockInv(cfg, s)
  {
    hide View;
  }

  lemma {:induction false} ReachableOk(cfg: Config, ss: seq<State>, acts: seq<Action>, n: nat)
    requires Execution(cfg, ss, acts) && n < |ss|
    ensures Inv(cfg, ss[n]) && (cfg.useLock ==> LockInv(cfg, ss[n]))
    decreases n
  {
    hide Inv, LockInv, Apply, Enabled;
    if n == 0 {
      InitialOk(cfg, ss[0]);
    } else {
      ReachableOk(cfg, ss, acts, n - 1);
      assert Enabled(cfg, ss[n - 1], acts[n - 1]) && ss[n - 1 + 1] == Apply(cfg, ss[n - 1], acts[n - 1]);
      StepKeepsInv(cfg, ss[n - 1], acts[n - 1]);
      if cfg.useLock {
        StepKeepsLockInv(cfg, ss[n - 1], acts[n - 1]);
      }
    }
  }

  // ---------------------------------------------------------------- the theorems

  /** In every state of every run, locked or not, for any lock-key function: the committed rows of
      each chain are numbered 1..n without gaps, linked and correctly hashed. */
  lemma EveryRunKeepsChainsHonest(cfg: Config, ss: seq<State>, acts: seq<Action>, n: nat, c: string)
    requires Execution(cfg, ss, acts) && n < |ss|
    ensures Honest(cfg.sha, c, ChainIn(ss[n].table, c))
    ensures forall id: nat :: (c, id) in ss[n].table <==> 1 <= id <= |ChainIn(ss[n].table, c)|
  {
    hide GoodTable, CallOk, Apart, HasOrigin, PublishedOk, LockInv, WalkFrom, Honest, Apply, Enabled;
    ReachableOk(cfg, ss, acts, n);
    TableIsHonest(cfg.sha, ss[n].table, c);
    forall id: nat
      ensures (c, id) in ss[n].table <==> 1 <= id <= |ChainIn(ss[n].table, c)|
    {
      NoGaps(cfg.sha, ss[n].table, c, id);
    }
  }

  /** What Record has returned is committed: its id is the position of a row made of its own draft,
      and that row is in the table for good. No other call owns the same position. */
  lemma ReturnedIsCommitted(cfg: Config, ss: seq<State>, acts: seq<Action>, n: nat, i: nat)
    requires Execution(cfg, ss, acts) && n < |ss| && i in ss[n].calls && ss[n].calls[i].phase.Returned?
    ensures var s := ss[n];
            var row := s.calls[i].phase.row;
            && RowFrom(s.calls[i].draft, row)
            && KeyOf(row) in s.table && s.table[KeyOf(row)] == row
            && forall j :: j in s.calls && j != i && InTable(s.calls[j].phase) ==> KeyOf(s.calls[j].phase.row) != KeyOf(row)
  {
    hide GoodTable, HasOrigin, PublishedOk, LockInv, Apply, Enabled;
    ReachableOk(cfg, ss, acts, n);
    var s := ss[n];
    assert CallOk(cfg.sha, s.table, s.calls[i]);
    forall j | j in s.calls && j != i && InTable(s.calls[j].phase)
      ensures KeyOf(s.calls[j].phase.row) != KeyOf(s.calls[i].phase.row)
    {
      assert Apart(s, i, j);
    }
  }

  /** The unique index: in every state of every run no two committed rows carry the same hash. */
  lemma EveryRunKeepsHashesUnique(cfg: Config, ss: seq<State>, acts: seq<Action>, n: nat, k: Table.Key, l: Table.Key)
    requires Execution(cfg, ss, acts) && n < |ss| && k in ss[n].table && l in ss[n].table && k != l
    ensures ss[n].table[k].hash != ss[n].table[l].hash
  {
    hide GoodRow, CallOk, PublishedOk, LockInv, Apply, Enabled;
    ReachableOk(cfg, ss, acts, n);
    var s := ss[n];
    assert HasOrigin(s, k) && HasOrigin(s, l);
    assert GoodAt(cfg.sha, s.table, k) && GoodAt(cfg.sha, s.table, l);
    var i :| RowOfCall(s, s.table[k], i);
    var j :| RowOfCall(s, s.table[l], j);
    assert Apart(s, i, j);
  }

  /** Each published entry is a committed row, and no entry is published twice. */
  lemma PublishedAreCommitted(cfg: Config, ss: seq<State>, acts: seq<Action>, n: nat)
    requires Execution(cfg, ss, acts) && n < |ss|
    ensures forall e :: e in ss[n].published ==> KeyOf(e) in ss[n].table && ss[n].table[KeyOf(e)] == e
    ensures NoRepeats(ss[n].published)
  {
    hide GoodTable, HasOrigin, LockInv, Apply, Enabled, NoRepeats;
    ReachableOk(cfg, ss, acts, n);
    var s := ss[n];
    forall e | e in s.published
      ensures KeyOf(e) in s.table && s.table[KeyOf(e)] == e
    {
      assert Attributed(s, e);
      var i :| RowOfCall(s, e, i) && s.calls[i].phase.Returned?;
      assert CallOk(cfg.sha, s.table, s.calls[i]);
    }
  }

  /** With the lock, the position a transaction has read for its row is free until it ends, and no
      other transaction is writing a row of that chain: the insert can neither violate the
      primary key nor wait for it. */
  lemma LockExcludesKeyConflicts(cfg: Config, ss: seq<State>, acts: seq<Action>, n: nat, i: nat)
    requires cfg.useLock && Execution(cfg, ss, acts) && n < |ss|
    requires i in ss[n].calls && ss[n].calls[i].phase.Tailed?
    ensures var s := ss[n];
            && (s.calls[i].draft.chainID, s.calls[i].phase.nextID) !in s.table
            && s.calls[i].phase.nextID == |ChainIn(s.table, s.calls[i].draft.chainID)| + 1
            && forall j :: j in s.calls && j != i && Holding(s.calls[j].phase) ==> s.calls[j].draft.chainID != s.calls[i].draft.chainID
  {
    hide GoodTable, HasOrigin, PublishedOk, Apply, Enabled, Apart, WalkFrom;
    ReachableOk(cfg, ss, acts, n);
    var s := ss[n];
    var c, id := s.calls[i].draft.chainID, s.calls[i].phase.nextID;
    assert LockOk(cfg, s, i) && CallOk(cfg.sha, s.table, s.calls[i]);
    NoGaps(cfg.sha, s.table, c, id);
    if id > 1 {
      NoGaps(cfg.sha, s.table, c, id - 1);
    }
    forall j | j in s.calls && j != i && Holding(s.calls[j].phase)
      ensures s.calls[j].draft.chainID != c
    {
      assert LockOk(cfg, s, j);
    }
  }

  /** Progress that a transaction makes by itself, as opposed to new calls and failures from outside. */
  predicate Progress(a: Action) {
    !a.Begin? && !a.Abort?
  }

  lemma HolderMoves(cfg: Config, s: State, i: nat) returns (a: Action)
    requires Inv(cfg, s) && i in s.calls && Holding(s.calls[i].phase)
    ensures Progress(a) && Enabled(cfg, s, a)
  {
    hide GoodTable, HasOrigin, PublishedOk, Apart, NewRow, GoodRow, CallOk;
    var c := s.calls[i];
    if c.phase.Locked? {
      var last := LastExists(cfg.sha, s.table, c.draft.chainID);
      a := ReadTail(i, last);
    } else if c.phase.Inserted? {
      a := Commit(i, true);
    } else {
      var e := NewRow(cfg.sha, c);
      if Taken(s.table, e) {
        a := Violate(i);
      } else if j :| j in s.calls && s.calls[j].phase.Inserted? && Clash(s.calls[j].phase.row, e) {
        a := Commit(j, true);
      } else {
        a := Action.Insert(i);
      }
    }
  }

  /** No reachable state is deadlocked: while a Record is unfinished, some transaction can go on. */
  lemma NoDeadlock(cfg: Config, ss: seq<State>, acts: seq<Action>, n: nat, i: nat) returns (a: Action)
    requires Execution(cfg, ss, acts) && n < |ss|
    requires i in ss[n].calls && !Finished(ss[n].calls[i].phase)
    ensures Progress(a) && Enabled(cfg, ss[n], a)
  {
    hide Inv, Apply;
    ReachableOk(cfg, ss, acts, n);
    var s := ss[n];
    var p := s.calls[i].phase;
    if p.Began? {
      var k := Key(cfg, s.calls[i]);
      if cfg.useLock && k in s.locks {
        assert HolderOk(cfg, s, k);
        a := HolderMoves(cfg, s, s.locks[k]);
      } else {
        a := Lock(i);
      }
    } else if p.Committed? {
      a := Publish(i, true);
    } else {
      a := HolderMoves(cfg, s, i);
    }
  }

  /** Refinement: seen through its committed rows, every step is one abstract Record or no step. */
  lemma StepRefines(cfg: Config, s: State, a: Action)
    requires Inv(cfg, s) && Enabled(cfg, s, a)
    ensures Total(Abstract(s.table)) && Log.Step(cfg.sha, Abstract(s.table), Abstract(Apply(cfg, s, a).table))
  {
    hide GoodTable, HasOrigin, PublishedOk, Apart, NewRow, GoodRow, WalkFrom, Stamp, ChainIn;
    if a.Commit? {
      var c := s.calls[a.i];
      assert CallOk(cfg.sha, s.table, c);
      InsertRefines(cfg.sha, s.table, c.draft, c.phase.row);
    }
  }

  /** The abstract logs of a run. */
  ghost function AbstractRun(ss: seq<State>): (ls: seq<AbstractLog>)
    ensures |ls| == |ss| && forall n :: 0 <= n < |ss| ==> ls[n] == Abstract(ss[n].table)
  {
    seq(|ss|, n requires 0 <= n < |ss| => Abstract(ss[n].table))
  }

  /** Every run of the protocol is a run of the abstract log. */
  lemma RunRefines(cfg: Config, ss: seq<State>, acts: seq<Action>)
    requires Execution(cfg, ss, acts)
    ensures Log.Run(cfg.sha, AbstractRun(ss))
  {
    hide Inv, LockInv, Enabled, Apply, Abstract, Step;
    var ls := AbstractRun(ss);
    forall n | 0 <= n < |ls| - 1
      ensures Total(ls[n]) && Step(cfg.sha, ls[n], ls[n + 1])
    {
      ReachableOk(cfg, ss, acts, n);
      assert Enabled(cfg, ss[n], acts[n]) && ss[n + 1] == Apply(cfg, ss[n], acts[n]);
      StepRefines(cfg, ss[n], acts[n]);
    }
    forall n | 0 <= n < |ls|
      ensures Total(ls[n])
    {
      AbstractIsTotal(ss[n].table);
    }
    EmptyTable();
  }

  /** Over every run the table only grows: a chain at one moment is a prefix of that chain at any
      later one. */
  lemma EveryRunOnlyAppends(cfg: Config, ss: seq<State>, acts: seq<Action>, m: nat, n: nat, c: string)
    requires Execution(cfg, ss, acts) && m <= n < |ss|
    ensures ChainIn(ss[m].table, c) <= ChainIn(ss[n].table, c)
  {
    hide Execution, Log.Run, AllHonest, ChainIn;
    RunRefines(cfg, ss, acts);
    RunKeepsHonest(cfg.sha, AbstractRun(ss), m, n, c);
  }

  // ---------------------------------------------------------------- every abstract Record can happen

  /** One step, with its guard. */
  ghost predicate Takes(cfg: Config, s: State, a: Action, s': State) {
    Enabled(cfg, s, a) && s' == Apply(cfg, s, a)
  }

  /** The lock and the tail: what an undisturbed transaction reads. */
  lemma SoloReads(cfg: Config, s: State, i: nat, draft: Event, now: int) returns (last: Option<Event>, s1: State, s2: State, s3: State)
    requires Inv(cfg, s) && i !in s.calls && Validate(draft)
    requires cfg.useLock ==> cfg.lockKey(draft.chainID) !in s.locks
    ensures Takes(cfg, s, Begin(i, draft, now), s1) && Takes(cfg, s1, Lock(i), s2) && Takes(cfg, s2, ReadTail(i, last), s3)
    ensures s3.table == s.table && s3.published == s.published && s3.calls.Keys == s.calls.Keys + {i}
    ensures forall j :: j in s.calls ==> s3.calls[j] == s.calls[j]
    ensures s3.calls[i].draft == Timed(draft, now) && s3.calls[i].phase.Tailed?
    ensures Follows(s.table, draft.chainID, s3.calls[i].phase.nextID, s3.calls[i].phase.prevHash)
    ensures (draft.chainID, s3.calls[i].phase.nextID) !in s.table
  {
    hide GoodTable, HasOrigin, PublishedOk, Apart, CallOk, Taken, Pending;
    TimedIsDraft(draft, now);
    last := LastExists(cfg.sha, s.table, draft.chainID);
    TailFollows(cfg.sha, s.table, draft.chainID, last);
    s1 := Apply(cfg, s, Begin(i, draft, now));
    s2 := Apply(cfg, s1, Lock(i));
    s3 := Apply(cfg, s2, ReadTail(i, last));
  }

  /** The insert, the commit and the publication. */
  lemma SoloWrites(cfg: Config, s: State, i: nat, e: Event) returns (s1: State, s2: State, s3: State)
    requires i in s.calls && s.calls[i].phase.Tailed? && NewRow(cfg.sha, s.calls[i]) == e
    requires !Taken(s.table, e) && !Pending(s, e)
    ensures Takes(cfg, s, Action.Insert(i), s1) && Takes(cfg, s1, Commit(i, true), s2) && Takes(cfg, s2, Publish(i, true), s3)
    ensures s3.table == s.table[KeyOf(e) := e] && s3.published == s.published + [e]
    ensures i in s3.calls && s3.calls[i].phase == Returned(e)
  {
    hide NewRow, Taken, Pending;
    s1 := Apply(cfg, s, Action.Insert(i));
    s2 := Apply(cfg, s1, Commit(i, true));
    s3 := Apply(cfg, s2, Publish(i, true));
  }

  /** The six steps of one Record, one after the other. */
  ghost predicate Undisturbed(cfg: Config, ss: seq<State>, i: nat, draft: Event, now: int, last: Option<Event>) {
    && |ss| == 7
    && Takes(cfg, ss[0], Begin(i, draft, now), ss[1])
    && Takes(cfg, ss[1], Lock(i), ss[2])
    && Takes(cfg, ss[2], ReadTail(i, last), ss[3])
    && Takes(cfg, ss[3], Action.Insert(i), ss[4])
    && Takes(cfg, ss[4], Commit(i, true), ss[5])
    && Takes(cfg, ss[5], Publish(i, true), ss[6])
  }

  /** Conversely, every abstract Record can happen: a transaction that nobody disturbs appends the
      stamped entry, returns its id and publishes it, unless another row already has its hash. */
  lemma RecordCanSucceed(cfg: Config, s: State, i: nat, draft: Event, now: int) returns (last: Option<Event>, ss: seq<State>)
    requires Inv(cfg, s) && i !in s.calls && Validate(draft)
    requires cfg.useLock ==> cfg.lockKey(draft.chainID) !in s.locks
    requires forall j :: j in s.calls ==> !s.calls[j].phase.Inserted?
    requires forall k :: k in s.table ==> s.table[k].hash != Stamp(cfg.sha, ChainIn(s.table, draft.chainID), Timed(draft, now)).hash
    ensures Undisturbed(cfg, ss, i, draft, now, last) && ss[0] == s
    ensures var e := Stamp(cfg.sha, ChainIn(s.table, draft.chainID), Timed(draft, now));
            && ss[6].table == s.table[KeyOf(e) := e] && ss[6].published == s.published + [e]
            && i in ss[6].calls && ss[6].calls[i].phase == Returned(e)
  {
    hide Stamp, ChainIn, Takes, Linked, Follows, GoodTable, CallOk, Apart, HasOrigin, PublishedOk;
    TimedIsDraft(draft, now);
    var e := Stamp(cfg.sha, ChainIn(s.table, draft.chainID), Timed(draft, now));
    var s1, s2, s3;
    last, s1, s2, s3 := SoloReads(cfg, s, i, draft, now);
    LinkedRowIsStamped(cfg.sha, s.table, Timed(draft, now), s3.calls[i].phase.prevHash, s3.calls[i].phase.nextID);
    assert !Pending(s3, e);
    var s4, s5, s6 := SoloWrites(cfg, s3, i, e);
    ss := [s, s1, s2, s3, s4, s5, s6];
  }

  // ---------------------------------------------------------------- publication is a side channel

  /** The same actions, except for what the bus answers. */
  predicate SameButBus(a: Action, b: Action) {
    a == b || (a.Publish? && b.Publish? && a.i == b.i)
  }

  /** The same state, except for what was published. */
  predicate SameButPublished(s: State, t: State) {
    t == s.(published := t.published)
  }

  lemma BusIsInvisible(cfg: Config, s: State, a: Action, t: State, b: Action)
    requires SameButPublished(s, t) && SameButBus(a, b) && Enabled(cfg, s, a)
    ensures Enabled(cfg, t, b) && SameButPublished(Apply(cfg, s, a), Apply(cfg, t, b))
  {
    hide Taken, Clash, NewRow, IsLast, Validate;
  }

  /** Publication over every run: change what the bus answers, at any number of places, and the run
      is still possible, with the same stored rows and the same progress and results of every
      call at every moment. */
  lemma {:induction false} PublishOutcomesAreInvisible(cfg: Config, ss: seq<State>, acts: seq<Action>, bcts: seq<Action>)
    returns (ts: seq<State>)
    requires Execution(cfg, ss, acts) && |bcts| == |acts| && forall n :: 0 <= n < |acts| ==> SameButBus(acts[n], bcts[n])
    ensures Execution(cfg, ts, bcts) && |ts| == |ss|
    ensures forall n :: 0 <= n < |ss| ==> SameButPublished(ss[n], ts[n])
    decreases |acts|
  {
    hide Enabled, Apply, SameButBus;
    if acts == [] {
      ts := ss;
    } else {
      var m := |acts| - 1;
      assert Enabled(cfg, ss[m], acts[m]) && ss[m + 1] == Apply(cfg, ss[m], acts[m]);
      ts := PublishOutcomesAreInvisible(cfg, ss[..m + 1], acts[..m], bcts[..m]);
      BusIsInvisible(cfg, ss[m], acts[m], ts[m], bcts[m]);
      ts := Extend(cfg, ts, bcts);
    }
  }

  /** One more step of an execution. */
  lemma Extend(cfg: Config, ss: seq<State>, acts: seq<Action>) returns (ts: seq<State>)
    requires acts != [] && Execution(cfg, ss, acts[..|acts| - 1]) && Enabled(cfg, ss[|ss| - 1], acts[|acts| - 1])
    ensures ts == ss + [Apply(cfg, ss[|ss| - 1], acts[|acts| - 1])] && Execution(cfg, ts, acts)
  {
    hide Enabled, Apply;
    var m := |acts| - 1;
    ts := ss + [Apply(cfg, ss[m], acts[m])];
    forall n | 0 <= n < |acts|
      ensures Enabled(cfg, ts[n], acts[n]) && ts[n + 1] == Apply(cfg, ts[n], acts[n])
    {
      if n < m {
        assert Enabled(cfg, ss[n], acts[..m][n]) && ss[n + 1] == Apply(cfg, ss[n], acts[..m][n]);
      }
    }
  }
}
