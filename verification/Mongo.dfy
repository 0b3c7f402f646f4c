/** The Mongo append protocol (mongo.go): every Record runs a callback inside a snapshot transaction
    over the entries collection and one tail document per chain; a conflicting attempt is aborted
    and the driver runs the callback again. The server's part: a transaction reads the state at
    its snapshot, commits atomically, and cannot commit if the tail document it replaces was
    written after its snapshot (an absent document counts as version 0) or if the compound
    unique index would be violated. */
module Mongo {
  import opened Text
  import opened Chain
  import opened Hash
  import opened Verify
  import opened Log
  import opened Table

  /** mongoChainState. */
  datatype TailDoc = TailDoc(lastEntryID: nat, lastHash: string)

  /** Where one attempt stands; `ver` is the version of the tail document at its snapshot. */
  datatype Phase =
    | Ready                                              // callback about to run (again)
    | Read(ver: nat, prevHash: string, nextID: nat)      // tail document read
    | Inserted(ver: nat, row: Event)                     // entry written inside the transaction
    | Replaced(ver: nat, row: Event)                     // tail document written, `recorded` assigned
    | InDoubt(row: Event)                                // committed on the server, acknowledgement missing
    | Committed(row: Event)
    | Returned(row: Event)                               // Record returned recorded.ID
    | Lost(row: Event)                                   // committed, but Record returned an error
    | GaveUp                                             // Record returned ErrBackendUnavailable

  /** `recorded` is the captured variable: it keeps its last value when an attempt is aborted. */
  datatype Call = Call(draft: Event, phase: Phase, recorded: Option<Event>)

  datatype State = State(
    entries: Rows, tails: map<string, TailDoc>, versions: map<string, nat>,
    calls: map<nat, Call>, published: seq<Event>)

  datatype Action =
    | Begin(i: nat, draft: Event, now: int)
    | Snapshot(i: nat)                                   // FindOne on the tail document
    | InsertOne(i: nat)
    | ReplaceOne(i: nat)
    | Commit(i: nat, acknowledged: bool)
    | RetryCommit(i: nat)                                // the driver repeats the commit, which is idempotent
    | Abort(i: nat)                                      // conflict or transient error: the callback will re-run
    | GiveUp(i: nat)                                     // non-transient error or retry time exhausted
    | Publish(i: nat, accepted: bool)

  ghost predicate Initial(s: State) {
    s == State(map[], map[], map[], map[], [])
  }

  function Version(s: State, c: string): nat {
    if c in s.versions then s.versions[c] else 0
  }

  /** The entry document InsertOne writes. */
  ghost function NewRow(sha: Digest, c: Call): Event
    requires c.phase.Read?
  {
    Linked(sha, c.draft, c.phase.prevHash, c.phase.nextID)
  }

  predicate Trying(p: Phase) {
    p.Ready? || p.Read? || p.Inserted? || p.Replaced?
  }

  predicate InStore(p: Phase) {
    p.InDoubt? || p.Committed? || p.Returned? || p.Lost?
  }

  ghost predicate Enabled(s: State, a: Action) {
    match a
    case Begin(i, draft, _) => i !in s.calls && Validate(draft)
    case Snapshot(i) => i in s.calls && s.calls[i].phase.Ready?
    case InsertOne(i) => i in s.calls && s.calls[i].phase.Read?
    case ReplaceOne(i) => i in s.calls && s.calls[i].phase.Inserted?
    case Commit(i, _) =>
      i in s.calls && s.calls[i].phase.Replaced? &&
      s.calls[i].phase.ver == Version(s, s.calls[i].draft.chainID) && KeyOf(s.calls[i].phase.row) !in s.entries
    case RetryCommit(i) => i in s.calls && s.calls[i].phase.InDoubt?
    case Abort(i) => i in s.calls && Trying(s.calls[i].phase)
    case GiveUp(i) => i in s.calls && (Trying(s.calls[i].phase) || s.calls[i].phase.InDoubt?)
    case Publish(i, _) => i in s.calls && s.calls[i].phase.Committed?
  }

  function Move(s: State, i: nat, p: Phase): State
    requires i in s.calls
  {
    s.(calls := s.calls[i := s.calls[i].(phase := p)])
  }

  ghost function Apply(sha: Digest, s: State, a: Action): State
    requires Enabled(s, a)
  {
    match a
    case Begin(i, draft, now) => s.(calls := s.calls[i := Call(Timed(draft, now), Ready, None)])
    case Snapshot(i) =>
      var c := s.calls[i].draft.chainID;
      Move(s, i,
           if c in s.tails then Read(Version(s, c), s.tails[c].lastHash, s.tails[c].lastEntryID + 1)
           else Read(Version(s, c), GENESIS, 1))
    case InsertOne(i) => Move(s, i, Inserted(s.calls[i].phase.ver, NewRow(sha, s.calls[i])))
    case ReplaceOne(i) =>
      var row := s.calls[i].phase.row;
      s.(calls := s.calls[i := s.calls[i].(phase := Replaced(s.calls[i].phase.ver, row), recorded := Some(row))])
    case Commit(i, acknowledged) =>
      var c, row := s.calls[i].draft.chainID, s.calls[i].phase.row;
      Move(s, i, if acknowledged then Committed(row) else InDoubt(row))
        .(entries := s.entries[KeyOf(row) := row],
          tails := s.tails[c := TailDoc(row.id, row.hash)],
          versions := s.versions[c := Version(s, c) + 1])
    case RetryCommit(i) => Move(s, i, Committed(s.calls[i].phase.row))
    case Abort(i) => Move(s, i, Ready)
    case GiveUp(i) => Move(s, i, if s.calls[i].phase.InDoubt? then Lost(s.calls[i].phase.row) else GaveUp)
    case Publish(i, accepted) =>
      var row := s.calls[i].phase.row;
      Move(s, i, Returned(row)).(published := if accepted then s.published + [row] else s.published)
  }

  // ---------------------------------------------------------------- the invariant

  /** The tail document of a chain names its last entry; the version counts its commits. */
  ghost predicate TailOk(s: State, c: string) {
    && (c !in s.tails ==> Version(s, c) == 0 && (c, 1) !in s.entries)
    && (c in s.tails ==>
          var d := s.tails[c];
          && d.lastEntryID == Version(s, c) >= 1
          && (c, d.lastEntryID) in s.entries && s.entries[(c, d.lastEntryID)].hash == d.lastHash
          && (c, d.lastEntryID + 1) !in s.entries)
  }

  /** An attempt extends the chain as of its snapshot, and `recorded` is the row it is about to
      commit or has committed. */
  ghost predicate CallOk(sha: Digest, t: Rows, c: Call) {
    && Validate(c.draft)
    && (c.phase.Read? ==> Follows(t, c.draft.chainID, c.phase.nextID, c.phase.prevHash) && c.phase.nextID == c.phase.ver + 1)
    && (c.phase.Inserted? || c.phase.Replaced? ==>
          RowFrom(c.draft, c.phase.row) && GoodRow(sha, t, c.phase.row) && c.phase.row.id == c.phase.ver + 1)
    && (c.phase.Replaced? || InStore(c.phase) ==> c.recorded == Some(c.phase.row))
    && (InStore(c.phase) ==>
          RowFrom(c.draft, c.phase.row) && KeyOf(c.phase.row) in t && t[KeyOf(c.phase.row)] == c.phase.row)
  }

  ghost predicate Apart(s: State, i: nat, j: nat) {
    i in s.calls && j in s.calls && i != j && InStore(s.calls[i].phase) && InStore(s.calls[j].phase) ==>
      KeyOf(s.calls[i].phase.row) != KeyOf(s.calls[j].phase.row)
  }

  ghost predicate RowOfCall(s: State, e: Event, i: nat) {
    i in s.calls && InStore(s.calls[i].phase) && s.calls[i].phase.row == e
  }

  ghost predicate HasOrigin(s: State, k: Key) {
    k in s.entries ==> exists i :: RowOfCall(s, s.entries[k], i)
  }

  ghost predicate Attributed(s: State, e: Event) {
    exists i :: RowOfCall(s, e, i) && s.calls[i].phase.Returned?
  }

  ghost predicate PublishedOk(s: State) {
    (forall e :: e in s.published ==> Attributed(s, e)) && NoRepeats(s.published)
  }

  ghost predicate Inv(sha: Digest, s: State) {
    && GoodTable(sha, s.entries)
    && (forall c :: TailOk(s, c))
    && (forall i :: i in s.calls ==> CallOk(sha, s.entries, s.calls[i]))
    && (forall i, j :: Apart(s, i, j))
    && (forall k :: HasOrigin(s, k))
    && PublishedOk(s)
  }

  // ---------------------------------------------------------------- every step keeps it

  /** Changing the phase of one call, with the collections and the bus untouched. */
  lemma Rephase(sha: Digest, s: State, i: nat, call: Call, s': State)
    requires Inv(sha, s)
    requires s' == s.(calls := s.calls[i := call])
    requires CallOk(sha, s.entries, call)
    requires InStore(call.phase) ==> i in s.calls && InStore(s.calls[i].phase)
    requires i in s.calls && InStore(s.calls[i].phase) ==>
               InStore(call.phase) && call.phase.row == s.calls[i].phase.row && (s.calls[i].phase.Returned? ==> call.phase.Returned?)
    ensures Inv(sha, s')
  {
    hide GoodTable, CallOk, NoRepeats;
    assert forall j :: j in s'.calls ==> CallOk(sha, s'.entries, s'.calls[j]);
    forall c
      ensures TailOk(s', c)
    {
      assert TailOk(s, c);
    }
    forall j, k
      ensures Apart(s', j, k)
    {
      assert Apart(s, j, k);
    }
    forall e, j | RowOfCall(s, e, j)
      ensures RowOfCall(s', e, j) && (s.calls[j].phase.Returned? ==> s'.calls[j].phase.Returned?)
    {
    }
    RowsStayAttributed(s, s');
  }

  lemma RowsStayAttributed(s: State, s': State)
    requires forall k :: HasOrigin(s, k)
    requires PublishedOk(s) && s'.entries == s.entries && s'.published == s.published
    requires forall e, j :: RowOfCall(s, e, j) ==> RowOfCall(s', e, j) && (s.calls[j].phase.Returned? ==> s'.calls[j].phase.Returned?)
    ensures PublishedOk(s') && forall k :: HasOrigin(s', k)
  {
    forall k
      ensures HasOrigin(s', k)
    {
      assert HasOrigin(s, k);
    }
    forall e | e in s'.published
      ensures Attributed(s', e)
    {
      assert Attributed(s, e);
      var j :| RowOfCall(s, e, j) && s.calls[j].phase.Returned?;
      assert RowOfCall(s', e, j);
    }
  }

  lemma SnapshotFollows(sha: Digest, s: State, c: string)
    requires GoodTable(sha, s.entries) && TailOk(s, c)
    ensures if c in s.tails
            then Follows(s.entries, c, s.tails[c].lastEntryID + 1, s.tails[c].lastHash) && s.tails[c].lastEntryID == Version(s, c)
            else Follows(s.entries, c, 1, GENESIS) && Version(s, c) == 0
  {
  }

  /** Steps inside a transaction, and the retries of the driver. */
  predicate Quiet(a: Action) {
    !a.Commit? && !a.Publish?
  }

  /** What a step inside a transaction leaves of its own call. */
  ghost predicate QuietChange(sha: Digest, s: State, i: nat, s': State) {
    && i in s'.calls && s' == s.(calls := s.calls[i := s'.calls[i]])
    && CallOk(sha, s.entries, s'.calls[i])
    && (InStore(s'.calls[i].phase) ==> i in s.calls && InStore(s.calls[i].phase))
    && (i in s.calls && InStore(s.calls[i].phase) ==>
          InStore(s'.calls[i].phase) && s'.calls[i].phase.row == s.calls[i].phase.row && !s.calls[i].phase.Returned?)
  }

  lemma SnapshotCallOk(sha: Digest, s: State, i: nat)
    requires Inv(sha, s) && Enabled(s, Snapshot(i))
    ensures QuietChange(sha, s, i, Apply(sha, s, Snapshot(i)))
  {
    hide GoodTable, PublishedOk, HasOrigin, Apart, Follows, GoodRow, Validate, NewRow, RowFrom;
    var call := s.calls[i];
    assert CallOk(sha, s.entries, call) && TailOk(s, call.draft.chainID);
    SnapshotFollows(sha, s, call.draft.chainID);
  }

  lemma InsertOneCallOk(sha: Digest, s: State, i: nat)
    requires Inv(sha, s) && Enabled(s, InsertOne(i))
    ensures QuietChange(sha, s, i, Apply(sha, s, InsertOne(i)))
  {
    hide GoodTable, PublishedOk, HasOrigin, Apart, Follows, GoodRow, Linked, TailOk;
    var c := s.calls[i];
    assert CallOk(sha, s.entries, c);
    LinkedRowIsGood(sha, s.entries, c.draft, c.phase.prevHash, c.phase.nextID);
  }

  lemma PlainCallOk(sha: Digest, s: State, a: Action)
    requires Inv(sha, s) && Enabled(s, a) && Quiet(a) && !a.Snapshot? && !a.InsertOne?
    ensures QuietChange(sha, s, a.i, Apply(sha, s, a))
  {
    hide GoodTable, PublishedOk, HasOrigin, Apart, Follows, GoodRow, TailOk, Validate, NewRow, RowFrom;
    if a.Begin? {
      TimedIsDraft(a.draft, a.now);
    } else {
      assert CallOk(sha, s.entries, s.calls[a.i]);
    }
  }

  lemma QuietCallOk(sha: Digest, s: State, a: Action)
    requires Inv(sha, s) && Enabled(s, a) && Quiet(a)
    ensures QuietChange(sha, s, a.i, Apply(sha, s, a))
  {
    hide Inv, Enabled, Apply, QuietChange;
    if a.Snapshot? {
      SnapshotCallOk(sha, s, a.i);
    } else if a.InsertOne? {
      InsertOneCallOk(sha, s, a.i);
    } else {
      PlainCallOk(sha, s, a);
    }
  }

  lemma QuietKeepsInv(sha: Digest, s: State, a: Action)
    requires Inv(sha, s) && Enabled(s, a) && Quiet(a)
    ensures Inv(sha, Apply(sha, s, a))
  {
    hide Inv, Enabled, Apply, CallOk;
    var s' := Apply(sha, s, a);
    QuietCallOk(sha, s, a);
    Rephase(sha, s, a.i, s'.calls[a.i], s');
  }

  lemma CallOkStable(sha: Digest, t: Rows, e: Event, c: Call)
    requires CallOk(sha, t, c) && KeyOf(e) !in t
    ensures CallOk(sha, t[KeyOf(e) := e], c)
  {
    hide View;
  }

  /** At a commit the row is the next one of its chain, whatever happened since the snapshot. */
  lemma CommitIsNext(sha: Digest, s: State, i: nat, acknowledged: bool)
    requires Inv(sha, s) && Enabled(s, Commit(i, acknowledged))
    ensures var e, c := s.calls[i].phase.row, s.calls[i].draft.chainID;
            && e.chainID == c && e.id == Version(s, c) + 1
            && GoodRow(sha, s.entries, e) && KeyOf(e) !in s.entries
            && RowFrom(s.calls[i].draft, e) && s.calls[i].recorded == Some(e)
  {
    hide GoodTable, PublishedOk, HasOrigin, Apart, GoodRow;
    assert CallOk(sha, s.entries, s.calls[i]);
  }

  lemma CommitKeepsInv(sha: Digest, s: State, i: nat, acknowledged: bool)
    requires Inv(sha, s) && Enabled(s, Commit(i, acknowledged))
    ensures Inv(sha, Apply(sha, s, Commit(i, acknowledged)))
  {
    hide GoodTable, GoodRow, PublishedOk, HasOrigin, TailOk, Apart;
    var s' := Apply(sha, s, Commit(i, acknowledged));
    var e := s.calls[i].phase.row;
    CommitIsNext(sha, s, i, acknowledged);
    InsertKeepsGood(sha, s.entries, e);
    forall j | j in s'.calls
      ensures CallOk(sha, s'.entries, s'.calls[j])
    {
      assert CallOk(sha, s.entries, s.calls[j]);
      if j != i {
        CallOkStable(sha, s.entries, e, s.calls[j]);
      }
    }
    forall c
      ensures TailOk(s', c)
    {
      CommitTail(sha, s, i, acknowledged, c);
    }
    forall j, k
      ensures Apart(s', j, k)
    {
      CommitApart(sha, s, i, acknowledged, j, k);
    }
    CommitOrigins(sha, s, i, acknowledged);
  }

  lemma CommitTail(sha: Digest, s: State, i: nat, acknowledged: bool, c: string)
    requires Inv(sha, s) && Enabled(s, Commit(i, acknowledged))
    ensures TailOk(Apply(sha, s, Commit(i, acknowledged)), c)
  {
    hide CallOk, PublishedOk, HasOrigin, Apart, GoodTable, GoodRow, Validate, NewRow, RowFrom;
    var e := s.calls[i].phase.row;
    CommitIsNext(sha, s, i, acknowledged);
    assert TailOk(s, c);
    NothingFollows(sha, s.entries, e);
  }

  lemma NothingFollows(sha: Digest, t: Rows, e: Event)
    requires GoodTable(sha, t) && KeyOf(e) !in t
    ensures (e.chainID, e.id + 1) in t ==> e.id == 0
  {
    hide View;
    assert GoodAt(sha, t, (e.chainID, e.id + 1));
  }

  lemma CommitApart(sha: Digest, s: State, i: nat, acknowledged: bool, j: nat, k: nat)
    requires Inv(sha, s) && Enabled(s, Commit(i, acknowledged))
    ensures Apart(Apply(sha, s, Commit(i, acknowledged)), j, k)
  {
    hide GoodTable, PublishedOk, HasOrigin, TailOk, GoodRow, Validate, NewRow, RowFrom, Follows;
    assert Apart(s, j, k);
    if j in s.calls {
      assert CallOk(sha, s.entries, s.calls[j]);
    }
    if k in s.calls {
      assert CallOk(sha, s.entries, s.calls[k]);
    }
  }

  lemma CommitOrigins(sha: Digest, s: State, i: nat, acknowledged: bool)
    requires Inv(sha, s) && Enabled(s, Commit(i, acknowledged))
    ensures var s' := Apply(sha, s, Commit(i, acknowledged));
            PublishedOk(s') && forall k :: HasOrigin(s', k)
  {
    hide GoodTable, CallOk, TailOk, Apart;
    var s' := Apply(sha, s, Commit(i, acknowledged));
    var e := s.calls[i].phase.row;
    forall k
      ensures HasOrigin(s', k)
    {
      assert HasOrigin(s, k);
      if k == KeyOf(e) {
        assert RowOfCall(s', e, i);
      } else if k in s.entries {
        var j :| RowOfCall(s, s.entries[k], j);
        assert RowOfCall(s', s.entries[k], j);
      }
    }
    forall e | e in s'.published
      ensures Attributed(s', e)
    {
      assert Attributed(s, e);
      var j :| RowOfCall(s, e, j) && s.calls[j].phase.Returned?;
      assert RowOfCall(s', e, j);
    }
  }

  lemma PublishedOnce(sha: Digest, s: State, i: nat)
    requires Inv(sha, s) && i in s.calls && s.calls[i].phase.Committed?
    ensures s.calls[i].phase.row !in s.published
  {
    hide GoodTable, CallOk, TailOk, HasOrigin;
    var row := s.calls[i].phase.row;
    forall e | e in s.published
      ensures e != row
    {
      assert Attributed(s, e);
      var j :| RowOfCall(s, e, j) && s.calls[j].phase.Returned?;
      assert Apart(s, i, j);
    }
  }

  lemma AppendPublished(s: State, row: Event, i: nat)
    requires PublishedOk(s) && row !in s.published
    requires RowOfCall(s, row, i) && s.calls[i].phase.Returned?
    ensures PublishedOk(s.(published := s.published + [row]))
  {
    var s' := s.(published := s.published + [row]);
    forall e | e in s'.published
      ensures Attributed(s', e)
    {
      if e in s.published {
        assert Attributed(s, e);
        var j :| RowOfCall(s, e, j) && s.calls[j].phase.Returned?;
        assert RowOfCall(s', e, j);
      } else {
        assert RowOfCall(s', row, i);
      }
    }
    assert NoRepeats(s'.published);
  }

  lemma KeepRest(sha: Digest, s: State, row: Event)
    requires Inv(sha, s) && PublishedOk(s.(published := s.published + [row]))
    ensures Inv(sha, s.(published := s.published + [row]))
  {
    hide GoodTable, CallOk, PublishedOk;
    var s' := s.(published := s.published + [row]);
    forall c
      ensures TailOk(s', c)
    {
      assert TailOk(s, c);
    }
    forall j, k
      ensures Apart(s', j, k)
    {
      assert Apart(s, j, k);
    }
    forall k
      ensures HasOrigin(s', k)
    {
      assert HasOrigin(s, k);
      if k in s.entries {
        var j :| RowOfCall(s, s.entries[k], j);
        assert RowOfCall(s', s.entries[k], j);
      }
    }
  }

  lemma PublishKeepsInv(sha: Digest, s: State, i: nat, accepted: bool)
    requires Inv(sha, s) && Enabled(s, Publish(i, accepted))
    ensures Inv(sha, Apply(sha, s, Publish(i, accepted)))
  {
    hide GoodTable, TailOk, HasOrigin, PublishedOk, Apart;
    var row := s.calls[i].phase.row;
    var quiet := Move(s, i, Returned(row));
    assert CallOk(sha, s.entries, s.calls[i]);
    Rephase(sha, s, i, s.calls[i].(phase := Returned(row)), quiet);
    if accepted {
      PublishedOnce(sha, s, i);
      AppendPublished(quiet, row, i);
      KeepRest(sha, quiet, row);
    }
  }

  /** Every step of every interleaving of attempts keeps the invariant. */
  lemma StepKeepsInv(sha: Digest, s: State, a: Action)
    requires Inv(sha, s) && Enabled(s, a)
    ensures Inv(sha, Apply(sha, s, a))
  {
    hide Inv, Enabled, Apply;
    match a
    case Commit(i, acknowledged) => CommitKeepsInv(sha, s, i, acknowledged);
    case Publish(i, accepted) => PublishKeepsInv(sha, s, i, accepted);
    case _ => QuietKeepsInv(sha, s, a);
  }

  // ---------------------------------------------------------------- executions

  ghost predicate Execution(sha: Digest, ss: seq<State>, acts: seq<Action>) {
    && |ss| == |acts| + 1 && Initial(ss[0])
    && forall n :: 0 <= n < |acts| ==> Enabled(ss[n], acts[n]) && ss[n + 1] == Apply(sha, ss[n], acts[n])
  }

  lemma InitialOk(sha: Digest, s: State)
    requires Initial(s)
    ensures Inv(sha, s)
  {
    hide View;
  }

  lemma {:induction false} ReachableOk(sha: Digest, ss: seq<State>, acts: seq<Action>, n: nat)
    requires Execution(sha, ss, acts) && n < |ss|
    ensures Inv(sha, ss[n])
    decreases n
  {
    hide Inv, Apply, Enabled;
    if n == 0 {
      InitialOk(sha, ss[0]);
    } else {
      ReachableOk(sha, ss, acts, n - 1);
      assert Enabled(ss[n - 1], acts[n - 1]) && ss[n - 1 + 1] == Apply(sha, ss[n - 1], acts[n - 1]);
      StepKeepsInv(sha, ss[n - 1], acts[n - 1]);
    }
  }

  // ---------------------------------------------------------------- the theorems

  /** In every reachable state each chain is honest and its tail document names its last entry. */
  lemma EveryRunKeepsTails(sha: Digest, ss: seq<State>, acts: seq<Action>, n: nat, c: string)
    requires Execution(sha, ss, acts) && n < |ss|
    ensures var es := ChainIn(ss[n].entries, c);
            && Honest(sha, c, es)
            && (c in ss[n].tails <==> es != [])
            && (es != [] ==> ss[n].tails[c] == TailDoc(|es|, es[|es| - 1].hash))
  {
    hide GoodTable, CallOk, Apart, HasOrigin, PublishedOk, WalkFrom, Honest, Apply, Enabled;
    ReachableOk(sha, ss, acts, n);
    var s := ss[n];
    var es := ChainIn(s.entries, c);
    TableIsHonest(sha, s.entries, c);
    assert TailOk(s, c);
    NoGaps(sha, s.entries, c, 1);
    NoGaps(sha, s.entries, c, |es|);
    if c in s.tails {
      NoGaps(sha, s.entries, c, s.tails[c].lastEntryID);
      NoGaps(sha, s.entries, c, s.tails[c].lastEntryID + 1);
    }
  }

  /** Record returns the id of the attempt that committed, however many attempts ran before it and
      whatever they had recorded: that row is in the collection, is made of the call's own draft,
      and no other call has committed a row there. */
  lemma ReturnedIsCommitted(sha: Digest, ss: seq<State>, acts: seq<Action>, n: nat, i: nat)
    requires Execution(sha, ss, acts) && n < |ss| && i in ss[n].calls && ss[n].calls[i].phase.Returned?
    ensures var s := ss[n];
            s.calls[i].recorded.Some? &&
            var row := s.calls[i].recorded.value;
            && RowFrom(s.calls[i].draft, row)
            && KeyOf(row) in s.entries && s.entries[KeyOf(row)] == row
            && forall j :: j in s.calls && j != i && InStore(s.calls[j].phase) ==> KeyOf(s.calls[j].phase.row) != KeyOf(row)
  {
    hide GoodTable, HasOrigin, PublishedOk, TailOk, Apply, Enabled;
    ReachableOk(sha, ss, acts, n);
    var s := ss[n];
    assert CallOk(sha, s.entries, s.calls[i]);
    forall j | j in s.calls && j != i && InStore(s.calls[j].phase)
      ensures KeyOf(s.calls[j].phase.row) != KeyOf(s.calls[i].phase.row)
    {
      assert Apart(s, i, j);
    }
  }

  /** Once a call has committed a row it keeps that row and commits no other. */
  lemma CommittedStays(sha: Digest, s: State, a: Action, i: nat)
    requires Enabled(s, a) && i in s.calls && InStore(s.calls[i].phase)
    ensures var s' := Apply(sha, s, a);
            && i in s'.calls && InStore(s'.calls[i].phase) && s'.calls[i].phase.row == s.calls[i].phase.row
            && !(a.Commit? && a.i == i)
  {
    hide NewRow;
  }

  lemma {:induction false} CommittedUntil(sha: Digest, ss: seq<State>, acts: seq<Action>, m: nat, n: nat, i: nat)
    requires Execution(sha, ss, acts) && m <= n < |ss| && i in ss[m].calls && InStore(ss[m].calls[i].phase)
    ensures i in ss[n].calls && InStore(ss[n].calls[i].phase) && ss[n].calls[i].phase.row == ss[m].calls[i].phase.row
    decreases n
  {
    hide Apply, Enabled;
    if m < n {
      CommittedUntil(sha, ss, acts, m, n - 1, i);
      assert Enabled(ss[n - 1], acts[n - 1]) && ss[n - 1 + 1] == Apply(sha, ss[n - 1], acts[n - 1]);
      CommittedStays(sha, ss[n - 1], acts[n - 1], i);
    }
  }

  /** At most one entry per call: however often the callback is re-run and the commit repeated, no
      run has two commits by one call. */
  lemma OneEntryPerCall(sha: Digest, ss: seq<State>, acts: seq<Action>, m: nat, n: nat)
    requires Execution(sha, ss, acts) && m < n < |acts| && acts[m].Commit? && acts[n].Commit?
    ensures acts[m].i != acts[n].i
  {
    hide NewRow;
    var i := acts[m].i;
    assert Enabled(ss[m], acts[m]) && ss[m + 1] == Apply(sha, ss[m], acts[m]);
    CommittedUntil(sha, ss, acts, m + 1, n, i);
    assert Enabled(ss[n], acts[n]);
  }

  /** A finished attempt is kept from committing only by somebody else's commit on the same chain
      after its snapshot: the position it wanted is taken. Two writers that both found no tail
      document are the case of version 0. */
  lemma CommitBlockedOnlyByProgress(sha: Digest, ss: seq<State>, acts: seq<Action>, n: nat, i: nat)
    requires Execution(sha, ss, acts) && n < |ss| && i in ss[n].calls && ss[n].calls[i].phase.Replaced?
    ensures var s := ss[n];
            Enabled(s, Commit(i, true)) <==> KeyOf(s.calls[i].phase.row) !in s.entries
  {
    hide Inv, Apply, GoodTable, WalkFrom;
    ReachableOk(sha, ss, acts, n);
    var s := ss[n];
    var e := s.calls[i].phase.row;
    AttemptPosition(sha, s, i);
    VersionIsLength(sha, s, e.chainID);
    NoGapsIn(sha, s, e.chainID, e.id);
    NoGapsIn(sha, s, e.chainID, e.id - 1);
  }

  /** When one of several racing attempts on a chain commits, none of the others can any more,
      whatever their snapshots: each has to run its callback again. */
  lemma RaceHasOneWinner(sha: Digest, s: State, i: nat, j: nat, acknowledged: bool)
    requires Inv(sha, s) && Enabled(s, Commit(i, acknowledged)) && i != j
    requires j in s.calls && s.calls[j].phase.Replaced? && s.calls[j].draft.chainID == s.calls[i].draft.chainID
    ensures !Enabled(Apply(sha, s, Commit(i, acknowledged)), Commit(j, true))
  {
    hide Inv, WalkFrom;
    var e := s.calls[j].phase.row;
    AttemptPosition(sha, s, j);
    VersionIsLength(sha, s, e.chainID);
    NoGapsIn(sha, s, e.chainID, e.id - 1);
  }

  lemma NoGapsIn(sha: Digest, s: State, c: string, id: nat)
    requires Inv(sha, s)
    ensures (c, id) in s.entries <==> 1 <= id <= |ChainIn(s.entries, c)|
  {
    hide GoodTable, CallOk, HasOrigin, PublishedOk, Apart, WalkFrom, TailOk;
    NoGaps(sha, s.entries, c, id);
  }

  /** An attempt's row comes right after the chain as of its snapshot. */
  lemma AttemptPosition(sha: Digest, s: State, i: nat)
    requires Inv(sha, s) && i in s.calls && s.calls[i].phase.Replaced?
    ensures var e := s.calls[i].phase.row;
            && e.chainID == s.calls[i].draft.chainID && e.id == s.calls[i].phase.ver + 1
            && (e.id > 1 ==> (e.chainID, e.id - 1) in s.entries)
  {
    hide GoodTable, HasOrigin, PublishedOk, Apart, TailOk, View;
    assert CallOk(sha, s.entries, s.calls[i]);
  }

  /** The version of a tail document counts the entries of its chain. */
  lemma VersionIsLength(sha: Digest, s: State, c: string)
    requires Inv(sha, s)
    ensures Version(s, c) == |ChainIn(s.entries, c)|
  {
    hide GoodTable, CallOk, HasOrigin, PublishedOk, Apart, WalkFrom;
    assert TailOk(s, c);
    NoGaps(sha, s.entries, c, 1);
    NoGaps(sha, s.entries, c, Version(s, c));
    NoGaps(sha, s.entries, c, Version(s, c) + 1);
  }

  /** Each published entry is a stored entry, and no entry is published twice. */
  lemma PublishedAreCommitted(sha: Digest, ss: seq<State>, acts: seq<Action>, n: nat)
    requires Execution(sha, ss, acts) && n < |ss|
    ensures forall e :: e in ss[n].published ==> KeyOf(e) in ss[n].entries && ss[n].entries[KeyOf(e)] == e
    ensures NoRepeats(ss[n].published)
  {
    hide GoodTable, HasOrigin, TailOk, Apply, Enabled, NoRepeats;
    ReachableOk(sha, ss, acts, n);
    var s := ss[n];
    forall e | e in s.published
      ensures KeyOf(e) in s.entries && s.entries[KeyOf(e)] == e
    {
      assert Attributed(s, e);
      var i :| RowOfCall(s, e, i) && s.calls[i].phase.Returned?;
      assert CallOk(sha, s.entries, s.calls[i]);
    }
  }

  /** Refinement: seen through its entries, every step is one abstract Record or no step. */
  lemma StepRefines(sha: Digest, s: State, a: Action)
    requires Inv(sha, s) && Enabled(s, a)
    ensures Total(Abstract(s.entries)) && Log.Step(sha, Abstract(s.entries), Abstract(Apply(sha, s, a).entries))
  {
    hide GoodTable, HasOrigin, PublishedOk, Apart, NewRow, GoodRow, WalkFrom, Stamp, ChainIn, TailOk;
    if a.Commit? {
      CommitIsNext(sha, s, a.i, a.acknowledged);
      InsertRefines(sha, s.entries, s.calls[a.i].draft, s.calls[a.i].phase.row);
    }
  }

  ghost function AbstractRun(ss: seq<State>): (ls: seq<AbstractLog>)
    ensures |ls| == |ss| && forall n :: 0 <= n < |ss| ==> ls[n] == Abstract(ss[n].entries)
  {
    seq(|ss|, n requires 0 <= n < |ss| => Abstract(ss[n].entries))
  }

  /** Every run of the protocol is a run of the abstract log. */
  lemma RunRefines(sha: Digest, ss: seq<State>, acts: seq<Action>)
    requires Execution(sha, ss, acts)
    ensures Log.Run(sha, AbstractRun(ss))
  {
    hide Inv, Enabled, Apply, Abstract, Step;
    var ls := AbstractRun(ss);
    forall n | 0 <= n < |ls| - 1
      ensures Total(ls[n]) && Step(sha, ls[n], ls[n + 1])
    {
      ReachableOk(sha, ss, acts, n);
      assert Enabled(ss[n], acts[n]) && ss[n + 1] == Apply(sha, ss[n], acts[n]);
      StepRefines(sha, ss[n], acts[n]);
    }
    forall n | 0 <= n < |ls|
      ensures Total(ls[n])
    {
      AbstractIsTotal(ss[n].entries);
    }
    EmptyTable();
  }

  /** Over every run the collection only grows: a chain at one moment is a prefix of that chain at
      any later one. */
  lemma EveryRunOnlyAppends(sha: Digest, ss: seq<State>, acts: seq<Action>, m: nat, n: nat, c: string)
    requires Execution(sha, ss, acts) && m <= n < |ss|
    ensures ChainIn(ss[m].entries, c) <= ChainIn(ss[n].entries, c)
  {
    hide Execution, Log.Run, AllHonest, ChainIn;
    RunRefines(sha, ss, acts);
    RunKeepsHonest(sha, AbstractRun(ss), m, n, c);
  }

  // ---------------------------------------------------------------- every abstract Record can happen

  ghost predicate Takes(sha: Digest, s: State, a: Action, s': State) {
    Enabled(s, a) && s' == Apply(sha, s, a)
  }

  /** One attempt, its commit and the publication, one step after the other. */
  ghost predicate Attempt(sha: Digest, ss: seq<State>, i: nat) {
    && |ss| == 6
    && Takes(sha, ss[0], Snapshot(i), ss[1])
    && Takes(sha, ss[1], InsertOne(i), ss[2])
    && Takes(sha, ss[2], ReplaceOne(i), ss[3])
    && Takes(sha, ss[3], Commit(i, true), ss[4])
    && Takes(sha, ss[4], Publish(i, true), ss[5])
  }

  /** What a successful Record leaves behind: the stamped entry, the tail document that names it, the
      entry on the bus, and its id returned. */
  ghost predicate Succeeded(sha: Digest, s: State, i: nat, draft: Event, s': State) {
    var e := Stamp(sha, ChainIn(s.entries, draft.chainID), draft);
    && s'.entries == s.entries[KeyOf(e) := e] && s'.tails == s.tails[draft.chainID := TailDoc(e.id, e.hash)]
    && i in s'.calls && s'.calls[i].phase == Returned(e) && s'.published == s.published + [e]
  }

  /** The snapshot of a new attempt, and the row it makes. */
  lemma AttemptReads(sha: Digest, s: State, i: nat) returns (s1: State, s2: State)
    requires Inv(sha, s) && i in s.calls && s.calls[i].phase.Ready?
    ensures Takes(sha, s, Snapshot(i), s1) && Takes(sha, s1, InsertOne(i), s2)
    ensures s2 == s.(calls := s2.calls) && i in s2.calls && s2.calls[i].draft == s.calls[i].draft
    ensures var draft := s.calls[i].draft;
            var e := Stamp(sha, ChainIn(s.entries, draft.chainID), draft);
            && s2.calls[i].phase == Inserted(Version(s, draft.chainID), e)
            && e.chainID == draft.chainID && KeyOf(e) !in s.entries
  {
    hide GoodTable, HasOrigin, PublishedOk, Apart, Linked, Stamp, ChainIn, Follows, RowFrom, GoodRow;
    var draft := s.calls[i].draft;
    s1 := Apply(sha, s, Snapshot(i));
    s2 := Apply(sha, s1, InsertOne(i));
    assert TailOk(s, draft.chainID) && CallOk(sha, s.entries, s.calls[i]);
    SnapshotFollows(sha, s, draft.chainID);
    LinkedRowIsStamped(sha, s.entries, draft, s1.calls[i].phase.prevHash, s1.calls[i].phase.nextID);
  }

  lemma AttemptCommits(sha: Digest, s: State, i: nat, e: Event) returns (s1: State, s2: State, s3: State)
    requires i in s.calls && e.chainID == s.calls[i].draft.chainID && KeyOf(e) !in s.entries
    requires s.calls[i].phase == Inserted(Version(s, e.chainID), e)
    ensures Takes(sha, s, ReplaceOne(i), s1) && Takes(sha, s1, Commit(i, true), s2) && Takes(sha, s2, Publish(i, true), s3)
    ensures s3.entries == s.entries[KeyOf(e) := e] && s3.tails == s.tails[e.chainID := TailDoc(e.id, e.hash)]
    ensures i in s3.calls && s3.calls[i].phase == Returned(e) && s3.published == s.published + [e]
  {
    hide NewRow;
    s1 := Apply(sha, s, ReplaceOne(i));
    s2 := Apply(sha, s1, Commit(i, true));
    s3 := Apply(sha, s2, Publish(i, true));
  }

  /** From every reachable state and whatever other attempts are open, an undisturbed attempt succeeds. */
  lemma AttemptSucceeds(sha: Digest, s: State, i: nat) returns (ss: seq<State>)
    requires Inv(sha, s) && i in s.calls && s.calls[i].phase.Ready?
    ensures Attempt(sha, ss, i) && ss[0] == s && Succeeded(sha, s, i, s.calls[i].draft, ss[5])
  {
    hide Inv, Stamp, ChainIn, Takes, Validate;
    var e := Stamp(sha, ChainIn(s.entries, s.calls[i].draft.chainID), s.calls[i].draft);
    var s1, s2 := AttemptReads(sha, s, i);
    var s3, s4, s5 := AttemptCommits(sha, s2, i, e);
    ss := [s, s1, s2, s3, s4, s5];
  }

  /** Conversely, every abstract Record can happen: a new call whose first attempt is undisturbed
      appends the stamped entry, moves the tail document to it, returns its id and publishes it. */
  lemma RecordCanSucceed(sha: Digest, s: State, i: nat, draft: Event, now: int) returns (ss: seq<State>)
    requires Inv(sha, s) && i !in s.calls && Validate(draft)
    ensures Attempt(sha, ss, i) && Takes(sha, s, Begin(i, draft, now), ss[0])
    ensures Succeeded(sha, s, i, Timed(draft, now), ss[5])
  {
    hide Inv, ChainIn, Attempt, Validate, Stamp;
    TimedIsDraft(draft, now);
    var s0 := Apply(sha, s, Begin(i, draft, now));
    StepKeepsInv(sha, s, Begin(i, draft, now));
    ss := AttemptSucceeds(sha, s0, i);
  }

  /** An attempt that fails at any point before its commit, undone and run again, can succeed: the
      callback keeps nothing of the failed attempt. */
  lemma RetryCanSucceed(sha: Digest, s: State, i: nat) returns (ss: seq<State>)
    requires Inv(sha, s) && i in s.calls && Trying(s.calls[i].phase)
    ensures Attempt(sha, ss, i) && Takes(sha, s, Abort(i), ss[0])
    ensures Succeeded(sha, s, i, s.calls[i].draft, ss[5])
  {
    hide Inv, ChainIn, Attempt, Validate, Stamp;
    var s0 := Apply(sha, s, Abort(i));
    StepKeepsInv(sha, s, Abort(i));
    ss := AttemptSucceeds(sha, s0, i);
  }

  /** A commit whose acknowledgement was lost, repeated, returns the row that was committed and stores
      nothing more. */
  lemma DoubtIsResolved(sha: Digest, s: State, i: nat) returns (s1: State, s2: State)
    requires i in s.calls && s.calls[i].phase.InDoubt?
    ensures Takes(sha, s, RetryCommit(i), s1) && Takes(sha, s1, Publish(i, true), s2)
    ensures s2.entries == s.entries && s2.tails == s.tails
    ensures i in s2.calls && s2.calls[i].phase == Returned(s.calls[i].phase.row) && s2.published == s.published + [s.calls[i].phase.row]
  {
    hide NewRow;
    s1 := Apply(sha, s, RetryCommit(i));
    s2 := Apply(sha, s1, Publish(i, true));
  }

  // ---------------------------------------------------------------- publication is a side channel

  /** The same actions, except for what the bus answers. */
  predicate SameButBus(a: Action, b: Action) {
    a == b || (a.Publish? && b.Publish? && a.i == b.i)
  }

  /** The same state, except for what was published. */
  predicate SameButPublished(s: State, t: State) {
    t == s.(published := t.published)
  }

  lemma BusIsInvisible(sha: Digest, s: State, a: Action, t: State, b: Action)
    requires SameButPublished(s, t) && SameButBus(a, b) && Enabled(s, a)
    ensures Enabled(t, b) && SameButPublished(Apply(sha, s, a), Apply(sha, t, b))
  {
    hide NewRow, Validate;
  }

  /** Publication over every run: change what the bus answers, at any number of places, and the run
      is still possible, with the same stored rows and the same progress and results of every
      call at every moment. */
  lemma {:induction false} PublishOutcomesAreInvisible(sha: Digest, ss: seq<State>, acts: seq<Action>, bcts: seq<Action>)
    returns (ts: seq<State>)
    requires Execution(sha, ss, acts) && |bcts| == |acts| && forall n :: 0 <= n < |acts| ==> SameButBus(acts[n], bcts[n])
    ensures Execution(sha, ts, bcts) && |ts| == |ss|
    ensures forall n :: 0 <= n < |ss| ==> SameButPublished(ss[n], ts[n])
    decreases |acts|
  {
    hide Enabled, Apply, SameButBus;
    if acts == [] {
      ts := ss;
    } else {
      var m := |acts| - 1;
      assert Enabled(ss[m], acts[m]) && ss[m + 1] == Apply(sha, ss[m], acts[m]);
      ts := PublishOutcomesAreInvisible(sha, ss[..m + 1], acts[..m], bcts[..m]);
      BusIsInvisible(sha, ss[m], acts[m], ts[m], bcts[m]);
      ts := Extend(sha, ts, bcts);
    }
  }

  /** One more step of an execution. */
  lemma Extend(sha: Digest, ss: seq<State>, acts: seq<Action>) returns (ts: seq<State>)
    requires acts != [] && Execution(sha, ss, acts[..|acts| - 1]) && Enabled(ss[|ss| - 1], acts[|acts| - 1])
    ensures ts == ss + [Apply(sha, ss[|ss| - 1], acts[|acts| - 1])] && Execution(sha, ts, acts)
  {
    hide Enabled, Apply;
    var m := |acts| - 1;
    ts := ss + [Apply(sha, ss[m], acts[m])];
    forall n | 0 <= n < |acts|
      ensures Enabled(ts[n], acts[n]) && ts[n + 1] == Apply(sha, ts[n], acts[n])
    {
      if n < m {
        assert Enabled(ss[n], acts[..m][n]) && ss[n + 1] == Apply(sha, ss[n], acts[..m][n]);
      }
    }
  }
}
