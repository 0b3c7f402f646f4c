/** The in-memory backend (memory.go): one slice of entries, one tail per chain, one mutex. Each
    method is one critical section. */
module Memory {
  import Text
  import opened Calendar
  import opened Chain
  import opened Hash
  import opened Verify
  import opened Log

  datatype Error =
    | ErrClosed
    | ErrInvalidEvent(chainMissing: bool)
    | ErrChainIDRequired
    | ErrEntryNotFound
    | ErrUndecodable

  datatype Result<T> = Ok(value: T) | Err(error: Error)

  /** VerifyResult together with the loop's verdict. */
  datatype Report = Report(verdict: Verdict, empty: bool)

  /** memoryChainTail. */
  datatype Tail = Tail(lastID: nat, lastHash: string)

  /** The tail map describes a chain: absent for an empty chain, else its length and last hash. */
  predicate TailAgrees(chains: map<string, Tail>, c: string, es: seq<Event>) {
    if es == [] then c !in chains
    else c in chains && chains[c] == Tail(|es|, es[|es| - 1].hash)
  }

  ghost predicate Consistent(sha: Digest, entries: seq<Event>, chains: map<string, Tail>) {
    forall c: string :: Honest(sha, c, ChainOf(entries, c)) && TailAgrees(chains, c, ChainOf(entries, c))
  }

  /** What the mutex guards. */
  datatype State = State(entries: seq<Event>, chains: map<string, Tail>)

  /** The effect of one successful Record. */
  ghost predicate Recorded(sha: Digest, s: State, draft: Event, s': State) {
    var e := Stamp(sha, ChainOf(s.entries, draft.chainID), draft);
    s' == State(s.entries + [e], s.chains[draft.chainID := Tail(e.id, e.hash)])
  }

  /** Every published entry is stored, and none is published twice. */
  ghost predicate PublishedOk(entries: seq<Event>, published: seq<Event>) {
    && (forall i :: 0 <= i < |published| ==> published[i] in entries)
    && forall i, j :: 0 <= i < j < |published| ==> published[i] != published[j]
  }

  /** Verify's `to`, with 0 standing for the tail. */
  function ResolveTo(chains: map<string, Tail>, c: string, to: nat): nat {
    if to == 0 && c in chains then chains[c].lastID else to
  }

  // ---------------------------------------------------------------- what a stored state answers

  /** Verify on any stored state, consistent or tampered with. */
  ghost function VerifyOf(sha: Digest, s: State, c: string, from: nat, to: nat): Result<Report> {
    if to == 0 && c !in s.chains then Ok(Report(Verdict.Valid, true))
    else
      var rows := Select(s.entries, Range(c, if from < 1 then 1 else from, ResolveTo(s.chains, c, to)));
      Reported(Check(sha, GENESIS, Views(rows)))
  }

  /** What Query promises, field by field: an empty string or zero time does not filter; the answer is
      the matching entries in stored order, or the first `limit` of them for a positive limit. */
  ghost predicate IsQueryAnswer(entries: seq<Event>, f: QueryFilter, out: seq<Event>) {
    exists at: seq<nat> ::
      && Increasing(at)
      && (forall i: nat :: i in at <==>
            && i < |entries| && entries[i].chainID == f.chainID
            && (f.actorID != "" ==> entries[i].actorID == f.actorID)
            && (f.entityType != "" ==> entries[i].entityType == f.entityType)
            && (f.entityID != "" ==> entries[i].entityID == f.entityID)
            && (f.from != ZERO_TIME ==> entries[i].timestamp >= f.from)
            && (f.to != ZERO_TIME ==> entries[i].timestamp <= f.to))
      && |out| == (if f.limit > 0 && f.limit < |at| then f.limit else |at|)
      && forall j :: 0 <= j < |out| ==> at[j] < |entries| && out[j] == entries[at[j]]
  }

  lemma QueryIsAnswer(s: State, f: QueryFilter)
    ensures IsQueryAnswer(s.entries, f, QueryOf(s, f))
  {
    hide Select;
    var at := SelectPlaces(s.entries, Filtered(f));
    var out := QueryOf(s, f);
    assert |out| == if f.limit > 0 && f.limit < |at| then f.limit else |at|;
    assert forall j :: 0 <= j < |out| ==> at[j] < |s.entries| && out[j] == s.entries[at[j]];
  }

  /** A verdict as Verify returns it. */
  function Reported(v: Verdict): Result<Report> {
    if v == Failed then Err(ErrUndecodable) else Ok(Report(v, false))
  }

  function QueryOf(s: State, f: QueryFilter): seq<Event> {
    Limited(Select(s.entries, Filtered(f)), f.limit)
  }

  function GetOf(s: State, c: string, id: nat): Result<Event> {
    var hits := Select(s.entries, Position(c, id));
    if hits == [] then Err(ErrEntryNotFound) else Ok(hits[0])
  }

  function LatestOf(s: State, c: string): Result<nat> {
    if c in s.chains then Ok(s.chains[c].lastID) else Err(ErrEntryNotFound)
  }

  class MemoryAuditLog {
    const sha: Digest
    const hasBus: bool
    var entries: seq<Event>
    var chains: map<string, Tail>
    var closed: bool
    /** What the bus has accepted, in order. */
    var published: seq<Event>

    ghost predicate Valid()
      reads this
    {
      Consistent(sha, entries, chains) && PublishedOk(entries, published)
    }

    constructor (sha: Digest, hasBus: bool)
      ensures Valid() && this.sha == sha && this.hasBus == hasBus
      ensures entries == [] && chains == map[] && !closed && published == []
    {
      this.sha, this.hasBus := sha, hasBus;
      entries, chains, closed, published := [], map[], false, [];
      new;
      InitiallyConsistent(sha);
    }

    /** Record. On success exactly one entry is added, at the end of its chain; whether the bus
        accepts it changes neither the stored state nor the result. */
    method Record(draft: Event, now: int, busAccepts: bool) returns (r: Result<nat>)
      requires Valid()
      modifies this`entries, this`chains, this`published
      ensures Valid()
      ensures closed ==> r == Err(ErrClosed)
      ensures !closed && !Validate(draft) ==> r == Err(ErrInvalidEvent(draft.chainID == ""))
      ensures !closed && r.Err? <==>
                !closed && (draft.chainID == "" || draft.actorID == "" || draft.entityType == "" || draft.entityID == "" ||
                            draft.action == "" || draft.payload.Bad?)
      ensures r.Ok? ==>
                entries != [] &&
                var e := entries[|entries| - 1];
                && e == draft.(id := e.id, timestamp := e.timestamp, prevHash := e.prevHash, hash := e.hash)
                && e.timestamp == (if draft.timestamp != ZERO_TIME then draft.timestamp else now)
      ensures r.Err? ==> entries == old(entries) && chains == old(chains) && published == old(published)
      ensures !closed && Validate(draft) ==>
                var c := draft.chainID;
                var before := ChainOf(old(entries), c);
                var e := Stamp(sha, before, Timed(draft, now));
                && r == Ok(|before| + 1) && e.id == |before| + 1
                && entries == old(entries) + [e]
                && ChainOf(entries, c) == before + [e]
                && (forall d: string :: d != c ==> ChainOf(entries, d) == ChainOf(old(entries), d))
                && Recorded(sha, State(old(entries), old(chains)), Timed(draft, now), State(entries, chains))
                && published == old(published) + (if hasBus && busAccepts then [e] else [])
    {
      hide View, Select, Honest, PublishedOk, Linked;
      if closed {
        return Err(ErrClosed);
      }
      if !Validate(draft) {
        return Err(ErrInvalidEvent(draft.chainID == ""));
      }
      var event := Timed(draft, now);
      ghost var before := ChainOf(entries, event.chainID);
      assert Honest(sha, event.chainID, before) && TailAgrees(chains, event.chainID, before);

      var prevHash: string := GENESIS;
      var nextID := 1;
      if event.chainID in chains {
        prevHash := chains[event.chainID].lastHash;
        nextID := chains[event.chainID].lastID + 1;
      }
      event := event.(id := nextID, prevHash := prevHash);
      var hash := ComputeHash(sha, event);
      event := event.(hash := hash.value);
      LinkedIs(sha, Timed(draft, now), prevHash, nextID, hash.value);
      assert event == Stamp(sha, before, Timed(draft, now));

      AppendKeepsConsistent(sha, entries, chains, Timed(draft, now));
      StampIsNew(sha, entries, chains, Timed(draft, now));
      PublishedGrows(entries, published, event);
      entries := entries + [event];
      chains := chains[event.chainID := Tail(nextID, hash.value)];
      if hasBus && busAccepts {
        published := published + [event];
      }
      r := Ok(nextID);
    }

    /** Verify: the check loop over the entries of one chain with ids in from..to. */
    method Verify(chainID: string, from: nat, to: nat) returns (r: Result<Report>)
      ensures closed ==> r == Err(ErrClosed)
      ensures !closed && chainID == "" ==> r == Err(ErrChainIDRequired)
      ensures !closed && chainID != "" ==> r == VerifyOf(sha, State(entries, chains), chainID, from, to)
    {
      if closed {
        return Err(ErrClosed);
      }
      if chainID == "" {
        return Err(ErrChainIDRequired);
      }
      var lo := if from < 1 then 1 else from;
      var hi := to;
      if to == 0 {
        if chainID !in chains {
          return Ok(Report(Verdict.Valid, true));
        }
        hi := chains[chainID].lastID;
      }
      var rows := Scan(Range(chainID, lo, hi), 0);
      var verdict := VerifyRows(sha, rows);
      r := Reported(verdict);
    }

    /** The linear scan behind Verify, Query and GetEntry, stopping at a positive limit. */
    method Scan(s: Selector, limit: int) returns (out: seq<Event>)
      ensures out == Limited(Select(entries, s), limit)
    {
      hide Select, Matches;
      SelectEmpty(s);
      out := [];
      var i := 0;
      while i < |entries|
        invariant 0 <= i <= |entries|
        invariant out == Select(entries[..i], s)
        invariant limit > 0 ==> |out| < limit
      {
        SelectAppend(entries[..i], entries[i], s);
        assert entries[..i + 1] == entries[..i] + [entries[i]];
        if Matches(s, entries[i]) {
          out := out + [entries[i]];
          if limit > 0 && |out| >= limit {
            SelectConcat(entries[..i + 1], entries[i + 1..], s);
            assert entries == entries[..i + 1] + entries[i + 1..];
            assert Select(entries, s)[..limit] == out;
            return;
          }
        }
        i := i + 1;
      }
      assert entries[..i] == entries;
    }

    /** Query: the matching entries of one chain, oldest first, at most `limit` of them. */
    method Query(filter: QueryFilter) returns (r: Result<seq<Event>>)
      ensures closed ==> r == Err(ErrClosed)
      ensures !closed && filter.chainID == "" ==> r == Err(ErrChainIDRequired)
      ensures !closed && filter.chainID != "" ==>
                r == Ok(QueryOf(State(entries, chains), filter)) && IsQueryAnswer(entries, filter, r.value) &&
                r == Ok(Limited(Select(ChainOf(entries, filter.chainID), Filtered(filter)), filter.limit))
    {
      if closed {
        return Err(ErrClosed);
      }
      if filter.chainID == "" {
        return Err(ErrChainIDRequired);
      }
      var out := Scan(Filtered(filter), filter.limit);
      SelectFromChain(entries, Filtered(filter));
      QueryIsAnswer(State(entries, chains), filter);
      r := Ok(out);
    }

    /** GetEntry: the first stored entry with that position, which in a consistent state is the
        entry at that position of the chain. */
    method GetEntry(chainID: string, id: nat) returns (r: Result<Event>)
      ensures closed ==> r == Err(ErrClosed)
      ensures !closed && chainID == "" ==> r == Err(ErrChainIDRequired)
      ensures !closed && chainID != "" ==> r == GetOf(State(entries, chains), chainID, id)
      ensures !closed && chainID != "" && Valid() ==>
                r == if 1 <= id <= |ChainOf(entries, chainID)| then Ok(ChainOf(entries, chainID)[id - 1]) else Err(ErrEntryNotFound)
    {
      if closed {
        return Err(ErrClosed);
      }
      if chainID == "" {
        return Err(ErrChainIDRequired);
      }
      var hits := Scan(Position(chainID, id), 1);
      r := if hits == [] then Err(ErrEntryNotFound) else Ok(hits[0]);
      if Valid() {
        assert Honest(sha, chainID, ChainOf(entries, chainID));
        PositionSelects(entries, chainID, id);
      }
    }

    /** LatestEntryID: what the tail says, which in a consistent state is the length of the chain. */
    method LatestEntryID(chainID: string) returns (r: Result<nat>)
      ensures closed ==> r == Err(ErrClosed)
      ensures !closed && chainID == "" ==> r == Err(ErrChainIDRequired)
      ensures !closed && chainID != "" ==> r == LatestOf(State(entries, chains), chainID)
      ensures !closed && chainID != "" && Valid() ==>
                r == if ChainOf(entries, chainID) == [] then Err(ErrEntryNotFound) else Ok(|ChainOf(entries, chainID)|)
    {
      if closed {
        return Err(ErrClosed);
      }
      if chainID == "" {
        return Err(ErrChainIDRequired);
      }
      r := if chainID !in chains then Err(ErrEntryNotFound) else Ok(chains[chainID].lastID);
      assert Valid() ==> TailAgrees(chains, chainID, ChainOf(entries, chainID));
    }

    /** Close: idempotent, and nothing stored changes. */
    method Close()
      modifies this`closed
      ensures closed
    {
      closed := true;
    }
  }

  lemma InitiallyConsistent(sha: Digest)
    ensures Consistent(sha, [], map[])
  {
    forall c: string
      ensures Honest(sha, c, ChainOf([], c)) && TailAgrees(map[], c, ChainOf([], c))
    {
      EmptyIsHonest(sha, c);
    }
  }

  lemma LinkedIs(sha: Digest, draft: Event, prevHash: string, id: nat, hash: string)
    requires HashOf(sha, View(draft.(id := id, prevHash := prevHash))) == Text.Some(hash)
    ensures Linked(sha, draft, prevHash, id) == draft.(id := id, prevHash := prevHash, hash := hash)
  {
  }

  lemma ChainAfterAppend(es: seq<Event>, e: Event, c: string)
    ensures ChainOf(es + [e], c) == if e.chainID == c then ChainOf(es, c) + [e] else ChainOf(es, c)
  {
    SelectAppend(es, e, Whole(c));
  }

  /** Appending a stamped entry and moving its tail keeps the state consistent. */
  lemma AppendKeepsConsistent(sha: Digest, entries: seq<Event>, chains: map<string, Tail>, draft: Event)
    requires Consistent(sha, entries, chains) && !draft.payload.Bad?
    ensures var e := Stamp(sha, ChainOf(entries, draft.chainID), draft);
            && Consistent(sha, entries + [e], chains[draft.chainID := Tail(e.id, e.hash)])
            && ChainOf(entries + [e], draft.chainID) == ChainOf(entries, draft.chainID) + [e]
            && (forall d: string :: d != draft.chainID ==> ChainOf(entries + [e], d) == ChainOf(entries, d))
  {
    hide View, Select;
    var c := draft.chainID;
    var e := Stamp(sha, ChainOf(entries, c), draft);
    forall d: string
      ensures Honest(sha, d, ChainOf(entries + [e], d))
      ensures TailAgrees(chains[c := Tail(e.id, e.hash)], d, ChainOf(entries + [e], d))
      ensures d != c ==> ChainOf(entries + [e], d) == ChainOf(entries, d)
    {
      ChainAfterAppend(entries, e, d);
      assert Honest(sha, d, ChainOf(entries, d)) && TailAgrees(chains, d, ChainOf(entries, d));
      if d == c {
        StampKeepsHonest(sha, c, ChainOf(entries, c), draft);
      }
    }
    ChainAfterAppend(entries, e, c);
  }

  lemma {:induction false} InItsChain(es: seq<Event>, e: Event)
    requires e in es
    ensures e in ChainOf(es, e.chainID)
  {
    var front, last := es[..|es| - 1], es[|es| - 1];
    assert es == front + [last];
    SelectAppend(front, last, Whole(e.chainID));
    if e in front {
      InItsChain(front, e);
    }
  }

  /** The entry Record appends was not stored before. */
  lemma StampIsNew(sha: Digest, entries: seq<Event>, chains: map<string, Tail>, draft: Event)
    requires Consistent(sha, entries, chains)
    ensures Stamp(sha, ChainOf(entries, draft.chainID), draft) !in entries
  {
    hide View, Select, ChainOf;
    var es := ChainOf(entries, draft.chainID);
    var e := Stamp(sha, es, draft);
    assert Honest(sha, draft.chainID, es) && e.chainID == draft.chainID && e.id == |es| + 1;
    if e in entries {
      InItsChain(entries, e);
    }
  }

  lemma PublishedGrows(entries: seq<Event>, published: seq<Event>, e: Event)
    requires PublishedOk(entries, published) && e !in entries
    ensures PublishedOk(entries + [e], published) && PublishedOk(entries + [e], published + [e])
  {
  }

  lemma PositionSelects(entries: seq<Event>, c: string, id: nat)
    requires NumberedChain(c, ChainOf(entries, c))
    ensures Select(entries, Position(c, id)) ==
            if 1 <= id <= |ChainOf(entries, c)| then [ChainOf(entries, c)[id - 1]] else []
  {
    SelectFromChain(entries, Position(c, id));
    PositionInChain(c, ChainOf(entries, c), id);
  }

  /** In a consistent state Verify answers from the chain alone. */
  lemma VerifyOfChain(sha: Digest, s: State, c: string, from: nat, to: nat)
    requires Consistent(sha, s.entries, s.chains)
    ensures var es := ChainOf(s.entries, c);
            VerifyOf(sha, s, c, from, to) ==
            if to == 0 && es == [] then Ok(Report(Verdict.Valid, true))
            else Reported(Check(sha, GENESIS, Views(Window(es, if from < 1 then 1 else from, if to == 0 then |es| else to))))
  {
    hide View, Select, Check, Window;
    var es, hi := ChainOf(s.entries, c), ResolveTo(s.chains, c, to);
    var lo := if from < 1 then 1 else from;
    assert Honest(sha, c, es) && TailAgrees(s.chains, c, es);
    SelectFromChain(s.entries, Range(c, lo, hi));
    RangeIsWindow(c, es, lo, hi);
  }

  /** In every consistent state Verify from entry 1 (or 0) to any entry finds nothing, and reports
      Empty exactly when `to` is 0 and the chain has no entries. */
  lemma ConsistentVerifies(sha: Digest, s: State, c: string, from: nat, to: nat)
    requires Consistent(sha, s.entries, s.chains) && from <= 1
    ensures VerifyOf(sha, s, c, from, to) == Ok(Report(Verdict.Valid, to == 0 && ChainOf(s.entries, c) == []))
  {
    hide View, Select, Check, Window, VerifyOf;
    var es := ChainOf(s.entries, c);
    assert Honest(sha, c, es);
    var hi := if to == 0 then |es| else to;
    VerifyOfChain(sha, s, c, from, to);
    ViewsOfWindow(es, 1, hi);
    HonestVerifies(sha, c, es, hi);
  }

  /** The abstract log a memory state stands for. */
  ghost function Abstract(entries: seq<Event>): AbstractLog {
    imap c: string | ChainOf(entries, c) == ChainOf(entries, c) :: ChainOf(entries, c)
  }

  /** A successful Record is one abstract append. */
  lemma RecordRefines(sha: Digest, entries: seq<Event>, draft: Event)
    ensures Total(Abstract(entries))
    ensures Appends(sha, Abstract(entries), draft, Abstract(entries + [Stamp(sha, ChainOf(entries, draft.chainID), draft)]))
  {
    hide View, Select;
    var e := Stamp(sha, ChainOf(entries, draft.chainID), draft);
    forall c: string
      ensures ChainOf(entries + [e], c) == if draft.chainID == c then ChainOf(entries, c) + [e] else ChainOf(entries, c)
    {
      ChainAfterAppend(entries, e, c);
    }
  }

  // ---------------------------------------------------------------- runs

  ghost predicate Step(sha: Digest, s: State, s': State) {
    s == s' || exists draft :: Validate(draft) && Recorded(sha, s, draft, s')
  }

  /** Any sequence of calls, from a new log on; only successful Record calls change anything. */
  ghost predicate Run(sha: Digest, ss: seq<State>) {
    |ss| > 0 && ss[0] == State([], map[]) && forall n :: 0 <= n < |ss| - 1 ==> Step(sha, ss[n], ss[n + 1])
  }

  /** In every reachable state the tail map agrees with the last entry of each chain and each chain
      is numbered, linked and correctly hashed. */
  lemma {:induction false} EveryRunIsConsistent(sha: Digest, ss: seq<State>, n: nat)
    requires Run(sha, ss) && n < |ss|
    ensures Consistent(sha, ss[n].entries, ss[n].chains)
    decreases n
  {
    hide Consistent, Stamp;
    if n == 0 {
      InitiallyConsistent(sha);
    } else {
      EveryRunIsConsistent(sha, ss, n - 1);
      assert Step(sha, ss[n - 1], ss[n - 1 + 1]);
      if ss[n - 1] != ss[n] {
        var draft :| Validate(draft) && Recorded(sha, ss[n - 1], draft, ss[n]);
        AppendKeepsConsistent(sha, ss[n - 1].entries, ss[n - 1].chains, draft);
      }
    }
  }

  ghost function AbstractRun(ss: seq<State>): (ls: seq<AbstractLog>)
    ensures |ls| == |ss| && forall n :: 0 <= n < |ss| ==> ls[n] == Abstract(ss[n].entries)
  {
    seq(|ss|, n requires 0 <= n < |ss| => Abstract(ss[n].entries))
  }

  lemma StepRefines(sha: Digest, s: State, s': State)
    requires Step(sha, s, s')
    ensures Total(Abstract(s.entries)) && Log.Step(sha, Abstract(s.entries), Abstract(s'.entries))
  {
    hide Validate, Stamp, Select, Appends, Abstract;
    if s != s' {
      var draft :| Validate(draft) && Recorded(sha, s, draft, s');
      RecordRefines(sha, s.entries, draft);
    } else {
      AbstractIsTotal(s.entries);
    }
  }

  lemma AbstractIsTotal(entries: seq<Event>)
    ensures Total(Abstract(entries))
  {
  }

  lemma NewLogIsBlank()
    ensures Blank(Abstract([]))
  {
  }

  /** Every run of the in-memory backend is a run of the abstract log. */
  lemma RunRefines(sha: Digest, ss: seq<State>)
    requires Run(sha, ss)
    ensures Log.Run(sha, AbstractRun(ss))
  {
    hide Step, Log.Step, Abstract;
    var ls := AbstractRun(ss);
    forall n | 0 <= n < |ls| - 1
      ensures Total(ls[n]) && Log.Step(sha, ls[n], ls[n + 1])
    {
      assert Step(sha, ss[n], ss[n + 1]);
      StepRefines(sha, ss[n], ss[n + 1]);
    }
    forall n | 0 <= n < |ls|
      ensures Total(ls[n])
    {
      AbstractIsTotal(ss[n].entries);
    }
    NewLogIsBlank();
  }

  // ---------------------------------------------------------------- isolation

  /** A step that does not concern chain `c`: a Record on another chain, or any edit of the stored
      entries and tails that neither reads nor writes `c`. */
  ghost predicate StepElsewhere(sha: Digest, s: State, s': State, c: string) {
    || (exists draft: Event :: draft.chainID != c && Recorded(sha, s, draft, s'))
    || (SameTail(s.chains, s'.chains, c) && EditedElsewhere(s.entries, s'.entries, c))
  }

  ghost predicate EditedElsewhere(es: seq<Event>, fs: seq<Event>, c: string) {
    es == fs || exists d :: Applies(es, d) && Elsewhere(es, d, c) && fs == ApplyEdit(es, d)
  }

  predicate SameTail(chains: map<string, Tail>, chains': map<string, Tail>, c: string) {
    (c in chains <==> c in chains') && (c in chains ==> chains[c] == chains'[c])
  }

  ghost predicate RunElsewhere(sha: Digest, ss: seq<State>, c: string) {
    |ss| > 0 && forall n :: 0 <= n < |ss| - 1 ==> StepElsewhere(sha, ss[n], ss[n + 1], c)
  }

  lemma StepElsewhereKeeps(sha: Digest, s: State, s': State, sel: Selector)
    requires StepElsewhere(sha, s, s', Scope(sel))
    ensures Select(s'.entries, sel) == Select(s.entries, sel) && SameTail(s.chains, s'.chains, Scope(sel))
  {
    hide Matches, Select, View;
    var c := Scope(sel);
    if draft: Event :| draft.chainID != c && Recorded(sha, s, draft, s') {
      var e := Stamp(sha, ChainOf(s.entries, draft.chainID), draft);
      DropOne(s.entries, e, [], sel);
      SelectEmpty(sel);
      assert s.entries + [e] + [] == s.entries + [e];
    } else if s.entries != s'.entries {
      var d :| Applies(s.entries, d) && Elsewhere(s.entries, d, c) && s'.entries == ApplyEdit(s.entries, d);
      EditElsewhere(s.entries, d, sel);
    }
  }

  lemma {:induction false} RunElsewhereKeeps(sha: Digest, ss: seq<State>, sel: Selector, n: nat)
    requires RunElsewhere(sha, ss, Scope(sel)) && n < |ss|
    ensures Select(ss[n].entries, sel) == Select(ss[0].entries, sel) && SameTail(ss[0].chains, ss[n].chains, Scope(sel))
    decreases n
  {
    hide StepElsewhere, Select;
    if n > 0 {
      RunElsewhereKeeps(sha, ss, sel, n - 1);
      assert StepElsewhere(sha, ss[n - 1], ss[n - 1 + 1], Scope(sel));
      StepElsewhereKeeps(sha, ss[n - 1], ss[n], sel);
    }
  }

  /** Chain isolation over whole runs: whatever is recorded on other chains and however their
      entries are tampered with, in any order, every answer about this chain stays the same. */
  lemma RunElsewhereIsInvisible(sha: Digest, ss: seq<State>, c: string, n: nat)
    requires RunElsewhere(sha, ss, c) && n < |ss|
    ensures forall from: nat, to: nat :: VerifyOf(sha, ss[n], c, from, to) == VerifyOf(sha, ss[0], c, from, to)
    ensures forall f: QueryFilter :: f.chainID == c ==> QueryOf(ss[n], f) == QueryOf(ss[0], f)
    ensures forall id: nat :: GetOf(ss[n], c, id) == GetOf(ss[0], c, id)
    ensures LatestOf(ss[n], c) == LatestOf(ss[0], c)
  {
    hide Select, RunElsewhere, Check;
    RunElsewhereKeeps(sha, ss, Whole(c), n);
    forall from: nat, to: nat
      ensures VerifyOf(sha, ss[n], c, from, to) == VerifyOf(sha, ss[0], c, from, to)
    {
      RunElsewhereKeeps(sha, ss, Range(c, if from < 1 then 1 else from, ResolveTo(ss[0].chains, c, to)), n);
    }
    forall f: QueryFilter | f.chainID == c
      ensures QueryOf(ss[n], f) == QueryOf(ss[0], f)
    {
      RunElsewhereKeeps(sha, ss, Filtered(f), n);
    }
    forall id: nat
      ensures GetOf(ss[n], c, id) == GetOf(ss[0], c, id)
    {
      RunElsewhereKeeps(sha, ss, Position(c, id), n);
    }
  }
}
