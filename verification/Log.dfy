/** The log all three backends present: one append-only sequence of entries per chain, and the
    selections that Query and Verify make from it. */
module Log {
  import opened Calendar
  import opened Chain
  import opened Hash
  import opened Verify

  // ---------------------------------------------------------------- selections

  /** QueryFilter; an empty string, a zero time or a non-positive limit does not filter. */
  datatype QueryFilter = QueryFilter(
    chainID: string, actorID: string, entityType: string, entityID: string,
    from: int, to: int, limit: int)

  /** The row selections of the backends, all scoped to one chain; `FilteredAt` is a filter whose
      bounds and timestamps are kept to `unit` nanoseconds, as a durable store does. */
  datatype Selector =
    | Whole(chainID: string)
    | Position(chainID: string, id: int)
    | Range(chainID: string, from: int, to: int)
    | Filtered(filter: QueryFilter)
    | FilteredAt(filter: QueryFilter, unit: Unit)

  function Scope(s: Selector): string {
    match s
    case Filtered(f) => f.chainID
    case FilteredAt(f, _) => f.chainID
    case Whole(c) => c
    case Position(c, _) => c
    case Range(c, _, _) => c
  }

  predicate MatchesFields(f: QueryFilter, e: Event) {
    && (f.actorID == "" || e.actorID == f.actorID)
    && (f.entityType == "" || e.entityType == f.entityType)
    && (f.entityID == "" || e.entityID == f.entityID)
  }

  predicate MatchesFilter(f: QueryFilter, e: Event) {
    && MatchesFields(f, e)
    && (f.from == ZERO_TIME || f.from <= e.timestamp)
    && (f.to == ZERO_TIME || e.timestamp <= f.to)
  }

  predicate MatchesFloored(f: QueryFilter, unit: Unit, e: Event) {
    && MatchesFields(f, e)
    && (f.from == ZERO_TIME || Floor(f.from, unit) <= Floor(e.timestamp, unit))
    && (f.to == ZERO_TIME || Floor(e.timestamp, unit) <= Floor(f.to, unit))
  }

  predicate Matches(s: Selector, e: Event) {
    && e.chainID == Scope(s)
    && match s
       case Whole(_) => true
       case Position(_, id) => e.id == id
       case Range(_, from, to) => from <= e.id <= to
       case Filtered(f) => MatchesFilter(f, e)
       case FilteredAt(f, unit) => MatchesFloored(f, unit, e)
  }

  /** The matching entries, in stored order. */
  function Select(es: seq<Event>, s: Selector): (r: seq<Event>)
    ensures |r| <= |es|
  {
    if es == [] then []
    else
      var front := Select(es[..|es| - 1], s);
      if Matches(s, es[|es| - 1]) then front + [es[|es| - 1]] else front
  }

  /** The entries of one chain. */
  function ChainOf(es: seq<Event>, chainID: string): seq<Event> {
    Select(es, Whole(chainID))
  }

  function Limited(es: seq<Event>, limit: int): seq<Event> {
    if 0 < limit < |es| then es[..limit] else es
  }

  lemma SelectAppend(es: seq<Event>, e: Event, s: Selector)
    ensures Select(es + [e], s) == Select(es, s) + (if Matches(s, e) then [e] else [])
  {
    hide Matches;
    assert (es + [e])[..|es|] == es;
  }

  lemma SelectEmpty(s: Selector)
    ensures Select([], s) == []
  {
  }

  lemma {:induction false} SelectConcat(es: seq<Event>, fs: seq<Event>, s: Selector)
    ensures Select(es + fs, s) == Select(es, s) + Select(fs, s)
  {
    hide Select, Matches;
    if fs == [] {
      SelectEmpty(s);
      assert es + fs == es;
    } else {
      var front, last := fs[..|fs| - 1], fs[|fs| - 1];
      SelectConcat(es, front, s);
      SelectAppend(es + front, last, s);
      SelectAppend(front, last, s);
      assert fs == front + [last];
      assert es + fs == (es + front) + [last];
    }
  }

  lemma {:induction false} SelectMembers(es: seq<Event>, s: Selector, e: Event)
    ensures e in Select(es, s) <==> e in es && Matches(s, e)
  {
    hide Matches;
    if es != [] {
      var front, last := es[..|es| - 1], es[|es| - 1];
      SelectMembers(front, s, e);
      assert es == front + [last];
    }
  }

  ghost predicate Ascending(out: seq<Event>) {
    forall i, j :: 0 <= i < j < |out| ==> out[i].id < out[j].id
  }

  lemma {:induction false} SelectAscends(es: seq<Event>, s: Selector)
    requires Ascending(es)
    ensures Ascending(Select(es, s))
  {
    hide Matches;
    if es != [] {
      var front, last := es[..|es| - 1], es[|es| - 1];
      SelectAscends(front, s);
      var r := Select(front, s);
      forall i | 0 <= i < |r|
        ensures r[i].id < last.id
      {
        SelectMembers(front, s, r[i]);
        var j :| 0 <= j < |front| && front[j] == r[i];
        assert es[j].id < es[|es| - 1].id;
      }
    }
  }

  /** A selection is the matching entries at their places in the stored order. */
  ghost predicate Places(es: seq<Event>, s: Selector, at: seq<nat>) {
    Increasing(at) && forall i: nat :: i in at <==> i < |es| && Matches(s, es[i])
  }

  lemma {:induction false} SelectPlaces(es: seq<Event>, s: Selector) returns (at: seq<nat>)
    ensures Places(es, s, at) && forall i :: 0 <= i < |at| ==> at[i] < |es|
    ensures Select(es, s) == Pick(es, at)
  {
    hide Matches, Select, Pick, Places;
    if es == [] {
      at := [];
      SelectEmpty(s);
      NoPlaces(s);
    } else {
      var front, last := es[..|es| - 1], es[|es| - 1];
      at := SelectPlaces(front, s);
      SelectAppend(front, last, s);
      assert es == front + [last];
      NextPlace(front, last, s, at);
      if Matches(s, last) {
        at := at + [|front|];
      }
    }
  }

  lemma NoPlaces(s: Selector)
    ensures Places([], s, []) && Pick<Event>([], []) == []
  {
    hide Matches;
  }

  lemma NextPlace(es: seq<Event>, e: Event, s: Selector, at: seq<nat>)
    requires Places(es, s, at) && forall i :: 0 <= i < |at| ==> at[i] < |es|
    ensures forall i :: 0 <= i < |at| ==> at[i] < |es + [e]|
    ensures Pick(es + [e], at) == Pick(es, at) && Pick(es + [e], at + [|es|]) == Pick(es, at) + [e]
    ensures Places(es + [e], s, if Matches(s, e) then at + [|es|] else at)
  {
    hide Matches;
    forall i: nat
      ensures i in at <==> i < |es| && Matches(s, (es + [e])[i])
    {
    }
  }

  /** A selection looks at its own chain only. */
  lemma {:induction false} SelectFromChain(es: seq<Event>, s: Selector)
    ensures Select(es, s) == Select(ChainOf(es, Scope(s)), s)
  {
    hide MatchesFilter, MatchesFloored;
    if es != [] {
      var front, last := es[..|es| - 1], es[|es| - 1];
      SelectFromChain(front, s);
      if last.chainID == Scope(s) {
        SelectAppend(ChainOf(front, Scope(s)), last, s);
      }
    }
  }

  // ---------------------------------------------------------------- selections from numbered chains

  lemma WindowSnoc(es: seq<Event>, e: Event, from: nat, to: nat)
    requires 1 <= from
    ensures Window(es + [e], from, to) == Window(es, from, to) + (if from <= |es| + 1 <= to then [e] else [])
  {
    var n, all := |es|, es + [e];
    if from <= n + 1 <= to {
      assert all[from - 1..n + 1] == all[from - 1..n] + [e];
      assert all[from - 1..n] == es[from - 1..n];
    } else if from <= to <= n {
      assert all[from - 1..to] == es[from - 1..to];
    }
  }

  /** On a chain numbered 1..n a range is a window. */
  lemma {:induction false} RangeIsWindow(chainID: string, es: seq<Event>, lo: int, hi: int)
    requires NumberedChain(chainID, es)
    ensures Select(es, Range(chainID, lo, hi)) == Window(es, if lo < 1 then 1 else lo, if hi < 0 then 0 else hi)
  {
    hide Window, Select, MatchesFilter, MatchesFloored;
    var s := Range(chainID, lo, hi);
    var from: nat, to: nat := if lo < 1 then 1 else lo, if hi < 0 then 0 else hi;
    if es == [] {
      NoWindow(from, to);
      SelectEmpty(s);
    } else {
      var front, last := es[..|es| - 1], es[|es| - 1];
      RangeIsWindow(chainID, front, lo, hi);
      SelectAppend(front, last, s);
      WindowSnoc(front, last, from, to);
      assert es == front + [last];
    }
  }

  lemma NoWindow(from: nat, to: nat)
    requires 1 <= from
    ensures Window<Event>([], from, to) == []
  {
  }

  lemma ViewsOfWindow(es: seq<Event>, from: nat, to: nat)
    requires 1 <= from
    ensures Views(Window(es, from, to)) == Window(Views(es), from, to)
  {
    hide View;
  }

  /** ... and a position is one entry. */
  lemma {:induction false} PositionInChain(c: string, es: seq<Event>, id: int)
    requires NumberedChain(c, es)
    ensures Select(es, Position(c, id)) == if 1 <= id <= |es| then [es[id - 1]] else []
  {
    if es != [] {
      PositionInChain(c, es[..|es| - 1], id);
    }
  }

  // ---------------------------------------------------------------- edits elsewhere

  /** Any change to the stored list: a row put in, taken out or overwritten. */
  datatype Edit = Insert(at: nat, e: Event) | Delete(at: nat) | Replace(at: nat, e: Event)

  predicate Applies(es: seq<Event>, d: Edit) {
    if d.Insert? then d.at <= |es| else d.at < |es|
  }

  function ApplyEdit(es: seq<Event>, d: Edit): seq<Event>
    requires Applies(es, d)
  {
    match d
    case Insert(i, e) => es[..i] + [e] + es[i..]
    case Delete(i) => es[..i] + es[i + 1..]
    case Replace(i, e) => es[..i] + [e] + es[i + 1..]
  }

  /** The edit neither reads nor writes a row of `chainID`. */
  predicate Elsewhere(es: seq<Event>, d: Edit, chainID: string)
    requires Applies(es, d)
  {
    (d.Delete? || d.e.chainID != chainID) && (d.Insert? || es[d.at].chainID != chainID)
  }

  /** An edit of other chains' rows does not reach a selection from this one. */
  lemma EditElsewhere(es: seq<Event>, d: Edit, s: Selector)
    requires Applies(es, d) && Elsewhere(es, d, Scope(s))
    ensures Select(ApplyEdit(es, d), s) == Select(es, s)
  {
    hide Matches, MatchesFilter;
    var before := es[..d.at];
    if d.Insert? {
      var after := es[d.at..];
      assert es == before + after;
      SelectConcat(before, after, s);
      DropOne(before, d.e, after, s);
    } else {
      var after := es[d.at + 1..];
      assert es == before + [es[d.at]] + after;
      DropOne(before, es[d.at], after, s);
      SelectConcat(before, after, s);
      if d.Replace? {
        DropOne(before, d.e, after, s);
      }
    }
  }

  lemma DropOne(before: seq<Event>, e: Event, after: seq<Event>, s: Selector)
    requires e.chainID != Scope(s)
    ensures Select(before + [e] + after, s) == Select(before, s) + Select(after, s)
  {
    SelectConcat(before + [e], after, s);
    SelectAppend(before, e, s);
  }

  // ---------------------------------------------------------------- the abstract log

  /** Every chain identifier, with its entries so far. */
  type AbstractLog = imap<string, seq<Event>>

  ghost predicate Total(l: AbstractLog) {
    forall c: string :: c in l
  }

  ghost predicate Blank(l: AbstractLog) {
    forall c: string :: c in l && l[c] == []
  }

  /** One successful Record: the stamped entry at the end of its own chain, nothing else. */
  ghost predicate Appends(sha: Digest, l: AbstractLog, draft: Event, m: AbstractLog)
    requires Total(l)
  {
    m == l[draft.chainID := l[draft.chainID] + [Stamp(sha, l[draft.chainID], draft)]]
  }

  ghost predicate Step(sha: Digest, l: AbstractLog, m: AbstractLog)
    requires Total(l)
  {
    l == m || exists draft :: Validate(draft) && Appends(sha, l, draft, m)
  }

  ghost predicate Run(sha: Digest, ls: seq<AbstractLog>) {
    && |ls| > 0 && Blank(ls[0])
    && (forall i :: 0 <= i < |ls| ==> Total(ls[i]))
    && (forall i :: 0 <= i < |ls| - 1 ==> Step(sha, ls[i], ls[i + 1]))
  }

  ghost predicate AllHonest(sha: Digest, l: AbstractLog) {
    forall c: string :: c in l ==> Honest(sha, c, l[c])
  }

  lemma StepKeepsHonest(sha: Digest, l: AbstractLog, m: AbstractLog)
    requires Total(l) && AllHonest(sha, l) && Step(sha, l, m)
    ensures Total(m) && AllHonest(sha, m)
    ensures forall c: string :: c in l && c in m ==> l[c] <= m[c]
  {
    hide Honest, Stamp;
    if l != m {
      var draft :| Validate(draft) && Appends(sha, l, draft, m);
      StampKeepsHonest(sha, draft.chainID, l[draft.chainID], draft);
    }
  }

  /** Over every run of the abstract log each chain stays honest and only grows. */
  lemma {:induction false} RunKeepsHonest(sha: Digest, ls: seq<AbstractLog>, i: nat, j: nat, c: string)
    requires Run(sha, ls) && i <= j < |ls|
    ensures AllHonest(sha, ls[j]) && ls[i][c] <= ls[j][c]
    decreases j
  {
    hide Honest, Step;
    if j == 0 {
      forall c: string
        ensures Honest(sha, c, ls[0][c])
      {
        EmptyIsHonest(sha, c);
      }
    } else {
      RunKeepsHonest(sha, ls, if i < j then i else j - 1, j - 1, c);
      assert Step(sha, ls[j - 1], ls[j - 1 + 1]);
      StepKeepsHonest(sha, ls[j - 1], ls[j]);
    }
  }

  lemma EmptyIsHonest(sha: Digest, c: string)
    ensures Honest(sha, c, [])
  {
  }
}
