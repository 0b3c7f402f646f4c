/** The change diff (diff.go): two JSON objects compared member by member, objects inside objects
    followed recursively, every difference written under its dot-joined path into one shared map,
    in whatever order the maps happen to be ranged. */
module Diff {
  import opened Text
  import opened Json
  import opened Canonical
  import opened Hash
  import opened Storage
  import Calendar

  /** FieldDiff, with Null for nil. */
  datatype FieldDiff = FieldDiff(before: Value, after: Value)

  /** One assignment diff[path] = change. */
  datatype Write = Write(path: string, change: FieldDiff)

  type Object = v: Value | v.Obj? witness Obj(map[])

  function Join(prefix: string, k: string): string {
    if prefix != "" then prefix + "." + k else k
  }

  /** valueOrNil: a missing member reads as nil. */
  function Lookup(o: Object, k: string): (v: Value)
    ensures v.Obj? ==> k in o.fields && v < o
  {
    if k in o.fields then o.fields[k] else Null
  }

  /** The keys collectDiff has `seen`. */
  function Keys(b: Object, a: Object): set<string> {
    b.fields.Keys + a.fields.Keys
  }

  /** Both sides are objects: compared member by member. */
  predicate Descends(b: Object, a: Object, k: string) {
    Lookup(b, k).Obj? && Lookup(a, k).Obj?
  }

  predicate Same(b: Object, a: Object, k: string) {
    k in b.fields && k in a.fields && b.fields[k] == a.fields[k]
  }

  function Change(b: Object, a: Object, k: string): FieldDiff {
    FieldDiff(Lookup(b, k), Lookup(a, k))
  }

  // ---------------------------------------------------------------- what is written

  /** Every assignment made for two objects under a path prefix. */
  ghost function Writes(prefix: string, b: Object, a: Object): set<Write>
    decreases b, 1
  {
    set k, w | k in Keys(b, a) && w in KeyWrites(prefix, b, a, k) :: w
  }

  ghost function KeyWrites(prefix: string, b: Object, a: Object, k: string): set<Write>
    decreases b, 0
  {
    if Descends(b, a, k) then Writes(Join(prefix, k), Lookup(b, k), Lookup(a, k))
    else if Same(b, a, k) then {}
    else {Write(Join(prefix, k), Change(b, a, k))}
  }

  /** The diff is empty exactly when the objects are equal, at every depth, even where two
      different members share a dotted path. */
  lemma {:induction false} NoWritesMeansEqual(prefix: string, b: Object, a: Object)
    ensures Writes(prefix, b, a) == {} <==> b == a
    decreases b
  {
    forall k | k in Keys(b, a)
      ensures KeyWrites(prefix, b, a, k) == {} <==> Same(b, a, k)
    {
      if Descends(b, a, k) {
        NoWritesMeansEqual(Join(prefix, k), Lookup(b, k), Lookup(a, k));
      }
    }
    assert Writes(prefix, b, a) == {} <==> forall k :: k in Keys(b, a) ==> KeyWrites(prefix, b, a, k) == {} by {
      hide KeyWrites;
      if Writes(prefix, b, a) == {} {
        forall k | k in Keys(b, a)
          ensures KeyWrites(prefix, b, a, k) == {}
        {
          forall w
            ensures w !in KeyWrites(prefix, b, a, k)
          {
            assert w !in Writes(prefix, b, a);
          }
        }
      }
    }
    EqualMemberwise(b, a);
  }

  lemma EqualMemberwise(b: Object, a: Object)
    ensures b == a <==> forall k :: k in Keys(b, a) ==> Same(b, a, k)
  {
    if forall k :: k in Keys(b, a) ==> Same(b, a, k) {
      assert forall k :: k in b.fields ==> Same(b, a, k);
      assert forall k :: k in a.fields ==> Same(b, a, k);
      assert b.fields == a.fields;
    }
  }

  // ---------------------------------------------------------------- the runs of collectDiff

  /** `ws` is a sequence of assignments the recursion can make, for some order of ranging over
      the keys at every level. */
  ghost predicate Run(prefix: string, b: Object, a: Object, ws: seq<Write>)
    decreases b, 2
  {
    exists ks: seq<string> :: Elements(ks) == Keys(b, a) && Distinct(ks) && RunKeys(prefix, b, a, ks, ws)
  }

  ghost predicate Distinct(ks: seq<string>) {
    forall i, j :: 0 <= i < j < |ks| ==> ks[i] != ks[j]
  }

  ghost predicate RunKeys(prefix: string, b: Object, a: Object, ks: seq<string>, ws: seq<Write>)
    decreases b, 1, |ks|
  {
    if ks == [] then ws == []
    else exists cut: nat :: cut <= |ws| && Cut(prefix, b, a, ks, ws, cut)
  }

  ghost predicate Cut(prefix: string, b: Object, a: Object, ks: seq<string>, ws: seq<Write>, cut: nat)
    requires ks != [] && cut <= |ws|
    decreases b, 1, |ks|, 0
  {
    RunKeys(prefix, b, a, ks[..|ks| - 1], ws[..cut]) && RunKey(prefix, b, a, ks[|ks| - 1], ws[cut..])
  }

  ghost predicate RunKey(prefix: string, b: Object, a: Object, k: string, ws: seq<Write>)
    decreases b, 0
  {
    if Descends(b, a, k) then Run(Join(prefix, k), Lookup(b, k), Lookup(a, k), ws)
    else if Same(b, a, k) then ws == []
    else ws == [Write(Join(prefix, k), Change(b, a, k))]
  }

  type ChangeDiff = map<string, FieldDiff>

  /** The map after a sequence of assignments; the last one to a path wins. */
  function Apply(d: ChangeDiff, ws: seq<Write>): ChangeDiff {
    if ws == [] then d
    else
      var last := ws[|ws| - 1];
      Apply(d, ws[..|ws| - 1])[last.path := last.change]
  }

  lemma {:induction false} ApplyConcat(d: ChangeDiff, ws: seq<Write>, vs: seq<Write>)
    ensures Apply(d, ws + vs) == Apply(Apply(d, ws), vs)
  {
    if vs == [] {
      assert ws + vs == ws;
    } else {
      ApplyConcat(d, ws, vs[..|vs| - 1]);
      assert (ws + vs)[..|ws + vs| - 1] == ws + vs[..|vs| - 1];
    }
  }

  lemma RunKeysSnoc(prefix: string, b: Object, a: Object, ks: seq<string>, ws: seq<Write>, k: string, vs: seq<Write>)
    requires RunKeys(prefix, b, a, ks, ws) && RunKey(prefix, b, a, k, vs)
    ensures RunKeys(prefix, b, a, ks + [k], ws + vs)
  {
    hide RunKey;
    assert (ks + [k])[..|ks|] == ks;
    assert (ws + vs)[..|ws|] == ws && (ws + vs)[|ws|..] == vs;
    assert Cut(prefix, b, a, ks + [k], ws + vs, |ws|);
  }

  /** The shared result that collectDiff fills in. */
  class DiffMap {
    var diff: ChangeDiff

    constructor ()
      ensures diff == map[]
    {
      diff := map[];
    }
  }

  /** collectDiff: whatever the map iteration order, it performs one of the runs, on top of what
      the shared map already held. */
  method CollectDiff(prefix: string, b: Object, a: Object, out: DiffMap) returns (ghost ws: seq<Write>)
    modifies out
    ensures Run(prefix, b, a, ws)
    ensures out.diff == Apply(old(out.diff), ws)
    decreases b, 1
  {
    hide RunKeys, RunKey, Apply;
    var seen := b.fields.Keys + a.fields.Keys;
    ghost var ks: seq<string> := [];
    ws := [];
    NoKeys(prefix, b, a, out.diff);
    while seen != {}
      invariant seen <= Keys(b, a)
      invariant Elements(ks) == Keys(b, a) - seen && Distinct(ks)
      invariant RunKeys(prefix, b, a, ks, ws)
      invariant out.diff == Apply(old(out.diff), ws)
      decreases seen
    {
      var k :| k in seen;
      assert k !in Elements(ks);
      assert Elements(ks + [k]) == Elements(ks) + {k};
      ghost var vs := CollectKey(prefix, b, a, k, out);
      RunKeysSnoc(prefix, b, a, ks, ws, k, vs);
      ApplyConcat(old(out.diff), ws, vs);
      ks, ws, seen := ks + [k], ws + vs, seen - {k};
    }
    assert Elements(ks) == Keys(b, a);
  }

  lemma NoKeys(prefix: string, b: Object, a: Object, d: ChangeDiff)
    ensures RunKeys(prefix, b, a, [], []) && Apply(d, []) == d
  {
  }

  /** The body of collectDiff's loop. */
  method CollectKey(prefix: string, b: Object, a: Object, k: string, out: DiffMap) returns (ghost vs: seq<Write>)
    modifies out
    ensures RunKey(prefix, b, a, k, vs)
    ensures out.diff == Apply(old(out.diff), vs)
    decreases b, 0
  {
    hide Run;
    var path := Join(prefix, k);
    var bv, av := Lookup(b, k), Lookup(a, k);
    if bv.Obj? && av.Obj? {
      vs := CollectDiff(path, bv, av, out);
      return;
    }
    if k in b.fields && k in a.fields && bv == av {
      vs := [];
      return;
    }
    out.diff := out.diff[path := FieldDiff(bv, av)];
    vs := [Write(path, FieldDiff(bv, av))];
    assert vs[..0] == [];
  }

  // ---------------------------------------------------------------- every run makes the same writes

  lemma {:induction false} RunMakesWrites(prefix: string, b: Object, a: Object, ws: seq<Write>, w: Write)
    requires Run(prefix, b, a, ws)
    ensures w in ws <==> w in Writes(prefix, b, a)
    decreases b, 2
  {
    hide RunKeys, KeyWrites;
    var ks: seq<string> :| Elements(ks) == Keys(b, a) && Distinct(ks) && RunKeys(prefix, b, a, ks, ws);
    RunKeysMakeWrites(prefix, b, a, ks, ws, w);
    forall k
      ensures k in ks <==> k in Keys(b, a)
    {
      assert k in Elements(ks) <==> k in ks;
    }
  }

  lemma {:induction false} RunKeysMakeWrites(prefix: string, b: Object, a: Object, ks: seq<string>, ws: seq<Write>, w: Write)
    requires RunKeys(prefix, b, a, ks, ws)
    ensures w in ws <==> exists k :: k in ks && w in KeyWrites(prefix, b, a, k)
    decreases b, 1, |ks|
  {
    hide KeyWrites, RunKey;
    if ks != [] {
      var cut: nat :| cut <= |ws| && Cut(prefix, b, a, ks, ws, cut);
      var front, last := ks[..|ks| - 1], ks[|ks| - 1];
      RunKeysMakeWrites(prefix, b, a, front, ws[..cut], w);
      RunKeyMakesWrites(prefix, b, a, last, ws[cut..], w);
      assert ws == ws[..cut] + ws[cut..] && ks == front + [last];
    }
  }

  lemma {:induction false} RunKeyMakesWrites(prefix: string, b: Object, a: Object, k: string, ws: seq<Write>, w: Write)
    requires RunKey(prefix, b, a, k, ws)
    ensures w in ws <==> w in KeyWrites(prefix, b, a, k)
    decreases b, 0
  {
    hide Run, Writes;
    if Descends(b, a, k) {
      RunMakesWrites(Join(prefix, k), Lookup(b, k), Lookup(a, k), ws, w);
    }
  }

  /** Every entry of a diff comes from a write, and every written path has an entry. */
  lemma {:induction false} ApplyEntries(ws: seq<Write>, p: string)
    ensures p in Apply(map[], ws) <==> exists w :: w in ws && w.path == p
    ensures p in Apply(map[], ws) ==> Write(p, Apply(map[], ws)[p]) in ws
  {
    if ws != [] {
      var front, last := ws[..|ws| - 1], ws[|ws| - 1];
      ApplyEntries(front, p);
      assert ws == front + [last];
      assert last in ws;
    }
  }

  /** An empty diff means no change, and no change gives an empty diff, for every run. */
  lemma EmptyDiffMeansEqual(b: Object, a: Object, ws: seq<Write>)
    requires Run("", b, a, ws)
    ensures Apply(map[], ws) == map[] <==> b == a
  {
    hide Run, Writes, Apply;
    NoWritesMeansEqual("", b, a);
    var d := Apply(map[], ws);
    if b == a {
      forall p
        ensures p !in d
      {
        ApplyEntries(ws, p);
        forall w
          ensures w !in ws
        {
          RunMakesWrites("", b, a, ws, w);
        }
      }
    } else {
      var w :| w in Writes("", b, a);
      RunMakesWrites("", b, a, ws, w);
      ApplyEntries(ws, w.path);
    }
  }

  // ---------------------------------------------------------------- when the order shows

  /** No two different assignments go to one path. */
  ghost predicate Functional(ws: set<Write>) {
    forall v, w :: v in ws && w in ws && v.path == w.path ==> v == w
  }

  ghost predicate OrderIndependent(b: Object, a: Object) {
    forall ws, vs :: Run("", b, a, ws) && Run("", b, a, vs) ==> Apply(map[], ws) == Apply(map[], vs)
  }

  lemma {:induction false} SomeRun(prefix: string, b: Object, a: Object) returns (ws: seq<Write>)
    ensures Run(prefix, b, a, ws)
    decreases b, 2
  {
    hide RunKeys, SortedKeys;
    var ks := SortedKeys(Keys(b, a));
    SortedIsDistinct(ks);
    ws := SomeRunKeys(prefix, b, a, ks);
  }

  lemma SortedIsDistinct(ks: seq<string>)
    requires StrictlySorted(ks)
    ensures Distinct(ks)
  {
    forall i, j | 0 <= i < j < |ks|
      ensures ks[i] != ks[j]
    {
      BeforeIrreflexive(ks[i]);
    }
  }

  lemma {:induction false} SomeRunKeys(prefix: string, b: Object, a: Object, ks: seq<string>) returns (ws: seq<Write>)
    ensures RunKeys(prefix, b, a, ks, ws)
    decreases b, 1, |ks|
  {
    hide RunKey;
    if ks == [] {
      ws := [];
    } else {
      var front := SomeRunKeys(prefix, b, a, ks[..|ks| - 1]);
      var last := SomeRunKey(prefix, b, a, ks[|ks| - 1]);
      RunKeysSnoc(prefix, b, a, ks[..|ks| - 1], front, ks[|ks| - 1], last);
      assert ks == ks[..|ks| - 1] + [ks[|ks| - 1]];
      ws := front + last;
    }
  }

  lemma {:induction false} SomeRunKey(prefix: string, b: Object, a: Object, k: string) returns (ws: seq<Write>)
    ensures RunKey(prefix, b, a, k, ws)
    decreases b, 0
  {
    hide Run;
    if Descends(b, a, k) {
      ws := SomeRun(Join(prefix, k), Lookup(b, k), Lookup(a, k));
    } else if Same(b, a, k) {
      ws := [];
    } else {
      ws := [Write(Join(prefix, k), Change(b, a, k))];
    }
  }

  /** Any write can come last: at every level its key may be the last one ranged over. */
  lemma {:induction false} RunEndingIn(prefix: string, b: Object, a: Object, w: Write) returns (ws: seq<Write>)
    requires w in Writes(prefix, b, a)
    ensures Run(prefix, b, a, ws) && ws != [] && ws[|ws| - 1] == w
    decreases b, 1
  {
    hide RunKeys, RunKey, KeyWrites, SortedKeys;
    var k :| k in Keys(b, a) && w in KeyWrites(prefix, b, a, k);
    var ks := SortedKeys(Keys(b, a) - {k});
    SortedIsDistinct(ks);
    assert k !in Elements(ks);
    assert Elements(ks + [k]) == Elements(ks) + {k};
    assert Elements(ks + [k]) == Keys(b, a);
    var front := SomeRunKeys(prefix, b, a, ks);
    var last := KeyRunEndingIn(prefix, b, a, k, w);
    RunKeysSnoc(prefix, b, a, ks, front, k, last);
    ws := front + last;
  }

  lemma {:induction false} KeyRunEndingIn(prefix: string, b: Object, a: Object, k: string, w: Write) returns (ws: seq<Write>)
    requires w in KeyWrites(prefix, b, a, k)
    ensures RunKey(prefix, b, a, k, ws) && ws != [] && ws[|ws| - 1] == w
    decreases b, 0
  {
    hide Run, Writes;
    if Descends(b, a, k) {
      ws := RunEndingIn(Join(prefix, k), Lookup(b, k), Lookup(a, k), w);
    } else {
      ws := [Write(Join(prefix, k), Change(b, a, k))];
    }
  }

  /** The result is the same for every iteration order exactly when no two changed members with
      different values share a dotted path. */
  lemma OrderShowsOnlyInCollisions(b: Object, a: Object)
    ensures OrderIndependent(b, a) <==> Functional(Writes("", b, a))
  {
    hide Run, Writes, Apply;
    if OrderIndependent(b, a) {
      forall v, w | v in Writes("", b, a) && w in Writes("", b, a) && v.path == w.path
        ensures v == w
      {
        var vs := RunEndingIn("", b, a, v);
        var ws := RunEndingIn("", b, a, w);
        LastWins(vs);
        LastWins(ws);
        assert Apply(map[], vs) == Apply(map[], ws);
      }
    }
    if Functional(Writes("", b, a)) {
      forall ws, vs | Run("", b, a, ws) && Run("", b, a, vs)
        ensures Apply(map[], ws) == Apply(map[], vs)
      {
        SameDiff(b, a, ws, vs);
      }
    }
  }

  lemma LastWins(ws: seq<Write>)
    requires ws != []
    ensures var w := ws[|ws| - 1]; w.path in Apply(map[], ws) && Apply(map[], ws)[w.path] == w.change
  {
  }

  lemma SameDiff(b: Object, a: Object, ws: seq<Write>, vs: seq<Write>)
    requires Functional(Writes("", b, a)) && Run("", b, a, ws) && Run("", b, a, vs)
    ensures Apply(map[], ws) == Apply(map[], vs)
  {
    hide Run, Writes, Apply;
    forall w
      ensures w in ws <==> w in vs
      ensures w in ws <==> w in Writes("", b, a)
    {
      RunMakesWrites("", b, a, ws, w);
      RunMakesWrites("", b, a, vs, w);
    }
    forall p
      ensures p in Apply(map[], ws) <==> p in Apply(map[], vs)
      ensures p in Apply(map[], ws) ==> Apply(map[], ws)[p] == Apply(map[], vs)[p]
    {
      ApplyEntries(ws, p);
      ApplyEntries(vs, p);
    }
  }

  /** Two members can share a path: "b" inside "a", and "a.b". */
  lemma DottedKeysCollide()
    ensures var b := Obj(map["a" := Obj(map["b" := Num("1")]), "a.b" := Num("2")]);
            var a := Obj(map["a" := Obj(map["b" := Num("3")]), "a.b" := Num("4")]);
            !OrderIndependent(b, a)
  {
    hide OrderIndependent;
    var bi, ai := Obj(map["b" := Num("1")]), Obj(map["b" := Num("3")]);
    var b, a := Obj(map["a" := bi, "a.b" := Num("2")]), Obj(map["a" := ai, "a.b" := Num("4")]);
    var v, w := Write("a.b", FieldDiff(Num("1"), Num("3"))), Write("a.b", FieldDiff(Num("2"), Num("4")));
    assert "a" + "." + "b" == "a.b";
    assert "b" in Keys(bi, ai) && v in KeyWrites("a", bi, ai, "b");
    assert "a" in Keys(b, a) && v in KeyWrites("", b, a, "a");
    assert "a.b" in Keys(b, a) && w in KeyWrites("", b, a, "a.b");
    OrderShowsOnlyInCollisions(b, a);
  }

  // ---------------------------------------------------------------- plain keys

  predicate PlainKey(k: string) {
    k != "" && '.' !in k
  }

  /** All keys at object positions are non-empty and dot-free. */
  ghost predicate Plain(o: Value) {
    o.Obj? ==> forall k :: k in o.fields ==> PlainKey(k) && Plain(o.fields[k])
  }

  /** The path leads below `prefix`. */
  predicate Under(prefix: string, p: string) {
    prefix == "" || (|prefix| < |p| && p[..|prefix|] == prefix && p[|prefix|] == '.')
  }

  function Rest(prefix: string, p: string): string
    requires Under(prefix, p)
  {
    if prefix == "" then p else p[|prefix| + 1..]
  }

  function FirstSegment(s: string): string {
    if s == "" || s[0] == '.' then "" else [s[0]] + FirstSegment(s[1..])
  }

  lemma {:induction false} SegmentStops(k: string, rest: string)
    requires '.' !in k && (rest == "" || rest[0] == '.')
    ensures FirstSegment(k + rest) == k
  {
    if k == "" {
      assert k + rest == rest;
    } else {
      assert k[0] in k;
      SegmentStops(k[1..], rest);
      assert (k + rest)[1..] == k[1..] + rest;
    }
  }

  lemma JoinPlace(prefix: string, k: string)
    requires PlainKey(k)
    ensures Under(prefix, Join(prefix, k)) && Rest(prefix, Join(prefix, k)) == k
    ensures FirstSegment(k) == k && Join(prefix, k) != ""
  {
    SegmentStops(k, "");
    assert k + "" == k;
  }

  lemma UnderJoin(prefix: string, k: string, p: string)
    requires PlainKey(k) && Under(Join(prefix, k), p)
    ensures Under(prefix, p) && FirstSegment(Rest(prefix, p)) == k && p != Join(prefix, k)
  {
    var at := Join(prefix, k);
    JoinPlace(prefix, k);
    var tail := p[|at|..];
    assert p == at + tail;
    if prefix != "" {
      assert p[..|prefix|] == at[..|prefix|];
    }
    assert Rest(prefix, p) == k + tail;
    SegmentStops(k, tail);
  }

  /** With plain keys the first segment below the prefix names the member a write comes from. */
  lemma {:induction false} WritePlace(prefix: string, b: Object, a: Object, k: string, w: Write)
    requires Plain(b) && Plain(a) && k in Keys(b, a) && w in KeyWrites(prefix, b, a, k)
    ensures Under(prefix, w.path) && FirstSegment(Rest(prefix, w.path)) == k
    ensures if Descends(b, a, k) then Under(Join(prefix, k), w.path) else w.path == Join(prefix, k)
    decreases b
  {
    hide Under, Rest, FirstSegment, Join;
    assert PlainKey(k);
    JoinPlace(prefix, k);
    if Descends(b, a, k) {
      var bk, ak := Lookup(b, k), Lookup(a, k);
      var l :| l in Keys(bk, ak) && w in KeyWrites(Join(prefix, k), bk, ak, l);
      WritePlace(Join(prefix, k), bk, ak, l, w);
      UnderJoin(prefix, k, w.path);
    }
  }

  lemma {:induction false} PlainKeysDoNotCollide(prefix: string, b: Object, a: Object)
    requires Plain(b) && Plain(a)
    ensures Functional(Writes(prefix, b, a))
    decreases b
  {
    hide Under, Rest, FirstSegment, Join, Plain;
    forall v, w | v in Writes(prefix, b, a) && w in Writes(prefix, b, a) && v.path == w.path
      ensures v == w
    {
      var k :| k in Keys(b, a) && v in KeyWrites(prefix, b, a, k);
      var l :| l in Keys(b, a) && w in KeyWrites(prefix, b, a, l);
      WritePlace(prefix, b, a, k, v);
      WritePlace(prefix, b, a, l, w);
      if Descends(b, a, k) {
        PlainMember(b, k);
        PlainMember(a, k);
        PlainKeysDoNotCollide(Join(prefix, k), Lookup(b, k), Lookup(a, k));
      }
    }
  }

  lemma PlainMember(o: Object, k: string)
    requires Plain(o) && k in o.fields
    ensures PlainKey(k) && Plain(o.fields[k])
  {
  }

  /** For plain keys the diff does not depend on the iteration order. */
  lemma PlainDiffIsDeterministic(b: Object, a: Object)
    requires Plain(b) && Plain(a)
    ensures OrderIndependent(b, a)
  {
    PlainKeysDoNotCollide("", b, a);
    OrderShowsOnlyInCollisions(b, a);
  }

  // ---------------------------------------------------------------- patching

  /** The keys that the diff names directly below a prefix. */
  function Named(prefix: string, d: ChangeDiff): set<string> {
    set p | p in d && Under(prefix, p) && PlainKey(Rest(prefix, p)) :: Rest(prefix, p)
  }

  /** Applying a diff to an object: a named member takes the After value (or goes, for nil),
      objects that are not named are patched inside, everything else stays. */
  function Patch(prefix: string, o: Object, d: ChangeDiff): Object
    decreases o, 1
  {
    Obj(map k | k in o.fields.Keys + Named(prefix, d) && PatchedMember(prefix, o, d, k).Some? ::
          PatchedMember(prefix, o, d, k).value)
  }

  function PatchedMember(prefix: string, o: Object, d: ChangeDiff, k: string): Option<Value>
    decreases o, 0
  {
    var p := Join(prefix, k);
    if p in d then (if d[p].after == Null then None else Some(d[p].after))
    else if Lookup(o, k).Obj? then Some(Patch(p, Lookup(o, k), d))
    else if k in o.fields then Some(o.fields[k])
    else None
  }

  /** `d` holds exactly the writes below `prefix`. */
  ghost predicate IsDiff(prefix: string, b: Object, a: Object, d: ChangeDiff) {
    forall p :: Under(prefix, p) ==>
                  && (p in d ==> Write(p, d[p]) in Writes(prefix, b, a))
                  && ((exists w :: w in Writes(prefix, b, a) && w.path == p) ==> p in d)
  }

  ghost predicate Changed(b: Object, a: Object, k: string) {
    k in Keys(b, a) && !Descends(b, a, k) && !Same(b, a, k)
  }

  lemma DiffAt(prefix: string, b: Object, a: Object, d: ChangeDiff, k: string)
    requires Plain(b) && Plain(a) && IsDiff(prefix, b, a, d) && PlainKey(k)
    ensures Join(prefix, k) in d <==> Changed(b, a, k)
    ensures Changed(b, a, k) ==> d[Join(prefix, k)] == Change(b, a, k)
  {
    hide Under, Rest, FirstSegment, Join, Plain;
    var p := Join(prefix, k);
    JoinPlace(prefix, k);
    if p in d {
      var w := Write(p, d[p]);
      var l :| l in Keys(b, a) && w in KeyWrites(prefix, b, a, l);
      WritePlace(prefix, b, a, l, w);
      if Descends(b, a, l) {
        UnderJoin(prefix, l, p);
      }
    }
    if Changed(b, a, k) {
      assert Write(p, Change(b, a, k)) in KeyWrites(prefix, b, a, k);
      assert Write(p, Change(b, a, k)) in Writes(prefix, b, a);
    }
  }

  lemma DiffBelow(prefix: string, b: Object, a: Object, d: ChangeDiff, k: string)
    requires Plain(b) && Plain(a) && IsDiff(prefix, b, a, d) && Descends(b, a, k)
    ensures PlainKey(k) && Plain(Lookup(b, k)) && Plain(Lookup(a, k))
    ensures IsDiff(Join(prefix, k), Lookup(b, k), Lookup(a, k), d)
  {
    hide Under, Rest, FirstSegment, Join, Plain;
    PlainMember(b, k);
    PlainMember(a, k);
    var at := Join(prefix, k);
    forall p | Under(at, p)
      ensures p in d ==> Write(p, d[p]) in Writes(at, Lookup(b, k), Lookup(a, k))
      ensures (exists w :: w in Writes(at, Lookup(b, k), Lookup(a, k)) && w.path == p) ==> p in d
    {
      UnderJoin(prefix, k, p);
      if p in d {
        var w := Write(p, d[p]);
        var l :| l in Keys(b, a) && w in KeyWrites(prefix, b, a, l);
        WritePlace(prefix, b, a, l, w);
      }
      forall w | w in Writes(at, Lookup(b, k), Lookup(a, k)) && w.path == p
        ensures w in Writes(prefix, b, a)
      {
        assert w in KeyWrites(prefix, b, a, k);
      }
    }
  }

  /** No member turns into null on the way from `b` to `a`: a null that is written cannot be told
      from a deletion. */
  ghost predicate NoNewNull(b: Object, a: Object)
    decreases b
  {
    forall k :: k in Keys(b, a) ==>
                  if Descends(b, a, k) then NoNewNull(Lookup(b, k), Lookup(a, k))
                  else k in a.fields && a.fields[k] == Null ==> Same(b, a, k)
  }

  function MemberOf(o: Object, k: string): Option<Value> {
    if k in o.fields then Some(o.fields[k]) else None
  }

  /** Patching `b` with its diff to `a` gives `a` exactly when no member turns into null. */
  lemma {:induction false} PatchGivesAfter(prefix: string, b: Object, a: Object, d: ChangeDiff)
    requires Plain(b) && Plain(a) && IsDiff(prefix, b, a, d)
    ensures Patch(prefix, b, d) == a <==> NoNewNull(b, a)
    decreases b
  {
    hide Under, Rest, FirstSegment, Join, Plain, IsDiff, Writes, Patch;
    forall k
      ensures MemberOf(Patch(prefix, b, d), k) == MemberOf(a, k) <==>
              (k in Keys(b, a) ==>
                 if Descends(b, a, k) then NoNewNull(Lookup(b, k), Lookup(a, k))
                 else k in a.fields && a.fields[k] == Null ==> Same(b, a, k))
    {
      PatchMember(prefix, b, a, d, k);
      if Descends(b, a, k) {
        DiffBelow(prefix, b, a, d, k);
        PatchGivesAfter(Join(prefix, k), Lookup(b, k), Lookup(a, k), d);
      }
    }
    EqualByMembers(Patch(prefix, b, d), a);
  }

  lemma EqualByMembers(o: Object, u: Object)
    ensures o == u <==> forall k :: MemberOf(o, k) == MemberOf(u, k)
  {
    if forall k :: MemberOf(o, k) == MemberOf(u, k) {
      assert forall k :: k in o.fields ==> MemberOf(o, k) == MemberOf(u, k);
      assert forall k :: k in u.fields ==> MemberOf(o, k) == MemberOf(u, k);
      assert o.fields == u.fields;
    }
  }

  lemma PatchMember(prefix: string, b: Object, a: Object, d: ChangeDiff, k: string)
    requires Plain(b) && Plain(a) && IsDiff(prefix, b, a, d)
    ensures MemberOf(Patch(prefix, b, d), k) ==
            if Descends(b, a, k) then Some(Patch(Join(prefix, k), Lookup(b, k), d))
            else if Changed(b, a, k) then (if Lookup(a, k) == Null then None else Some(Lookup(a, k)))
            else MemberOf(a, k)
  {
    hide Under, Rest, FirstSegment, Join, IsDiff, Writes;
    if PlainKey(k) {
      DiffAt(prefix, b, a, d, k);
      JoinPlace(prefix, k);
      assert Join(prefix, k) in d ==> k in Named(prefix, d);
    }
  }

  lemma RunIsDiff(b: Object, a: Object, ws: seq<Write>)
    requires Plain(b) && Plain(a) && Run("", b, a, ws)
    ensures IsDiff("", b, a, Apply(map[], ws))
  {
    hide Run, Writes, Apply;
    forall w
      ensures w in ws <==> w in Writes("", b, a)
    {
      RunMakesWrites("", b, a, ws, w);
    }
    forall p
      ensures p in Apply(map[], ws) ==> Write(p, Apply(map[], ws)[p]) in Writes("", b, a)
      ensures (exists w :: w in Writes("", b, a) && w.path == p) ==> p in Apply(map[], ws)
    {
      ApplyEntries(ws, p);
    }
  }

  // ---------------------------------------------------------------- the other direction

  function SwapWrite(w: Write): Write {
    Write(w.path, FieldDiff(w.change.after, w.change.before))
  }

  function SwapAll(ws: seq<Write>): (vs: seq<Write>)
    ensures |vs| == |ws| && forall i :: 0 <= i < |ws| ==> vs[i] == SwapWrite(ws[i])
  {
    seq(|ws|, i requires 0 <= i < |ws| => SwapWrite(ws[i]))
  }

  /** Every Before/After pair exchanged. */
  function Swap(d: ChangeDiff): ChangeDiff {
    map p | p in d :: FieldDiff(d[p].after, d[p].before)
  }

  lemma {:induction false} SwapApply(ws: seq<Write>)
    ensures Apply(map[], SwapAll(ws)) == Swap(Apply(map[], ws))
  {
    if ws != [] {
      SwapApply(ws[..|ws| - 1]);
      assert SwapAll(ws)[..|ws| - 1] == SwapAll(ws[..|ws| - 1]);
    }
  }

  /** Exchanging the arguments exchanges every pair, order for order: each run one way is a run
      the other way. */
  lemma {:induction false} SwappedRun(prefix: string, b: Object, a: Object, ws: seq<Write>)
    requires Run(prefix, b, a, ws)
    ensures Run(prefix, a, b, SwapAll(ws))
    decreases b, 2
  {
    hide RunKeys, SwapAll;
    var ks: seq<string> :| Elements(ks) == Keys(b, a) && Distinct(ks) && RunKeys(prefix, b, a, ks, ws);
    SwappedRunKeys(prefix, b, a, ks, ws);
    assert Keys(a, b) == Keys(b, a);
  }

  lemma {:induction false} SwappedRunKeys(prefix: string, b: Object, a: Object, ks: seq<string>, ws: seq<Write>)
    requires RunKeys(prefix, b, a, ks, ws)
    ensures RunKeys(prefix, a, b, ks, SwapAll(ws))
    decreases b, 1, |ks|
  {
    hide RunKey;
    if ks != [] {
      var cut: nat :| cut <= |ws| && Cut(prefix, b, a, ks, ws, cut);
      var front, last := ks[..|ks| - 1], ks[|ks| - 1];
      SwappedRunKeys(prefix, b, a, front, ws[..cut]);
      SwappedRunKey(prefix, b, a, last, ws[cut..]);
      RunKeysSnoc(prefix, a, b, front, SwapAll(ws[..cut]), last, SwapAll(ws[cut..]));
      assert ks == front + [last];
      assert SwapAll(ws) == SwapAll(ws[..cut]) + SwapAll(ws[cut..]);
    }
  }

  lemma {:induction false} SwappedRunKey(prefix: string, b: Object, a: Object, k: string, ws: seq<Write>)
    requires RunKey(prefix, b, a, k, ws)
    ensures RunKey(prefix, a, b, k, SwapAll(ws))
    decreases b, 0
  {
    hide Run;
    if Descends(b, a, k) {
      SwappedRun(Join(prefix, k), Lookup(b, k), Lookup(a, k), ws);
    }
  }

  /** The diff as a reversible record of the change: forwards it gives `after`, with its pairs
      exchanged it gives `before`. */
  lemma DiffIsReversible(b: Object, a: Object, ws: seq<Write>)
    requires Plain(b) && Plain(a) && Run("", b, a, ws)
    ensures Patch("", b, Apply(map[], ws)) == a <==> NoNewNull(b, a)
    ensures Patch("", a, Swap(Apply(map[], ws))) == b <==> NoNewNull(a, b)
  {
    hide Run, Patch, Apply, NoNewNull, Plain, IsDiff, SwapAll, Swap;
    RunIsDiff(b, a, ws);
    PatchGivesAfter("", b, a, Apply(map[], ws));
    SwappedRun("", b, a, ws);
    SwapApply(ws);
    RunIsDiff(a, b, SwapAll(ws));
    PatchGivesAfter("", a, b, Swap(Apply(map[], ws)));
  }

  /** No null anywhere at an object position. */
  ghost predicate NullFree(o: Value) {
    o.Obj? ==> forall k :: k in o.fields ==> o.fields[k] != Null && NullFree(o.fields[k])
  }

  lemma {:induction false} NullFreeHasNoNewNull(b: Object, a: Object)
    requires NullFree(a)
    ensures NoNewNull(b, a)
    decreases b
  {
    forall k | k in Keys(b, a) && Descends(b, a, k)
      ensures NoNewNull(Lookup(b, k), Lookup(a, k))
    {
      NullFreeHasNoNewNull(Lookup(b, k), Lookup(a, k));
    }
  }

  // ---------------------------------------------------------------- computeDiff and BuildChangeEvent

  /** What a side of the comparison is: the decoded document of an object, and the empty object for
      nil and for a value that marshals to null. */
  function Side(p: Payload): Object {
    if p.Tree? && p.raw.RObj? then Normalise(p.raw) else Obj(map[])
  }

  predicate IsSide(p: Payload) {
    p.Nil? || (p.Tree? && (p.raw.RObj? || p.raw.RNull?))
  }

  /** normalizeToObject: marshal and decode into a map; any value that is not an object is an error. */
  function NormalizeToObject(p: Payload): (o: Option<Object>)
    ensures o == if IsSide(p) then Some(Side(p)) else None
  {
    match p
    case Nil => Some(Obj(map[]))
    case Bad => None
    case Tree(raw) =>
      match Normalise(raw)
      case Obj(fields) => Some(Obj(fields))
      case Null => Some(Obj(map[]))
      case _ => None
  }

  /** computeDiff: an error exactly when a side is not an object, null or nil; otherwise the result of a
      run over the two decoded documents, empty exactly when these are equal. */
  method ComputeDiff(before: Payload, after: Payload) returns (r: Option<ChangeDiff>, ghost ws: seq<Write>)
    ensures r.None? <==>
              || before.Bad? || (before.Tree? && !before.raw.RObj? && !before.raw.RNull?)
              || after.Bad? || (after.Tree? && !after.raw.RObj? && !after.raw.RNull?)
    ensures r.Some? ==> Run("", Side(before), Side(after), ws) && r.value == Apply(map[], ws)
    ensures r.Some? ==> (r.value == map[] <==> Side(before) == Side(after))
    ensures r.Some? && before.Tree? && before.raw.RObj? && after.Tree? && after.raw.RObj? ==>
              (r.value == map[] <==> Normalise(before.raw) == Normalise(after.raw))
  {
    hide Run, Apply;
    ws := [];
    var b, a := NormalizeToObject(before), NormalizeToObject(after);
    if b.None? || a.None? {
      return None, [];
    }
    var out := new DiffMap();
    ws := CollectDiff("", b.value, a.value, out);
    EmptyDiffMeansEqual(b.value, a.value, ws);
    r := Some(out.diff);
  }

  /** For two documents with plain keys the diff has exactly one entry per changed member, under its
      path, with the two values. */
  lemma TopLevelChanges(b: Object, a: Object, ws: seq<Write>, k: string)
    requires Plain(b) && Plain(a) && Run("", b, a, ws) && PlainKey(k)
    ensures k in Apply(map[], ws) <==> Changed(b, a, k)
    ensures Changed(b, a, k) ==> Apply(map[], ws)[k] == FieldDiff(Lookup(b, k), Lookup(a, k))
  {
    RunIsDiff(b, a, ws);
    DiffAt("", b, a, Apply(map[], ws), k);
  }

  /** The members json.Marshal writes for a FieldDiff: a nil side is omitted. */
  ghost function SideMembers(c: FieldDiff): seq<Json.Member> {
    (if c.before == Null then [] else [Json.Member("before", Canon(c.before))]) +
    (if c.after == Null then [] else [Json.Member("after", Canon(c.after))])
  }

  ghost function DiffMembers(d: ChangeDiff, ks: seq<string>): (ms: seq<Json.Member>)
    requires Elements(ks) <= d.Keys
    ensures |ms| == |ks|
    ensures forall i :: 0 <= i < |ks| ==> ks[i] in d && ms[i] == Json.Member(ks[i], RObj(SideMembers(d[ks[i]])))
  {
    assert forall i :: 0 <= i < |ks| ==> ks[i] in Elements(ks);
    seq(|ks|, i requires 0 <= i < |ks| => Json.Member(ks[i], RObj(SideMembers(d[ks[i]]))))
  }

  /** The diff as json.Marshal writes it: paths sorted, each with its sides. */
  ghost function DiffDocument(d: ChangeDiff): Raw {
    RObj(DiffMembers(d, SortedKeys(d.Keys)))
  }

  ghost predicate DiffNumbers(d: ChangeDiff) {
    forall p :: p in d ==> ValidNumbers(d[p].before) && ValidNumbers(d[p].after)
  }

  /** Reading a recorded diff: a missing side is nil. */
  function ReadSide(v: Value, side: string): Value {
    if v.Obj? && side in v.fields then v.fields[side] else Null
  }

  function ReadDiff(v: Value): ChangeDiff {
    if v.Obj? then map p | p in v.fields :: FieldDiff(ReadSide(v.fields[p], "before"), ReadSide(v.fields[p], "after"))
    else map[]
  }

  lemma DocumentWellFormed(d: ChangeDiff)
    requires DiffNumbers(d)
    ensures WellFormed(DiffDocument(d))
  {
    hide Canon, SortedKeys;
    var ks := SortedKeys(d.Keys);
    var ms := DiffMembers(d, ks);
    forall i | 0 <= i < |ms|
      ensures WellFormed(ms[i].value)
    {
      var c := d[ks[i]];
      CanonWellFormed(c.before);
      CanonWellFormed(c.after);
    }
  }

  /** The member records a path of the diff, with its sides unless they are nil. */
  ghost predicate OmitsNil(d: ChangeDiff, m: Json.Member) {
    && m.key in d && m.value.RObj?
    && KeysOf(m.value.members) ==
       (if d[m.key].before == Null then {} else {"before"}) + (if d[m.key].after == Null then {} else {"after"})
  }

  lemma SidesRead(c: FieldDiff)
    ensures var v := Normalise(RObj(SideMembers(c)));
            FieldDiff(ReadSide(v, "before"), ReadSide(v, "after")) == c
  {
    hide Canon, Normalise, NormaliseMembers;
    NormaliseCanon(c.before);
    NormaliseCanon(c.after);
    var ms := SideMembers(c);
    SidesDiffer();
    ObjectValue(ms);
    NormaliseKeys(ms);
    if |ms| >= 1 {
      NormaliseLookup(ms, 0);
    }
    if |ms| == 2 {
      NormaliseLookup(ms, 1);
    }
  }

  /** The recorded sides are exactly those that are not nil. */
  lemma NilSidesAreOmitted(c: FieldDiff)
    ensures KeysOf(SideMembers(c)) == (if c.before == Null then {} else {"before"}) + (if c.after == Null then {} else {"after"})
  {
    hide Canon;
    var ms := SideMembers(c);
    forall k
      ensures k in KeysOf(ms) <==> (k == "before" && c.before != Null) || (k == "after" && c.after != Null)
    {
      if k == "before" && c.before != Null {
        assert ms[0].key == k;
      }
      if k == "after" && c.after != Null {
        assert ms[|ms| - 1].key == k;
      }
    }
  }

  lemma SidesDiffer()
    ensures "before" != "after"
  {
    assert "before"[0] != "after"[0];
  }

  /** The recorded document's members are the changed paths, each with the sides that are not nil. */
  lemma DocumentMembers(d: ChangeDiff)
    ensures DiffDocument(d).RObj? && KeysOf(DiffDocument(d).members) == d.Keys
    ensures forall i :: 0 <= i < |DiffDocument(d).members| ==> OmitsNil(d, DiffDocument(d).members[i])
  {
    hide Canon, SortedKeys, SideMembers, OmitsNil;
    var ks := SortedKeys(d.Keys);
    var ms := DiffMembers(d, ks);
    forall i | 0 <= i < |ms|
      ensures OmitsNil(d, ms[i])
    {
      MemberOmitsNil(d, ks[i]);
    }
    forall p
      ensures p in KeysOf(ms) <==> p in d
    {
      assert p in Elements(ks) <==> p in d;
      if p in d {
        var i :| 0 <= i < |ks| && ks[i] == p;
        assert ms[i].key == p;
      }
    }
  }

  lemma MemberOmitsNil(d: ChangeDiff, p: string)
    requires p in d
    ensures OmitsNil(d, Json.Member(p, RObj(SideMembers(d[p]))))
  {
    hide SideMembers;
    NilSidesAreOmitted(d[p]);
  }

  /** The recorded document determines the diff. */
  lemma DocumentRead(d: ChangeDiff)
    ensures ReadDiff(Normalise(DiffDocument(d))) == d
  {
    hide Canon, SortedKeys, Normalise, NormaliseMembers, ReadSide;
    var ks := SortedKeys(d.Keys);
    SortedIsDistinct(ks);
    var ms := DiffMembers(d, ks);
    NormaliseKeys(ms);
    ObjectValue(ms);
    forall p
      ensures p in d <==> p in NormaliseMembers(ms)
      ensures p in d ==> NormaliseMembers(ms)[p] == Normalise(RObj(SideMembers(d[p])))
    {
      if p in d {
        assert p in Elements(ks);
        var i :| 0 <= i < |ks| && ks[i] == p;
        NormaliseLookup(ms, i);
        assert ms[i].key == p;
      }
      if p in KeysOf(ms) {
        var i :| 0 <= i < |ms| && ms[i].key == p;
        assert ks[i] in Elements(ks);
      }
    }
    forall p | p in d
      ensures ReadDiff(Normalise(DiffDocument(d)))[p] == d[p]
    {
      SidesRead(d[p]);
    }
  }

  lemma ObjectValue(ms: seq<Json.Member>)
    ensures Normalise(RObj(ms)) == Obj(NormaliseMembers(ms))
  {
  }

  /** The event BuildChangeEvent returns for a computed diff. */
  ghost function ChangeEvent(chainID: string, actorID: string, entityType: string, entityID: string,
                             before: Payload, after: Payload, d: ChangeDiff): Event
    requires DiffNumbers(d)
  {
    DocumentWellFormed(d);
    Event(chainID, 0, actorID, entityType, entityID,
          if before.Nil? then "create" else if after.Nil? then "delete" else "update",
          Tree(DiffDocument(d)), Calendar.ZERO_TIME, "", "")
  }

  /** The action tells which side was missing; before counts first when both are. */
  lemma ActionTellsTheMissingSide(chainID: string, actorID: string, entityType: string, entityID: string,
                                  before: Payload, after: Payload, d: ChangeDiff)
    requires DiffNumbers(d)
    ensures var e := ChangeEvent(chainID, actorID, entityType, entityID, before, after, d);
            (e.action == "create" <==> before.Nil?) && (e.action == "delete" <==> !before.Nil? && after.Nil?)
  {
    hide DiffNumbers, DiffDocument;
    assert "create"[0] == 'c' && "delete"[0] == 'd' && "update"[0] == 'u';
  }

  lemma {:induction false} WritesValid(prefix: string, b: Object, a: Object, w: Write)
    requires ValidNumbers(b) && ValidNumbers(a) && w in Writes(prefix, b, a)
    ensures ValidNumbers(w.change.before) && ValidNumbers(w.change.after)
    decreases b
  {
    var k :| k in Keys(b, a) && w in KeyWrites(prefix, b, a, k);
    if Descends(b, a, k) {
      WritesValid(Join(prefix, k), Lookup(b, k), Lookup(a, k), w);
    }
  }

  lemma ObjectNumbers(p: Payload)
    ensures ValidNumbers(Side(p))
  {
    if p.Tree? {
      NormaliseValid(p.raw);
    }
  }

  lemma DiffIsDocument(before: Payload, after: Payload, ws: seq<Write>)
    requires IsSide(before) && IsSide(after)
    requires Run("", Side(before), Side(after), ws)
    ensures DiffNumbers(Apply(map[], ws))
  {
    hide Run, Writes, Apply, Side, ValidNumbers;
    var b, a, d := Side(before), Side(after), Apply(map[], ws);
    ObjectNumbers(before);
    ObjectNumbers(after);
    forall p | p in d
      ensures ValidNumbers(d[p].before) && ValidNumbers(d[p].after)
    {
      ApplyEntries(ws, p);
      RunMakesWrites("", b, a, ws, Write(p, d[p]));
      WritesValid("", b, a, Write(p, d[p]));
    }
  }

  /** From the change to the log and back: the event of a change passes Validate as soon as the
      caller's four identifiers are set; its action tells which side was nil; the entry a store reads
      back still carries the diff; and for plain keys without nulls that diff turns `before` into
      `after` and back. */
  lemma RecordedChangeIsReversible(render: Rendering, chainID: string, actorID: string, entityType: string, entityID: string,
                                   before: Payload, after: Payload, ws: seq<Write>)
    requires IsSide(before) && IsSide(after)
    requires Run("", Side(before), Side(after), ws)
    requires Plain(Side(before)) && Plain(Side(after))
    requires NullFree(Side(before)) && NullFree(Side(after))
    ensures DiffNumbers(Apply(map[], ws))
    ensures var b, a := Side(before), Side(after);
            var e := ChangeEvent(chainID, actorID, entityType, entityID, before, after, Apply(map[], ws));
            && e.chainID == chainID && e.actorID == actorID && e.entityType == entityType && e.entityID == entityID
            && e.timestamp == Calendar.ZERO_TIME
            && (Validate(e) <==> chainID != "" && actorID != "" && entityType != "" && entityID != "")
            && (e.action == "create" <==> before.Nil?) && (e.action == "delete" <==> !before.Nil? && after.Nil?)
            && (Preserved(render, e.payload) ==>
                  var d := ReadDiff(PayloadValue(ReadBack(render, e.payload)));
                  Patch("", b, d) == a && Patch("", a, Swap(d)) == b)
  {
    hide Run, Patch, Apply, NoNewNull, Plain, NullFree, ReadDiff, Side, DiffDocument, PayloadValue, Swap,
         DecodeStoredPayload, DecodeValue, Normalise;
    var b, a, d := Side(before), Side(after), Apply(map[], ws);
    DiffIsDocument(before, after, ws);
    ActionTellsTheMissingSide(chainID, actorID, entityType, entityID, before, after, d);
    var p := ChangeEvent(chainID, actorID, entityType, entityID, before, after, d).payload;
    PayloadOfDocument(d, p);
    if Preserved(render, p) {
      PreservedValue(render, p);
      DiffIsReversible(b, a, ws);
      NullFreeHasNoNewNull(b, a);
      NullFreeHasNoNewNull(a, b);
    }
  }

  lemma PayloadOfDocument(d: ChangeDiff, p: Payload)
    requires p.Tree? && p.raw == DiffDocument(d)
    ensures ReadDiff(PayloadValue(p)) == d
  {
    hide DiffDocument, Normalise, ReadDiff;
    DocumentRead(d);
  }
}
