/** The two-check verification loop shared by the three backends, and what passing it means for
    chains that were altered, shortened or spliced. */
module Chain {
  import opened Text

  // ---------------------------------------------------------------- digests and rows

  predicate IsHexDigest(s: string) {
    |s| == 64 && forall i :: 0 <= i < |s| ==> IsDigit(s[i]) || 'a' <= s[i] <= 'f'
  }

  type HexDigest = s: string | IsHexDigest(s) witness Digits(0, 64)

  /** sha256.Sum256 followed by hex.EncodeToString: any function to 64 lower-case hex characters.
      It is a parameter of everything below, assumed neither injective nor anything else. */
  type Digest = string -> HexDigest

  /** GenesisPrevHash: 64 zeros, the PrevHash of entry 1 of every chain. */
  const GENESIS: HexDigest := Digits(0, 64)

  lemma GenesisIsZeros()
    ensures |GENESIS| == 64 && forall i :: 0 <= i < 64 ==> GENESIS[i] == '0'
  {
    ZeroDigits(64);
  }

  lemma {:induction false} ZeroDigits(w: nat)
    ensures forall i :: 0 <= i < w ==> Digits(0, w)[i] == '0'
  {
    if w > 0 {
      ZeroDigits(w - 1);
    }
  }

  /** What a check loop reads of a stored entry: its position, the text of all hashed fields but
      PrevHash (none if the payload cannot be decoded), and the two stored hashes. */
  datatype Row = Row(id: nat, head: Option<string>, hash: string, prevHash: string)

  function Preimage(r: Row): Option<string> {
    if r.head.Some? then Some(r.head.value + r.prevHash) else None
  }

  function HashOf(sha: Digest, r: Row): Option<string> {
    if r.head.Some? then Some(sha(r.head.value + r.prevHash)) else None
  }

  /** The outcome of a check loop: VerifyResult, or the operational error of an undecodable row. */
  datatype Verdict = Valid | Broken(at: nat, expected: string, actual: string) | Failed

  // ---------------------------------------------------------------- the two checks, declaratively

  /** The PrevHash row `i` must carry: `seed` for the first row, else the stored Hash before it. */
  function Expected(seed: string, rows: seq<Row>, i: nat): string
    requires i < |rows|
  {
    if i == 0 then seed else rows[i - 1].hash
  }

  /** Check B at row `i`, and check A of one row. */
  predicate LinkOk(seed: string, rows: seq<Row>, i: nat)
    requires i < |rows|
  {
    rows[i].prevHash == Expected(seed, rows, i)
  }

  predicate HashOk(sha: Digest, e: Row) {
    HashOf(sha, e) == Some(e.hash)
  }

  predicate RowOk(sha: Digest, seed: string, rows: seq<Row>, i: nat)
    requires i < |rows|
  {
    LinkOk(seed, rows, i) && HashOk(sha, rows[i])
  }

  ghost predicate Passes(sha: Digest, seed: string, rows: seq<Row>) {
    forall i :: 0 <= i < |rows| ==> RowOk(sha, seed, rows, i)
  }

  /** What the loop says about a failing row. */
  function Explain(sha: Digest, seed: string, rows: seq<Row>, k: nat): Verdict
    requires k < |rows|
  {
    if !LinkOk(seed, rows, k) then Broken(rows[k].id, Expected(seed, rows, k), rows[k].prevHash)
    else
      match HashOf(sha, rows[k])
      case None => Failed
      case Some(h) => Broken(rows[k].id, h, rows[k].hash)
  }

  ghost predicate FirstFailure(sha: Digest, seed: string, rows: seq<Row>, k: nat) {
    && k < |rows|
    && !RowOk(sha, seed, rows, k)
    && forall i :: 0 <= i < k ==> RowOk(sha, seed, rows, i)
  }

  /** The contract of Verify on a list of rows: valid exactly when every row passes both checks,
      otherwise the report of the least failing row. */
  ghost predicate Reports(sha: Digest, seed: string, rows: seq<Row>, v: Verdict) {
    if Passes(sha, seed, rows) then v == Valid
    else exists k :: FirstFailure(sha, seed, rows, k) && v == Explain(sha, seed, rows, k)
  }

  lemma ReportsIsFunctional(sha: Digest, seed: string, rows: seq<Row>, v: Verdict, w: Verdict)
    requires Reports(sha, seed, rows, v) && Reports(sha, seed, rows, w)
    ensures v == w
  {
    if !Passes(sha, seed, rows) {
      var k :| FirstFailure(sha, seed, rows, k) && v == Explain(sha, seed, rows, k);
      var l :| FirstFailure(sha, seed, rows, l) && w == Explain(sha, seed, rows, l);
      assert k == l;
    }
  }

  // ---------------------------------------------------------------- the loop

  /** One left-to-right pass, carrying the hash the next row must link to. */
  function Check(sha: Digest, seed: string, rows: seq<Row>): Verdict
    decreases |rows|
  {
    if rows == [] then Valid
    else if !RowOk(sha, seed, rows, 0) then Explain(sha, seed, rows, 0)
    else Check(sha, rows[0].hash, rows[1..])
  }

  lemma {:induction false} CheckFrom(sha: Digest, seed: string, rows: seq<Row>, k: nat)
    requires k <= |rows|
    requires forall i :: 0 <= i < k ==> RowOk(sha, seed, rows, i)
    ensures Check(sha, seed, rows) == Check(sha, if k == 0 then seed else rows[k - 1].hash, rows[k..])
    decreases k
  {
    if k == 0 {
      assert rows[0..] == rows;
    } else {
      CheckFrom(sha, seed, rows, k - 1);
      var rest := rows[k - 1..];
      assert RowOk(sha, seed, rows, k - 1);
      assert rest[0] == rows[k - 1] && rest[1..] == rows[k..];
    }
  }

  /** The pass meets the contract. */
  lemma CheckReports(sha: Digest, seed: string, rows: seq<Row>)
    ensures Reports(sha, seed, rows, Check(sha, seed, rows))
  {
    if Passes(sha, seed, rows) {
      CheckFrom(sha, seed, rows, |rows|);
      assert rows[|rows|..] == [];
    } else {
      var k := LeastFailure(sha, seed, rows);
      CheckFrom(sha, seed, rows, k);
      assert rows[k..][0] == rows[k];
      assert FirstFailure(sha, seed, rows, k);
    }
  }

  lemma LeastFailure(sha: Digest, seed: string, rows: seq<Row>) returns (k: nat)
    requires !Passes(sha, seed, rows)
    ensures FirstFailure(sha, seed, rows, k)
  {
    k := 0;
    while k < |rows| && RowOk(sha, seed, rows, k)
      invariant k <= |rows|
      invariant forall i :: 0 <= i < k ==> RowOk(sha, seed, rows, i)
    {
      k := k + 1;
    }
  }

  /** A loop that stops at the first failing row and explains it has computed Check. */
  lemma Stopped(sha: Digest, seed: string, rows: seq<Row>, k: nat, v: Verdict)
    requires FirstFailure(sha, seed, rows, k) && v == Explain(sha, seed, rows, k)
    ensures Reports(sha, seed, rows, v) && v == Check(sha, seed, rows)
  {
    CheckReports(sha, seed, rows);
    ReportsIsFunctional(sha, seed, rows, v, Check(sha, seed, rows));
  }

  lemma ValidMeansPasses(sha: Digest, seed: string, rows: seq<Row>)
    ensures Check(sha, seed, rows) == Valid <==> Passes(sha, seed, rows)
  {
    CheckReports(sha, seed, rows);
  }

  lemma PassesAppend(sha: Digest, seed: string, rows: seq<Row>, r: Row)
    requires Passes(sha, seed, rows)
    requires r.prevHash == (if rows == [] then seed else rows[|rows| - 1].hash) && HashOk(sha, r)
    ensures Passes(sha, seed, rows + [r])
  {
    forall i | 0 <= i < |rows| + 1
      ensures RowOk(sha, seed, rows + [r], i)
    {
      if i < |rows| {
        assert RowOk(sha, seed, rows, i);
      }
    }
  }

  // ---------------------------------------------------------------- breaking the digest

  /** The texts that the rows at hand are hashed from. */
  ghost function Preimages(rows: seq<Row>): set<string> {
    set i | 0 <= i < |rows| && Preimage(rows[i]).Some? :: Preimage(rows[i]).value
  }

  ghost predicate Collide(sha: Digest, x: string, y: string) {
    x != y && sha(x) == sha(y)
  }

  /** Among the finitely many texts `s`, two different ones share a digest, or one hashes to the
      genesis constant. Every theorem below holds unless the rows it speaks of exhibit this. */
  ghost predicate Cracked(sha: Digest, s: set<string>) {
    || (exists x, y :: x in s && y in s && Collide(sha, x, y))
    || (exists x :: x in s && sha(x) == GENESIS)
  }

  lemma CrackedMonotone(sha: Digest, s: set<string>, t: set<string>)
    requires Cracked(sha, s) && s <= t
    ensures Cracked(sha, t)
  {
    if x, y :| x in s && y in s && Collide(sha, x, y) {
      assert x in t && y in t;
    } else {
      var x :| x in s && sha(x) == GENESIS;
      assert x in t;
    }
  }

  /** A row that passes both checks contributes a text with its stored hash as digest, ending in
      a PrevHash of digest length. */
  lemma PassingRow(sha: Digest, seed: string, rows: seq<Row>, i: nat)
    requires Passes(sha, seed, rows) && |seed| == 64 && i < |rows|
    ensures Preimage(rows[i]).Some?
    ensures Preimage(rows[i]).value in Preimages(rows)
    ensures sha(Preimage(rows[i]).value) == rows[i].hash
    ensures |rows[i].prevHash| == 64
  {
    assert RowOk(sha, seed, rows, i);
    if i > 0 {
      assert RowOk(sha, seed, rows, i - 1);
    }
  }

  /** Every row of a passing chain links to the row before it. */
  lemma LinksTo(sha: Digest, rows: seq<Row>, i: nat)
    requires Passes(sha, GENESIS, rows) && i < |rows|
    ensures rows[i].prevHash == Expected(GENESIS, rows, i)
  {
    hide HashOf;
    assert RowOk(sha, GENESIS, rows, i);
  }

  lemma SamePreimageSamePrev(e: Row, f: Row)
    requires Preimage(e).Some? && Preimage(e) == Preimage(f)
    requires |e.prevHash| == |f.prevHash|
    ensures e.prevHash == f.prevHash
  {
    SplitByRight(e.head.value, e.prevHash, f.head.value, f.prevHash);
  }

  /** Two passing rows with equal hashes have equal preimages and equal PrevHash, or collide. */
  lemma EqualHashes(sha: Digest, a: seq<Row>, i: nat, b: seq<Row>, j: nat)
    requires Passes(sha, GENESIS, a) && Passes(sha, GENESIS, b)
    requires i < |a| && j < |b| && a[i].hash == b[j].hash
    ensures Cracked(sha, Preimages(a) + Preimages(b)) ||
            (Preimage(a[i]) == Preimage(b[j]) && a[i].prevHash == b[j].prevHash)
  {
    PassingRow(sha, GENESIS, a, i);
    PassingRow(sha, GENESIS, b, j);
    if Preimage(a[i]) == Preimage(b[j]) {
      SamePreimageSamePrev(a[i], b[j]);
    } else {
      assert Collide(sha, Preimage(a[i]).value, Preimage(b[j]).value);
    }
  }

  /** A passing row whose hash is the genesis constant cracks the digest. */
  lemma GenesisHash(sha: Digest, rows: seq<Row>, i: nat)
    requires Passes(sha, GENESIS, rows) && i < |rows| && rows[i].hash == GENESIS
    ensures Cracked(sha, Preimages(rows))
  {
    PassingRow(sha, GENESIS, rows, i);
  }

  // ---------------------------------------------------------------- binding

  /** The hash a chain ends in. */
  function EndHash(rows: seq<Row>): string {
    if rows == [] then GENESIS else rows[|rows| - 1].hash
  }

  lemma PassesPrefix(sha: Digest, seed: string, rows: seq<Row>, n: nat)
    requires Passes(sha, seed, rows) && n <= |rows|
    ensures Passes(sha, seed, rows[..n])
    ensures Preimages(rows[..n]) <= Preimages(rows)
  {
    forall i | 0 <= i < n
      ensures RowOk(sha, seed, rows[..n], i)
    {
      assert RowOk(sha, seed, rows, i);
    }
  }

  ghost predicate SamePreimages(a: seq<Row>, b: seq<Row>) {
    |a| == |b| && forall i :: 0 <= i < |a| ==> Preimage(a[i]) == Preimage(b[i])
  }

  /** The final hash binds the whole history: two passing chains that end in the same hash were
      hashed from the same texts, position by position, unless those texts crack the digest. */
  lemma {:induction false} Binding(sha: Digest, a: seq<Row>, b: seq<Row>)
    requires Passes(sha, GENESIS, a) && Passes(sha, GENESIS, b)
    requires EndHash(a) == EndHash(b)
    ensures Cracked(sha, Preimages(a) + Preimages(b)) || SamePreimages(a, b)
    decreases |a|
  {
    hide Preimage, Passes, Cracked, Preimages;
    var s := Preimages(a) + Preimages(b);
    if a == [] && b == [] {
    } else if a == [] {
      GenesisHash(sha, b, |b| - 1);
      CrackedMonotone(sha, Preimages(b), s);
    } else if b == [] {
      GenesisHash(sha, a, |a| - 1);
      CrackedMonotone(sha, Preimages(a), s);
    } else {
      var n, m := |a| - 1, |b| - 1;
      EqualHashes(sha, a, n, b, m);
      if Preimage(a[n]) == Preimage(b[m]) && a[n].prevHash == b[m].prevHash {
        Front(sha, a);
        Front(sha, b);
        Binding(sha, a[..n], b[..m]);
        if Cracked(sha, Preimages(a[..n]) + Preimages(b[..m])) {
          CrackedMonotone(sha, Preimages(a[..n]) + Preimages(b[..m]), s);
        } else {
          ExtendSame(a, b);
        }
      }
    }
  }

  lemma Front(sha: Digest, a: seq<Row>)
    requires Passes(sha, GENESIS, a) && a != []
    ensures var c := a[..|a| - 1];
            Passes(sha, GENESIS, c) && EndHash(c) == a[|a| - 1].prevHash && Preimages(c) <= Preimages(a)
  {
    hide HashOf;
    assert RowOk(sha, GENESIS, a, |a| - 1);
    PassesPrefix(sha, GENESIS, a, |a| - 1);
  }

  lemma ExtendSame(a: seq<Row>, b: seq<Row>)
    requires a != [] && b != []
    requires SamePreimages(a[..|a| - 1], b[..|b| - 1])
    requires Preimage(a[|a| - 1]) == Preimage(b[|b| - 1])
    ensures SamePreimages(a, b)
  {
    var c, d := a[..|a| - 1], b[..|b| - 1];
    forall i | 0 <= i < |a|
      ensures Preimage(a[i]) == Preimage(b[i])
    {
      if i < |c| {
        assert Preimage(c[i]) == Preimage(d[i]);
      }
    }
  }

  /** Along one passing chain all hashes are pairwise different, unless it cracks the digest. */
  lemma {:induction false} HashesDistinct(sha: Digest, rows: seq<Row>, i: nat, j: nat)
    requires Passes(sha, GENESIS, rows) && i < j < |rows|
    requires rows[i].hash == rows[j].hash
    ensures Cracked(sha, Preimages(rows))
    decreases i
  {
    hide Cracked, Preimages, Preimage, Passes;
    EqualHashes(sha, rows, i, rows, j);
    assert Preimages(rows) + Preimages(rows) == Preimages(rows);
    LinksTo(sha, rows, i);
    LinksTo(sha, rows, j);
    if rows[i].prevHash == rows[j].prevHash {
      if i == 0 {
        GenesisHash(sha, rows, j - 1);
      } else {
        HashesDistinct(sha, rows, i - 1, j - 1);
      }
    }
  }

  // ---------------------------------------------------------------- deletion

  /** The elements of `rows` at the positions `at`. */
  function Pick<T>(rows: seq<T>, at: seq<nat>): (r: seq<T>)
    requires forall i :: 0 <= i < |at| ==> at[i] < |rows|
    ensures |r| == |at|
    ensures forall i :: 0 <= i < |at| ==> r[i] == rows[at[i]]
  {
    seq(|at|, i requires 0 <= i < |at| => rows[at[i]])
  }

  ghost predicate Increasing(at: seq<nat>) {
    forall i, j :: 0 <= i < j < |at| ==> at[i] < at[j]
  }

  /** The positions 0, 1, ..., that is, a prefix. */
  ghost predicate Initial(at: seq<nat>) {
    forall i :: 0 <= i < |at| ==> at[i] == i
  }

  /** Deleting rows: of all ways to keep some rows of a passing chain, exactly the prefixes still
      pass, unless the chain cracks the digest. */
  lemma Deletion(sha: Digest, rows: seq<Row>, at: seq<nat>)
    requires Passes(sha, GENESIS, rows)
    requires Increasing(at) && forall i :: 0 <= i < |at| ==> at[i] < |rows|
    ensures Cracked(sha, Preimages(rows)) || (Passes(sha, GENESIS, Pick(rows, at)) <==> Initial(at))
  {
    hide Passes, Cracked, Preimages;
    var kept := Pick(rows, at);
    if Initial(at) {
      assert at == [] || at[|at| - 1] < |rows|;
      assert kept == rows[..|at|];
      PassesPrefix(sha, GENESIS, rows, |at|);
    } else if Passes(sha, GENESIS, kept) {
      var i :| 0 <= i < |at| && at[i] != i;
      GapIsSeen(sha, rows, at, i);
    }
  }

  lemma {:induction false} GapIsSeen(sha: Digest, rows: seq<Row>, at: seq<nat>, i: nat)
    requires Passes(sha, GENESIS, rows)
    requires Increasing(at) && forall j :: 0 <= j < |at| ==> at[j] < |rows|
    requires Passes(sha, GENESIS, Pick(rows, at))
    requires i < |at| && at[i] != i
    ensures Cracked(sha, Preimages(rows))
    decreases i
  {
    hide Cracked, Preimages, Passes;
    var kept := Pick(rows, at);
    LinksTo(sha, kept, i);
    LinksTo(sha, rows, at[i]);
    assert kept[i] == rows[at[i]];
    if i == 0 {
      GenesisHash(sha, rows, at[0] - 1);
    } else if at[i - 1] != i - 1 {
      GapIsSeen(sha, rows, at, i - 1);
    } else {
      assert kept[i - 1] == rows[at[i - 1]];
      assert rows[at[i] - 1].hash == rows[at[i - 1]].hash;
      HashesDistinct(sha, rows, at[i - 1], at[i] - 1);
    }
  }

  /** ... and the report names the first kept row whose predecessor is gone, with the hash that was
      expected there and the missing one it links to. */
  lemma GapReported(sha: Digest, rows: seq<Row>, at: seq<nat>, i: nat)
    requires Passes(sha, GENESIS, rows)
    requires Increasing(at) && forall j :: 0 <= j < |at| ==> at[j] < |rows|
    requires i < |at| && at[i] != i && forall j :: 0 <= j < i ==> at[j] == j
    ensures at[i] > i
    ensures Cracked(sha, Preimages(rows)) ||
            Check(sha, GENESIS, Pick(rows, at)) == Broken(rows[at[i]].id, EndHash(rows[..i]), rows[at[i] - 1].hash)
  {
    hide Cracked, Preimages, HashOf, Check, Passes, Reports;
    assert i == 0 || at[i - 1] < at[i];
    PassingAt(sha, rows, at, i);
    if rows[at[i] - 1].hash != EndHash(rows[..i]) {
      Stopped(sha, GENESIS, Pick(rows, at), i, Broken(rows[at[i]].id, EndHash(rows[..i]), rows[at[i] - 1].hash));
    } else if i == 0 {
      GenesisHash(sha, rows, at[0] - 1);
    } else {
      HashesDistinct(sha, rows, i - 1, at[i] - 1);
    }
  }

  lemma PassingAt(sha: Digest, rows: seq<Row>, at: seq<nat>, i: nat)
    requires Passes(sha, GENESIS, rows)
    requires i < |at| && i < at[i] && (forall j :: 0 <= j < |at| ==> at[j] < |rows|) && forall j :: 0 <= j < i ==> at[j] == j
    ensures var kept := Pick(rows, at);
            && (forall j :: 0 <= j < i ==> RowOk(sha, GENESIS, kept, j))
            && kept[i].prevHash == rows[at[i] - 1].hash && Expected(GENESIS, kept, i) == EndHash(rows[..i])
  {
    hide HashOf;
    var kept := Pick(rows, at);
    assert RowOk(sha, GENESIS, rows, at[i]);
    forall j | 0 <= j < i
      ensures RowOk(sha, GENESIS, kept, j)
    {
      assert RowOk(sha, GENESIS, rows, at[j]);
    }
  }

  // ---------------------------------------------------------------- tampering with one row

  /** Positions carry their own number. */
  predicate Numbered(rows: seq<Row>) {
    forall i :: 0 <= i < |rows| ==> rows[i].id == i + 1
  }

  /** What Verify says once row `k` of a passing chain was replaced by `r`. */
  function TamperReport(sha: Digest, rows: seq<Row>, k: nat, r: Row): Verdict
    requires k < |rows|
  {
    if r.prevHash != rows[k].prevHash then Broken(k + 1, rows[k].prevHash, r.prevHash)
    else
      match HashOf(sha, r)
      case None => Failed
      case Some(h) =>
        if h != r.hash then Broken(k + 1, h, r.hash)
        else if k + 1 < |rows| && r.hash != rows[k].hash then Broken(k + 2, r.hash, rows[k].hash)
        else Valid
  }

  /** Replacing one row: Verify reports exactly TamperReport, so the break is placed at the row
      itself, or at its successor when the row was consistently re-hashed. */
  lemma TamperLocalised(sha: Digest, rows: seq<Row>, k: nat, r: Row)
    requires Passes(sha, GENESIS, rows) && Numbered(rows)
    requires k < |rows| && r.id == k + 1
    ensures Check(sha, GENESIS, rows[k := r]) == TamperReport(sha, rows, k, r)
  {
    hide Check, Reports;
    var edited := rows[k := r];
    forall i | 0 <= i < |rows| && i != k && i != k + 1
      ensures RowOk(sha, GENESIS, edited, i)
    {
      assert RowOk(sha, GENESIS, rows, i);
    }
    assert RowOk(sha, GENESIS, rows, k);
    if !RowOk(sha, GENESIS, edited, k) {
      Stopped(sha, GENESIS, edited, k, TamperReport(sha, rows, k, r));
    } else {
      RehashedRow(sha, rows, k, r, edited);
    }
  }

  lemma RehashedRow(sha: Digest, rows: seq<Row>, k: nat, r: Row, edited: seq<Row>)
    requires Passes(sha, GENESIS, rows) && Numbered(rows)
    requires k < |rows| && edited == rows[k := r] && RowOk(sha, GENESIS, edited, k)
    requires forall i :: 0 <= i < |edited| && i != k && i != k + 1 ==> RowOk(sha, GENESIS, edited, i)
    ensures Check(sha, GENESIS, edited) ==
            if k + 1 < |rows| && r.hash != rows[k].hash then Broken(k + 2, r.hash, rows[k].hash) else Valid
  {
    hide Check, Reports, HashOf;
    if k + 1 < |rows| {
      assert RowOk(sha, GENESIS, rows, k + 1);
      if r.hash != rows[k].hash {
        Stopped(sha, GENESIS, edited, k + 1, Broken(k + 2, r.hash, rows[k].hash));
      } else {
        ValidMeansPasses(sha, GENESIS, edited);
      }
    } else {
      ValidMeansPasses(sha, GENESIS, edited);
    }
  }

  /** Every change to a row that its preimage or its stored hashes show is detected, except at the
      very end of the chain, unless the two texts collide. */
  lemma TamperDetected(sha: Digest, rows: seq<Row>, k: nat, r: Row)
    requires Passes(sha, GENESIS, rows) && Numbered(rows)
    requires k < |rows| && r.id == k + 1
    requires Preimage(r) != Preimage(rows[k]) || r.hash != rows[k].hash || r.prevHash != rows[k].prevHash
    ensures || Check(sha, GENESIS, rows[k := r]) != Valid
            || (Preimage(r).Some? && Preimage(rows[k]).Some? && Collide(sha, Preimage(r).value, Preimage(rows[k]).value))
            || (k == |rows| - 1 && HashOk(sha, r) && r.prevHash == rows[k].prevHash)
  {
    TamperLocalised(sha, rows, k, r);
    PassingRow(sha, GENESIS, rows, k);
  }

  // ---------------------------------------------------------------- partial ranges

  /** The elements at positions from..to (1-based, inclusive). */
  function Window<T>(rows: seq<T>, from: nat, to: nat): seq<T>
    requires 1 <= from
  {
    if from <= to && from <= |rows| then rows[from - 1..if to <= |rows| then to else |rows|] else []
  }

  /** The documented contract on the rows at indices lo, ..., to - 1: each passes both checks
      against its true predecessor. */
  ghost predicate RangeOk(sha: Digest, rows: seq<Row>, lo: nat, to: nat) {
    forall i :: lo <= i < |rows| && i < to ==> RowOk(sha, GENESIS, rows, i)
  }

  /** A row of a range passes against the range's true predecessor exactly when it passes in the
      whole chain. */
  lemma InContext(sha: Digest, rows: seq<Row>, from: nat, to: nat, i: nat)
    requires 1 <= from && i < |Window(rows, from, to)|
    ensures RowOk(sha, Expected(GENESIS, rows, from - 1), Window(rows, from, to), i) <==> RowOk(sha, GENESIS, rows, from - 1 + i)
  {
    hide HashOf;
    var w := Window(rows, from, to);
    assert w[i] == rows[from - 1 + i];
    assert i > 0 ==> w[i - 1] == rows[from - 1 + i - 1];
  }

  /** A loop seeded with the hash of the entry before the range meets the documented contract on
      every range of every stored chain, tampered or not: valid exactly when each row of the range
      passes both checks against its true predecessor. */
  lemma SeededRangeMeetsContract(sha: Digest, rows: seq<Row>, from: nat, to: nat)
    requires 1 <= from && Window(rows, from, to) != []
    ensures Check(sha, Expected(GENESIS, rows, from - 1), Window(rows, from, to)) == Valid <==> RangeOk(sha, rows, from - 1, to)
  {
    var w, seed := Window(rows, from, to), Expected(GENESIS, rows, from - 1);
    CheckReports(sha, seed, w);
    if Passes(sha, seed, w) {
      forall i | from - 1 <= i < |rows| && i < to
        ensures RowOk(sha, GENESIS, rows, i)
      {
        InContext(sha, rows, from, to, i - (from - 1));
      }
    } else {
      var k := LeastFailure(sha, seed, w);
      InContext(sha, rows, from, to, k);
    }
  }

  /** What the loops accept on every non-empty range of every stored chain, tampered or not: the
      first row must be rooted at the genesis constant, whatever precedes it, and each later row
      must pass in the whole chain. */
  lemma RangeAccepted(sha: Digest, rows: seq<Row>, from: nat, to: nat)
    requires 1 <= from && Window(rows, from, to) != []
    ensures Check(sha, GENESIS, Window(rows, from, to)) == Valid <==>
            rows[from - 1].prevHash == GENESIS && HashOk(sha, rows[from - 1]) && RangeOk(sha, rows, from, to)
  {
    hide HashOf, Check;
    var w := Window(rows, from, to);
    ValidMeansPasses(sha, GENESIS, w);
    forall i | 0 <= i < |w|
      ensures RowOk(sha, GENESIS, w, i) <==>
              if i == 0 then rows[from - 1].prevHash == GENESIS && HashOk(sha, rows[from - 1])
              else RowOk(sha, GENESIS, rows, from - 1 + i)
    {
      InContext(sha, rows, from, to, i);
    }
    if Passes(sha, GENESIS, w) {
      assert RowOk(sha, GENESIS, w, 0);
      forall i | from <= i < |rows| && i < to
        ensures RowOk(sha, GENESIS, rows, i)
      {
        assert RowOk(sha, GENESIS, w, i - (from - 1));
      }
    }
  }

  /** The loops agree with the documented contract on a range exactly when the entry before it
      really has the genesis hash (as entry 1 has nothing before it), or the range is bad anyway:
      its first row links neither to the genesis constant nor to its predecessor, or fails its
      own hash, or a later row fails. */
  lemma RangeMeetsContract(sha: Digest, rows: seq<Row>, from: nat, to: nat)
    requires 1 <= from && Window(rows, from, to) != []
    ensures (Check(sha, GENESIS, Window(rows, from, to)) == Valid <==> RangeOk(sha, rows, from - 1, to)) <==>
            var first, before := rows[from - 1], Expected(GENESIS, rows, from - 1);
            || before == GENESIS
            || (first.prevHash != GENESIS && first.prevHash != before)
            || !HashOk(sha, first)
            || !RangeOk(sha, rows, from, to)
  {
    hide HashOf, Check;
    RangeAccepted(sha, rows, from, to);
    FirstOfRange(sha, rows, from, to);
  }

  lemma FirstOfRange(sha: Digest, rows: seq<Row>, from: nat, to: nat)
    requires 1 <= from <= |rows| && from <= to
    ensures RangeOk(sha, rows, from - 1, to) <==> RowOk(sha, GENESIS, rows, from - 1) && RangeOk(sha, rows, from, to)
  {
    hide HashOf;
    if RangeOk(sha, rows, from - 1, to) {
      assert RowOk(sha, GENESIS, rows, from - 1);
    }
  }

  /** A chain rooted anew at entry 2: its predecessor is ignored, and the range from 2 is accepted
      although entry 2 does not link to entry 1. */
  lemma RerootedRangeIsAccepted(sha: Digest, h1: string, h2: string)
    requires sha(h1 + GENESIS) != GENESIS
    ensures var rows := [Row(1, Some(h1), sha(h1 + GENESIS), GENESIS), Row(2, Some(h2), sha(h2 + GENESIS), GENESIS)];
            Check(sha, GENESIS, Window(rows, 2, 2)) == Valid && !RangeOk(sha, rows, 1, 2)
  {
    var rows := [Row(1, Some(h1), sha(h1 + GENESIS), GENESIS), Row(2, Some(h2), sha(h2 + GENESIS), GENESIS)];
    RangeAccepted(sha, rows, 2, 2);
    assert !RowOk(sha, GENESIS, rows, 1);
  }

  /** On a passing chain a range is therefore reported valid exactly when it is empty, or starts at
      entry 1, or the entry before it happens to hash to the genesis constant. */
  lemma GenesisSeededRange(sha: Digest, rows: seq<Row>, from: nat, to: nat)
    requires Passes(sha, GENESIS, rows) && Numbered(rows) && 1 <= from
    ensures var w := Window(rows, from, to);
            var verdict := Check(sha, GENESIS, w);
            && (verdict == Valid <==> w == [] || from == 1 || rows[from - 2].hash == GENESIS)
            && (verdict != Valid ==> verdict == Broken(from, GENESIS, rows[from - 2].hash))
  {
    hide HashOf;
    var w := Window(rows, from, to);
    if w != [] {
      RangeAccepted(sha, rows, from, to);
      assert RowOk(sha, GENESIS, rows, from - 1);
      if from > 1 && rows[from - 2].hash != GENESIS {
        Stopped(sha, GENESIS, w, 0, Broken(from, GENESIS, rows[from - 2].hash));
      }
    }
  }

  /** ... so a later non-empty range of a passing chain is reported broken at its first entry,
      unless the chain cracks the digest. */
  lemma LaterRangeIsReportedBroken(sha: Digest, rows: seq<Row>, from: nat, to: nat)
    requires Passes(sha, GENESIS, rows) && Numbered(rows)
    requires 1 < from <= |rows| && from <= to
    ensures Cracked(sha, Preimages(rows)) ||
            Check(sha, GENESIS, Window(rows, from, to)) == Broken(from, GENESIS, rows[from - 2].hash)
  {
    GenesisSeededRange(sha, rows, from, to);
    if rows[from - 2].hash == GENESIS {
      GenesisHash(sha, rows, from - 2);
    }
  }
}
