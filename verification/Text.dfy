/** Strings as the log handles them: decimal numerals, the order of sort.Strings, and
    the cancellation facts that concatenation without delimiters still allows. */
module Text {

  datatype Option<+T> = None | Some(value: T)

  function Digit(d: nat): (c: char)
    requires d < 10
    ensures DigitValue(c) == d
  {
    '0' + (d as char)
  }

  predicate IsDigit(c: char) {
    '0' <= c <= '9'
  }

  predicate AllDigits(s: string) {
    forall i :: 0 <= i < |s| ==> '0' <= s[i] <= '9'
  }

  function DigitValue(c: char): int {
    c as int - '0' as int
  }

  /** strconv.FormatUint(n, 10). */
  function Decimal(n: nat): (s: string)
    ensures |s| > 0
    ensures forall i :: 0 <= i < |s| ==> IsDigit(s[i])
  {
    if n < 10 then [Digit(n)] else Decimal(n / 10) + [Digit(n % 10)]
  }

  /** The number a numeral stands for. */
  function NumeralValue(s: string): int {
    if s == [] then 0 else 10 * NumeralValue(s[..|s| - 1]) + DigitValue(s[|s| - 1])
  }

  /** The numeral stands for the number, and has no leading zero. */
  lemma {:induction false} DecimalValue(n: nat)
    ensures NumeralValue(Decimal(n)) == n
    ensures n > 0 ==> Decimal(n)[0] != '0'
    ensures n == 0 ==> Decimal(n) == "0"
  {
    if n >= 10 {
      DecimalValue(n / 10);
      AppendDigit(Decimal(n / 10), n % 10);
    } else {
      AppendDigit([], n);
      assert [] + [Digit(n)] == [Digit(n)];
    }
  }

  /** The `w` low decimal digits of `n`, zero-padded. */
  function Digits(n: nat, w: nat): (s: string)
    ensures |s| == w
    ensures forall i :: 0 <= i < |s| ==> IsDigit(s[i])
  {
    if w == 0 then [] else Digits(n / 10, w - 1) + [Digit(n % 10)]
  }

  function Pow10(w: nat): (p: nat)
    ensures p > 0
  {
    if w == 0 then 1 else 10 * Pow10(w - 1)
  }

  lemma {:induction false} DigitsValue(n: nat, w: nat)
    requires n < Pow10(w)
    ensures NumeralValue(Digits(n, w)) == n
  {
    if w > 0 {
      var q, r := n / 10, n % 10;
      assert n == 10 * q + r && q < Pow10(w - 1);
      DigitsValue(q, w - 1);
      AppendDigit(Digits(q, w - 1), r);
    }
  }

  lemma AppendDigit(s: string, d: nat)
    requires d < 10
    ensures NumeralValue(s + [Digit(d)]) == 10 * NumeralValue(s) + d
  {
    assert (s + [Digit(d)])[..|s|] == s;
  }

  // ---------------------------------------------------------------- cancellation

  lemma CancelPrefix(p: string, x: string, y: string)
    requires p + x == p + y
    ensures x == y
  {
    assert x == (p + x)[|p|..];
    assert y == (p + y)[|p|..];
  }

  lemma CancelSuffix(x: string, y: string, q: string)
    requires x + q == y + q
    ensures x == y
  {
    assert |x| == |y|;
    assert x == (x + q)[..|x|];
    assert y == (y + q)[..|y|];
  }

  /** Concatenations that are equal split equally wherever the right parts have equal length. */
  lemma SplitByRight(x: string, u: string, y: string, v: string)
    requires x + u == y + v
    requires |u| == |v|
    ensures x == y && u == v
  {
    assert x == (x + u)[..|x|];
    assert y == (y + v)[..|y|];
    assert u == (x + u)[|x|..];
    assert v == (y + v)[|y|..];
  }

  /** ... or the left parts have equal length. */
  lemma SplitByLeft(x: string, u: string, y: string, v: string)
    requires x + u == y + v
    requires |x| == |y|
    ensures x == y && u == v
  {
    assert x == (x + u)[..|x|];
    assert y == (y + v)[..|y|];
    assert u == (x + u)[|x|..];
    assert v == (y + v)[|y|..];
  }

  // ---------------------------------------------------------------- sort.Strings

  /** The order of sort.Strings: the first differing character decides, a proper prefix comes first. */
  predicate Before(a: string, b: string) {
    if b == [] then false
    else if a == [] then true
    else a[0] < b[0] || (a[0] == b[0] && Before(a[1..], b[1..]))
  }

  /** The bytewise order, said directly: `n` characters agree, then `a` ends or has the smaller one. */
  ghost predicate PrecedesAt(a: string, b: string, n: nat) {
    n <= |a| && n < |b| && a[..n] == b[..n] && (n == |a| || a[n] < b[n])
  }

  ghost predicate Precedes(a: string, b: string) {
    exists n: nat :: PrecedesAt(a, b, n)
  }

  lemma {:induction false} BeforeIsPrecedes(a: string, b: string)
    ensures Before(a, b) <==> Precedes(a, b)
  {
    if a != [] && b != [] {
      BeforeIsPrecedes(a[1..], b[1..]);
      if a[0] < b[0] {
        assert PrecedesAt(a, b, 0);
      } else if a[0] == b[0] {
        PrecedesTail(a, b);
      }
      forall n: nat | PrecedesAt(a, b, n)
        ensures a[0] < b[0] || a[0] == b[0]
      {
        assert n == 0 || (a[..n][0] == a[0] && b[..n][0] == b[0]);
      }
    } else if b != [] {
      assert PrecedesAt(a, b, 0);
    }
  }

  lemma PrecedesTail(a: string, b: string)
    requires a != [] && b != [] && a[0] == b[0]
    ensures Precedes(a, b) <==> Precedes(a[1..], b[1..])
  {
    forall n: nat | PrecedesAt(a, b, n)
      ensures n > 0 && PrecedesAt(a[1..], b[1..], n - 1)
    {
      if n > 0 {
        assert a[1..][..n - 1] == a[..n][1..] && b[1..][..n - 1] == b[..n][1..];
      }
    }
    forall n: nat | PrecedesAt(a[1..], b[1..], n)
      ensures PrecedesAt(a, b, n + 1)
    {
      assert a[..n + 1] == [a[0]] + a[1..][..n] && b[..n + 1] == [b[0]] + b[1..][..n];
    }
  }

  /** Sorted lists are in the bytewise order. */
  lemma SortedInOrder(ks: seq<string>)
    ensures StrictlySorted(ks) <==> forall i, j :: 0 <= i < j < |ks| ==> Precedes(ks[i], ks[j])
  {
    hide Before, Precedes;
    forall i, j | 0 <= i < j < |ks|
      ensures Before(ks[i], ks[j]) <==> Precedes(ks[i], ks[j])
    {
      BeforeIsPrecedes(ks[i], ks[j]);
    }
  }

  lemma BeforeIrreflexive(a: string)
    ensures !Before(a, a)
  {
  }

  lemma {:induction false} BeforeTransitive(a: string, b: string, c: string)
    requires Before(a, b) && Before(b, c)
    ensures Before(a, c)
  {
    if a != [] && a[0] == b[0] && b[0] == c[0] {
      BeforeTransitive(a[1..], b[1..], c[1..]);
    }
  }

  lemma {:induction false} BeforeTotal(a: string, b: string)
    ensures a == b || Before(a, b) || Before(b, a)
  {
    if a != [] && b != [] && a[0] == b[0] {
      BeforeTotal(a[1..], b[1..]);
      assert a == [a[0]] + a[1..] && b == [b[0]] + b[1..];
    }
  }

  ghost predicate StrictlySorted(ks: seq<string>) {
    forall i, j :: 0 <= i < j < |ks| ==> Before(ks[i], ks[j])
  }

  ghost function Elements<T>(s: seq<T>): set<T> {
    set x | x in s
  }

  ghost predicate IsLeast(keys: set<string>, k: string) {
    k in keys && forall x :: x in keys ==> x == k || Before(k, x)
  }

  lemma {:induction false} LeastExists(keys: set<string>) returns (k: string)
    requires keys != {}
    ensures IsLeast(keys, k)
  {
    var a :| a in keys;
    var rest := keys - {a};
    assert keys == rest + {a};
    if rest == {} {
      k := a;
    } else {
      var b := LeastExists(rest);
      BeforeTotal(a, b);
      k := if Before(a, b) then a else b;
      forall x | x in keys
        ensures x == k || Before(k, x)
      {
        if k == a && x != a && x != b {
          BeforeTransitive(a, b, x);
        }
      }
    }
  }

  /** The least element of a non-empty set of keys. */
  ghost function Least(keys: set<string>): (k: string)
    requires keys != {}
    ensures IsLeast(keys, k)
  {
    assert exists k :: IsLeast(keys, k) by {
      var k := LeastExists(keys);
    }
    var k :| IsLeast(keys, k);
    k
  }

  /** A set of keys in sort.Strings order. */
  ghost function SortedKeys(keys: set<string>): (ks: seq<string>)
    ensures Elements(ks) == keys
    ensures StrictlySorted(ks)
  {
    if keys == {} then [] else
      var k := Least(keys);
      var rest := SortedKeys(keys - {k});
      ConsSorted(k, rest, keys);
      [k] + rest
  }

  lemma ConsSorted(k: string, rest: seq<string>, keys: set<string>)
    requires IsLeast(keys, k)
    requires StrictlySorted(rest) && Elements(rest) == keys - {k}
    ensures StrictlySorted([k] + rest) && Elements([k] + rest) == keys
  {
    var ks := [k] + rest;
    forall i, j | 0 <= i < j < |ks|
      ensures Before(ks[i], ks[j])
    {
      if i == 0 {
        assert rest[j - 1] in Elements(rest);
      }
    }
    forall x
      ensures x in Elements(ks) <==> x in keys
    {
      assert x in ks <==> x == k || x in rest;
      assert x in rest <==> x in Elements(rest);
    }
  }

  /** Sortedness and contents determine the list, so the order in which keys were met is immaterial. */
  lemma {:induction false} SortedIsUnique(ks: seq<string>, ls: seq<string>)
    requires StrictlySorted(ks) && StrictlySorted(ls)
    requires Elements(ks) == Elements(ls)
    ensures ks == ls
  {
    if ks == [] {
      assert forall i :: 0 <= i < |ls| ==> ls[i] in Elements(ls);
    } else {
      assert ks[0] in Elements(ls);
      assert ls[0] in Elements(ks);
      var i :| 0 <= i < |ls| && ls[i] == ks[0];
      var j :| 0 <= j < |ks| && ks[j] == ls[0];
      if i > 0 && j > 0 {
        BeforeTransitive(ks[0], ls[0], ks[0]);
        BeforeIrreflexive(ks[0]);
      }
      assert ks[0] == ls[0];
      forall x
        ensures x in Elements(ks[1..]) <==> x in Elements(ls[1..])
      {
        TailElements(ks, x);
        TailElements(ls, x);
      }
      SortedIsUnique(ks[1..], ls[1..]);
      assert ks == [ks[0]] + ks[1..] && ls == [ls[0]] + ls[1..];
    }
  }

  lemma TailElements(ks: seq<string>, x: string)
    requires StrictlySorted(ks) && ks != []
    ensures x in Elements(ks[1..]) <==> x in Elements(ks) && x != ks[0]
  {
    if x in ks[1..] {
      var i :| 0 <= i < |ks[1..]| && ks[1..][i] == x;
      assert ks[i + 1] == x;
      BeforeIrreflexive(x);
    }
    if x in ks && x != ks[0] {
      var i :| 0 <= i < |ks| && ks[i] == x;
      assert ks[1..][i - 1] == x;
    }
  }

  /** Puts `k` into a sorted list that lacks it. */
  method InsertSorted(ks: seq<string>, k: string) returns (r: seq<string>)
    requires StrictlySorted(ks) && k !in ks
    ensures StrictlySorted(r)
    ensures Elements(r) == Elements(ks) + {k}
  {
    var i := 0;
    while i < |ks| && Before(ks[i], k)
      invariant 0 <= i <= |ks|
      invariant forall j :: 0 <= j < i ==> Before(ks[j], k)
    {
      i := i + 1;
    }
    r := ks[..i] + [k] + ks[i..];
    assert ks == ks[..i] + ks[i..];
    assert i < |ks| ==> ks[i] in ks;
    InsertKeepsOrder(ks, i, k);
    InsertElements(ks, i, k);
  }

  lemma InsertKeepsOrder(ks: seq<string>, i: nat, k: string)
    requires StrictlySorted(ks) && i <= |ks|
    requires forall j :: 0 <= j < i ==> Before(ks[j], k)
    requires i < |ks| ==> !Before(ks[i], k) && ks[i] != k
    ensures StrictlySorted(ks[..i] + [k] + ks[i..])
  {
    hide Before;
    forall j | i <= j < |ks|
      ensures Before(k, ks[j])
    {
      BeforeTotal(k, ks[i]);
      if j > i {
        BeforeTransitive(k, ks[i], ks[j]);
      }
    }
  }

  lemma InsertElements(ks: seq<string>, i: nat, k: string)
    requires i <= |ks|
    ensures Elements(ks[..i] + [k] + ks[i..]) == Elements(ks) + {k}
  {
    var r := ks[..i] + [k] + ks[i..];
    assert ks == ks[..i] + ks[i..];
    assert forall x :: x in r <==> x in ks[..i] || x == k || x in ks[i..];
  }

  /** sort.Strings on distinct keys: the result depends on the set of keys alone. */
  method SortStrings(keys: seq<string>) returns (r: seq<string>)
    requires forall i, j :: 0 <= i < j < |keys| ==> keys[i] != keys[j]
    ensures r == SortedKeys(Elements(keys))
    ensures forall k :: k in r <==> k in keys
    ensures forall i, j :: 0 <= i < j < |r| ==> Precedes(r[i], r[j])
  {
    r := [];
    var i := 0;
    while i < |keys|
      invariant 0 <= i <= |keys|
      invariant StrictlySorted(r)
      invariant Elements(r) == Elements(keys[..i])
    {
      assert keys[i] !in keys[..i];
      assert keys[i] !in Elements(r);
      r := InsertSorted(r, keys[i]);
      assert keys[..i + 1] == keys[..i] + [keys[i]];
      i := i + 1;
    }
    assert keys[..i] == keys;
    SortedIsUnique(r, SortedKeys(Elements(keys)));
    SortedInOrder(r);
    assert forall k :: k in r <==> k in Elements(r);
  }
}
