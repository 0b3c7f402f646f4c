/** hash.go's canonical JSON: normalise a document into unordered objects with exact number
    text, then write it with sorted keys and no spaces. */
module Canonical {
  import opened Text
  import opened Json
  import JsonRoundTrip

  /** What a json.Decoder with UseNumber yields: map[string]any, []any, json.Number, ... */
  datatype Value =
    | Null
    | Bool(b: bool)
    | Num(text: string)
    | Str(s: string)
    | Arr(items: seq<Value>)
    | Obj(fields: map<string, Value>)

  predicate ValidNumbers(v: Value) {
    match v
    case Num(t) => ValidNumber(t)
    case Arr(items) => forall i :: 0 <= i < |items| ==> ValidNumbers(items[i])
    case Obj(fields) => forall k :: k in fields ==> ValidNumbers(fields[k])
    case _ => true
  }

  // ---------------------------------------------------------------- decoding into maps

  /** Decoding a document into `any`: a repeated key keeps its last value. */
  function Normalise(r: Raw): Value
    decreases r, 0
  {
    match r
    case RNull => Null
    case RBool(b) => Bool(b)
    case RNum(t) => Num(t)
    case RStr(s) => Str(s)
    case RArr(items) => Arr(NormaliseItems(items))
    case RObj(ms) => Obj(NormaliseMembers(ms))
  }

  function NormaliseItems(items: seq<Raw>): (vs: seq<Value>)
    ensures |vs| == |items|
    decreases items, 1
  {
    if items == [] then [] else [Normalise(items[0])] + NormaliseItems(items[1..])
  }

  function NormaliseMembers(ms: seq<Member>): map<string, Value>
    decreases ms, 1
  {
    if ms == [] then map[]
    else
      var last := ms[|ms| - 1];
      NormaliseMembers(ms[..|ms| - 1])[last.key := Normalise(last.value)]
  }

  // ---------------------------------------------------------------- the sorted tree

  /** The same value as a document with its keys in sort.Strings order. */
  ghost function Canon(v: Value): Raw
    decreases v, 2
  {
    match v
    case Null => RNull
    case Bool(b) => RBool(b)
    case Num(t) => RNum(t)
    case Str(s) => RStr(s)
    case Arr(items) => RArr(CanonItems(items))
    case Obj(fields) => RObj(CanonMembers(v, SortedKeys(fields.Keys)))
  }

  ghost function CanonItems(items: seq<Value>): (rs: seq<Raw>)
    ensures |rs| == |items|
    decreases items, 1
  {
    if items == [] then [] else [Canon(items[0])] + CanonItems(items[1..])
  }

  ghost function CanonMembers(v: Value, ks: seq<string>): (ms: seq<Member>)
    requires v.Obj? && Elements(ks) <= v.fields.Keys
    ensures |ms| == |ks|
    decreases v, 1, |ks|
  {
    if ks == [] then []
    else
      assert ks[|ks| - 1] in Elements(ks);
      assert Elements(ks[..|ks| - 1]) <= Elements(ks);
      CanonMembers(v, ks[..|ks| - 1]) + [Member(ks[|ks| - 1], Canon(v.fields[ks[|ks| - 1]]))]
  }

  /** encodeCanonical: the canonical text of a normalised value. */
  ghost function Encode(v: Value): string {
    Print(Canon(v))
  }

  // ---------------------------------------------------------------- Canon inverts Normalise

  lemma {:induction false} CanonMembersAt(v: Value, ks: seq<string>, i: nat)
    requires v.Obj? && Elements(ks) <= v.fields.Keys && i < |ks|
    ensures ks[i] in v.fields
    ensures CanonMembers(v, ks)[i] == Member(ks[i], Canon(v.fields[ks[i]]))
    decreases |ks|
  {
    assert ks[i] in Elements(ks);
    if i < |ks| - 1 {
      assert Elements(ks[..|ks| - 1]) <= Elements(ks);
      CanonMembersAt(v, ks[..|ks| - 1], i);
    }
  }

  lemma {:induction false} CanonItemsAt(items: seq<Value>, i: nat)
    requires i < |items|
    ensures CanonItems(items)[i] == Canon(items[i])
  {
    if i > 0 {
      CanonItemsAt(items[1..], i - 1);
    }
  }

  lemma {:induction false} CanonWellFormed(v: Value)
    requires ValidNumbers(v)
    ensures WellFormed(Canon(v))
  {
    match v
    case Arr(items) =>
      forall i | 0 <= i < |items|
        ensures WellFormed(CanonItems(items)[i])
      {
        CanonItemsAt(items, i);
        CanonWellFormed(items[i]);
      }
    case Obj(fields) =>
      var ks := SortedKeys(fields.Keys);
      forall i | 0 <= i < |ks|
        ensures WellFormed(CanonMembers(v, ks)[i].value)
      {
        CanonMembersAt(v, ks, i);
        CanonWellFormed(fields[ks[i]]);
      }
    case _ =>
  }

  /** Sorting the keys of a value and decoding the result gives the value back. */
  lemma {:induction false} NormaliseCanon(v: Value)
    ensures Normalise(Canon(v)) == v
    decreases v, 2
  {
    match v
    case Arr(items) => NormaliseCanonItems(items);
    case Obj(fields) =>
      NormaliseCanonMembers(v, SortedKeys(fields.Keys));
      RestrictToKeys(fields);
    case _ =>
  }

  lemma RestrictToKeys(fields: map<string, Value>)
    ensures (map k | k in Elements(SortedKeys(fields.Keys)) :: fields[k]) == fields
  {
  }

  lemma {:induction false} NormaliseCanonItems(items: seq<Value>)
    ensures NormaliseItems(CanonItems(items)) == items
    decreases items, 1
  {
    if items != [] {
      NormaliseCanon(items[0]);
      NormaliseCanonItems(items[1..]);
      assert CanonItems(items)[1..] == CanonItems(items[1..]);
    }
  }

  lemma {:induction false} NormaliseCanonMembers(v: Value, ks: seq<string>)
    requires v.Obj? && Elements(ks) <= v.fields.Keys
    ensures NormaliseMembers(CanonMembers(v, ks)) == (map k | k in Elements(ks) :: v.fields[k])
    decreases v, 1, |ks|
  {
    if ks != [] {
      var front, last := ks[..|ks| - 1], ks[|ks| - 1];
      assert last in Elements(ks);
      assert ks == front + [last];
      assert Elements(ks) == Elements(front) + {last};
      NormaliseCanonMembers(v, front);
      NormaliseCanon(v.fields[last]);
      var ms := CanonMembers(v, ks);
      assert ms[..|ms| - 1] == CanonMembers(v, front);
    }
  }

  /** The decoder inverts encodeCanonical on every normalised value, in front of any text that
      cannot extend a number. */
  lemma DecodeEncode(v: Value, rest: string)
    requires ValidNumbers(v) && NumberStop(rest)
    ensures ParseValue(Encode(v) + rest) == Some((Canon(v), rest))
    ensures Normalise(Canon(v)) == v
  {
    CanonWellFormed(v);
    JsonRoundTrip.RoundTrip(Canon(v), rest);
    NormaliseCanon(v);
  }

  /** Equal canonical text means equal values. */
  lemma EncodeInjective(v: Value, w: Value)
    requires ValidNumbers(v) && ValidNumbers(w)
    ensures Encode(v) == Encode(w) <==> v == w
  {
    DecodeEncode(v, []);
    DecodeEncode(w, []);
    assert Encode(v) + [] == Encode(v) && Encode(w) + [] == Encode(w);
  }

  // ---------------------------------------------------------------- member order

  predicate DistinctKeys(ms: seq<Member>) {
    forall i, j :: 0 <= i < j < |ms| ==> ms[i].key != ms[j].key
  }

  ghost function KeysOf(ms: seq<Member>): set<string> {
    set i | 0 <= i < |ms| :: ms[i].key
  }

  /** Equal documents up to the order of object members, at every depth. */
  ghost predicate SameDocument(r: Raw, q: Raw) {
    match (r, q)
    case (RArr(xs), RArr(ys)) =>
      |xs| == |ys| && forall i :: 0 <= i < |xs| ==> SameDocument(xs[i], ys[i])
    case (RObj(ms), RObj(ns)) =>
      && DistinctKeys(ms) && DistinctKeys(ns)
      && KeysOf(ms) == KeysOf(ns)
      && forall i, j :: 0 <= i < |ms| && 0 <= j < |ns| && ms[i].key == ns[j].key ==>
                          SameDocument(ms[i].value, ns[j].value)
    case _ => r == q
  }

  lemma {:induction false} NormaliseItemsAt(items: seq<Raw>, i: nat)
    requires i < |items|
    ensures NormaliseItems(items)[i] == Normalise(items[i])
  {
    if i > 0 {
      NormaliseItemsAt(items[1..], i - 1);
    }
  }

  lemma {:induction false} NormaliseKeys(ms: seq<Member>)
    ensures NormaliseMembers(ms).Keys == KeysOf(ms)
  {
    if ms != [] {
      var front, last := ms[..|ms| - 1], ms[|ms| - 1];
      NormaliseKeys(front);
      forall k
        ensures k in KeysOf(ms) <==> k in KeysOf(front) || k == last.key
      {
        if k in KeysOf(ms) && k != last.key {
          var i :| 0 <= i < |ms| && ms[i].key == k;
          assert front[i].key == k;
        }
        if k in KeysOf(front) {
          var i :| 0 <= i < |front| && front[i].key == k;
          assert ms[i].key == k;
        }
      }
    }
  }

  lemma {:induction false} NormaliseLookup(ms: seq<Member>, i: nat)
    requires DistinctKeys(ms) && i < |ms|
    ensures ms[i].key in NormaliseMembers(ms)
    ensures NormaliseMembers(ms)[ms[i].key] == Normalise(ms[i].value)
  {
    if i < |ms| - 1 {
      NormaliseLookup(ms[..|ms| - 1], i);
    }
  }

  /** The order in which a document lists its members does not reach the normalised value,
      hence not the canonical text and not the hash. */
  lemma {:induction false} MemberOrderIsImmaterial(r: Raw, q: Raw)
    requires SameDocument(r, q)
    ensures Normalise(r) == Normalise(q)
  {
    match (r, q)
    case (RArr(xs), RArr(ys)) =>
      forall i | 0 <= i < |xs|
        ensures NormaliseItems(xs)[i] == NormaliseItems(ys)[i]
      {
        NormaliseItemsAt(xs, i);
        NormaliseItemsAt(ys, i);
        MemberOrderIsImmaterial(xs[i], ys[i]);
      }
    case (RObj(ms), RObj(ns)) =>
      forall i, j | 0 <= i < |ms| && 0 <= j < |ns| && ms[i].key == ns[j].key
        ensures Normalise(ms[i].value) == Normalise(ns[j].value)
      {
        MemberOrderIsImmaterial(ms[i].value, ns[j].value);
      }
      SameFields(ms, ns);
    case _ =>
  }

  lemma SameFields(ms: seq<Member>, ns: seq<Member>)
    requires DistinctKeys(ms) && DistinctKeys(ns) && KeysOf(ms) == KeysOf(ns)
    requires forall i, j :: 0 <= i < |ms| && 0 <= j < |ns| && ms[i].key == ns[j].key ==>
                              Normalise(ms[i].value) == Normalise(ns[j].value)
    ensures NormaliseMembers(ms) == NormaliseMembers(ns)
  {
    hide Normalise, NormaliseMembers;
    NormaliseKeys(ms);
    NormaliseKeys(ns);
    forall k | k in KeysOf(ms)
      ensures NormaliseMembers(ms)[k] == NormaliseMembers(ns)[k]
    {
      var i :| 0 <= i < |ms| && ms[i].key == k;
      var j :| 0 <= j < |ns| && ns[j].key == k;
      NormaliseLookup(ms, i);
      NormaliseLookup(ns, j);
    }
  }

  /** A repeated key keeps its last value: a member counts exactly when no later one has its key. */
  lemma {:induction false} LastMemberWins(ms: seq<Member>, i: nat)
    requires i < |ms| && forall j :: i < j < |ms| ==> ms[j].key != ms[i].key
    ensures ms[i].key in NormaliseMembers(ms)
    ensures NormaliseMembers(ms)[ms[i].key] == Normalise(ms[i].value)
  {
    if i < |ms| - 1 {
      LastMemberWins(ms[..|ms| - 1], i);
    }
  }

  // ---------------------------------------------------------------- the canonical document, independently

  /** Object members in the bytewise order of their keys, without repeats, at every depth. */
  ghost predicate InKeyOrder(r: Raw) {
    match r
    case RArr(items) => forall i :: 0 <= i < |items| ==> InKeyOrder(items[i])
    case RObj(ms) =>
      && (forall i, j :: 0 <= i < j < |ms| ==> Precedes(ms[i].key, ms[j].key))
      && forall i :: 0 <= i < |ms| ==> InKeyOrder(ms[i].value)
    case _ => true
  }

  lemma {:induction false} CanonInKeyOrder(v: Value)
    ensures InKeyOrder(Canon(v))
  {
    match v
    case Arr(items) =>
      forall i | 0 <= i < |items|
        ensures InKeyOrder(CanonItems(items)[i])
      {
        CanonItemsAt(items, i);
        CanonInKeyOrder(items[i]);
      }
    case Obj(fields) =>
      var ks := SortedKeys(fields.Keys);
      SortedInOrder(ks);
      forall i | 0 <= i < |ks|
        ensures CanonMembers(v, ks)[i].key == ks[i] && InKeyOrder(CanonMembers(v, ks)[i].value)
      {
        CanonMembersAt(v, ks, i);
        CanonInKeyOrder(fields[ks[i]]);
      }
    case _ =>
  }

  function KeyList(ms: seq<Member>): (ks: seq<string>)
    ensures |ks| == |ms| && forall i :: 0 <= i < |ms| ==> ks[i] == ms[i].key
  {
    seq(|ms|, i requires 0 <= i < |ms| => ms[i].key)
  }

  lemma OrderedKeys(ms: seq<Member>)
    requires forall i, j :: 0 <= i < j < |ms| ==> Precedes(ms[i].key, ms[j].key)
    ensures StrictlySorted(KeyList(ms)) && DistinctKeys(ms) && Elements(KeyList(ms)) == KeysOf(ms)
  {
    hide Before, Precedes;
    var ks := KeyList(ms);
    SortedInOrder(ks);
    forall i, j | 0 <= i < j < |ms|
      ensures ms[i].key != ms[j].key
    {
      BeforeIrreflexive(ks[i]);
      assert Before(ks[i], ks[j]);
    }
    forall k
      ensures k in Elements(ks) <==> k in KeysOf(ms)
    {
      if k in ks {
        var i :| 0 <= i < |ks| && ks[i] == k;
        assert ms[i].key == k;
      }
      if k in KeysOf(ms) {
        var i :| 0 <= i < |ms| && ms[i].key == k;
        assert ks[i] == k;
      }
    }
  }

  /** The canonical document of a value is the one document in key order that decodes to it. */
  lemma {:induction false} CanonIsTheOneInOrder(r: Raw, v: Value)
    requires Normalise(r) == v
    ensures r == Canon(v) <==> InKeyOrder(r)
    decreases r
  {
    CanonInKeyOrder(v);
    if InKeyOrder(r) {
      match r
      case RArr(items) =>
        forall i | 0 <= i < |items|
          ensures items[i] == CanonItems(v.items)[i]
        {
          NormaliseItemsAt(items, i);
          CanonItemsAt(v.items, i);
          CanonIsTheOneInOrder(items[i], v.items[i]);
        }
      case RObj(ms) =>
        var ks := SortedKeys(v.fields.Keys);
        OrderedKeys(ms);
        NormaliseKeys(ms);
        SortedIsUnique(KeyList(ms), ks);
        forall i | 0 <= i < |ms|
          ensures ms[i] == CanonMembers(v, ks)[i]
        {
          NormaliseLookup(ms, i);
          CanonMembersAt(v, ks, i);
          CanonIsTheOneInOrder(ms[i].value, v.fields[ks[i]]);
        }
      case _ =>
    }
  }

  // ---------------------------------------------------------------- encodeCanonical

  /** The growing part of a bytes.Buffer. */
  class Buffer {
    var text: string

    constructor ()
      ensures text == ""
    {
      text := "";
    }

    method Write(s: string)
      modifies this
      ensures text == old(text) + s
    {
      text := text + s;
    }
  }

  lemma {:induction false} PrintMembersSnoc(ms: seq<Member>, m: Member)
    ensures PrintMembers(ms + [m]) == PrintMembers(ms) + (if ms == [] then "" else ",") + PrintMember(m)
  {
    if |ms| >= 1 {
      assert (ms + [m])[1..] == ms[1..] + [m];
      PrintMembersSnoc(ms[1..], m);
    }
  }

  lemma {:induction false} PrintItemsSnoc(rs: seq<Raw>, r: Raw)
    ensures PrintItems(rs + [r]) == PrintItems(rs) + (if rs == [] then "" else ",") + Print(r)
  {
    if |rs| >= 1 {
      assert (rs + [r])[1..] == rs[1..] + [r];
      PrintItemsSnoc(rs[1..], r);
    }
  }

  lemma {:induction false} CanonItemsSnoc(items: seq<Value>, v: Value)
    ensures CanonItems(items + [v]) == CanonItems(items) + [Canon(v)]
  {
    if items != [] {
      assert (items + [v])[1..] == items[1..] + [v];
      CanonItemsSnoc(items[1..], v);
    }
  }

  /** Ranging over a map: every key once, in an order the caller cannot predict. */
  method RangeKeys(m: map<string, Value>) returns (keys: seq<string>)
    ensures Elements(keys) == m.Keys
    ensures forall i, j :: 0 <= i < j < |keys| ==> keys[i] != keys[j]
  {
    keys := [];
    var rest := m.Keys;
    while rest != {}
      invariant Elements(keys) + rest == m.Keys
      invariant forall i :: 0 <= i < |keys| ==> keys[i] !in rest
      invariant forall i, j :: 0 <= i < j < |keys| ==> keys[i] != keys[j]
      decreases rest
    {
      var k :| k in rest;
      assert Elements(keys + [k]) == Elements(keys) + {k};
      keys, rest := keys + [k], rest - {k};
    }
  }

  /** encodeCanonical: whatever order the maps are ranged in, the buffer grows by Encode(v). */
  method EncodeCanonical(buf: Buffer, v: Value)
    modifies buf
    ensures buf.text == old(buf.text) + Encode(v)
    decreases v, 1
  {
    match v
    case Null => buf.Write("null");
    case Bool(b) => buf.Write(if b then "true" else "false");
    case Num(t) => buf.Write(t);
    case Str(s) => buf.Write(PrintString(s));
    case Arr(_) => EncodeArray(buf, v);
    case Obj(_) => EncodeObject(buf, v);
  }

  method EncodeArray(buf: Buffer, v: Value)
    requires v.Arr?
    modifies buf
    ensures buf.text == old(buf.text) + Encode(v)
    decreases v, 0
  {
    var items := v.items;
    buf.Write("[");
    ghost var start := buf.text;
    var i := 0;
    while i < |items|
      invariant 0 <= i <= |items|
      invariant buf.text == start + PrintItems(CanonItems(items[..i]))
    {
      ItemText(start, items[..i], items[i]);
      assert items[..i + 1] == items[..i] + [items[i]];
      if i > 0 {
        buf.Write(",");
      }
      EncodeCanonical(buf, items[i]);
      i := i + 1;
    }
    assert items[..i] == items;
    buf.Write("]");
    Enclose(old(buf.text), PrintItems(CanonItems(items)));
  }

  lemma ItemText(start: string, before: seq<Value>, v: Value)
    ensures start + PrintItems(CanonItems(before)) + (if before == [] then "" else ",") + Encode(v) ==
            start + PrintItems(CanonItems(before + [v]))
    ensures before == [] ==> start + PrintItems(CanonItems(before)) + Encode(v) == start + PrintItems(CanonItems(before + [v]))
  {
    hide PrintItems, CanonItems, Canon;
    CanonItemsSnoc(before, v);
    PrintItemsSnoc(CanonItems(before), Canon(v));
    var printed, sep := PrintItems(CanonItems(before)), if before == [] then "" else ",";
    assert CanonItems(before) == [] <==> before == [];
    Grouped(start, printed, sep, Encode(v));
  }

  lemma Grouped(a: string, b: string, sep: string, c: string)
    ensures a + b + sep + c == a + (b + sep + c)
    ensures sep == "" ==> a + b + c == a + (b + sep + c)
  {
    assert b + sep + c == b + (sep + c);
    assert sep == "" ==> sep + c == c;
  }

  lemma Enclose(start: string, body: string)
    ensures start + "[" + body + "]" == start + ("[" + body + "]")
  {
  }

  method EncodeObject(buf: Buffer, v: Value)
    requires v.Obj?
    modifies buf
    ensures buf.text == old(buf.text) + Encode(v)
    decreases v, 0, 2
  {
    hide SortedKeys, CanonMembers, PrintMembers;
    var found := RangeKeys(v.fields);
    var keys := SortStrings(found);
    buf.Write("{");
    EncodeMembers(buf, v, keys);
    buf.Write("}");
  }

  method EncodeMembers(buf: Buffer, v: Value, keys: seq<string>)
    requires v.Obj? && Elements(keys) <= v.fields.Keys
    modifies buf
    ensures buf.text == old(buf.text) + PrintMembers(CanonMembers(v, keys))
    decreases v, 0, 1
  {
    ghost var start := buf.text;
    assert Elements(keys[..0]) == {};
    var i := 0;
    while i < |keys|
      invariant 0 <= i <= |keys|
      invariant Elements(keys[..i]) <= v.fields.Keys
      invariant buf.text == start + PrintMembers(CanonMembers(v, keys[..i]))
    {
      assert keys[..i + 1] == keys[..i] + [keys[i]];
      assert Elements(keys[..i + 1]) <= Elements(keys);
      EncodeMember(buf, v, start, keys[..i], keys[i]);
      i := i + 1;
    }
    assert keys[..i] == keys;
  }

  method EncodeMember(buf: Buffer, v: Value, ghost start: string, before: seq<string>, k: string)
    requires v.Obj? && Elements(before + [k]) <= v.fields.Keys && Elements(before) <= v.fields.Keys
    requires buf.text == start + PrintMembers(CanonMembers(v, before))
    modifies buf
    ensures buf.text == start + PrintMembers(CanonMembers(v, before + [k]))
    decreases v, 0, 0
  {
    ghost var sep := if before == [] then "" else ",";
    ghost var printed := PrintMembers(CanonMembers(v, before));
    MemberText(v, start, before, k);
    if |before| > 0 {
      buf.Write(",");
    }
    assert buf.text == start + printed + sep;
    buf.Write(PrintString(k));
    buf.Write(":");
    EncodeCanonical(buf, v.fields[k]);
  }

  lemma MemberText(v: Value, start: string, before: seq<string>, k: string)
    requires v.Obj? && Elements(before + [k]) <= v.fields.Keys && Elements(before) <= v.fields.Keys
    ensures k in v.fields
    ensures start + PrintMembers(CanonMembers(v, before)) + (if before == [] then "" else ",") +
            PrintString(k) + ":" + Encode(v.fields[k]) ==
            start + PrintMembers(CanonMembers(v, before + [k]))
  {
    CanonMembersSnoc(v, before, k);
    PrintMembersSnoc(CanonMembers(v, before), Member(k, Canon(v.fields[k])));
    Glue(start, PrintMembers(CanonMembers(v, before)), if before == [] then "" else ",", PrintString(k), Encode(v.fields[k]));
  }

  lemma Glue(start: string, printed: string, sep: string, key: string, value: string)
    ensures start + printed + sep + key + ":" + value == start + (printed + sep + (key + ":" + value))
  {
  }

  lemma CanonMembersSnoc(v: Value, ks: seq<string>, k: string)
    requires v.Obj? && Elements(ks + [k]) <= v.fields.Keys
    ensures Elements(ks) <= v.fields.Keys && k in v.fields
    ensures CanonMembers(v, ks + [k]) == CanonMembers(v, ks) + [Member(k, Canon(v.fields[k]))]
  {
    assert k in Elements(ks + [k]);
    assert Elements(ks) <= Elements(ks + [k]);
    assert (ks + [k])[..|ks|] == ks;
  }
}
