/**
 A JSON value as the flattener sees it: a `serde_json::Value` whose objects
 are key-ordered maps. An object is the sequence of its entries in the order
 a `BTreeMap<String, Value>` iterates them; numbers are only ever copied, so
 they are opaque integers here.
 */
module Json {

  datatype Option<+T> = None | Some(value: T)

  datatype Json =
    | Null
    | Bool(b: bool)
    | Num(n: int)
    | Str(s: string)
    | Arr(items: seq<Json>)
    | Obj(entries: seq<Entry>)

  /** One `(key, value)` entry of an object. */
  datatype Entry = Entry(key: string, val: Json)

  /** `Object::get`: the value stored under `k`, if any (the first such entry). */
  function Get(es: seq<Entry>, k: string): Option<Json> {
    if es == [] then None
    else if es[0].key == k then Some(es[0].val)
    else Get(es[1..], k)
  }

  /** `Get` finds nothing exactly when no entry has the key, and what it finds is stored under that key. */
  lemma {:induction false} GetSpec(es: seq<Entry>, k: string)
    ensures Get(es, k).None? <==> forall i :: 0 <= i < |es| ==> es[i].key != k
    ensures Get(es, k).Some? ==> exists i :: 0 <= i < |es| && es[i] == Entry(k, Get(es, k).value)
  {
    if es != [] && es[0].key != k {
      GetSpec(es[1..], k);
      if Get(es, k).Some? {
        var i :| 0 <= i < |es[1..]| && es[1..][i] == Entry(k, Get(es, k).value);
        assert es[i + 1] == Entry(k, Get(es, k).value);
      }
      assert forall i :: 0 < i < |es| ==> es[i] == es[1..][i - 1];
    }
  }

  /** The number of nodes of a value; it bounds every walk over the value. */
  function Size(j: Json): nat {
    match j
    case Arr(xs) => 1 + SizeSeq(xs)
    case Obj(es) => 1 + SizeEntries(es)
    case _ => 1
  }

  function SizeSeq(xs: seq<Json>): nat {
    if xs == [] then 0 else Size(xs[0]) + SizeSeq(xs[1..])
  }

  function SizeEntries(es: seq<Entry>): nat {
    if es == [] then 0 else Size(es[0].val) + SizeEntries(es[1..])
  }

  lemma {:induction false} SizeEntriesElem(es: seq<Entry>, i: nat)
    requires i < |es|
    ensures Size(es[i].val) <= SizeEntries(es)
  {
    if i > 0 {
      SizeEntriesElem(es[1..], i - 1);
    }
  }

  lemma {:induction false} SizeEntriesSnoc(es: seq<Entry>)
    requires es != []
    ensures SizeEntries(es) == SizeEntries(es[..|es| - 1]) + Size(es[|es| - 1].val)
  {
    if |es| > 1 {
      assert es[1..][..|es[1..]| - 1] == es[..|es| - 1][1..];
      SizeEntriesSnoc(es[1..]);
    }
  }

  /** A suffix of an array loses exactly the size of its first element when it is shortened by one. */
  lemma SizeSeqSuffix(xs: seq<Json>, c: nat)
    requires c < |xs|
    ensures SizeSeq(xs[c..]) == Size(xs[c]) + SizeSeq(xs[c + 1..])
  {
    assert xs[c..][1..] == xs[c + 1..];
  }

  /** The order of `String` keys in a `BTreeMap`: lexicographic by character. */
  predicate KeyLess(a: string, b: string) {
    if a == [] then b != []
    else b != [] && (a[0] < b[0] || (a[0] == b[0] && KeyLess(a[1..], b[1..])))
  }

  lemma {:induction false} KeyLessIrreflexive(a: string)
    ensures !KeyLess(a, a)
  {
    if a != [] {
      KeyLessIrreflexive(a[1..]);
    }
  }

  /** The entries of an object come in strictly increasing key order, as a `BTreeMap` holds them. */
  predicate SortedKeys(es: seq<Entry>) {
    forall i, j :: 0 <= i < j < |es| ==> KeyLess(es[i].key, es[j].key)
  }

  /** A sorted object has no key twice, so `Get` finds the one entry for a key. */
  lemma SortedGet(es: seq<Entry>, i: nat)
    requires SortedKeys(es) && i < |es|
    ensures Get(es, es[i].key) == Some(es[i].val)
  {
    var r := Get(es, es[i].key);
    GetSpec(es, es[i].key);
    var j :| 0 <= j < |es| && es[j] == Entry(es[i].key, r.value);
    if j != i {
      KeyLessIrreflexive(es[i].key);
    }
  }
}
