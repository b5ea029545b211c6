/** Python's `dict` with string keys: a map together with the order in which
    its keys were first inserted, which is the order iteration visits them. */
module Dicts {

  predicate Distinct<T(==)>(s: seq<T>) {
    forall i, j :: 0 <= i < j < |s| ==> s[i] != s[j]
  }

  /** `a` is `b` with some elements left out, the rest kept in order. */
  predicate Subsequence<T(==)>(a: seq<T>, b: seq<T>)
    decreases |b|
  {
    if a == [] then true
    else if b == [] then false
    else if a[0] == b[0] then Subsequence(a[1..], b[1..])
    else Subsequence(a, b[1..])
  }

  /** An element appended to `b` can be skipped. */
  lemma {:induction false} SubsequenceAppend<T>(a: seq<T>, b: seq<T>, x: T)
    requires Subsequence(a, b)
    ensures Subsequence(a, b + [x])
    decreases |b|
  {
    if a != [] {
      assert (b + [x])[1..] == b[1..] + [x];
      if a[0] == b[0] {
        SubsequenceAppend(a[1..], b[1..], x);
      } else {
        SubsequenceAppend(a, b[1..], x);
      }
    }
  }

  /** An element appended to both sides can be kept. */
  lemma {:induction false} SubsequenceExtend<T>(a: seq<T>, b: seq<T>, x: T)
    requires Subsequence(a, b)
    ensures Subsequence(a + [x], b + [x])
    decreases |b|
  {
    if a == [] {
      LastIsSubsequence(b, x);
      assert a + [x] == [x];
    } else {
      assert (a + [x])[1..] == a[1..] + [x];
      assert (b + [x])[1..] == b[1..] + [x];
      if a[0] == b[0] {
        SubsequenceExtend(a[1..], b[1..], x);
      } else {
        SubsequenceExtend(a, b[1..], x);
      }
    }
  }

  lemma {:induction false} LastIsSubsequence<T>(b: seq<T>, x: T)
    ensures Subsequence([x], b + [x])
    decreases |b|
  {
    if b == [] {
      assert [x][1..] == [];
    } else {
      assert (b + [x])[1..] == b[1..] + [x];
      if x != b[0] {
        LastIsSubsequence(b[1..], x);
      }
    }
  }

  datatype RawDict<V> = RawDict(keys: seq<string>, entries: map<string, V>) {
    /** Every key is listed exactly once, and only keys are listed. */
    predicate Valid() {
      && Distinct(keys)
      && (forall k :: k in keys ==> k in entries)
      && (forall k :: k in entries ==> k in keys)
    }
  }

  type Dict<V> = d: RawDict<V> | d.Valid() witness RawDict([], map[])

  function Empty<V>(): (d: Dict<V>)
    ensures d.keys == [] && d.entries == map[]
  {
    RawDict([], map[])
  }

  /** `d[k] = v`: the value is replaced, and a new key goes to the end of the
      iteration order while an existing key keeps its place. */
  function Insert<V>(d: Dict<V>, k: string, v: V): (r: Dict<V>)
    ensures r.entries == d.entries[k := v]
    ensures k in d.entries ==> r.keys == d.keys
    ensures k !in d.entries ==> r.keys == d.keys + [k]
  {
    if k in d.entries then RawDict(d.keys, d.entries[k := v])
    else
      var r := RawDict(d.keys + [k], d.entries[k := v]);
      assert r.Valid();
      r
  }
}
