/** Python's insertion-ordered `dict`, as the portal monitor uses it: records
    (field name to value) and indexes (identity key to record). */
module Dicts {

  /** `keys` lists every key once, in the order it was first inserted;
      `vals` holds each key's current value. */
  datatype RawDict<K(==,!new), V> = RawDict(keys: seq<K>, vals: map<K, V>)

  predicate Distinct<K(==,!new)>(ks: seq<K>) {
    forall i, j :: 0 <= i < j < |ks| ==> ks[i] != ks[j]
  }

  ghost predicate WellFormed<K(!new), V>(d: RawDict<K, V>) {
    Distinct(d.keys) && forall k :: k in d.vals <==> k in d.keys
  }

  type Dict<K(==,!new), V> = d: RawDict<K, V> | WellFormed(d) witness RawDict([], map[])

  function Empty<K(==,!new), V>(): Dict<K, V> {
    RawDict([], map[])
  }

  /** `d.get(k, default)`. */
  function Get<K(==,!new), V>(d: Dict<K, V>, k: K, default: V): V {
    if k in d.vals then d.vals[k] else default
  }

  /** `d[k] = v`: a new key goes last, an existing key keeps its position and
      takes the new value. */
  function Put<K(==,!new), V>(d: Dict<K, V>, k: K, v: V): Dict<K, V> {
    if k in d.vals then RawDict(d.keys, d.vals[k := v]) else RawDict(d.keys + [k], d.vals[k := v])
  }

  /** `d.setdefault(k, v)`, keeping only its effect on `d`. */
  function SetDefault<K(==,!new), V>(d: Dict<K, V>, k: K, v: V): Dict<K, V> {
    if k in d.vals then d else Put(d, k, v)
  }

  /** `ks` with every occurrence of `k` left out, order kept. */
  function Without<K(==,!new)>(ks: seq<K>, k: K): (r: seq<K>)
    ensures forall x :: x in r <==> x in ks && x != k
    ensures Distinct(ks) ==> Distinct(r)
  {
    if ks == [] then []
    else
      var rest := Without(ks[1..], k);
      assert Distinct(ks) ==> Distinct(ks[1..]) && ks[0] !in ks[1..];
      (if ks[0] == k then [] else [ks[0]]) + rest
  }

  /** `{x: v for x, v in d.items() if x != k}`. */
  function Remove<K(==,!new), V>(d: Dict<K, V>, k: K): Dict<K, V> {
    RawDict(Without(d.keys, k), d.vals - {k})
  }

  /** Position of the first occurrence of `k` in `ks`. */
  function FirstIndex<K(==,!new)>(ks: seq<K>, k: K): (i: nat)
    requires k in ks
    ensures i < |ks| && ks[i] == k
    ensures forall j :: 0 <= j < i ==> ks[j] != k
  {
    if ks[0] == k then 0 else 1 + FirstIndex(ks[1..], k)
  }

  /** Position of the last occurrence of `k` in `ks`. */
  function LastIndex<K(==,!new)>(ks: seq<K>, k: K): (i: nat)
    requires k in ks
    ensures i < |ks| && ks[i] == k
    ensures forall j :: i < j < |ks| ==> ks[j] != k
  {
    if ks[|ks| - 1] == k then |ks| - 1 else LastIndex(ks[..|ks| - 1], k)
  }

  lemma FirstIndexSnoc<K(!new)>(ks: seq<K>, x: K, y: K)
    requires y in ks
    ensures FirstIndex(ks + [x], y) == FirstIndex(ks, y)
  {
    assert (ks + [x])[FirstIndex(ks, y)] == y;
  }

  /** The dict left by `for i in range(len(ks)): d[ks[i]] = vs[i]` on an empty `d`. */
  function IndexBy<K(==,!new), V>(ks: seq<K>, vs: seq<V>): Dict<K, V>
    requires |ks| == |vs|
  {
    if ks == [] then Empty()
    else
      var n := |ks| - 1;
      Put(IndexBy(ks[..n], vs[..n]), ks[n], vs[n])
  }

  /** The index holds exactly the keys that were assigned. */
  lemma {:induction false} IndexByKeys<K(!new), V>(ks: seq<K>, vs: seq<V>)
    requires |ks| == |vs|
    ensures forall k :: k in IndexBy(ks, vs).vals <==> k in ks
    decreases |ks|
  {
    if ks != [] {
      var n := |ks| - 1;
      IndexByKeys(ks[..n], vs[..n]);
      assert ks == ks[..n] + [ks[n]];
    }
  }

  /** Each key holds the value of its LAST assignment. */
  lemma {:induction false} IndexByLastWins<K(!new), V>(ks: seq<K>, vs: seq<V>)
    requires |ks| == |vs|
    ensures forall k :: k in ks ==> k in IndexBy(ks, vs).vals && IndexBy(ks, vs).vals[k] == vs[LastIndex(ks, k)]
    decreases |ks|
  {
    IndexByKeys(ks, vs);
    if ks != [] {
      var n := |ks| - 1;
      IndexByLastWins(ks[..n], vs[..n]);
      assert ks == ks[..n] + [ks[n]];
    }
  }

  /** Every element of `r` occurs in `ks`, and `r` lists them in the order of
      their first occurrence in `ks` (so none twice). */
  predicate InFirstOrder<K(==,!new)>(ks: seq<K>, r: seq<K>) {
    && (forall x :: x in r ==> x in ks)
    && forall a, b :: 0 <= a < b < |r| ==> r[a] in ks && r[b] in ks && FirstIndex(ks, r[a]) < FirstIndex(ks, r[b])
  }

  /** Extending `ks` by a new key keeps the order, and that key may follow. */
  lemma InFirstOrderSnoc<K(!new)>(init: seq<K>, x: K, r: seq<K>, last: seq<K>)
    requires InFirstOrder(init, r) && x !in init
    requires last == [] || last == [x]
    ensures InFirstOrder(init + [x], r + last)
  {
    var ks, t := init + [x], r + last;
    forall y | y in init ensures FirstIndex(ks, y) == FirstIndex(init, y) {
      FirstIndexSnoc(init, x, y);
    }
    assert FirstIndex(ks, x) == |init|;
    forall a, b | 0 <= a < b < |t|
      ensures t[a] in ks && t[b] in ks && FirstIndex(ks, t[a]) < FirstIndex(ks, t[b])
    {
      assert t[a] == r[a] && r[a] in r;
      if b < |r| {
        assert t[b] == r[b];
      }
    }
  }

  /** Extending `ks` at the end keeps the order of what `r` lists. */
  lemma InFirstOrderExtend<K(!new)>(init: seq<K>, x: K, r: seq<K>)
    requires InFirstOrder(init, r)
    ensures InFirstOrder(init + [x], r)
  {
    forall y | y in init ensures FirstIndex(init + [x], y) == FirstIndex(init, y) {
      FirstIndexSnoc(init, x, y);
    }
  }

  /** Order through an intermediate list: `r` follows `mid`, which follows `ks`. */
  lemma InFirstOrderCompose<K(!new)>(ks: seq<K>, mid: seq<K>, r: seq<K>)
    requires InFirstOrder(ks, mid) && InFirstOrder(mid, r)
    ensures InFirstOrder(ks, r)
  {
    forall a, b | 0 <= a < b < |r|
      ensures r[a] in ks && r[b] in ks && FirstIndex(ks, r[a]) < FirstIndex(ks, r[b])
    {
      var i, j := FirstIndex(mid, r[a]), FirstIndex(mid, r[b]);
      assert mid[i] == r[a] && mid[j] == r[b];
    }
  }

  /** Keys appear in the order of their FIRST assignment. */
  lemma {:induction false} IndexByFirstOrder<K(!new), V>(ks: seq<K>, vs: seq<V>)
    requires |ks| == |vs|
    ensures InFirstOrder(ks, IndexBy(ks, vs).keys)
    decreases |ks|
  {
    if ks != [] {
      var n := |ks| - 1;
      var init := ks[..n];
      var p := IndexBy(init, vs[..n]);
      IndexByKeys(init, vs[..n]);
      IndexByFirstOrder(init, vs[..n]);
      assert ks == init + [ks[n]];
      if ks[n] in p.vals {
        assert IndexBy(ks, vs).keys == p.keys;
        InFirstOrderExtend(init, ks[n], p.keys);
      } else {
        assert IndexBy(ks, vs).keys == p.keys + [ks[n]];
        InFirstOrderSnoc(init, ks[n], p.keys, [ks[n]]);
      }
    } else {
      assert IndexBy(ks, vs).keys == [];
    }
  }

  /** A key not yet present is appended to the key order. */
  lemma PutNewKey<K(!new), V>(d: Dict<K, V>, k: K, v: V)
    requires k !in d.vals
    ensures Put(d, k, v).keys == d.keys + [k]
  {
  }

  /** One more assignment extends the index by one `Put`. */
  lemma IndexBySnoc<K(!new), V>(ks: seq<K>, vs: seq<V>, k: K, v: V)
    requires |ks| == |vs|
    ensures IndexBy(ks + [k], vs + [v]) == Put(IndexBy(ks, vs), k, v)
  {
    assert (ks + [k])[..|ks|] == ks;
    assert (vs + [v])[..|vs|] == vs;
  }

  /** The prefix of length `j + 1` indexes one more key than the prefix of length `j`. */
  lemma IndexByPrefix<K(!new), V>(ks: seq<K>, vs: seq<V>, j: nat)
    requires |ks| == |vs| && j < |ks|
    ensures IndexBy(ks[..j + 1], vs[..j + 1]) == Put(IndexBy(ks[..j], vs[..j]), ks[j], vs[j])
  {
    assert ks[..j + 1][..j] == ks[..j];
    assert vs[..j + 1][..j] == vs[..j];
  }

  /** Distinct keys: the index lists them in the same order, each with its own value. */
  lemma IndexByDistinct<K(!new), V>(ks: seq<K>, vs: seq<V>)
    requires |ks| == |vs| && Distinct(ks)
    ensures IndexBy(ks, vs).keys == ks
    ensures forall i :: 0 <= i < |ks| ==> ks[i] in IndexBy(ks, vs).vals && IndexBy(ks, vs).vals[ks[i]] == vs[i]
  {
    IndexByDistinctKeys(ks, vs);
    IndexByLastWins(ks, vs);
    forall i | 0 <= i < |ks| ensures LastIndex(ks, ks[i]) == i {
      var j := LastIndex(ks, ks[i]);
      assert ks[j] == ks[i];
    }
  }

  lemma {:induction false} IndexByDistinctKeys<K(!new), V>(ks: seq<K>, vs: seq<V>)
    requires |ks| == |vs| && Distinct(ks)
    ensures IndexBy(ks, vs).keys == ks
    decreases |ks|
  {
    if ks != [] {
      var n := |ks| - 1;
      var init := ks[..n];
      assert Distinct(init);
      IndexByDistinctKeys(init, vs[..n]);
      IndexByKeys(init, vs[..n]);
      assert ks[n] !in init by {
        assert forall j :: 0 <= j < n ==> init[j] == ks[j] != ks[n];
      }
      PutNewKey(IndexBy(init, vs[..n]), ks[n], vs[n]);
    }
  }
}
