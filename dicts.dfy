/** Python's `dict`: a finite map that remembers the order in which keys were
    first inserted. Assigning to a key that is already present replaces its
    value and keeps its position; a new key goes to the end. Iterating over
    `items()` follows that order. */
module Dicts {

  /** No element occurs twice. */
  predicate Distinct<K(==)>(s: seq<K>) {
    forall i, j | 0 <= i < j < |s| :: s[i] != s[j]
  }

  datatype DictRep<K(==), V> = DictRep(keys: seq<K>, entries: map<K, V>)

  ghost predicate WellFormed<K, V>(d: DictRep<K, V>) {
    && Distinct(d.keys)
    && (forall k | k in d.entries :: k in d.keys)
    && (forall k | k in d.keys :: k in d.entries)
  }

  /** A dictionary: its keys in insertion order, and the value of each. */
  type Dict<K(==), V> = d: DictRep<K, V> | WellFormed(d) witness DictRep([], map[])

  /** `{}` */
  function Empty<K(==), V>(): Dict<K, V> {
    DictRep([], map[])
  }

  /** `d[k] = v` */
  function Set<K(==), V>(d: Dict<K, V>, k: K, v: V): Dict<K, V> {
    if k in d.entries then DictRep(d.keys, d.entries[k := v])
    else DictRep(d.keys + [k], d.entries[k := v])
  }

  /** The i-th pair of `d.items()`. */
  function Item<K(==), V>(d: Dict<K, V>, i: nat): (K, V)
    requires i < |d.keys|
  {
    (d.keys[i], d.entries[d.keys[i]])
  }

  /** `list(d.items())` */
  function Items<K(==), V>(d: Dict<K, V>): (r: seq<(K, V)>)
    ensures |r| == |d.keys|
    ensures forall i | 0 <= i < |r| :: r[i] == Item(d, i)
  {
    seq(|d.keys|, i requires 0 <= i < |d.keys| => Item(d, i))
  }

  /** The first components of a sequence of pairs. */
  function Fsts<K, V>(items: seq<(K, V)>): (r: seq<K>)
    ensures |r| == |items|
    ensures forall i | 0 <= i < |r| :: r[i] == items[i].0
  {
    seq(|items|, i requires 0 <= i < |items| => items[i].0)
  }

  /** The second components of a sequence of pairs. */
  function Snds<K, V>(items: seq<(K, V)>): (r: seq<V>)
    ensures |r| == |items|
    ensures forall i | 0 <= i < |r| :: r[i] == items[i].1
  {
    seq(|items|, i requires 0 <= i < |items| => items[i].1)
  }

  /** The dictionary built by inserting the pairs in order, as a dict
      comprehension or a loop of `d[k] = v` does: a repeated key keeps its
      first position and its last value. */
  function FromItems<K(==), V>(items: seq<(K, V)>): Dict<K, V>
    decreases |items|
  {
    if items == [] then Empty()
    else Set(FromItems(items[..|items| - 1]), items[|items| - 1].0, items[|items| - 1].1)
  }

  /** `Set` puts the key in, gives it the value and changes nothing else. */
  lemma SetEntries<K, V>(d: Dict<K, V>, k: K, v: V)
    ensures Set(d, k, v).entries == d.entries[k := v]
    ensures k in d.entries ==> Set(d, k, v).keys == d.keys
    ensures k !in d.entries ==> Set(d, k, v).keys == d.keys + [k]
  {
  }

  /** The keys of a comprehension are exactly the first components of its pairs. */
  lemma {:induction false} FromItemsKeys<K, V>(items: seq<(K, V)>)
    ensures forall k :: k in FromItems(items).entries <==> k in Fsts(items)
    decreases |items|
  {
    if items != [] {
      var init := items[..|items| - 1];
      FromItemsKeys(init);
      assert Fsts(items) == Fsts(init) + [items[|items| - 1].0];
    }
  }

  /** A comprehension over pairs whose keys are distinct keeps every pair,
      in order, with its own value. */
  lemma {:induction false} FromItemsDistinct<K, V>(items: seq<(K, V)>)
    requires Distinct(Fsts(items))
    ensures FromItems(items).keys == Fsts(items)
    ensures forall i | 0 <= i < |items| :: FromItems(items).entries[items[i].0] == items[i].1
    decreases |items|
  {
    if items != [] {
      var init := items[..|items| - 1];
      var p := items[|items| - 1];
      DistinctFstsInit(items);
      FromItemsDistinct(init);
      InitLast(items);
      FromItemsSnoc(init, p);
      SetFresh(FromItems(init), init, p);
    }
  }

  /** Dropping the last pair keeps the keys distinct, and the last key does
      not occur among the others. */
  lemma DistinctFstsInit<K, V>(items: seq<(K, V)>)
    requires items != [] && Distinct(Fsts(items))
    ensures Distinct(Fsts(items[..|items| - 1]))
    ensures items[|items| - 1].0 !in Fsts(items[..|items| - 1])
  {
    var n := |items| - 1;
    var keys := Fsts(items);
    assert Fsts(items[..n]) == keys[..n];
    forall i | 0 <= i < n ensures keys[..n][i] != items[n].0 {
      assert keys[i] != keys[n];
    }
  }

  /** A non-empty sequence is its front followed by its last element. */
  lemma InitLast<T>(s: seq<T>)
    requires s != []
    ensures s == s[..|s| - 1] + [s[|s| - 1]]
  {
  }

  lemma SndsInit<K, V>(items: seq<(K, V)>)
    requires items != []
    ensures Snds(items[..|items| - 1]) == Snds(items)[..|items| - 1]
  {
  }

  lemma FstsSnoc<K, V>(init: seq<(K, V)>, p: (K, V))
    ensures Fsts(init + [p]) == Fsts(init) + [p.0]
  {
  }

  /** The step of `FromItemsDistinct`: a dictionary holding exactly the
      pairs `init` gets a fresh key, which goes to the end with its value. */
  lemma SetFresh<K, V>(prev: Dict<K, V>, init: seq<(K, V)>, p: (K, V))
    requires p.0 !in Fsts(init)
    requires prev.keys == Fsts(init)
    requires forall i | 0 <= i < |init| :: prev.entries[init[i].0] == init[i].1
    ensures Set(prev, p.0, p.1).keys == Fsts(init + [p])
    ensures forall i | 0 <= i < |init + [p]| :: Set(prev, p.0, p.1).entries[(init + [p])[i].0] == (init + [p])[i].1
  {
    var items := init + [p];
    var n := |init|;
    var (k, v) := p;
    SetEntries(prev, k, v);
    var e := prev.entries[k := v];
    FstsSnoc(init, p);
    forall i | 0 <= i < |items| ensures e[items[i].0] == items[i].1 {
      if i < n {
        assert items[i] == init[i];
        assert Fsts(init)[i] == init[i].0;
        assert init[i].0 in prev.keys;
      } else {
        assert items[i] == p;
      }
    }
  }

  /** The pairs of a dictionary have distinct keys, and rebuilding the
      dictionary from them gives it back. */
  lemma ItemsRoundTrip<K, V>(d: Dict<K, V>)
    ensures Fsts(Items(d)) == d.keys
    ensures FromItems(Items(d)) == d
  {
    var items := Items(d);
    assert Fsts(items) == d.keys;
    FromItemsDistinct(items);
    var r := FromItems(items);
    FromItemsKeys(items);
    assert r.keys == d.keys;
    forall k | k in r.entries ensures k in d.entries && r.entries[k] == d.entries[k] {
      var i :| 0 <= i < |d.keys| && d.keys[i] == k;
      assert items[i] == (k, d.entries[k]);
    }
    forall k | k in d.entries ensures k in r.entries {
      assert k in d.keys;
    }
    assert r.entries == d.entries;
  }

  /** `list(d.values())` */
  function Values<K(==), V>(d: Dict<K, V>): (r: seq<V>)
    ensures |r| == |d.keys|
    ensures forall i | 0 <= i < |r| :: r[i] == d.entries[d.keys[i]]
  {
    Snds(Items(d))
  }

  /** A comprehension's pairs come back out of `items()` unchanged when their
      keys are distinct. */
  lemma ItemsOfFromItems<K, V>(items: seq<(K, V)>)
    requires Distinct(Fsts(items))
    ensures Items(FromItems(items)) == items
  {
    FromItemsDistinct(items);
  }

  /** The last value given to a key is the one the comprehension keeps. */
  lemma {:induction false} FromItemsLast<K, V>(items: seq<(K, V)>, i: nat)
    requires i < |items|
    requires forall j | i < j < |items| :: items[j].0 != items[i].0
    ensures items[i].0 in FromItems(items).entries
    ensures FromItems(items).entries[items[i].0] == items[i].1
    decreases |items|
  {
    if i < |items| - 1 {
      FromItemsLast(items[..|items| - 1], i);
    }
  }

  /** A comprehension has at most one entry per pair. */
  lemma {:induction false} FromItemsSize<K, V>(items: seq<(K, V)>)
    ensures |FromItems(items).keys| <= |items|
    decreases |items|
  {
    if items != [] {
      FromItemsSize(items[..|items| - 1]);
    }
  }

  /** A comprehension over `items + [p]` is the one over `items` with `p`
      inserted last. */
  lemma FromItemsSnoc<K, V>(items: seq<(K, V)>, p: (K, V))
    ensures FromItems(items + [p]) == Set(FromItems(items), p.0, p.1)
  {
    assert (items + [p])[..|items|] == items;
  }

  /** Dropping the last pair of pairs with distinct keys keeps the keys
      distinct, and the last key does not occur before it. */
  lemma FromItemsFreshLast<K, V>(items: seq<(K, V)>)
    requires items != [] && Distinct(Fsts(items))
    ensures Distinct(Fsts(items[..|items| - 1]))
    ensures items[|items| - 1].0 !in FromItems(items[..|items| - 1]).entries
  {
    DistinctFstsInit(items);
    FromItemsKeys(items[..|items| - 1]);
  }
}
