/** `accumulate`: the cumulative distribution of a normalized histogram. The
    running sum lives in the module-level variable `curr`, which every call
    resets to zero before summing the values in ascending key order. */
module Accumulation {
  import opened Dicts
  import opened Sums
  import opened Sorting

  /** Python's order on `(key, value)` tuples: by key, then by value. */
  function PairLe(a: (real, real), b: (real, real)): bool {
    a.0 < b.0 || (a.0 == b.0 && a.1 <= b.1)
  }

  lemma PairLeTotalPreorder()
    ensures TotalPreorder(PairLe)
  {
  }

  /** `sorted(data.items())` */
  function SortedItems(d: Dict<real, real>): seq<(real, real)> {
    SortBy(Items(d), PairLe)
  }

  /** Each key paired with the sum of the values up to and including its own. */
  function RunningSums(s: seq<(real, real)>): (r: seq<(real, real)>)
    ensures |r| == |s|
    decreases |s|
  {
    if s == [] then [] else RunningSums(s[..|s| - 1]) + [(s[|s| - 1].0, SumR(Snds(s)))]
  }

  /** The i-th running sum adds up the first `i + 1` values. */
  lemma {:induction false} RunningSumsAt(s: seq<(real, real)>, i: nat)
    requires i < |s|
    ensures RunningSums(s)[i] == (s[i].0, SumR(Snds(s[..i + 1])))
    decreases |s|
  {
    var n := |s| - 1;
    if i < n {
      RunningSumsAt(s[..n], i);
      assert s[..n][..i + 1] == s[..i + 1];
    } else {
      assert s[..i + 1] == s;
    }
  }

  /** One more pair adds one more running sum. */
  lemma RunningSumsSnoc(s: seq<(real, real)>, i: nat)
    requires i < |s|
    ensures SumR(Snds(s[..i + 1])) == SumR(Snds(s[..i])) + s[i].1
    ensures RunningSums(s[..i + 1]) == RunningSums(s[..i]) + [(s[i].0, SumR(Snds(s[..i])) + s[i].1)]
  {
    assert s[..i + 1][..i] == s[..i];
    assert Snds(s[..i + 1])[..i] == Snds(s[..i]);
  }

  /** The running sums keep the keys of the pairs they sum. */
  lemma RunningSumsKeys(s: seq<(real, real)>)
    ensures Fsts(RunningSums(s)) == Fsts(s)
  {
    forall i | 0 <= i < |s| ensures Fsts(RunningSums(s))[i] == Fsts(s)[i] {
      RunningSumsAt(s, i);
    }
  }

  /** What `{k: acc(v) for k, v in sorted(data.items())}` builds. */
  function AccumulateSpec(d: Dict<real, real>): Dict<real, real> {
    FromItems(RunningSums(SortedItems(d)))
  }

  /** The sum of the fractions at keys not above `k`. */
  function AtMost(k: real): real -> bool {
    x => x <= k
  }

  /** The condition every key meets. */
  function Always(): real -> bool {
    x => true
  }

  lemma {:induction false} InsertFracs<K>(x: (K, real), s: seq<(K, real)>, le: ((K, real), (K, real)) -> bool, p: K -> bool)
    ensures FracsWhere(Insert(x, s, le), p) == FracsWhere([x], p) + FracsWhere(s, p)
    decreases |s|
  {
    if s == [] || le(x, s[0]) {
      FracsWhereConcat([x], s, p);
    } else {
      InsertFracs(x, s[1..], le, p);
      FracsWhereConcat([s[0]], Insert(x, s[1..], le), p);
      FracsWhereConcat([s[0]], s[1..], p);
      assert s == [s[0]] + s[1..];
    }
  }

  /** Reordering the pairs does not change what they sum to. */
  lemma {:induction false} FracsWhereSortBy<K>(s: seq<(K, real)>, le: ((K, real), (K, real)) -> bool, p: K -> bool)
    ensures FracsWhere(SortBy(s, le), p) == FracsWhere(s, p)
    decreases |s|
  {
    if s != [] {
      FracsWhereSortBy(s[1..], le, p);
      InsertFracs(s[0], SortBy(s[1..], le), le, p);
      FracsWhereConcat([s[0]], s[1..], p);
      assert s == [s[0]] + s[1..];
    }
  }

  /** The sorted pairs are the dictionary's own pairs, in strictly ascending
      key order. */
  lemma SortedItemsShape(d: Dict<real, real>)
    ensures |SortedItems(d)| == |d.keys|
    ensures forall i | 0 <= i < |SortedItems(d)| ::
      SortedItems(d)[i].0 in d.entries && SortedItems(d)[i].1 == d.entries[SortedItems(d)[i].0]
    ensures forall k | k in d.entries :: exists i | 0 <= i < |SortedItems(d)| :: SortedItems(d)[i].0 == k
    ensures forall i, j | 0 <= i < j < |SortedItems(d)| :: SortedItems(d)[i].0 < SortedItems(d)[j].0
  {
    var items := Items(d);
    var s := SortedItems(d);
    SortByPermutes(items, PairLe);
    PairLeTotalPreorder();
    SortBySorted(items, PairLe);
    assert Distinct(items) by {
      forall i, j | 0 <= i < j < |items| ensures items[i] != items[j] {
        assert d.keys[i] != d.keys[j];
      }
    }
    SortByDistinct(items, PairLe);
    forall i | 0 <= i < |s| ensures s[i].0 in d.entries && s[i].1 == d.entries[s[i].0] {
      assert s[i] in multiset(items);
      var j :| 0 <= j < |items| && items[j] == s[i];
    }
    forall k | k in d.entries ensures exists i | 0 <= i < |s| :: s[i].0 == k {
      var j :| 0 <= j < |d.keys| && d.keys[j] == k;
      assert items[j] in multiset(s);
      var i :| 0 <= i < |s| && s[i] == items[j];
      assert s[i].0 == k;
    }
    forall i, j | 0 <= i < j < |s| ensures s[i].0 < s[j].0 {
      assert PairLe(s[i], s[j]);
      assert s[i] != s[j];
    }
  }

  /** The keys of the sorted pairs are the dictionary's keys, strictly
      ascending. */
  lemma SortedKeys(d: Dict<real, real>)
    ensures forall k :: k in Fsts(SortedItems(d)) <==> k in d.entries
    ensures forall i, j | 0 <= i < j < |SortedItems(d)| :: Fsts(SortedItems(d))[i] < Fsts(SortedItems(d))[j]
  {
    var s := SortedItems(d);
    var keys := Fsts(s);
    SortedItemsShape(d);
    forall k ensures k in keys <==> k in d.entries {
      if k in d.entries {
        var i :| 0 <= i < |s| && s[i].0 == k;
        assert keys[i] == k;
      }
      if k in keys {
        var i :| 0 <= i < |keys| && keys[i] == k;
        assert s[i].0 == k;
      }
    }
  }

  /** The cumulative dictionary has the same keys, now in ascending order. */
  lemma AccumulateKeys(d: Dict<real, real>)
    ensures AccumulateSpec(d).keys == Fsts(SortedItems(d))
    ensures forall k :: k in AccumulateSpec(d).entries <==> k in d.entries
    ensures forall i, j | 0 <= i < j < |AccumulateSpec(d).keys| ::
      AccumulateSpec(d).keys[i] < AccumulateSpec(d).keys[j]
  {
    var s := SortedItems(d);
    var r := RunningSums(s);
    var keys := Fsts(s);
    SortedKeys(d);
    RunningSumsKeys(s);
    assert Distinct(Fsts(r)) by {
      forall i, j | 0 <= i < j < |keys| ensures keys[i] != keys[j] {
        assert keys[i] < keys[j];
      }
    }
    FromItemsDistinct(r);
    var acc := FromItems(r);
    assert acc.keys == keys;
    forall k ensures k in acc.entries <==> k in d.entries {
      assert k in acc.entries <==> k in acc.keys;
    }
  }

  /** Over pairs in strictly ascending key order, the running sum at
      position `i` is the sum of the values at keys up to `s[i].0`. */
  lemma PrefixIsFracsAtMost(s: seq<(real, real)>, i: nat)
    requires i < |s|
    requires forall a, b | 0 <= a < b < |s| :: s[a].0 < s[b].0
    ensures SumR(Snds(s[..i + 1])) == FracsWhere(s, AtMost(s[i].0))
  {
    forall j | 0 <= j < |s| ensures AtMost(s[i].0)(s[j].0) <==> j < i + 1 {
      if j < i {
        assert s[j].0 < s[i].0;
      } else if j > i {
        assert s[i].0 < s[j].0;
      }
    }
    FracsWherePrefix(s, i + 1, AtMost(s[i].0));
  }

  /** Over pairs in strictly ascending key order, the comprehension of
      running sums maps each key to the sum of the values at keys up to it. */
  lemma RunningSumsEntry(s: seq<(real, real)>, i: nat)
    requires i < |s|
    requires forall a, b | 0 <= a < b < |s| :: s[a].0 < s[b].0
    ensures s[i].0 in FromItems(RunningSums(s)).entries
    ensures FromItems(RunningSums(s)).entries[s[i].0] == FracsWhere(s, AtMost(s[i].0))
  {
    var r := RunningSums(s);
    RunningSumsKeys(s);
    assert Distinct(Fsts(r)) by {
      forall a, b | 0 <= a < b < |r| ensures Fsts(r)[a] != Fsts(r)[b] {
        assert Fsts(s)[a] < Fsts(s)[b];
      }
    }
    FromItemsDistinct(r);
    FromItemsKeys(r);
    RunningSumsAt(s, i);
    assert Fsts(r)[i] == s[i].0;
    PrefixIsFracsAtMost(s, i);
  }

  /** The value at key `k` sums the fractions at every key `<= k`. */
  lemma AccumulateValue(d: Dict<real, real>, k: real)
    requires k in d.entries
    ensures k in AccumulateSpec(d).entries
    ensures AccumulateSpec(d).entries[k] == FracsWhere(Items(d), AtMost(k))
  {
    var s := SortedItems(d);
    SortedItemsShape(d);
    var i :| 0 <= i < |s| && s[i].0 == k;
    RunningSumsEntry(s, i);
    FracsWhereSortBy(Items(d), PairLe, AtMost(k));
  }

  /** With no negative fraction, the cumulative values never decrease
      with the key. */
  lemma AccumulateMonotone(d: Dict<real, real>, k1: real, k2: real)
    requires forall k | k in d.entries :: d.entries[k] >= 0.0
    requires k1 in d.entries && k2 in d.entries && k1 <= k2
    ensures k1 in AccumulateSpec(d).entries && k2 in AccumulateSpec(d).entries
    ensures AccumulateSpec(d).entries[k1] <= AccumulateSpec(d).entries[k2]
  {
    AccumulateValue(d, k1);
    AccumulateValue(d, k2);
    var items := Items(d);
    forall i | 0 <= i < |items| ensures items[i].1 >= 0.0 {
      var k := d.keys[i];
      assert k in d.entries;
      assert d.entries[k] >= 0.0;
    }
    FracsWhereMonotone(items, AtMost(k1), AtMost(k2));
  }

  /** The largest key carries the total of all fractions. */
  lemma AccumulateMaxIsTotal(d: Dict<real, real>, kmax: real)
    requires kmax in d.entries
    requires forall k | k in d.entries :: k <= kmax
    ensures kmax in AccumulateSpec(d).entries
    ensures AccumulateSpec(d).entries[kmax] == TotalR(d)
  {
    AccumulateValue(d, kmax);
    var items := Items(d);
    forall i | 0 <= i < |items| ensures AtMost(kmax)(items[i].0) {
      assert d.keys[i] in d.entries;
    }
    FracsWhereAll(items, AtMost(kmax));
  }

  /** The sorted values sum to the total. */
  lemma SortedItemsTotal(d: Dict<real, real>)
    ensures SumR(Snds(SortedItems(d))) == TotalR(d)
  {
    FracsWhereAll(SortedItems(d), Always());
    FracsWhereSortBy(Items(d), PairLe, Always());
    FracsWhereAll(Items(d), Always());
  }

  /** The module-level variables of the script that `accumulate` writes. */
  class ModuleGlobals {
    /** `curr`, the running sum of `acc`. */
    var curr: real

    constructor (curr0: real)
      ensures curr == curr0
    {
      curr := curr0;
    }

    /** `accumulate(data)`: the result does not depend on what `curr` held
        before the call, and `curr` is left at the total. */
    method Accumulate(data: Dict<real, real>) returns (r: Dict<real, real>)
      modifies this
      ensures r == AccumulateSpec(data)
      ensures curr == TotalR(data)
    {
      curr := 0.0;
      var sorted := SortedItems(data);
      r := Empty();
      for i := 0 to |sorted|
        invariant curr == SumR(Snds(sorted[..i]))
        invariant r == FromItems(RunningSums(sorted[..i]))
      {
        var (k, v) := sorted[i];
        RunningSumsSnoc(sorted, i);
        FromItemsSnoc(RunningSums(sorted[..i]), (k, curr + v));
        curr := curr + v;
        r := Set(r, k, curr);
      }
      assert sorted[..|sorted|] == sorted;
      SortedItemsTotal(data);
    }
  }
}
