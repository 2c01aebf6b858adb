/** Python's `sum` over counts (integers) and over fractions (exact reals),
    and the sums restricted to the pairs whose key satisfies a condition. */
module Sums {
  import opened Dicts

  /** `sum(xs)` over integers. */
  function Sum(xs: seq<int>): int
    decreases |xs|
  {
    if xs == [] then 0 else Sum(xs[..|xs| - 1]) + xs[|xs| - 1]
  }

  /** `sum(xs)` over fractions. */
  function SumR(xs: seq<real>): real
    decreases |xs|
  {
    if xs == [] then 0.0 else SumR(xs[..|xs| - 1]) + xs[|xs| - 1]
  }

  /** `sum(d.values())` */
  function Total<K(==)>(d: Dict<K, int>): int {
    Sum(Values(d))
  }

  /** `sum(d.values())` for a dictionary of fractions. */
  function TotalR<K(==)>(d: Dict<K, real>): real {
    SumR(Values(d))
  }

  lemma {:induction false} SumConcat(a: seq<int>, b: seq<int>)
    ensures Sum(a + b) == Sum(a) + Sum(b)
    decreases |b|
  {
    if b != [] {
      SumConcat(a, b[..|b| - 1]);
      assert (a + b)[..|a + b| - 1] == a + b[..|b| - 1];
    } else {
      assert a + b == a;
    }
  }

  lemma {:induction false} SumRConcat(a: seq<real>, b: seq<real>)
    ensures SumR(a + b) == SumR(a) + SumR(b)
    decreases |b|
  {
    if b != [] {
      SumRConcat(a, b[..|b| - 1]);
      assert (a + b)[..|a + b| - 1] == a + b[..|b| - 1];
    } else {
      assert a + b == a;
    }
  }

  /** Changing one element changes the sum by the difference. */
  lemma SumUpdate(xs: seq<int>, i: nat, x: int)
    requires i < |xs|
    ensures Sum(xs[i := x]) == Sum(xs) - xs[i] + x
  {
    assert xs == xs[..i] + [xs[i]] + xs[i + 1..];
    assert xs[i := x] == xs[..i] + [x] + xs[i + 1..];
    SumConcat(xs[..i] + [xs[i]], xs[i + 1..]);
    SumConcat(xs[..i], [xs[i]]);
    SumConcat(xs[..i] + [x], xs[i + 1..]);
    SumConcat(xs[..i], [x]);
  }

  /** Sums of non-negative numbers are non-negative. */
  lemma {:induction false} SumNonNegative(xs: seq<int>)
    requires forall i | 0 <= i < |xs| :: xs[i] >= 0
    ensures Sum(xs) >= 0
    decreases |xs|
  {
    if xs != [] {
      SumNonNegative(xs[..|xs| - 1]);
    }
  }

  /** `max(v, 0)`: how many copies `[x] * v` makes. */
  function Pos(v: int): nat {
    if v < 0 then 0 else v
  }

  /** The sum of the values of the pairs whose key satisfies `p`. */
  function CountsWhere<K>(items: seq<(K, int)>, p: K -> bool): int
    decreases |items|
  {
    if items == [] then 0
    else CountsWhere(items[..|items| - 1], p) + (if p(items[|items| - 1].0) then items[|items| - 1].1 else 0)
  }

  /** The sum of the fractions of the pairs whose key satisfies `p`. */
  function FracsWhere<K>(items: seq<(K, real)>, p: K -> bool): real
    decreases |items|
  {
    if items == [] then 0.0
    else FracsWhere(items[..|items| - 1], p) + (if p(items[|items| - 1].0) then items[|items| - 1].1 else 0.0)
  }

  lemma {:induction false} FracsWhereConcat<K>(a: seq<(K, real)>, b: seq<(K, real)>, p: K -> bool)
    ensures FracsWhere(a + b, p) == FracsWhere(a, p) + FracsWhere(b, p)
    decreases |b|
  {
    if b != [] {
      FracsWhereConcat(a, b[..|b| - 1], p);
      assert (a + b)[..|a + b| - 1] == a + b[..|b| - 1];
    } else {
      assert a + b == a;
    }
  }

  /** A condition every key meets sums all values. */
  lemma {:induction false} FracsWhereAll<K>(items: seq<(K, real)>, p: K -> bool)
    requires forall i | 0 <= i < |items| :: p(items[i].0)
    ensures FracsWhere(items, p) == SumR(Snds(items))
    decreases |items|
  {
    if items != [] {
      FracsWhereAll(items[..|items| - 1], p);
      assert Snds(items[..|items| - 1]) == Snds(items)[..|items| - 1];
    }
  }

  /** A condition no key meets sums to zero. */
  lemma {:induction false} FracsWhereNone<K>(items: seq<(K, real)>, p: K -> bool)
    requires forall i | 0 <= i < |items| :: !p(items[i].0)
    ensures FracsWhere(items, p) == 0.0
    decreases |items|
  {
    if items != [] {
      FracsWhereNone(items[..|items| - 1], p);
    }
  }

  /** A condition met by exactly the first `n` keys sums the first `n` values. */
  lemma {:induction false} FracsWherePrefix<K>(items: seq<(K, real)>, n: nat, p: K -> bool)
    requires n <= |items|
    requires forall j | 0 <= j < |items| :: p(items[j].0) <==> j < n
    ensures FracsWhere(items, p) == SumR(Snds(items[..n]))
    decreases |items|
  {
    if items != [] {
      var m := |items| - 1;
      var init := items[..m];
      assert forall j | 0 <= j < |init| :: init[j] == items[j];
      if n <= m {
        FracsWherePrefix(init, n, p);
        assert init[..n] == items[..n];
      } else {
        FracsWherePrefix(init, m, p);
        assert init[..m] == init;
        assert items[..n] == items;
        assert Snds(items)[..m] == Snds(init);
      }
    }
  }

  /** With non-negative values, a weaker condition sums to at least as much. */
  lemma {:induction false} FracsWhereMonotone<K>(items: seq<(K, real)>, p: K -> bool, q: K -> bool)
    requires forall i | 0 <= i < |items| :: items[i].1 >= 0.0
    requires forall i | 0 <= i < |items| :: p(items[i].0) ==> q(items[i].0)
    ensures FracsWhere(items, p) <= FracsWhere(items, q)
    decreases |items|
  {
    if items != [] {
      FracsWhereMonotone(items[..|items| - 1], p, q);
    }
  }

  /** Assigning `d[k] = v` takes the old value of `k` (if any) out of the
      total and puts `v` in. */
  lemma TotalSet<K>(d: Dict<K, int>, k: K, v: int)
    ensures Total(Set(d, k, v)) == Total(d) - (if k in d.entries then d.entries[k] else 0) + v
  {
    var e := Set(d, k, v);
    SetEntries(d, k, v);
    var old_values := Values(d);
    var new_values := Values(e);
    if k in d.entries {
      assert k in d.keys;
      var idx :| 0 <= idx < |d.keys| && d.keys[idx] == k;
      assert e.keys == d.keys;
      assert new_values == old_values[idx := v] by {
        forall j | 0 <= j < |d.keys| ensures new_values[j] == old_values[idx := v][j] {
          if j != idx {
            assert d.keys[j] != d.keys[idx];
          }
        }
      }
      SumUpdate(old_values, idx, v);
    } else {
      assert e.keys == d.keys + [k];
      assert new_values[..|d.keys|] == old_values by {
        forall j | 0 <= j < |d.keys| ensures new_values[j] == old_values[j] {
          assert e.keys[j] == d.keys[j] != k;
        }
      }
      assert new_values[|d.keys|] == v;
    }
  }

  /** The number of elements `[x] * v` makes, summed over `xs`. */
  function PosSum(xs: seq<int>): nat
    decreases |xs|
  {
    if xs == [] then 0 else PosSum(xs[..|xs| - 1]) + Pos(xs[|xs| - 1])
  }

  /** Without negative counts, the copies made add up to the total. */
  lemma {:induction false} PosSumOfNonNegative(xs: seq<int>)
    requires forall i | 0 <= i < |xs| :: xs[i] >= 0
    ensures PosSum(xs) == Sum(xs)
    decreases |xs|
  {
    if xs != [] {
      PosSumOfNonNegative(xs[..|xs| - 1]);
    }
  }
}
