/** `get_sorted_values(xs, ys, sort_by)`: pairs two lists position by
    position, sorts the pairs by one component and splits them again. */
module Series {
  import opened Dicts
  import opened Sorting

  /** `list(zip(xs, ys))`: stops at the end of the shorter list. */
  function Zip<A, B>(xs: seq<A>, ys: seq<B>): (r: seq<(A, B)>)
    ensures |r| == if |xs| <= |ys| then |xs| else |ys|
    ensures forall i | 0 <= i < |r| :: r[i] == (xs[i], ys[i])
  {
    var n := if |xs| <= |ys| then |xs| else |ys|;
    seq(n, i requires 0 <= i < n => (xs[i], ys[i]))
  }

  /** Splitting pairs and zipping the halves gives the pairs back. */
  lemma ZipOfSplit<A, B>(t: seq<(A, B)>)
    ensures Zip(Fsts(t), Snds(t)) == t
  {
  }

  /** `key=lambda x: x[sort_by]` as an order on pairs. */
  function ByComponent(c: nat): ((real, real), (real, real)) -> bool {
    (a: (real, real), b: (real, real)) => if c == 0 then a.0 <= b.0 else a.1 <= b.1
  }

  lemma ByComponentTotalPreorder(c: nat)
    ensures TotalPreorder(ByComponent(c))
  {
    var le := ByComponent(c);
    forall a: (real, real), b: (real, real) ensures le(a, b) || le(b, a) {
    }
    forall a: (real, real), b: (real, real), d: (real, real) | le(a, b) && le(b, d) ensures le(a, d) {
    }
  }

  /** `'xs'` sorts by the first list, anything else by the second. */
  function SortIndex(sortBy: string): nat {
    if sortBy == "xs" then 0 else 1
  }

  function GetSortedValues(xs: seq<real>, ys: seq<real>, sortBy: string): (seq<real>, seq<real>) {
    var tup := SortBy(Zip(xs, ys), ByComponent(SortIndex(sortBy)));
    (Fsts(tup), Snds(tup))
  }

  /** The two lists returned have the length of the shorter input, hold the
      input pairs rearranged, are ordered by the chosen component, and keep
      pairs with equal keys in their input order. */
  lemma GetSortedValuesSpec(xs: seq<real>, ys: seq<real>, sortBy: string)
    ensures var r := GetSortedValues(xs, ys, sortBy);
      && |r.0| == |r.1| == (if |xs| <= |ys| then |xs| else |ys|)
      && multiset(Zip(r.0, r.1)) == multiset(Zip(xs, ys))
      && (forall i, j | 0 <= i < j < |r.0| :: if sortBy == "xs" then r.0[i] <= r.0[j] else r.1[i] <= r.1[j])
      && (forall e :: EquivClass(Zip(r.0, r.1), ByComponent(SortIndex(sortBy)), e)
                   == EquivClass(Zip(xs, ys), ByComponent(SortIndex(sortBy)), e))
  {
    var le := ByComponent(SortIndex(sortBy));
    var z := Zip(xs, ys);
    var tup := SortBy(z, le);
    ZipOfSplit(tup);
    SortByPermutes(z, le);
    ByComponentTotalPreorder(SortIndex(sortBy));
    SortBySorted(z, le);
    forall e ensures EquivClass(tup, le, e) == EquivClass(z, le, e) {
      SortByStable(z, le, e);
    }
    forall i, j | 0 <= i < j < |tup| ensures if sortBy == "xs" then tup[i].0 <= tup[j].0 else tup[i].1 <= tup[j].1 {
      assert le(tup[i], tup[j]);
    }
  }
}
