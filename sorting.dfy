/** Python's `sorted(xs, key=...)` and `list.sort(key=...)`: a stable sort.
    The order is given as a "less than or equal" relation `le`, which for a
    key function `f` is `f(a) <= f(b)` and for plain values is Python's own
    comparison. The sort is written as insertion sort; what it promises is
    stated by the lemmas below: the result is ordered, is a permutation of
    the input, and keeps equivalent elements in their original order. */
module Sorting {
  import opened Dicts

  /** `le` is total and transitive: the shape of every order Python sorts by. */
  ghost predicate TotalPreorder<T(!new)>(le: (T, T) -> bool) {
    && (forall a, b :: le(a, b) || le(b, a))
    && (forall a, b, c :: le(a, b) && le(b, c) ==> le(a, c))
  }

  predicate SortedBy<T>(s: seq<T>, le: (T, T) -> bool) {
    forall i, j | 0 <= i < j < |s| :: le(s[i], s[j])
  }

  /** `a` and `b` compare equal: neither sorts strictly before the other. */
  predicate Equiv<T>(le: (T, T) -> bool, a: T, b: T) {
    le(a, b) && le(b, a)
  }

  /** Inserts `x` before the first element it is not greater than. */
  function Insert<T>(x: T, s: seq<T>, le: (T, T) -> bool): seq<T>
    decreases |s|
  {
    if s == [] || le(x, s[0]) then [x] + s else [s[0]] + Insert(x, s[1..], le)
  }

  /** `sorted(s)` under the order `le`. */
  function SortBy<T>(s: seq<T>, le: (T, T) -> bool): seq<T>
    decreases |s|
  {
    if s == [] then [] else Insert(s[0], SortBy(s[1..], le), le)
  }

  /** The elements of `s` that compare equal to `e`, in the order of `s`. */
  function EquivClass<T>(s: seq<T>, le: (T, T) -> bool, e: T): seq<T>
    decreases |s|
  {
    if s == [] then [] else (if Equiv(le, s[0], e) then [s[0]] else []) + EquivClass(s[1..], le, e)
  }

  lemma {:induction false} InsertPermutes<T>(x: T, s: seq<T>, le: (T, T) -> bool)
    ensures multiset(Insert(x, s, le)) == multiset(s) + multiset{x}
    ensures |Insert(x, s, le)| == |s| + 1
    decreases |s|
  {
    if s != [] && !le(x, s[0]) {
      InsertPermutes(x, s[1..], le);
      assert s == [s[0]] + s[1..];
    }
  }

  /** The sort rearranges its input and neither adds nor drops an element. */
  lemma {:induction false} SortByPermutes<T>(s: seq<T>, le: (T, T) -> bool)
    ensures multiset(SortBy(s, le)) == multiset(s)
    ensures |SortBy(s, le)| == |s|
    decreases |s|
  {
    if s != [] {
      SortByPermutes(s[1..], le);
      InsertPermutes(s[0], SortBy(s[1..], le), le);
      assert s == [s[0]] + s[1..];
    }
  }

  lemma {:induction false} InsertSorted<T(!new)>(x: T, s: seq<T>, le: (T, T) -> bool)
    requires TotalPreorder(le) && SortedBy(s, le)
    ensures SortedBy(Insert(x, s, le), le)
    decreases |s|
  {
    if s != [] && !le(x, s[0]) {
      var rest := Insert(x, s[1..], le);
      InsertSorted(x, s[1..], le);
      InsertPermutes(x, s[1..], le);
      assert le(s[0], x);
      forall j | 0 <= j < |rest| ensures le(s[0], rest[j]) {
        assert rest[j] in multiset(rest);
        assert rest[j] == x || rest[j] in multiset(s[1..]);
        if rest[j] != x {
          var k :| 0 <= k < |s[1..]| && s[1..][k] == rest[j];
          assert s[k + 1] == rest[j];
        }
      }
    }
  }

  /** The result of the sort is ordered by `le`. */
  lemma {:induction false} SortBySorted<T(!new)>(s: seq<T>, le: (T, T) -> bool)
    requires TotalPreorder(le)
    ensures SortedBy(SortBy(s, le), le)
    decreases |s|
  {
    if s != [] {
      SortBySorted(s[1..], le);
      InsertSorted(s[0], SortBy(s[1..], le), le);
    }
  }

  /** Inserting `x` passes over only elements that sort strictly before it,
      so when every element equivalent to `e` sorts no earlier than an `x`
      equivalent to `e`, the equivalence class of `e` gains `x` at its front. */
  lemma {:induction false} InsertEquivClass<T>(x: T, s: seq<T>, le: (T, T) -> bool, e: T)
    requires forall i | 0 <= i < |s| :: Equiv(le, x, e) && Equiv(le, s[i], e) ==> le(x, s[i])
    ensures EquivClass(Insert(x, s, le), le, e)
         == (if Equiv(le, x, e) then [x] else []) + EquivClass(s, le, e)
    decreases |s|
  {
    if s == [] || le(x, s[0]) {
      assert Insert(x, s, le) == [x] + s;
      EquivClassCons(x, s, le, e);
    } else {
      var rest := Insert(x, s[1..], le);
      assert Insert(x, s, le) == [s[0]] + rest;
      assert forall i | 0 <= i < |s[1..]| :: s[1..][i] == s[i + 1];
      InsertEquivClass(x, s[1..], le, e);
      EquivClassCons(s[0], rest, le, e);
      EquivClassCons(s[0], s[1..], le, e);
      assert [s[0]] + s[1..] == s;
      var cx := if Equiv(le, x, e) then [x] else [];
      var c0 := if Equiv(le, s[0], e) then [s[0]] else [];
      var tail := EquivClass(s[1..], le, e);
      if cx == [] {
        assert c0 + (cx + tail) == cx + (c0 + tail);
      } else {
        assert c0 == [];
        assert c0 + (cx + tail) == cx + (c0 + tail);
      }
    }
  }

  lemma EquivClassCons<T>(y: T, t: seq<T>, le: (T, T) -> bool, e: T)
    ensures EquivClass([y] + t, le, e) == (if Equiv(le, y, e) then [y] else []) + EquivClass(t, le, e)
  {
    assert ([y] + t)[1..] == t;
  }

  /** Stability: for every element `e`, the elements equal to `e` come out
      of the sort in the order they went in. */
  lemma {:induction false} SortByStable<T(!new)>(s: seq<T>, le: (T, T) -> bool, e: T)
    requires TotalPreorder(le)
    ensures EquivClass(SortBy(s, le), le, e) == EquivClass(s, le, e)
    decreases |s|
  {
    if s != [] {
      var t := SortBy(s[1..], le);
      SortByStable(s[1..], le, e);
      forall i | 0 <= i < |t| ensures Equiv(le, s[0], e) && Equiv(le, t[i], e) ==> le(s[0], t[i]) {
        if Equiv(le, s[0], e) && Equiv(le, t[i], e) {
          assert le(s[0], e) && le(e, t[i]);
        }
      }
      InsertEquivClass(s[0], t, le, e);
    }
  }

  lemma {:induction false} InsertDistinct<T>(x: T, s: seq<T>, le: (T, T) -> bool)
    requires Distinct(s) && x !in s
    ensures Distinct(Insert(x, s, le))
    decreases |s|
  {
    if s != [] && !le(x, s[0]) {
      var rest := Insert(x, s[1..], le);
      InsertDistinct(x, s[1..], le);
      InsertPermutes(x, s[1..], le);
      assert s[0] !in s[1..];
      assert s[0] !in multiset(rest);
      var r := [s[0]] + rest;
      forall i, j | 0 <= i < j < |r| ensures r[i] != r[j] {
        if i == 0 {
          assert r[j] == rest[j - 1];
        } else {
          assert r[i] == rest[i - 1] && r[j] == rest[j - 1];
        }
      }
    }
  }

  /** Sorting elements that are all different gives elements that are all
      different. */
  lemma {:induction false} SortByDistinct<T>(s: seq<T>, le: (T, T) -> bool)
    requires Distinct(s)
    ensures Distinct(SortBy(s, le))
    decreases |s|
  {
    if s != [] {
      assert Distinct(s[1..]) by {
        forall i, j | 0 <= i < j < |s[1..]| ensures s[1..][i] != s[1..][j] {
          assert s[i + 1] != s[j + 1];
        }
      }
      SortByDistinct(s[1..], le);
      SortByPermutes(s[1..], le);
      assert s[0] !in s[1..] by {
        forall i | 1 <= i < |s| ensures s[i] != s[0] {
          assert s[0] != s[i];
        }
      }
      assert s[0] !in multiset(SortBy(s[1..], le));
      InsertDistinct(s[0], SortBy(s[1..], le), le);
    }
  }

  /** Sorting the pairs of `d.items()` in any order keeps exactly the
      dictionary's own pairs. */
  lemma SortByItems<K, V>(d: Dict<K, V>, le: ((K, V), (K, V)) -> bool)
    ensures |SortBy(Items(d), le)| == |d.keys|
    ensures forall i | 0 <= i < |SortBy(Items(d), le)| ::
      SortBy(Items(d), le)[i].0 in d.entries && SortBy(Items(d), le)[i].1 == d.entries[SortBy(Items(d), le)[i].0]
  {
    var items := Items(d);
    var s := SortBy(items, le);
    SortByPermutes(items, le);
    forall i | 0 <= i < |s| ensures s[i].0 in d.entries && s[i].1 == d.entries[s[i].0] {
      assert s[i] in multiset(items);
      var j :| 0 <= j < |items| && items[j] == s[i];
    }
  }

  /** Every key of `d` has its pair somewhere in the sorted items. */
  lemma SortByItemIndex<K, V>(d: Dict<K, V>, le: ((K, V), (K, V)) -> bool, k: K) returns (i: nat)
    requires k in d.entries
    ensures i < |SortBy(Items(d), le)| && SortBy(Items(d), le)[i] == (k, d.entries[k])
  {
    var items := Items(d);
    var s := SortBy(items, le);
    SortByPermutes(items, le);
    var j :| 0 <= j < |d.keys| && d.keys[j] == k;
    assert items[j] == (k, d.entries[k]);
    assert items[j] in multiset(s);
    i :| 0 <= i < |s| && s[i] == items[j];
  }
}
