/** The leaf transforms of the histogram pipeline. Each takes the dictionary
    `read_2c_csv` produced (latency in nanoseconds -> number of occurrences)
    or the output of an earlier transform. */
module Transforms {
  import opened Runtime
  import opened Dicts
  import opened Sums

  // ---------------------------------------------------------------------
  // to_microsecond

  /** `x / 1000`: nanoseconds to microseconds. */
  function Micro(x: int): (r: real)
    ensures r * 1000.0 == x as real
  {
    x as real / 1000.0
  }

  lemma MicroInjective(a: int, b: int)
    requires Micro(a) == Micro(b)
    ensures a == b
  {
    assert Micro(a) * 1000.0 == Micro(b) * 1000.0;
  }

  function KeysToMicroItems(items: seq<(int, int)>): (r: seq<(real, int)>)
    ensures |r| == |items|
    ensures forall i | 0 <= i < |items| :: r[i] == (Micro(items[i].0), items[i].1)
  {
    seq(|items|, i requires 0 <= i < |items| => (Micro(items[i].0), items[i].1))
  }

  function ValuesToMicroItems(items: seq<(int, int)>): (r: seq<(int, real)>)
    ensures |r| == |items|
    ensures forall i | 0 <= i < |items| :: r[i] == (items[i].0, Micro(items[i].1))
  {
    seq(|items|, i requires 0 <= i < |items| => (items[i].0, Micro(items[i].1)))
  }

  function BothToMicroItems(items: seq<(int, int)>): (r: seq<(real, real)>)
    ensures |r| == |items|
    ensures forall i | 0 <= i < |items| :: r[i] == (Micro(items[i].0), Micro(items[i].1))
  {
    seq(|items|, i requires 0 <= i < |items| => (Micro(items[i].0), Micro(items[i].1)))
  }

  /** Scaling the keys of a dictionary's pairs keeps them distinct. */
  lemma MicroKeysDistinct(d: Dict<int, int>, scaled: seq<real>)
    requires |scaled| == |d.keys|
    requires forall i | 0 <= i < |d.keys| :: scaled[i] == Micro(d.keys[i])
    ensures Distinct(scaled)
  {
    forall i, j | 0 <= i < j < |scaled| ensures scaled[i] != scaled[j] {
      if scaled[i] == scaled[j] {
        MicroInjective(d.keys[i], d.keys[j]);
      }
    }
  }

  /** `{k / 1000: v for k, v in data.items()}`: scaling is one-to-one, so
      every entry survives, in the same order, with its own count. */
  function KeysToMicro(d: Dict<int, int>): (r: Dict<real, int>)
    ensures |r.keys| == |d.keys|
    ensures forall i | 0 <= i < |d.keys| :: r.keys[i] == Micro(d.keys[i])
    ensures forall k | k in d.entries :: Micro(k) in r.entries && r.entries[Micro(k)] == d.entries[k]
    ensures Values(r) == Values(d)
  {
    var items := KeysToMicroItems(Items(d));
    KeysToMicroShape(d, items);
    FromItems(items)
  }

  lemma KeysToMicroShape(d: Dict<int, int>, items: seq<(real, int)>)
    requires items == KeysToMicroItems(Items(d))
    ensures |FromItems(items).keys| == |d.keys|
    ensures forall i | 0 <= i < |d.keys| :: FromItems(items).keys[i] == Micro(d.keys[i])
    ensures forall k | k in d.entries :: Micro(k) in FromItems(items).entries && FromItems(items).entries[Micro(k)] == d.entries[k]
    ensures Values(FromItems(items)) == Values(d)
  {
    var r := FromItems(items);
    MicroKeysDistinct(d, Fsts(items));
    FromItemsDistinct(items);
    forall k | k in d.entries ensures Micro(k) in r.entries && r.entries[Micro(k)] == d.entries[k] {
      assert k in d.keys;
      var i :| 0 <= i < |d.keys| && d.keys[i] == k;
      assert items[i] == (Micro(k), d.entries[k]);
    }
    forall i | 0 <= i < |d.keys| ensures r.entries[r.keys[i]] == d.entries[d.keys[i]] {
      assert items[i] == (Micro(d.keys[i]), d.entries[d.keys[i]]);
    }
    SameValues(r, d);
  }

  /** Two dictionaries whose i-th values agree for every i have the same
      values. */
  lemma SameValues<K, K', V>(a: Dict<K, V>, b: Dict<K', V>)
    requires |a.keys| == |b.keys|
    requires forall i | 0 <= i < |a.keys| :: a.entries[a.keys[i]] == b.entries[b.keys[i]]
    ensures Values(a) == Values(b)
  {
  }

  /** `{k: v / 1000 for k, v in data.items()}` */
  function ValuesToMicro(d: Dict<int, int>): (r: Dict<int, real>)
    ensures r.keys == d.keys
    ensures forall k | k in d.entries :: k in r.entries && r.entries[k] == Micro(d.entries[k])
  {
    var items := ValuesToMicroItems(Items(d));
    assert Fsts(items) == d.keys;
    FromItemsDistinct(items);
    FromItems(items)
  }

  /** `{k / 1000: v / 1000 for k, v in data.items()}` */
  function BothToMicro(d: Dict<int, int>): (r: Dict<real, real>)
    ensures |r.keys| == |d.keys|
    ensures forall i | 0 <= i < |d.keys| :: r.keys[i] == Micro(d.keys[i])
    ensures forall k | k in d.entries :: Micro(k) in r.entries && r.entries[Micro(k)] == Micro(d.entries[k])
  {
    var items := BothToMicroItems(Items(d));
    BothToMicroShape(d, items);
    FromItems(items)
  }

  lemma BothToMicroShape(d: Dict<int, int>, items: seq<(real, real)>)
    requires items == BothToMicroItems(Items(d))
    ensures |FromItems(items).keys| == |d.keys|
    ensures forall i | 0 <= i < |d.keys| :: FromItems(items).keys[i] == Micro(d.keys[i])
    ensures forall k | k in d.entries :: Micro(k) in FromItems(items).entries && FromItems(items).entries[Micro(k)] == Micro(d.entries[k])
  {
    var r := FromItems(items);
    MicroKeysDistinct(d, Fsts(items));
    FromItemsDistinct(items);
    forall k | k in d.entries ensures Micro(k) in r.entries && r.entries[Micro(k)] == Micro(d.entries[k]) {
      assert k in d.keys;
      var i :| 0 <= i < |d.keys| && d.keys[i] == k;
      assert items[i] == (Micro(k), Micro(d.entries[k]));
    }
  }

  /** The three shapes `to_microsecond` can return. */
  datatype Scaled =
    | KeysScaled(byKey: Dict<real, int>)
    | ValuesScaled(byValue: Dict<int, real>)
    | BothScaled(both: Dict<real, real>)

  /** `to_microsecond(data, keys, values)`: falls off the end, returning
      `None`, when neither flag is set. */
  function ToMicrosecond(d: Dict<int, int>, keys: bool, values: bool): (r: Option<Scaled>)
    ensures r.None? <==> !keys && !values
    ensures r.Some? ==> (r.value.KeysScaled? <==> keys && !values)
    ensures r.Some? ==> (r.value.ValuesScaled? <==> !keys && values)
  {
    if keys && values then Some(BothScaled(BothToMicro(d)))
    else if keys then Some(KeysScaled(KeysToMicro(d)))
    else if values then Some(ValuesScaled(ValuesToMicro(d)))
    else None
  }

  // ---------------------------------------------------------------------
  // to_ms_bins

  /** The body of the binning loop: a new bin starts at `v`, an existing
      one grows by `v`. */
  function AddCount<K(==)>(binned: Dict<K, int>, k: K, v: int): Dict<K, int> {
    if k !in binned.entries then Set(binned, k, v) else Set(binned, k, binned.entries[k] + v)
  }

  /** The bins after the loop has seen `items`. `round` is
      `round(_, round_ms_digits)`. */
  function BinItems(items: seq<(real, int)>, round: real -> real): Dict<real, int>
    decreases |items|
  {
    if items == [] then Empty()
    else AddCount(BinItems(items[..|items| - 1], round), round(items[|items| - 1].0), items[|items| - 1].1)
  }

  /** The latencies that land in bin `b`. */
  function RoundsTo(round: real -> real, b: real): real -> bool {
    x => round(x) == b
  }

  /** Binning loses no count. */
  lemma {:induction false} BinTotal(items: seq<(real, int)>, round: real -> real)
    ensures Total(BinItems(items, round)) == Sum(Snds(items))
    decreases |items|
  {
    if items != [] {
      var n := |items| - 1;
      var init := items[..n];
      var b := BinItems(init, round);
      var k := round(items[n].0);
      var v := items[n].1;
      BinTotal(init, round);
      assert BinItems(items, round) == AddCount(b, k, v);
      AddCountTotal(b, k, v);
      SndsInit(items);
    }
  }

  /** One turn of the binning loop adds its count to the total. */
  lemma AddCountTotal<K>(binned: Dict<K, int>, k: K, v: int)
    ensures Total(AddCount(binned, k, v)) == Total(binned) + v
  {
    if k !in binned.entries {
      TotalSet(binned, k, v);
    } else {
      TotalSet(binned, k, binned.entries[k] + v);
    }
  }

  /** Every rounded latency gets a bin. */
  lemma {:induction false} BinHasKey(items: seq<(real, int)>, round: real -> real, i: nat)
    requires i < |items|
    ensures round(items[i].0) in BinItems(items, round).entries
    decreases |items|
  {
    var n := |items| - 1;
    var init := items[..n];
    var prev := BinItems(init, round);
    var b := round(items[i].0);
    var last := round(items[n].0);
    assert BinItems(items, round) == AddCount(prev, last, items[n].1);
    AddCountKeys(prev, last, items[n].1);
    if i < n {
      BinHasKey(init, round, i);
      assert init[i] == items[i];
      assert b in prev.entries;
    } else {
      assert b == last;
    }
  }

  /** Every bin comes from a latency that rounds to it. */
  lemma {:induction false} BinKeyWitness(items: seq<(real, int)>, round: real -> real, b: real) returns (i: nat)
    requires b in BinItems(items, round).entries
    ensures i < |items| && round(items[i].0) == b
    decreases |items|
  {
    var n := |items| - 1;
    var init := items[..n];
    var prev := BinItems(init, round);
    assert BinItems(items, round) == AddCount(prev, round(items[n].0), items[n].1);
    AddCountKeys(prev, round(items[n].0), items[n].1);
    if b == round(items[n].0) {
      i := n;
    } else {
      i := BinKeyWitness(init, round, b);
      assert init[i] == items[i];
    }
  }

  /** There is a bin for `b` exactly when some latency rounds to `b`. */
  lemma BinKeys(items: seq<(real, int)>, round: real -> real, b: real)
    ensures b in BinItems(items, round).entries <==> exists i | 0 <= i < |items| :: round(items[i].0) == b
  {
    if b in BinItems(items, round).entries {
      var i := BinKeyWitness(items, round, b);
    }
    if exists i | 0 <= i < |items| :: round(items[i].0) == b {
      var i :| 0 <= i < |items| && round(items[i].0) == b;
      BinHasKey(items, round, i);
    }
  }

  /** One turn of the binning loop adds the bin `k` and no other. */
  lemma AddCountKeys<K>(binned: Dict<K, int>, k: K, v: int)
    ensures forall x :: x in AddCount(binned, k, v).entries <==> x in binned.entries || x == k
  {
    if k !in binned.entries {
      SetEntries(binned, k, v);
    } else {
      SetEntries(binned, k, binned.entries[k] + v);
    }
  }

  /** Each bin holds the sum of the counts of the latencies that round to
      it (and a bin that does not exist would hold nothing). */
  lemma {:induction false} BinValue(items: seq<(real, int)>, round: real -> real, b: real)
    ensures (if b in BinItems(items, round).entries then BinItems(items, round).entries[b] else 0)
         == CountsWhere(items, RoundsTo(round, b))
    decreases |items|
  {
    if items != [] {
      BinValue(items[..|items| - 1], round, b);
    }
  }

  lemma BinItemsSnoc(items: seq<(real, int)>, i: nat, round: real -> real)
    requires i < |items|
    ensures BinItems(items[..i + 1], round) == AddCount(BinItems(items[..i], round), round(items[i].0), items[i].1)
  {
    assert items[..i + 1][..i] == items[..i];
  }

  /** `to_ms_bins(data, round_ms_digits)` */
  method ToMsBins(data: Dict<real, int>, round: real -> real) returns (binned: Dict<real, int>)
    ensures binned == BinItems(Items(data), round)
  {
    var items := Items(data);
    binned := Empty();
    assert items[..0] == [];
    for i := 0 to |items|
      invariant binned == BinItems(items[..i], round)
    {
      var (k, v) := items[i];
      BinItemsSnoc(items, i, round);
      var rounded := round(k);
      binned := AddCount(binned, rounded, v);
    }
    assert items[..|items|] == items;
  }

  /** The bins of a dictionary: the total is kept, there is a bin for each
      rounded latency and no other, and each bin sums the counts that round
      to it. */
  lemma BinsOfDict(data: Dict<real, int>, round: real -> real)
    ensures Total(BinItems(Items(data), round)) == Total(data)
    ensures forall b :: b in BinItems(Items(data), round).entries <==> exists k | k in data.entries :: round(k) == b
    ensures forall b | b in BinItems(Items(data), round).entries ::
      BinItems(Items(data), round).entries[b] == CountsWhere(Items(data), RoundsTo(round, b))
  {
    var items := Items(data);
    var binned := BinItems(items, round);
    BinTotal(items, round);
    forall b ensures b in binned.entries <==> exists k | k in data.entries :: round(k) == b {
      BinKeys(items, round, b);
      if exists k | k in data.entries :: round(k) == b {
        var k :| k in data.entries && round(k) == b;
        var i :| 0 <= i < |data.keys| && data.keys[i] == k;
        assert round(items[i].0) == b;
      }
    }
    forall b | b in binned.entries ensures binned.entries[b] == CountsWhere(items, RoundsTo(round, b)) {
      BinValue(items, round, b);
    }
  }

  // ---------------------------------------------------------------------
  // to_expanded

  /** `[x] * n`: no copies for `n <= 0`. */
  function Repeat<T>(x: T, n: int): (r: seq<T>)
    ensures |r| == Pos(n)
    ensures forall i | 0 <= i < |r| :: r[i] == x
    decreases Pos(n)
  {
    if n <= 0 then [] else [x] + Repeat(x, n - 1)
  }

  /** One more copy goes at the end as well as at the front. */
  lemma RepeatSnoc<T>(x: T, n: nat)
    ensures Repeat(x, n) + [x] == Repeat(x, n + 1)
  {
    assert forall i | 0 <= i < n + 1 :: (Repeat(x, n) + [x])[i] == x;
  }

  lemma {:induction false} RepeatMultiset<T>(x: T, n: int, y: T)
    ensures multiset(Repeat(x, n))[y] == if y == x then Pos(n) else 0
    decreases Pos(n)
  {
    if n > 0 {
      RepeatMultiset(x, n - 1, y);
    }
  }

  /** The list after the loop has seen `items`. */
  function ExpandItems<T>(items: seq<(T, int)>): seq<T>
    decreases |items|
  {
    if items == [] then [] else ExpandItems(items[..|items| - 1]) + Repeat(items[|items| - 1].0, items[|items| - 1].1)
  }

  lemma {:induction false} ExpandLength<T>(items: seq<(T, int)>)
    ensures |ExpandItems(items)| == PosSum(Snds(items))
    decreases |items|
  {
    if items != [] {
      ExpandLength(items[..|items| - 1]);
      assert Snds(items)[..|items| - 1] == Snds(items[..|items| - 1]);
    }
  }

  /** Over pairs with distinct keys, each key occurs as often as its count. */
  lemma {:induction false} ExpandCount<T>(items: seq<(T, int)>, x: T)
    requires Distinct(Fsts(items))
    ensures multiset(ExpandItems(items))[x]
         == if x in FromItems(items).entries then Pos(FromItems(items).entries[x]) else 0
    decreases |items|
  {
    if items != [] {
      var n := |items| - 1;
      FromItemsFreshLast(items);
      ExpandCount(items[..n], x);
      RepeatMultiset(items[n].0, items[n].1, x);
    }
  }

  /** `to_expanded(data)` */
  method ToExpanded(data: Dict<real, int>) returns (expanded: seq<real>)
    ensures expanded == ExpandItems(Items(data))
    ensures |expanded| == PosSum(Values(data))
    ensures forall x :: multiset(expanded)[x] == if x in data.entries then Pos(data.entries[x]) else 0
  {
    var items := Items(data);
    expanded := [];
    for i := 0 to |items|
      invariant expanded == ExpandItems(items[..i])
    {
      var (val, occ) := items[i];
      expanded := expanded + Repeat(val, occ);
      assert items[..i + 1][..i] == items[..i];
    }
    assert items[..|items|] == items;
    ExpandLength(items);
    ItemsRoundTrip(data);
    forall x ensures multiset(expanded)[x] == if x in data.entries then Pos(data.entries[x]) else 0 {
      ExpandCount(items, x);
    }
  }

  /** With no negative count, the expansion is exactly as long as the total. */
  lemma ExpandedLengthIsTotal(data: Dict<real, int>)
    requires forall k | k in data.entries :: data.entries[k] >= 0
    ensures |ExpandItems(Items(data))| == Total(data)
  {
    ExpandLength(Items(data));
    forall i | 0 <= i < |Values(data)| ensures Values(data)[i] >= 0 {
      var k := data.keys[i];
      assert k in data.entries;
      assert data.entries[k] >= 0;
      assert Values(data)[i] == data.entries[k];
    }
    PosSumOfNonNegative(Values(data));
  }

  // ---------------------------------------------------------------------
  // normalize

  function NormItems<K>(items: seq<(K, int)>, total: int): (r: seq<(K, real)>)
    requires total != 0
    ensures |r| == |items|
    ensures forall i | 0 <= i < |items| :: r[i] == (items[i].0, items[i].1 as real / total as real)
  {
    seq(|items|, i requires 0 <= i < |items| => (items[i].0, items[i].1 as real / total as real))
  }

  /** `normalize(data)`: `{k: v / total}`. The comprehension over an empty
      dictionary divides nothing and gives `{}`; over a non-empty one whose
      counts sum to zero it raises `ZeroDivisionError`. */
  function Normalize<K(==)>(d: Dict<K, int>): (r: Result<Dict<K, real>>)
    ensures r.Err? <==> |d.keys| > 0 && Total(d) == 0
    ensures r.Err? ==> r.error == ZeroDivisionError
    ensures r.Ok? ==> r.value.keys == d.keys
    ensures r.Ok? ==> forall k | k in d.entries ::
      k in r.value.entries && r.value.entries[k] == d.entries[k] as real / Total(d) as real
  {
    if |d.keys| == 0 then Ok(Empty())
    else if Total(d) == 0 then Err(ZeroDivisionError)
    else
      var items := NormItems(Items(d), Total(d));
      assert Fsts(items) == d.keys;
      FromItemsDistinct(items);
      Ok(FromItems(items))
  }

  lemma {:induction false} NormItemsSum<K>(items: seq<(K, int)>, total: int)
    requires total != 0
    ensures SumR(Snds(NormItems(items, total))) == Sum(Snds(items)) as real / total as real
    decreases |items|
  {
    if items != [] {
      var n := |items| - 1;
      NormItemsSum(items[..n], total);
      assert Snds(NormItems(items, total))[..n] == Snds(NormItems(items[..n], total));
      assert Snds(items)[..n] == Snds(items[..n]);
      var a, b := Sum(Snds(items[..n])) as real, items[n].1 as real;
      assert a / total as real + b / total as real == (a + b) / total as real;
    }
  }

  /** The fractions of a non-empty histogram sum to one. */
  lemma NormalizeSumsToOne<K>(d: Dict<K, int>)
    requires Normalize(d).Ok? && |d.keys| > 0
    ensures TotalR(Normalize(d).value) == 1.0
  {
    var items := NormItems(Items(d), Total(d));
    assert Fsts(items) == d.keys;
    assert Normalize(d).value == FromItems(items);
    ItemsOfFromItems(items);
    assert Values(FromItems(items)) == Snds(items);
    NormItemsSum(Items(d), Total(d));
    assert Sum(Snds(Items(d))) == Total(d);
    DivSelf(Total(d) as real);
  }

  lemma DivSelf(t: real)
    requires t != 0.0
    ensures t / t == 1.0
  {
  }

  // ---------------------------------------------------------------------
  // to_hdr

  /** `MAX_ACCURACY` */
  const MaxAccuracy: real := 1000000000.0

  /** The tail value `1 / (1 - v)` of a cumulative fraction `v`. */
  function Tail(v: real): real
    requires v != 1.0
  {
    1.0 / (1.0 - v)
  }

  /** The filter of `to_hdr`: `1 - v` is not zero, and the tail value is
      neither negative nor above `MAX_ACCURACY`. */
  predicate HdrKeeps(v: real) {
    && !(1.0 - v == 0.0)
    && !(Tail(v) < 0.0)
    && !(Tail(v) > MaxAccuracy)
  }

  /** The filter keeps exactly the fractions at most `1 - 1/MAX_ACCURACY`. */
  lemma HdrKeepsIff(v: real)
    ensures HdrKeeps(v) <==> v <= 1.0 - 1.0 / MaxAccuracy
  {
    var t := 1.0 - v;
    if t > 0.0 {
      assert Tail(v) * t == 1.0;
      if Tail(v) <= MaxAccuracy {
        assert 1.0 <= MaxAccuracy * t;
      }
      if t >= 1.0 / MaxAccuracy {
        assert Tail(v) * t <= MaxAccuracy * t;
      }
    } else if t < 0.0 {
      assert Tail(v) * t == 1.0;
    }
  }

  /** A tail value the filter keeps is positive and at most `MAX_ACCURACY`. */
  lemma TailBounds(v: real)
    requires HdrKeeps(v)
    ensures 0.0 < Tail(v) <= MaxAccuracy
  {
    assert Tail(v) * (1.0 - v) == 1.0;
  }

  /** The pairs the comprehension of `to_hdr` keeps, in order. */
  function HdrItems(items: seq<(real, real)>): seq<(real, real)>
    decreases |items|
  {
    if items == [] then []
    else
      var p := items[|items| - 1];
      HdrItems(items[..|items| - 1]) + (if HdrKeeps(p.1) then [(p.0, Tail(p.1))] else [])
  }

  /** Over pairs with distinct keys, the kept keys are those whose value
      passes the filter, and each is mapped to its tail value. */
  lemma {:induction false} HdrItemsEntries(items: seq<(real, real)>, k: real)
    requires Distinct(Fsts(items))
    ensures k in FromItems(HdrItems(items)).entries ==>
      && k in FromItems(items).entries && HdrKeeps(FromItems(items).entries[k])
      && FromItems(HdrItems(items)).entries[k] == Tail(FromItems(items).entries[k])
    ensures k in FromItems(items).entries && HdrKeeps(FromItems(items).entries[k]) ==>
      k in FromItems(HdrItems(items)).entries
    decreases |items|
  {
    if items != [] {
      var n := |items| - 1;
      var p := items[n];
      FromItemsFreshLast(items);
      HdrItemsEntries(items[..n], k);
      HdrItemsEntries(items[..n], p.0);
      if HdrKeeps(p.1) {
        FromItemsSnoc(HdrItems(items[..n]), (p.0, Tail(p.1)));
      } else {
        assert HdrItems(items) == HdrItems(items[..n]);
      }
    }
  }

  /** The keys of `ks` whose value in `m` passes the filter of `to_hdr`, in
      their order in `ks`. */
  function HdrKeys(ks: seq<real>, m: map<real, real>): seq<real>
    decreases |ks|
  {
    if ks == [] then []
    else
      var k := ks[|ks| - 1];
      HdrKeys(ks[..|ks| - 1], m) + (if k in m && HdrKeeps(m[k]) then [k] else [])
  }

  /** Keeping some keys of a list without repetition keeps it without
      repetition, and keeps only keys of the list. */
  lemma {:induction false} HdrKeysDistinct(ks: seq<real>, m: map<real, real>)
    requires Distinct(ks)
    ensures Distinct(HdrKeys(ks, m))
    ensures forall k | k in HdrKeys(ks, m) :: k in ks
    decreases |ks|
  {
    if ks != [] {
      var n := |ks| - 1;
      assert forall i | 0 <= i < n :: ks[..n][i] == ks[i];
      HdrKeysDistinct(ks[..n], m);
      assert ks[n] !in ks[..n];
    }
  }

  /** The keys of the kept pairs are the kept keys, when each pair holds the
      value of its key in `m`. */
  lemma {:induction false} HdrItemsFsts(items: seq<(real, real)>, m: map<real, real>)
    requires forall i | 0 <= i < |items| :: items[i].0 in m && m[items[i].0] == items[i].1
    ensures Fsts(HdrItems(items)) == HdrKeys(Fsts(items), m)
    decreases |items|
  {
    if items != [] {
      var n := |items| - 1;
      var p := items[n];
      assert forall i | 0 <= i < n :: items[..n][i] == items[i];
      HdrItemsFsts(items[..n], m);
      assert Fsts(items)[..n] == Fsts(items[..n]);
      if HdrKeeps(p.1) {
        FstsSnoc(HdrItems(items[..n]), (p.0, Tail(p.1)));
      } else {
        assert HdrItems(items) == HdrItems(items[..n]);
      }
    }
  }

  /** `to_hdr` keeps the kept keys in the order of `data`. */
  lemma HdrOrder(d: Dict<real, real>)
    ensures FromItems(HdrItems(Items(d))).keys == HdrKeys(d.keys, d.entries)
  {
    ItemsRoundTrip(d);
    HdrItemsFsts(Items(d), d.entries);
    HdrKeysDistinct(d.keys, d.entries);
    FromItemsDistinct(HdrItems(Items(d)));
  }

  /** `to_hdr(data)` */
  function ToHdr(d: Dict<real, real>): (r: Dict<real, real>)
    ensures forall k | k in r.entries :: k in d.entries && HdrKeeps(d.entries[k]) && r.entries[k] == Tail(d.entries[k])
    ensures forall k | k in d.entries && HdrKeeps(d.entries[k]) :: k in r.entries
    ensures r.keys == HdrKeys(d.keys, d.entries)
  {
    ItemsRoundTrip(d);
    HdrAll(d);
    HdrOrder(d);
    FromItems(HdrItems(Items(d)))
  }

  lemma HdrAll(d: Dict<real, real>)
    ensures forall k | k in FromItems(HdrItems(Items(d))).entries ::
      k in d.entries && HdrKeeps(d.entries[k]) && FromItems(HdrItems(Items(d))).entries[k] == Tail(d.entries[k])
    ensures forall k | k in d.entries && HdrKeeps(d.entries[k]) :: k in FromItems(HdrItems(Items(d))).entries
  {
    ItemsRoundTrip(d);
    var r := FromItems(HdrItems(Items(d)));
    forall k | k in r.entries ensures k in d.entries && HdrKeeps(d.entries[k]) && r.entries[k] == Tail(d.entries[k]) {
      HdrItemsEntries(Items(d), k);
    }
    forall k | k in d.entries && HdrKeeps(d.entries[k]) ensures k in r.entries {
      HdrItemsEntries(Items(d), k);
    }
  }

  /** Every tail value `to_hdr` keeps is positive and at most `MAX_ACCURACY`,
      and it keeps the latencies whose fraction is at most `1 - 1/MAX_ACCURACY`. */
  lemma ToHdrBounds(d: Dict<real, real>)
    ensures forall k | k in ToHdr(d).entries :: 0.0 < ToHdr(d).entries[k] <= MaxAccuracy
    ensures forall k | k in d.entries :: k in ToHdr(d).entries <==> d.entries[k] <= 1.0 - 1.0 / MaxAccuracy
  {
    var r := ToHdr(d);
    forall k | k in r.entries ensures 0.0 < r.entries[k] <= MaxAccuracy {
      TailBounds(d.entries[k]);
    }
    forall k | k in d.entries ensures k in r.entries <==> d.entries[k] <= 1.0 - 1.0 / MaxAccuracy {
      HdrKeepsIff(d.entries[k]);
    }
  }
}
