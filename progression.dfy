/** `plot_progression(data, percentiles)`: groups the datasets into families
    by dropping the last `/` segment of their names, collects for every
    family and percentile one point `(x_value, percentile of box)` per
    dataset, then sorts each series and computes the x-axis limits. */
module Progression {
  import opened Runtime
  import opened Dicts
  import opened Strings
  import opened Sorting
  import opened Accumulation
  import opened Extraction
  import opened Matches
  import opened Series
  import Transforms

  /** `np.percentile(box, p)`, with `None` where it raises `IndexError`. */
  type PercentileFn = (seq<real>, real) -> Option<real>

  /** `perc = -1`, replaced by the percentile unless computing it raises
      `IndexError`. */
  function Perc(pct: PercentileFn, box: seq<real>, p: real): real {
    match pct(box, p)
    case Some(v) => v
    case None => -1.0
  }

  /** `if not percentiles: percentiles = [50]` */
  function DefaultPercentiles(ps: seq<real>): seq<real> {
    if ps == [] then [50.0] else ps
  }

  /** `'/'.join(exp.split('/')[:-1])`: the family an experiment belongs to. */
  function Family(exp: string): string {
    DropLastSegment(exp, '/')
  }

  /** The points gathered for one percentile of one family. */
  type Points = seq<(real, real)>

  /** `values`: family, then percentile, then its points. */
  type Values = Dict<string, Dict<real, Points>>

  /** The points of percentile `p` in a family; none when it has no list. */
  function PointsAt(fam: Dict<real, Points>, p: real): Points {
    if p in fam.entries then fam.entries[p] else []
  }

  /** `if not percentile in fam: fam[percentile] = []`, then
      `fam[percentile].append(pt)`. */
  function AddPoint(fam: Dict<real, Points>, p: real, pt: (real, real)): Dict<real, Points> {
    Set(fam, p, PointsAt(fam, p) + [pt])
  }

  /** The percentile loop for one dataset with x value `x`. */
  function AddPoints(fam: Dict<real, Points>, ps: seq<real>, x: real, box: seq<real>, pct: PercentileFn): Dict<real, Points>
    decreases |ps|
  {
    if ps == [] then fam
    else
      var p := ps[|ps| - 1];
      AddPoint(AddPoints(fam, ps[..|ps| - 1], x, box, pct), p, (x, Perc(pct, box, p)))
  }

  /** One pass of the gathering loop: the family's dictionary (new and empty
      when the family is new) after the percentile loop. */
  function GatherStep(values: Values, test: string, x: real, box: seq<real>, ps: seq<real>, pct: PercentileFn): Values {
    Set(values, test, AddPoints(FamilyOf(values, test), ps, x, box, pct))
  }

  /** `values[test]`, or a new empty dictionary when the family is new. */
  function FamilyOf(values: Values, test: string): Dict<real, Points> {
    if test in values.entries then values.entries[test] else Empty()
  }

  /** What the gathering loop reads of one `(name, dataset)` pair: the
      name, `data['x_value']` (absent when the mapping function was not
      given) and `data['box']`. */
  datatype Sample = Sample(name: string, x: Option<real>, box: seq<real>)

  function SampleOf(item: (string, HistDataset)): Sample {
    Sample(item.0, item.1.xValue, item.1.box)
  }

  function Samples(items: seq<(string, HistDataset)>): (r: seq<Sample>)
    ensures |r| == |items|
    ensures forall i | 0 <= i < |items| :: r[i] == SampleOf(items[i])
  {
    seq(|items|, i requires 0 <= i < |items| => SampleOf(items[i]))
  }

  /** Every sample has an x value. */
  predicate HasXValues(samples: seq<Sample>) {
    forall i | 0 <= i < |samples| :: samples[i].x.Some?
  }

  /** The gathering loop over the given samples, each going to the family
      `group` gives its name. */
  function GatherValues(samples: seq<Sample>, group: string -> string, ps: seq<real>, pct: PercentileFn): Values
    requires HasXValues(samples)
    decreases |samples|
  {
    if samples == [] then Empty()
    else
      var n := |samples| - 1;
      GatherStep(GatherValues(samples[..n], group, ps, pct), group(samples[n].name), samples[n].x.value, samples[n].box, ps, pct)
  }

  /** `sorted(data.items())`: names are distinct, so they alone decide. */
  function NameLe(a: (string, HistDataset), b: (string, HistDataset)): bool {
    StrLe(a.0, b.0)
  }

  /** What the gathering half of `plot_progression` leaves in `values`. The
      percentile list is never empty, so reading `data['x_value']` of a
      dataset without one raises `KeyError` and ends the loop. */
  function ProgressionValues(data: Dict<string, HistDataset>, percentiles: seq<real>, pct: PercentileFn): Result<Values> {
    var samples := SortedSamples(data);
    if HasXValues(samples) then Ok(GatherValues(samples, Family, DefaultPercentiles(percentiles), pct))
    else Err(KeyError)
  }

  /** The gathering loop of `plot_progression`. */
  method GatherProgression(data: Dict<string, HistDataset>, percentiles: seq<real>, pct: PercentileFn)
    returns (r: Result<Values>)
    ensures r == ProgressionValues(data, percentiles, pct)
  {
    var ps := DefaultPercentiles(percentiles);
    var items := SortBy(Items(data), NameLe);
    ghost var samples := Samples(items);
    var values: Values := Empty();
    for i := 0 to |items|
      invariant HasXValues(samples[..i])
      invariant values == GatherValues(samples[..i], Family, ps, pct)
    {
      var (exp, ds) := items[i];
      var test := Family(exp);
      var fam := FamilyOf(values, test);
      var res := PercentileLoop(fam, ps, ds.xValue, ds.box, pct);
      if res.Err? {
        assert samples[i].x.None?;
        return Err(KeyError);
      }
      GatherValuesSnoc(samples, i, Family, ps, pct);
      values := Set(values, test, res.value);
    }
    assert samples[..|items|] == samples;
    r := Ok(values);
  }

  /** The percentile loop of `plot_progression` for one dataset, whose
      `x_value` is `x`: reading it raises `KeyError` when it is absent. */
  method PercentileLoop(fam: Dict<real, Points>, ps: seq<real>, x: Option<real>, box: seq<real>, pct: PercentileFn)
    returns (r: Result<Dict<real, Points>>)
    ensures r.Err? <==> ps != [] && x.None?
    ensures r.Err? ==> r.error == KeyError
    ensures r.Ok? && x.Some? ==> r.value == AddPoints(fam, ps, x.value, box, pct)
  {
    var f := fam;
    for j := 0 to |ps|
      invariant x.None? ==> j == 0
      invariant x.Some? ==> f == AddPoints(fam, ps[..j], x.value, box, pct)
    {
      var p := ps[j];
      var perc := -1.0;
      match pct(box, p) {
        case Some(v) => perc := v;
        case None =>
      }
      if x.None? {
        return Err(KeyError);
      }
      assert ps[..j + 1][..j] == ps[..j];
      f := AddPoint(f, p, (x.value, perc));
    }
    assert ps[..|ps|] == ps;
    r := Ok(f);
  }

  /** After the percentile loop the family has every percentile, and each
      list holds its earlier points plus the dataset's one point. */
  lemma {:induction false} AddPointsSpec(fam: Dict<real, Points>, ps: seq<real>, x: real, box: seq<real>, pct: PercentileFn)
    ensures forall p :: p in AddPoints(fam, ps, x, box, pct).entries <==> p in fam.entries || p in ps
    ensures forall p, pt | p in AddPoints(fam, ps, x, box, pct).entries ::
      pt in AddPoints(fam, ps, x, box, pct).entries[p] <==>
        (p in fam.entries && pt in fam.entries[p]) || (p in ps && pt == (x, Perc(pct, box, p)))
    decreases |ps|
  {
    if ps != [] {
      var n := |ps| - 1;
      AddPointsSpec(fam, ps[..n], x, box, pct);
      var p := ps[n];
      AddPointSpec(AddPoints(fam, ps[..n], x, box, pct), p, (x, Perc(pct, box, p)));
      assert ps == ps[..n] + [p];
    }
  }

  /** `AddPoint` adds the percentile if it is new and appends the point to
      its list; every other list is unchanged. */
  lemma AddPointSpec(fam: Dict<real, Points>, p: real, pt: (real, real))
    ensures forall q :: q in AddPoint(fam, p, pt).entries <==> q in fam.entries || q == p
    ensures forall q, pt' | q in AddPoint(fam, p, pt).entries ::
      pt' in AddPoint(fam, p, pt).entries[q] <==> (q in fam.entries && pt' in fam.entries[q]) || (q == p && pt' == pt)
    ensures AddPoint(fam, p, pt).entries[p] == PointsAt(fam, p) + [pt]
    ensures forall q | q in fam.entries && q != p :: AddPoint(fam, p, pt).entries[q] == fam.entries[q]
    ensures p in fam.entries ==> AddPoint(fam, p, pt).keys == fam.keys
    ensures p !in fam.entries ==> AddPoint(fam, p, pt).keys == fam.keys + [p]
  {
    SetEntries(fam, p, PointsAt(fam, p) + [pt]);
  }

  /** After the percentile loop, the list of percentile `p` is its earlier
      list followed by the dataset's point once for every time `p` occurs
      in `ps`. */
  lemma {:induction false} AddPointsLists(fam: Dict<real, Points>, ps: seq<real>, x: real, box: seq<real>, pct: PercentileFn, p: real)
    ensures PointsAt(AddPoints(fam, ps, x, box, pct), p)
         == PointsAt(fam, p) + Transforms.Repeat((x, Perc(pct, box, p)), multiset(ps)[p])
    decreases |ps|
  {
    if ps != [] {
      var n := |ps| - 1;
      var q := ps[n];
      var pt := (x, Perc(pct, box, p));
      var k := multiset(ps[..n])[p];
      AddPointsLists(fam, ps[..n], x, box, pct, p);
      AddPointStep(AddPoints(fam, ps[..n], x, box, pct), q, (x, Perc(pct, box, q)), p);
      OccurrencesSnoc(ps, p);
      RepeatAppend(PointsAt(fam, p), pt, k, p == q);
    }
  }

  /** One more copy at the end of `pre + [pt] * k`, if `more`. */
  lemma RepeatAppend(pre: Points, pt: (real, real), k: nat, more: bool)
    ensures pre + Transforms.Repeat(pt, k) + (if more then [pt] else [])
         == pre + Transforms.Repeat(pt, k + if more then 1 else 0)
  {
    if more {
      Transforms.RepeatSnoc(pt, k);
    }
  }

  /** How often `p` occurs in `ps`, counted from its last element. */
  lemma OccurrencesSnoc(ps: seq<real>, p: real)
    requires ps != []
    ensures multiset(ps)[p] == multiset(ps[..|ps| - 1])[p] + (if ps[|ps| - 1] == p then 1 else 0)
  {
    assert ps == ps[..|ps| - 1] + [ps[|ps| - 1]];
  }

  /** The list of one percentile after `AddPoint`. */
  lemma AddPointStep(fam: Dict<real, Points>, q: real, pt: (real, real), p: real)
    ensures PointsAt(AddPoint(fam, q, pt), p) == PointsAt(fam, p) + (if p == q then [pt] else [])
  {
    SetEntries(fam, q, PointsAt(fam, q) + [pt]);
  }

  /** One more pass of the gathering loop. */
  lemma GatherValuesSnoc(items: seq<Sample>, i: nat, group: string -> string, ps: seq<real>, pct: PercentileFn)
    requires i < |items| && HasXValues(items[..i]) && items[i].x.Some?
    ensures HasXValues(items[..i + 1])
    ensures GatherValues(items[..i + 1], group, ps, pct) ==
      GatherStep(GatherValues(items[..i], group, ps, pct), group(items[i].name), items[i].x.value, items[i].box, ps, pct)
  {
    assert items[..i + 1][..i] == items[..i];
  }

  /** One pass of the gathering loop adds the sample's family and no other. */
  lemma GatherKeys(items: seq<Sample>, group: string -> string, ps: seq<real>, pct: PercentileFn)
    requires items != [] && HasXValues(items)
    ensures HasXValues(items[..|items| - 1])
    ensures forall k :: k in GatherValues(items, group, ps, pct).entries <==>
      k in GatherValues(items[..|items| - 1], group, ps, pct).entries || k == group(items[|items| - 1].name)
  {
    var v, fam := GatherLast(items, group, ps, pct);
  }

  /** The pieces of one pass of the gathering loop. */
  lemma GatherLast(items: seq<Sample>, group: string -> string, ps: seq<real>, pct: PercentileFn)
    returns (v: Values, fam: Dict<real, Points>)
    requires items != [] && HasXValues(items)
    ensures HasXValues(items[..|items| - 1]) && v == GatherValues(items[..|items| - 1], group, ps, pct)
    ensures items[|items| - 1].x.Some?
    ensures fam == if group(items[|items| - 1].name) in v.entries then v.entries[group(items[|items| - 1].name)] else Empty()
    ensures GatherValues(items, group, ps, pct).entries ==
      v.entries[group(items[|items| - 1].name) := AddPoints(fam, ps, items[|items| - 1].x.value, items[|items| - 1].box, pct)]
  {
    var n := |items| - 1;
    assert HasXValues(items[..n]) by {
      forall i | 0 <= i < n ensures items[..n][i].x.Some? {
        assert items[..n][i] == items[i];
      }
    }
    v := GatherValues(items[..n], group, ps, pct);
    var test := group(items[n].name);
    fam := if test in v.entries then v.entries[test] else Empty();
    SetEntries(v, test, AddPoints(fam, ps, items[n].x.value, items[n].box, pct));
  }

  /** Every dataset's family is a key of `values`. */
  lemma {:induction false} GatherHasFamily(items: seq<Sample>, group: string -> string, ps: seq<real>, pct: PercentileFn, i: nat)
    requires HasXValues(items) && i < |items|
    ensures group(items[i].name) in GatherValues(items, group, ps, pct).entries
    decreases |items|
  {
    var n := |items| - 1;
    GatherKeys(items, group, ps, pct);
    if i < n {
      assert items[..n][i] == items[i];
      GatherHasFamily(items[..n], group, ps, pct, i);
    }
  }

  /** Every key of `values` is the family of some dataset. */
  lemma {:induction false} GatherFamilyWitness(items: seq<Sample>, group: string -> string, ps: seq<real>, pct: PercentileFn, t: string)
    returns (i: nat)
    requires HasXValues(items) && t in GatherValues(items, group, ps, pct).entries
    ensures i < |items| && group(items[i].name) == t
    decreases |items|
  {
    var n := |items| - 1;
    var v, fam := GatherLast(items, group, ps, pct);
    if t == group(items[n].name) {
      i := n;
    } else {
      i := GatherFamilyWitness(items[..n], group, ps, pct, t);
      assert items[..n][i] == items[i];
    }
  }

  /** Every family holds a list for each percentile asked for, and no other. */
  lemma {:induction false} GatherPercentiles(items: seq<Sample>, group: string -> string, ps: seq<real>, pct: PercentileFn, t: string)
    requires HasXValues(items) && t in GatherValues(items, group, ps, pct).entries
    ensures forall p :: p in GatherValues(items, group, ps, pct).entries[t].entries <==> p in ps
    decreases |items|
  {
    var n := |items| - 1;
    var v, fam := GatherLast(items, group, ps, pct);
    var tn := group(items[n].name);
    AddPointsSpec(fam, ps, items[n].x.value, items[n].box, pct);
    if tn in v.entries {
      GatherPercentiles(items[..n], group, ps, pct, tn);
    }
    if t != tn {
      GatherPercentiles(items[..n], group, ps, pct, t);
    }
  }

  /** Each dataset contributes its point to its family's list of every
      percentile. */
  lemma {:induction false} GatherHasPoint(items: seq<Sample>, group: string -> string, ps: seq<real>, pct: PercentileFn, i: nat, p: real)
    requires HasXValues(items) && i < |items| && p in ps
    ensures group(items[i].name) in GatherValues(items, group, ps, pct).entries
    ensures p in GatherValues(items, group, ps, pct).entries[group(items[i].name)].entries
    ensures (items[i].x.value, Perc(pct, items[i].box, p))
      in GatherValues(items, group, ps, pct).entries[group(items[i].name)].entries[p]
    decreases |items|
  {
    var n := |items| - 1;
    var v, fam := GatherLast(items, group, ps, pct);
    var f := AddPoints(fam, ps, items[n].x.value, items[n].box, pct);
    AddPointsSpec(fam, ps, items[n].x.value, items[n].box, pct);
    var g := GatherValues(items, group, ps, pct).entries;
    var t := group(items[i].name);
    var pt := (items[i].x.value, Perc(pct, items[i].box, p));
    if i == n {
      assert g[t] == f;
      assert p in f.entries && pt in f.entries[p];
    } else {
      assert items[..n][i] == items[i];
      GatherHasPoint(items[..n], group, ps, pct, i, p);
      assert t in v.entries && p in v.entries[t].entries && pt in v.entries[t].entries[p];
      if t == group(items[n].name) {
        assert fam == v.entries[t] && g[t] == f;
        assert p in f.entries && pt in f.entries[p];
      } else {
        assert g[t] == v.entries[t];
      }
    }
  }

  /** Each point in a family's list comes from a dataset of that family with
      that x value, and is that dataset's percentile. */
  lemma {:induction false} GatherPointWitness(items: seq<Sample>, group: string -> string, ps: seq<real>, pct: PercentileFn,
                                               t: string, p: real, pt: (real, real))
    returns (i: nat)
    requires HasXValues(items) && t in GatherValues(items, group, ps, pct).entries
    requires p in GatherValues(items, group, ps, pct).entries[t].entries
    requires pt in GatherValues(items, group, ps, pct).entries[t].entries[p]
    ensures i < |items| && group(items[i].name) == t && p in ps
    ensures items[i].x == Some(pt.0) && pt.1 == Perc(pct, items[i].box, p)
    decreases |items|
  {
    var n := |items| - 1;
    var v, fam := GatherLast(items, group, ps, pct);
    if t != group(items[n].name) {
      i := GatherPointWitness(items[..n], group, ps, pct, t, p, pt);
      assert items[..n][i] == items[i];
    } else {
      AddPointsSpec(fam, ps, items[n].x.value, items[n].box, pct);
      if p in fam.entries && pt in fam.entries[p] {
        i := GatherPointWitness(items[..n], group, ps, pct, t, p, pt);
        assert items[..n][i] == items[i];
      } else {
        i := n;
      }
    }
  }

  /** The reference list of percentile `p` in group `t`: the point
      `(x, percentile p of box)` of each sample of the group, in sample
      order, each `k` times (`k` being how often `p` was asked for). */
  function FamilyPoints(items: seq<Sample>, group: string -> string, t: string, p: real, k: nat, pct: PercentileFn): Points
    requires HasXValues(items)
    decreases |items|
  {
    if items == [] then []
    else
      var n := |items| - 1;
      FamilyPoints(items[..n], group, t, p, k, pct) +
        (if group(items[n].name) == t then Transforms.Repeat((items[n].x.value, Perc(pct, items[n].box, p)), k) else [])
  }

  /** The gathering loop leaves in each list exactly its reference list. */
  lemma {:induction false} GatherLists(items: seq<Sample>, group: string -> string, ps: seq<real>, pct: PercentileFn, t: string, p: real)
    requires HasXValues(items)
    ensures PointsAt(FamilyOf(GatherValues(items, group, ps, pct), t), p) == FamilyPoints(items, group, t, p, multiset(ps)[p], pct)
    decreases |items|
  {
    if items != [] {
      var n := |items| - 1;
      var v, fam := GatherLast(items, group, ps, pct);
      GatherLists(items[..n], group, ps, pct, t, p);
      if group(items[n].name) == t {
        AddPointsLists(fam, ps, items[n].x.value, items[n].box, pct, p);
      }
    }
  }

  /** The samples of `sorted(data.items())`. */
  function SortedSamples(data: Dict<string, HistDataset>): seq<Sample> {
    Samples(SortBy(Items(data), NameLe))
  }

  /** Each sorted sample is that of a key of `data`. */
  lemma SampleAt(data: Dict<string, HistDataset>, i: nat)
    requires i < |SortedSamples(data)|
    ensures SortedSamples(data)[i].name in data.entries
    ensures SortedSamples(data)[i] ==
      Sample(SortedSamples(data)[i].name, data.entries[SortedSamples(data)[i].name].xValue, data.entries[SortedSamples(data)[i].name].box)
  {
    SortByItems(data, NameLe);
  }

  /** The place of key `n` among the sorted samples. */
  lemma SampleIndex(data: Dict<string, HistDataset>, n: string) returns (i: nat)
    requires n in data.entries
    ensures i < |SortedSamples(data)|
    ensures SortedSamples(data)[i] == Sample(n, data.entries[n].xValue, data.entries[n].box)
  {
    i := SortByItemIndex(data, NameLe, n);
  }

  /** `plot_progression` raises `KeyError` exactly when some dataset has no
      x value, and succeeds otherwise. */
  lemma ProgressionError(data: Dict<string, HistDataset>, percentiles: seq<real>, pct: PercentileFn)
    ensures ProgressionValues(data, percentiles, pct).Err? <==> exists n | n in data.entries :: data.entries[n].xValue.None?
    ensures ProgressionValues(data, percentiles, pct).Err? ==> ProgressionValues(data, percentiles, pct).error == KeyError
  {
    var samples := SortedSamples(data);
    if !HasXValues(samples) {
      var i :| 0 <= i < |samples| && samples[i].x.None?;
      SampleAt(data, i);
      assert data.entries[samples[i].name].xValue.None?;
    }
    if n :| n in data.entries && data.entries[n].xValue.None? {
      var i := SampleIndex(data, n);
      assert samples[i].x.None?;
    }
  }

  /** With any grouping, the groups are exactly the groups of the names. */
  lemma DataFamilies(data: Dict<string, HistDataset>, group: string -> string, ps: seq<real>, pct: PercentileFn)
    requires HasXValues(SortedSamples(data))
    ensures forall t :: t in GatherValues(SortedSamples(data), group, ps, pct).entries <==>
      exists n | n in data.entries :: group(n) == t
  {
    var samples := SortedSamples(data);
    var v := GatherValues(samples, group, ps, pct);
    forall t ensures t in v.entries <==> exists n | n in data.entries :: group(n) == t {
      if t in v.entries {
        var i := GatherFamilyWitness(samples, group, ps, pct, t);
        SampleAt(data, i);
      }
      if n :| n in data.entries && group(n) == t {
        var i := SampleIndex(data, n);
        GatherHasFamily(samples, group, ps, pct, i);
      }
    }
  }

  /** The families are exactly the families of the dataset names. */
  lemma ProgressionFamilies(data: Dict<string, HistDataset>, percentiles: seq<real>, pct: PercentileFn, v: Values)
    requires ProgressionValues(data, percentiles, pct) == Ok(v)
    ensures forall t :: t in v.entries <==>
      exists n | n in data.entries :: Family(n) == t
  {
    DataFamilies(data, Family, DefaultPercentiles(percentiles), pct);
  }

  /** With any grouping, every group has a list for exactly the requested
      percentiles. */
  lemma DataPercentiles(data: Dict<string, HistDataset>, group: string -> string, ps: seq<real>, pct: PercentileFn)
    requires HasXValues(SortedSamples(data))
    ensures var v := GatherValues(SortedSamples(data), group, ps, pct);
      forall t, p | t in v.entries :: p in v.entries[t].entries <==> p in ps
  {
    var v := GatherValues(SortedSamples(data), group, ps, pct);
    forall t, p | t in v.entries ensures p in v.entries[t].entries <==> p in ps {
      GatherPercentiles(SortedSamples(data), group, ps, pct, t);
    }
  }

  /** With any grouping, each dataset's point is in its group's list of
      every percentile. */
  lemma DataHasPoints(data: Dict<string, HistDataset>, group: string -> string, ps: seq<real>, pct: PercentileFn)
    requires HasXValues(SortedSamples(data))
    ensures var v := GatherValues(SortedSamples(data), group, ps, pct);
      forall n, p | n in data.entries && p in ps ::
        && data.entries[n].xValue.Some?
        && group(n) in v.entries && p in v.entries[group(n)].entries
        && (data.entries[n].xValue.value, Perc(pct, data.entries[n].box, p)) in v.entries[group(n)].entries[p]
  {
    var samples := SortedSamples(data);
    var v := GatherValues(samples, group, ps, pct);
    forall n, p | n in data.entries && p in ps
      ensures && data.entries[n].xValue.Some?
              && group(n) in v.entries && p in v.entries[group(n)].entries
              && (data.entries[n].xValue.value, Perc(pct, data.entries[n].box, p)) in v.entries[group(n)].entries[p]
    {
      var i := SampleIndex(data, n);
      GatherHasPoint(samples, group, ps, pct, i, p);
    }
  }

  /** Every family has a list for exactly the requested percentiles (50 when
      none is given). */
  lemma ProgressionPercentiles(data: Dict<string, HistDataset>, percentiles: seq<real>, pct: PercentileFn, v: Values)
    requires ProgressionValues(data, percentiles, pct) == Ok(v)
    ensures forall t, p | t in v.entries :: p in v.entries[t].entries <==> p in DefaultPercentiles(percentiles)
  {
    assert v == GatherValues(SortedSamples(data), Family, DefaultPercentiles(percentiles), pct);
    DataPercentiles(data, Family, DefaultPercentiles(percentiles), pct);
  }

  /** The list of percentile `p` of family `t` holds the point
      `(x_value, percentile p of box)` of each dataset in `t`. It is exactly
      its reference list: those points in name order, each as often as `p`
      was asked for, once when no percentile is repeated ... */
  lemma ProgressionHasPoints(data: Dict<string, HistDataset>, percentiles: seq<real>, pct: PercentileFn, v: Values)
    requires ProgressionValues(data, percentiles, pct) == Ok(v)
    ensures forall n, p | n in data.entries && p in DefaultPercentiles(percentiles) ::
        && data.entries[n].xValue.Some?
        && Family(n) in v.entries && p in v.entries[Family(n)].entries
        && (data.entries[n].xValue.value, Perc(pct, data.entries[n].box, p)) in v.entries[Family(n)].entries[p]
    ensures HasXValues(SortedSamples(data))
    ensures forall t, p ::
      PointsAt(FamilyOf(v, t), p) == FamilyPoints(SortedSamples(data), Family, t, p, multiset(DefaultPercentiles(percentiles))[p], pct)
  {
    var ps := DefaultPercentiles(percentiles);
    assert v == GatherValues(SortedSamples(data), Family, ps, pct);
    DataHasPoints(data, Family, ps, pct);
    forall t, p ensures PointsAt(FamilyOf(v, t), p) == FamilyPoints(SortedSamples(data), Family, t, p, multiset(ps)[p], pct) {
      GatherLists(SortedSamples(data), Family, ps, pct, t, p);
    }
  }

  /** ... and nothing else: each point comes from a dataset of its family,
      its x value and that dataset's percentile. */
  lemma ProgressionPointSource(data: Dict<string, HistDataset>, percentiles: seq<real>, pct: PercentileFn, v: Values,
                               t: string, p: real, pt: (real, real))
    returns (n: string)
    requires ProgressionValues(data, percentiles, pct) == Ok(v)
    requires t in v.entries && p in v.entries[t].entries && pt in v.entries[t].entries[p]
    ensures n in data.entries && Family(n) == t
    ensures data.entries[n].xValue == Some(pt.0) && pt.1 == Perc(pct, data.entries[n].box, p)
  {
    var samples := SortedSamples(data);
    var ps := DefaultPercentiles(percentiles);
    assert v == GatherValues(samples, Family, ps, pct);
    var i := GatherPointWitness(samples, Family, ps, pct, t, p, pt);
    SampleAt(data, i);
    n := samples[i].name;
  }

}
