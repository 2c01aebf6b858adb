/** The second half of `plot_progression`: every family's percentile lists
    become curves (the points sorted, then split into x and y values), and
    the x range shown is widened to hold each curve's smallest and largest x
    value, starting from the range `[1000000, 0]`. */
module Curves {
  import opened Runtime
  import opened Dicts
  import opened Sorting
  import opened Accumulation
  import opened Series
  import opened Matches
  import opened Extraction
  import opened Progression

  /** One `ax.plot(xs, ys, label=...)` call: the family and percentile of the
      label, and the coordinates. */
  datatype Curve = Curve(family: string, percentile: real, xs: seq<real>, ys: seq<real>)

  /** The initial `min_x_value` and `max_x_value`. */
  const InitialLeft: real := 1000000.0
  const InitialRight: real := 0.0

  function Min(a: real, b: real): real {
    if b < a then b else a
  }

  function Max(a: real, b: real): real {
    if b > a then b else a
  }

  /** `min(xs)` of a non-empty list. */
  function SeqMin(xs: seq<real>): (r: real)
    requires |xs| > 0
    ensures r in xs && forall x | x in xs :: r <= x
    decreases |xs|
  {
    if |xs| == 1 then xs[0]
    else
      var init := xs[..|xs| - 1];
      assert xs == init + [xs[|xs| - 1]];
      Min(SeqMin(init), xs[|xs| - 1])
  }

  /** `max(xs)` of a non-empty list. */
  function SeqMax(xs: seq<real>): (r: real)
    requires |xs| > 0
    ensures r in xs && forall x | x in xs :: x <= r
    decreases |xs|
  {
    if |xs| == 1 then xs[0]
    else
      var init := xs[..|xs| - 1];
      assert xs == init + [xs[|xs| - 1]];
      Max(SeqMax(init), xs[|xs| - 1])
  }

  /** `data = sorted(data)` followed by the two list comprehensions. */
  function CurveOf(t: string, p: real, pts: Points): Curve {
    var s := SortBy(pts, PairLe);
    Curve(t, p, Fsts(s), Snds(s))
  }

  /** A curve has one coordinate pair per gathered point, holds exactly the
      gathered points, and lists them in ascending order of x, ties by y. */
  lemma CurveOfSpec(t: string, p: real, pts: Points)
    ensures var c := CurveOf(t, p, pts);
      && c.family == t && c.percentile == p
      && |c.xs| == |c.ys| == |pts|
      && multiset(Zip(c.xs, c.ys)) == multiset(pts)
      && forall i, j | 0 <= i < j < |c.xs| :: PairLe((c.xs[i], c.ys[i]), (c.xs[j], c.ys[j]))
  {
    var s := SortBy(pts, PairLe);
    ZipOfSplit(s);
    SortByPermutes(pts, PairLe);
    PairLeTotalPreorder();
    SortBySorted(pts, PairLe);
  }

  /** An x value of a gathered point is an x value of its curve. */
  lemma CurveHasX(t: string, p: real, pts: Points, pt: (real, real))
    requires pt in pts
    ensures pt.0 in CurveOf(t, p, pts).xs
  {
    CurveOfSpec(t, p, pts);
    var c := CurveOf(t, p, pts);
    assert pt in multiset(Zip(c.xs, c.ys));
    var k :| 0 <= k < |Zip(c.xs, c.ys)| && Zip(c.xs, c.ys)[k] == pt;
    assert c.xs[k] == pt.0;
  }

  /** The curves of one family, in the order of its percentiles. */
  function FamilyCurves(t: string, fam: Dict<real, Points>): (r: seq<Curve>)
    ensures |r| == |fam.keys|
    ensures forall j | 0 <= j < |r| :: r[j] == CurveOf(t, fam.keys[j], fam.entries[fam.keys[j]])
  {
    seq(|fam.keys|, j requires 0 <= j < |fam.keys| => CurveOf(t, fam.keys[j], fam.entries[fam.keys[j]]))
  }

  function ItemCurves(item: (string, Dict<real, Points>)): seq<Curve> {
    FamilyCurves(item.0, item.1)
  }

  /** Every curve drawn, family by family in the order of `values`. */
  function AllCurves(values: Values): seq<Curve> {
    FlatMap(Items(values), ItemCurves)
  }

  lemma {:induction false} FlatMapWitness<T, U>(xs: seq<T>, f: T -> seq<U>, k: nat) returns (i: nat, j: nat)
    requires k < |FlatMap(xs, f)|
    ensures i < |xs| && j < |f(xs[i])| && FlatMap(xs, f)[k] == f(xs[i])[j]
    decreases |xs|
  {
    var n := |xs| - 1;
    var init := FlatMap(xs[..n], f);
    if k < |init| {
      i, j := FlatMapWitness(xs[..n], f, k);
      assert xs[..n][i] == xs[i];
    } else {
      i, j := n, k - |init|;
    }
  }

  lemma {:induction false} FlatMapAt<T, U>(xs: seq<T>, f: T -> seq<U>, i: nat, j: nat) returns (k: nat)
    requires i < |xs| && j < |f(xs[i])|
    ensures k < |FlatMap(xs, f)| && FlatMap(xs, f)[k] == f(xs[i])[j]
    decreases |xs|
  {
    var n := |xs| - 1;
    if i < n {
      assert xs[..n][i] == xs[i];
      k := FlatMapAt(xs[..n], f, i, j);
    } else {
      k := |FlatMap(xs[..n], f)| + j;
    }
  }

  /** Each curve drawn is the curve of a family of `values` and one of its
      percentiles. */
  lemma CurveSource(values: Values, k: nat) returns (t: string, p: real)
    requires k < |AllCurves(values)|
    ensures t in values.entries && p in values.entries[t].entries
    ensures AllCurves(values)[k] == CurveOf(t, p, values.entries[t].entries[p])
  {
    var i, j := FlatMapWitness(Items(values), ItemCurves, k);
    t := values.keys[i];
    p := values.entries[t].keys[j];
  }

  /** ... and each family and percentile of `values` has its curve drawn. */
  lemma CurveDrawn(values: Values, t: string, p: real) returns (k: nat)
    requires t in values.entries && p in values.entries[t].entries
    ensures k < |AllCurves(values)| && AllCurves(values)[k] == CurveOf(t, p, values.entries[t].entries[p])
  {
    var i :| 0 <= i < |values.keys| && values.keys[i] == t;
    var fam := values.entries[t];
    var j :| 0 <= j < |fam.keys| && fam.keys[j] == p;
    assert Items(values)[i] == (t, fam);
    k := FlatMapAt(Items(values), ItemCurves, i, j);
  }

  /** The x range with `min_x_value = min(min_x_value, min(xs))`: each
      curve's `max(xs)` and `min(xs)` raise `ValueError` on a curve with no
      points. */
  function Limits(curves: seq<Curve>): Result<(real, real)>
    decreases |curves|
  {
    if curves == [] then Ok((InitialLeft, InitialRight))
    else
      var lim :- Limits(curves[..|curves| - 1]);
      var xs := curves[|curves| - 1].xs;
      if xs == [] then Err(ValueError)
      else Ok((Min(lim.0, SeqMin(xs)), Max(lim.1, SeqMax(xs))))
  }

  /** The x range as the loop computes it: the new left limit is the smaller
      of the new right limit and `min(xs)`, so the left limits of earlier
      curves are forgotten. */
  function LimitsAsWritten(curves: seq<Curve>): Result<(real, real)>
    decreases |curves|
  {
    if curves == [] then Ok((InitialLeft, InitialRight))
    else
      var lim :- LimitsAsWritten(curves[..|curves| - 1]);
      var xs := curves[|curves| - 1].xs;
      if xs == [] then Err(ValueError)
      else
        var right := Max(lim.1, SeqMax(xs));
        Ok((Min(right, SeqMin(xs)), right))
  }

  /** One more curve: the range is widened to the curve's x values, or
      fails if the curve has none. */
  lemma LimitsSnoc(curves: seq<Curve>, c: Curve)
    ensures Limits(curves + [c]) ==
      if Limits(curves).Err? then Limits(curves)
      else if c.xs == [] then Err(ValueError)
      else Ok((Min(Limits(curves).value.0, SeqMin(c.xs)), Max(Limits(curves).value.1, SeqMax(c.xs))))
  {
    assert (curves + [c])[..|curves|] == curves;
  }

  /** The range fails exactly when some curve has no points. */
  lemma {:induction false} LimitsError(curves: seq<Curve>)
    ensures Limits(curves).Err? <==> exists i | 0 <= i < |curves| :: curves[i].xs == []
    ensures Limits(curves).Err? ==> Limits(curves).error == ValueError
    decreases |curves|
  {
    if curves != [] {
      var n := |curves| - 1;
      var init := curves[..n];
      LimitsError(init);
      if exists i | 0 <= i < n :: init[i].xs == [] {
        var i :| 0 <= i < n && init[i].xs == [];
        assert curves[i].xs == [];
      }
      if i :| 0 <= i < n && curves[i].xs == [] {
        assert init[i].xs == [];
      }
    }
  }

  /** The range holds every x value of every curve, and does not shrink the
      initial range. */
  lemma {:induction false} LimitsBound(curves: seq<Curve>, lim: (real, real))
    requires Limits(curves) == Ok(lim)
    ensures lim.0 <= InitialLeft && InitialRight <= lim.1
    ensures forall i, j | 0 <= i < |curves| && 0 <= j < |curves[i].xs| :: lim.0 <= curves[i].xs[j] <= lim.1
    decreases |curves|
  {
    if curves != [] {
      var n := |curves| - 1;
      var init := curves[..n];
      var prev := Limits(init).value;
      LimitsBound(init, prev);
      forall i, j | 0 <= i < |curves| && 0 <= j < |curves[i].xs| ensures lim.0 <= curves[i].xs[j] <= lim.1 {
        if i < n {
          assert init[i] == curves[i];
        } else {
          assert curves[i].xs[j] in curves[n].xs;
        }
      }
    }
  }

  /** Each limit is its initial value or an x value of some curve. */
  lemma {:induction false} LimitsAttained(curves: seq<Curve>, lim: (real, real))
    requires Limits(curves) == Ok(lim)
    ensures lim.0 == InitialLeft || exists i, j | 0 <= i < |curves| && 0 <= j < |curves[i].xs| :: curves[i].xs[j] == lim.0
    ensures lim.1 == InitialRight || exists i, j | 0 <= i < |curves| && 0 <= j < |curves[i].xs| :: curves[i].xs[j] == lim.1
    decreases |curves|
  {
    if curves != [] {
      var n := |curves| - 1;
      var init := curves[..n];
      var prev := Limits(init).value;
      LimitsAttained(init, prev);
      var xs := curves[n].xs;
      if lim.0 != InitialLeft {
        if lim.0 == SeqMin(xs) {
          var j :| 0 <= j < |xs| && xs[j] == lim.0;
        } else {
          var i, j :| 0 <= i < n && 0 <= j < |init[i].xs| && init[i].xs[j] == prev.0;
          assert curves[i] == init[i];
        }
      }
      if lim.1 != InitialRight {
        if lim.1 == SeqMax(xs) {
          var j :| 0 <= j < |xs| && xs[j] == lim.1;
        } else {
          var i, j :| 0 <= i < n && 0 <= j < |init[i].xs| && init[i].xs[j] == prev.1;
          assert curves[i] == init[i];
        }
      }
    }
  }

  /** Once the range has failed, drawing more curves does not mend it. */
  lemma {:induction false} LimitsErrorSticky(a: seq<Curve>, b: seq<Curve>)
    requires Limits(a).Err?
    ensures Limits(a + b).Err?
    decreases |b|
  {
    if b == [] {
      assert a + b == a;
    } else {
      var n := |b| - 1;
      LimitsErrorSticky(a, b[..n]);
      assert (a + b)[..|a + b| - 1] == a + b[..n];
    }
  }

  /** One step of a loop that draws the curves `all` after `curves0`. */
  lemma LimitsStep(curves0: seq<Curve>, all: seq<Curve>, j: nat)
    requires j < |all|
    ensures curves0 + all[..j + 1] == (curves0 + all[..j]) + [all[j]]
    ensures Limits(curves0 + all[..j + 1]) ==
      if Limits(curves0 + all[..j]).Err? then Limits(curves0 + all[..j])
      else if all[j].xs == [] then Err(ValueError)
      else Ok((Min(Limits(curves0 + all[..j]).value.0, SeqMin(all[j].xs)),
               Max(Limits(curves0 + all[..j]).value.1, SeqMax(all[j].xs))))
    ensures Limits(curves0 + all[..j + 1]).Err? ==> Limits(curves0 + all).Err?
  {
    assert all[..j + 1] == all[..j] + [all[j]];
    LimitsSnoc(curves0 + all[..j], all[j]);
    if Limits(curves0 + all[..j + 1]).Err? {
      LimitsErrorSticky(curves0 + all[..j + 1], all[j + 1..]);
      SplitAt(curves0, all, j + 1);
    }
  }

  /** One step of the loop over the families of `values`. */
  lemma PlotStep(values: Values, i: nat)
    requires i < |values.keys|
    ensures FlatMap(Items(values)[..i + 1], ItemCurves) ==
      FlatMap(Items(values)[..i], ItemCurves) + FamilyCurves(values.keys[i], values.entries[values.keys[i]])
    ensures Limits(FlatMap(Items(values)[..i + 1], ItemCurves)).Err? ==> Limits(AllCurves(values)).Err?
  {
    var items := Items(values);
    assert items[..i + 1][..i] == items[..i];
    if Limits(FlatMap(items[..i + 1], ItemCurves)).Err? {
      assert items[..i + 1] + items[i + 1..] == items;
      FlatMapConcat(items[..i + 1], items[i + 1..], ItemCurves);
      LimitsErrorSticky(FlatMap(items[..i + 1], ItemCurves), FlatMap(items[i + 1..], ItemCurves));
    }
  }

  lemma SplitAt<T>(a: seq<T>, b: seq<T>, k: nat)
    requires k <= |b|
    ensures (a + b[..k]) + b[k..] == a + b
  {
    assert b[..k] + b[k..] == b;
  }

  /** The loop as written fails on the same inputs, has the same right
      limit, and leaves as left limit the smallest x of the last curve only. */
  lemma {:induction false} LimitsAsWrittenShape(curves: seq<Curve>)
    ensures LimitsAsWritten(curves).Err? <==> Limits(curves).Err?
    ensures LimitsAsWritten(curves).Ok? ==>
      && LimitsAsWritten(curves).value.1 == Limits(curves).value.1
      && LimitsAsWritten(curves).value.0 == if curves == [] then InitialLeft else SeqMin(curves[|curves| - 1].xs)
    decreases |curves|
  {
    if curves != [] {
      LimitsAsWrittenShape(curves[..|curves| - 1]);
    }
  }

  /** Two curves whose smallest x values are 1 and 5: the loop as written
      sets the left limit to 5, which hides the first curve; the intended
      left limit is 1. */
  lemma LimitsAsWrittenHidesCurve()
    ensures var curves := [Curve("a", 50.0, [1.0], [10.0]), Curve("b", 50.0, [5.0], [20.0])];
      && LimitsAsWritten(curves) == Ok((5.0, 5.0))
      && Limits(curves) == Ok((1.0, 5.0))
      && curves[0].xs[0] < LimitsAsWritten(curves).value.0
  {
    var curves := [Curve("a", 50.0, [1.0], [10.0]), Curve("b", 50.0, [5.0], [20.0])];
    assert curves[..1] == [curves[0]];
    assert curves[..1][..0] == [];
  }

  /** The curves and the x range of a plot. */
  function PlotData(values: Values): Result<(seq<Curve>, (real, real))> {
    var curves := AllCurves(values);
    var lim :- Limits(curves);
    Ok((curves, lim))
  }

  /** The plotting loop over `values.items()`, with the corrected left
      limit. */
  method PlotProgression(values: Values) returns (r: Result<(seq<Curve>, (real, real))>)
    ensures r == PlotData(values)
  {
    var curves: seq<Curve> := [];
    var left, right := InitialLeft, InitialRight;
    ghost var items := Items(values);
    for i := 0 to |values.keys|
      invariant curves == FlatMap(items[..i], ItemCurves)
      invariant Limits(curves) == Ok((left, right))
    {
      var t := values.keys[i];
      var res := FamilyLoop(t, values.entries[t], curves, left, right);
      PlotStep(values, i);
      if res.Err? {
        LimitsError(AllCurves(values));
        return Err(ValueError);
      }
      curves, left, right := res.value.0, res.value.1, res.value.2;
    }
    assert items[..|values.keys|] == items;
    r := Ok((curves, (left, right)));
  }

  /** The inner loop over one family's percentiles. */
  method FamilyLoop(t: string, fam: Dict<real, Points>, curves0: seq<Curve>, left0: real, right0: real)
    returns (r: Result<(seq<Curve>, real, real)>)
    requires Limits(curves0) == Ok((left0, right0))
    ensures r.Ok? ==> r.value.0 == curves0 + FamilyCurves(t, fam) && Limits(r.value.0) == Ok((r.value.1, r.value.2))
    ensures r.Err? ==> Limits(curves0 + FamilyCurves(t, fam)).Err?
  {
    var curves, left, right := curves0, left0, right0;
    ghost var all := FamilyCurves(t, fam);
    for j := 0 to |fam.keys|
      invariant curves == curves0 + all[..j]
      invariant Limits(curves) == Ok((left, right))
    {
      var p := fam.keys[j];
      var c := CurveOf(t, p, fam.entries[p]);
      LimitsStep(curves0, all, j);
      if c.xs == [] {
        return Err(ValueError);
      }
      left := Min(left, SeqMin(c.xs));
      right := Max(right, SeqMax(c.xs));
      curves := curves + [c];
    }
    assert all[..|fam.keys|] == all;
    return Ok((curves, left, right));
  }

  /** Every curve of gathered values has points: the percentile lists of a
      family are those requested, and each holds the point of every dataset
      of the family. */
  lemma ProgressionCurvePoints(data: Dict<string, HistDataset>, percentiles: seq<real>, pct: PercentileFn, v: Values,
                               t: string, p: real)
    requires ProgressionValues(data, percentiles, pct) == Ok(v)
    requires t in v.entries && p in v.entries[t].entries
    ensures v.entries[t].entries[p] != []
  {
    var samples := SortedSamples(data);
    var ps := DefaultPercentiles(percentiles);
    assert v == GatherValues(samples, Family, ps, pct);
    var i := GatherFamilyWitness(samples, Family, ps, pct, t);
    GatherPercentiles(samples, Family, ps, pct, t);
    GatherHasPoint(samples, Family, ps, pct, i, p);
  }

  /** Plotting gathered values never fails. */
  lemma ProgressionPlotOk(data: Dict<string, HistDataset>, percentiles: seq<real>, pct: PercentileFn, v: Values)
    requires ProgressionValues(data, percentiles, pct) == Ok(v)
    ensures PlotData(v).Ok?
  {
    var curves := AllCurves(v);
    forall i | 0 <= i < |curves| ensures curves[i].xs != [] {
      var t, p := CurveSource(v, i);
      ProgressionCurvePoints(data, percentiles, pct, v, t, p);
      CurveOfSpec(t, p, v.entries[t].entries[p]);
    }
    LimitsError(curves);
  }

  /** The x range of a plot holds the x value of every gathered point. */
  lemma RangeCoversPoint(v: Values, t: string, p: real, pt: (real, real))
    requires PlotData(v).Ok?
    requires t in v.entries && p in v.entries[t].entries && pt in v.entries[t].entries[p]
    ensures PlotData(v).value.1.0 <= pt.0 <= PlotData(v).value.1.1
  {
    CurveHasX(t, p, v.entries[t].entries[p], pt);
    var k := CurveDrawn(v, t, p);
    var curves := AllCurves(v);
    var j :| 0 <= j < |curves[k].xs| && curves[k].xs[j] == pt.0;
    LimitsBound(curves, PlotData(v).value.1);
  }

  /** With the corrected left limit, the x range shown holds the x value of
      every dataset. */
  lemma ProgressionRangeCovers(data: Dict<string, HistDataset>, percentiles: seq<real>, pct: PercentileFn, v: Values,
                               n: string)
    requires ProgressionValues(data, percentiles, pct) == Ok(v)
    requires n in data.entries
    ensures PlotData(v).Ok? && data.entries[n].xValue.Some?
    ensures PlotData(v).value.1.0 <= data.entries[n].xValue.value <= PlotData(v).value.1.1
  {
    ProgressionPlotOk(data, percentiles, pct, v);
    var samples := SortedSamples(data);
    var ps := DefaultPercentiles(percentiles);
    assert v == GatherValues(samples, Family, ps, pct);
    var i := SampleIndex(data, n);
    GatherHasPoint(samples, Family, ps, pct, i, ps[0]);
    RangeCoversPoint(v, Family(n), ps[0], (samples[i].x.value, Perc(pct, samples[i].box, ps[0])));
  }
}
