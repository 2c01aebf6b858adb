/** `plot_loop`: one curve per experiment and percentile, whose x values are
    the loop variable of each run (read from the run's `type` dictionary)
    and whose y values are that percentile of the latencies of the histogram
    dataset the run is mapped to. */
module Loops {
  import opened Runtime
  import opened Dicts
  import opened Sorting
  import opened Strings
  import opened Extraction
  import opened Series
  import opened Progression
  import Transforms

  /** One `(exp, run, type)` triple of `content`; `type` maps the name of
      the loop variable to its value. */
  datatype Row = Row(exp: string, run: string, typ: Dict<string, real>)

  /** What the loop reads of a row: its experiment, its run and the first
      entry of `type`, if any. */
  datatype Run = Run(exp: string, run: string, first: Option<(string, real)>)

  function RunOf(row: Row): Run {
    Run(row.exp, row.run, if row.typ.keys == [] then None else Some((row.typ.keys[0], row.typ.entries[row.typ.keys[0]])))
  }

  function Runs(rows: seq<Row>): (r: seq<Run>)
    ensures |r| == |rows| && forall i | 0 <= i < |rows| :: r[i] == RunOf(rows[i])
  {
    seq(|rows|, i requires 0 <= i < |rows| => RunOf(rows[i]))
  }

  /** `mapping[exp][run]`: the name of the histogram dataset of a run. */
  type Mapping = map<string, map<string, string>>

  /** The `box` of each dataset of `hist_data`: all the loop reads of it. */
  function Boxes(hist: Dict<string, HistDataset>): map<string, seq<real>> {
    map n | n in hist.entries :: hist.entries[n].box
  }

  /** `hist_data[mapping[exp][run]]['box']`; nothing when one of the three
      lookups raises `KeyError`. */
  function MappedBox(mapping: Mapping, boxes: map<string, seq<real>>, row: Run): Option<seq<real>> {
    if row.exp in mapping && row.run in mapping[row.exp] && mapping[row.exp][row.run] in boxes
    then Some(boxes[mapping[row.exp][row.run]])
    else None
  }

  /** `list(type.keys())[0]` exists for every row. */
  predicate HasTypes(rows: seq<Run>) {
    forall i | 0 <= i < |rows| :: rows[i].first.Some?
  }

  /** `list(type.keys())[0]` */
  function Label(row: Run): string
    requires row.first.Some?
  {
    row.first.value.0
  }

  /** `list(type.values())[0]` */
  function RunX(row: Run): real
    requires row.first.Some?
  {
    row.first.value.1
  }

  /** The local variables of the gathering loop; `mapped[exp]` holds the
      `box` of the dataset last mapped to `exp`. Nothing iterates over
      `xss`, `yss` or the dictionaries inside `yss`, so they are maps; the
      keys of `mapped` are iterated over (sorted), so it keeps its order. */
  datatype LoopState = LoopState(
    axisLabel: Option<string>,
    xss: map<string, seq<real>>,
    yss: map<string, map<real, seq<real>>>,
    mapped: Dict<string, seq<real>>)

  function Start(): LoopState {
    LoopState(None, map[], map[], Empty())
  }

  /** `xss[exp]`, empty for an experiment not seen yet. */
  function XsOf(st: LoopState, exp: string): seq<real> {
    if exp in st.xss then st.xss[exp] else []
  }

  /** `yss[exp]`, empty for an experiment not seen yet. */
  function YsOf(st: LoopState, exp: string): map<real, seq<real>> {
    if exp in st.yss then st.yss[exp] else map[]
  }

  /** `xss` and `yss` have the same keys. */
  ghost predicate KeysAgree(st: LoopState) {
    forall e :: e in st.xss <==> e in st.yss
  }

  /** `if exp not in xss: xss[exp] = []; yss[exp] = {}` */
  function Open(st: LoopState, exp: string): LoopState {
    if exp in st.xss then st
    else st.(xss := st.xss[exp := []], yss := st.yss[exp := map[]])
  }

  /** The list of percentile `p`, empty when there is none yet. */
  function ListOf(ys: map<real, seq<real>>, p: real): seq<real> {
    if p in ys then ys[p] else []
  }

  /** `if not percentile in ys: ys[percentile] = []`, then the append. */
  function AppendPerc(ys: map<real, seq<real>>, p: real, v: real): map<real, seq<real>> {
    ys[p := ListOf(ys, p) + [v]]
  }

  /** The percentile loop: each percentile of `key` in turn appends that
      percentile of `box` (-1 when it raises `IndexError`). */
  function AppendPercs(ys: map<real, seq<real>>, key: seq<real>, box: seq<real>, pct: PercentileFn): map<real, seq<real>>
    decreases |key|
  {
    if key == [] then ys
    else
      var n := |key| - 1;
      AppendPerc(AppendPercs(ys, key[..n], box, pct), key[n], Perc(pct, box, key[n]))
  }

  /** `xss[exp].append(list(type.values())[0])` */
  function AddX(st: LoopState, row: Run): LoopState
    requires row.first.Some?
  {
    st.(xss := st.xss[row.exp := XsOf(st, row.exp) + [RunX(row)]])
  }

  /** A successful lookup: `mapped[exp]` is set and the percentile loop
      runs on `yss[exp]`. */
  function Record(st: LoopState, row: Run, box: seq<real>, key: seq<real>, pct: PercentileFn): LoopState {
    st.(mapped := Set(st.mapped, row.exp, box), yss := st.yss[row.exp := AppendPercs(YsOf(st, row.exp), key, box, pct)])
  }

  /** One pass of the loop as written: the x value is appended before the
      lookup, so it stays even when the lookup fails. */
  function StepAsWritten(st: LoopState, row: Run, box: Option<seq<real>>, key: seq<real>, pct: PercentileFn): LoopState
    requires row.first.Some?
  {
    var s := AddX(Open(st, row.exp).(axisLabel := Some(Label(row))), row);
    if box.Some? then Record(s, row, box.value, key, pct) else s
  }

  /** One pass with the x value appended only after a successful lookup,
      together with the y values. */
  function Step(st: LoopState, row: Run, box: Option<seq<real>>, key: seq<real>, pct: PercentileFn): LoopState
    requires row.first.Some?
  {
    var s := Open(st, row.exp).(axisLabel := Some(Label(row)));
    if box.Some? then Record(AddX(s, row), row, box.value, key, pct) else s
  }

  /** The gathering loop as written. */
  function GatherAsWritten(rows: seq<Run>, mapping: Mapping, boxes: map<string, seq<real>>, key: seq<real>, pct: PercentileFn): LoopState
    requires HasTypes(rows)
    decreases |rows|
  {
    if rows == [] then Start()
    else
      var n := |rows| - 1;
      StepAsWritten(GatherAsWritten(rows[..n], mapping, boxes, key, pct), rows[n], MappedBox(mapping, boxes, rows[n]), key, pct)
  }

  /** The gathering loop with the x value appended after the lookup. */
  function Gather(rows: seq<Run>, mapping: Mapping, boxes: map<string, seq<real>>, key: seq<real>, pct: PercentileFn): LoopState
    requires HasTypes(rows)
    decreases |rows|
  {
    if rows == [] then Start()
    else
      var n := |rows| - 1;
      Step(Gather(rows[..n], mapping, boxes, key, pct), rows[n], MappedBox(mapping, boxes, rows[n]), key, pct)
  }

  /** What the gathering half of `plot_loop` leaves, with `key` defaulting to
      `[50]`; a row with an empty `type` raises `IndexError`. */
  function LoopGathered(rows: seq<Row>, mapping: Mapping, hist: Dict<string, HistDataset>, key: seq<real>, pct: PercentileFn): Result<LoopState> {
    var runs := Runs(rows);
    if HasTypes(runs) then Ok(Gather(runs, mapping, Boxes(hist), DefaultPercentiles(key), pct)) else Err(IndexError)
  }

  // ---------------------------------------------------------------------
  // Reference definitions: what each experiment should end up with.

  /** The x value and the mapped `box` of each row of `exp` whose lookup
      succeeds, in the order of `content`. */
  function Matched(rows: seq<Run>, exp: string, mapping: Mapping, boxes: map<string, seq<real>>): seq<(real, seq<real>)>
    requires HasTypes(rows)
    decreases |rows|
  {
    if rows == [] then []
    else
      var n := |rows| - 1;
      var b := MappedBox(mapping, boxes, rows[n]);
      Matched(rows[..n], exp, mapping, boxes) + (if rows[n].exp == exp && b.Some? then [(RunX(rows[n]), b.value)] else [])
  }

  /** The x value of every row of `exp`, matched or not. */
  function RowXs(rows: seq<Run>, exp: string): seq<real>
    requires HasTypes(rows)
    decreases |rows|
  {
    if rows == [] then []
    else
      var n := |rows| - 1;
      RowXs(rows[..n], exp) + (if rows[n].exp == exp then [RunX(rows[n])] else [])
  }

  /** Percentile `p` of each matched box. */
  function PercsOf(ms: seq<(real, seq<real>)>, p: real, pct: PercentileFn): (r: seq<real>)
    ensures |r| == |ms|
    ensures forall i | 0 <= i < |ms| :: r[i] == Perc(pct, ms[i].1, p)
  {
    seq(|ms|, i requires 0 <= i < |ms| => Perc(pct, ms[i].1, p))
  }

  lemma PercsOfSnoc(ms: seq<(real, seq<real>)>, m: (real, seq<real>), p: real, pct: PercentileFn)
    ensures PercsOf(ms + [m], p, pct) == PercsOf(ms, p, pct) + [Perc(pct, m.1, p)]
  {
  }

  /** The points of percentile `p`: each matched x value with percentile
      `p` of its own box. */
  function PointsOf(ms: seq<(real, seq<real>)>, p: real, pct: PercentileFn): (r: seq<(real, real)>)
    ensures |r| == |ms|
    ensures forall i | 0 <= i < |ms| :: r[i] == (ms[i].0, Perc(pct, ms[i].1, p))
  {
    seq(|ms|, i requires 0 <= i < |ms| => (ms[i].0, Perc(pct, ms[i].1, p)))
  }

  // ---------------------------------------------------------------------
  // The percentile loop.

  /** Every percentile of `key` gets a list, which grows by that percentile
      of `box` once per occurrence in `key`; other lists are unchanged. */
  lemma {:induction false} AppendPercsSpec(ys: map<real, seq<real>>, key: seq<real>, box: seq<real>, pct: PercentileFn)
    ensures forall p :: p in AppendPercs(ys, key, box, pct) <==> p in ys || p in key
    ensures forall p | p in AppendPercs(ys, key, box, pct) ::
      AppendPercs(ys, key, box, pct)[p] == ListOf(ys, p) + Transforms.Repeat(Perc(pct, box, p), multiset(key)[p])
    decreases |key|
  {
    if key != [] {
      var n := |key| - 1;
      var q := key[n];
      var prev := AppendPercs(ys, key[..n], box, pct);
      var r := AppendPercs(ys, key, box, pct);
      AppendPercsSpec(ys, key[..n], box, pct);
      assert key == key[..n] + [q];
      assert multiset(key) == multiset(key[..n]) + multiset{q};
      assert r == prev[q := ListOf(prev, q) + [Perc(pct, box, q)]];
      forall p | p in r
        ensures r[p] == ListOf(ys, p) + Transforms.Repeat(Perc(pct, box, p), multiset(key)[p])
      {
        if p == q {
          CountSnoc(ListOf(ys, p), Perc(pct, box, p), multiset(key[..n])[p]);
        }
      }
    }
  }

  /** One more copy at the end of a run of copies. */
  lemma CountSnoc(pre: seq<real>, v: real, m: nat)
    ensures pre + Transforms.Repeat(v, m) + [v] == pre + Transforms.Repeat(v, m + 1)
  {
    Transforms.RepeatSnoc(v, m);
  }

  /** A value of a list without repeats occurs in it once. */
  lemma {:induction false} DistinctCount(key: seq<real>, p: real)
    requires Distinct(key) && p in key
    ensures multiset(key)[p] == 1
    decreases |key|
  {
    var n := |key| - 1;
    assert key == key[..n] + [key[n]];
    if p == key[n] {
      assert p !in key[..n] by {
        forall j | 0 <= j < n ensures key[..n][j] != p {
          assert key[j] != key[n];
        }
      }
    } else {
      DistinctCount(key[..n], p);
    }
  }

  /** With no percentile repeated, each list of `key` grows by exactly one
      value. */
  lemma AppendPercsDistinct(ys: map<real, seq<real>>, key: seq<real>, box: seq<real>, pct: PercentileFn, p: real)
    requires Distinct(key) && p in key
    ensures p in AppendPercs(ys, key, box, pct)
    ensures AppendPercs(ys, key, box, pct)[p] == ListOf(ys, p) + [Perc(pct, box, p)]
  {
    AppendPercsSpec(ys, key, box, pct);
    DistinctCount(key, p);
    assert Transforms.Repeat(Perc(pct, box, p), 1) == [Perc(pct, box, p)];
  }

  // ---------------------------------------------------------------------
  // One pass of the loop, experiment by experiment.

  /** A pass appends the row's x value to its own experiment's list when
      the lookup succeeds, and to no other list. */
  lemma StepXs(st: LoopState, row: Run, box: Option<seq<real>>, key: seq<real>, pct: PercentileFn, exp: string)
    requires row.first.Some?
    ensures XsOf(Step(st, row, box, key, pct), exp) ==
      XsOf(st, exp) + (if row.exp == exp && box.Some? then [RunX(row)] else [])
    ensures exp in Step(st, row, box, key, pct).xss <==> exp in st.xss || exp == row.exp
  {
    var s := Open(st, row.exp).(axisLabel := Some(Label(row)));
  }

  /** A pass runs the percentile loop on its own experiment's lists when the
      lookup succeeds, and changes no other experiment's lists. */
  lemma StepYs(st: LoopState, row: Run, box: Option<seq<real>>, key: seq<real>, pct: PercentileFn, exp: string)
    requires row.first.Some? && KeysAgree(st)
    ensures KeysAgree(Step(st, row, box, key, pct))
    ensures YsOf(Step(st, row, box, key, pct), exp) ==
      if row.exp == exp && box.Some? then AppendPercs(YsOf(st, exp), key, box.value, pct) else YsOf(st, exp)
  {
    var s := Open(st, row.exp).(axisLabel := Some(Label(row)));
    assert YsOf(s, row.exp) == YsOf(st, row.exp);
  }

  /** A pass maps its experiment to the box when the lookup succeeds and
      changes no other experiment's mapping. */
  lemma StepMapped(st: LoopState, row: Run, box: Option<seq<real>>, key: seq<real>, pct: PercentileFn, exp: string)
    requires row.first.Some?
    ensures exp in Step(st, row, box, key, pct).mapped.entries <==> exp in st.mapped.entries || (row.exp == exp && box.Some?)
    ensures exp in Step(st, row, box, key, pct).mapped.entries ==>
      Step(st, row, box, key, pct).mapped.entries[exp] ==
        if row.exp == exp && box.Some? then box.value else st.mapped.entries[exp]
  {
    if box.Some? {
      SetEntries(st.mapped, row.exp, box.value);
    }
  }

  /** The pass as written differs from the corrected one in `xss` alone: it
      appends the x value whether or not the lookup succeeds. */
  lemma StepAsWrittenXs(st: LoopState, row: Run, box: Option<seq<real>>, key: seq<real>, pct: PercentileFn, exp: string)
    requires row.first.Some?
    ensures XsOf(StepAsWritten(st, row, box, key, pct), exp) == XsOf(st, exp) + (if row.exp == exp then [RunX(row)] else [])
  {
    var s := Open(st, row.exp).(axisLabel := Some(Label(row)));
  }

  // ---------------------------------------------------------------------
  // The whole loop.

  lemma GatherSnoc(rows: seq<Run>, i: nat, mapping: Mapping, boxes: map<string, seq<real>>, key: seq<real>, pct: PercentileFn)
    requires i < |rows| && HasTypes(rows[..i + 1])
    ensures HasTypes(rows[..i])
    ensures Gather(rows[..i + 1], mapping, boxes, key, pct) ==
      Step(Gather(rows[..i], mapping, boxes, key, pct), rows[i], MappedBox(mapping, boxes, rows[i]), key, pct)
  {
    assert rows[..i + 1][..i] == rows[..i];
  }

  /** The axis label is the first `type` key of the last row. */
  lemma GatherLabel(rows: seq<Run>, mapping: Mapping, boxes: map<string, seq<real>>, key: seq<real>, pct: PercentileFn)
    requires HasTypes(rows)
    ensures Gather(rows, mapping, boxes, key, pct).axisLabel == if rows == [] then None else Some(Label(rows[|rows| - 1]))
  {
  }

  /** Every experiment of `content` has an x list, holding the x values of
      its matched rows in order. */
  lemma {:induction false} GatherXsKeys(rows: seq<Run>, mapping: Mapping, boxes: map<string, seq<real>>, key: seq<real>, pct: PercentileFn, exp: string)
    requires HasTypes(rows)
    ensures exp in Gather(rows, mapping, boxes, key, pct).xss <==> exists i | 0 <= i < |rows| :: rows[i].exp == exp
    decreases |rows|
  {
    if rows != [] {
      var n := |rows| - 1;
      var init := rows[..n];
      GatherXsKeys(init, mapping, boxes, key, pct, exp);
      StepXs(Gather(init, mapping, boxes, key, pct), rows[n], MappedBox(mapping, boxes, rows[n]), key, pct, exp);
      if exists i | 0 <= i < n :: init[i].exp == exp {
        var i :| 0 <= i < n && init[i].exp == exp;
        assert rows[i].exp == exp;
      }
      if i :| 0 <= i < n && rows[i].exp == exp {
        assert init[i].exp == exp;
      }
    }
  }

  /** The x list of an experiment holds the x values of its matched rows,
      in order. */
  lemma {:induction false} GatherXs(rows: seq<Run>, mapping: Mapping, boxes: map<string, seq<real>>, key: seq<real>, pct: PercentileFn, exp: string)
    requires HasTypes(rows)
    ensures XsOf(Gather(rows, mapping, boxes, key, pct), exp) == Fsts(Matched(rows, exp, mapping, boxes))
    decreases |rows|
  {
    if rows != [] {
      var n := |rows| - 1;
      var st := Gather(rows[..n], mapping, boxes, key, pct);
      var b := MappedBox(mapping, boxes, rows[n]);
      var ms0 := Matched(rows[..n], exp, mapping, boxes);
      var ms := Matched(rows, exp, mapping, boxes);
      GatherXs(rows[..n], mapping, boxes, key, pct, exp);
      assert XsOf(Gather(rows, mapping, boxes, key, pct), exp) ==
        XsOf(st, exp) + (if rows[n].exp == exp && b.Some? then [RunX(rows[n])] else []) by {
        StepXs(st, rows[n], b, key, pct, exp);
      }
      if rows[n].exp == exp && b.Some? {
        assert ms == ms0 + [(RunX(rows[n]), b.value)];
        FstsSnoc(ms0, (RunX(rows[n]), b.value));
      } else {
        assert ms == ms0;
      }
    }
  }



  /** `xss` and `yss` always have the same keys. */
  lemma {:induction false} GatherKeysAgree(rows: seq<Run>, mapping: Mapping, boxes: map<string, seq<real>>, key: seq<real>, pct: PercentileFn)
    requires HasTypes(rows)
    ensures KeysAgree(Gather(rows, mapping, boxes, key, pct))
    decreases |rows|
  {
    if rows != [] {
      var n := |rows| - 1;
      GatherKeysAgree(rows[..n], mapping, boxes, key, pct);
      StepYs(Gather(rows[..n], mapping, boxes, key, pct), rows[n], MappedBox(mapping, boxes, rows[n]), key, pct, "");
    }
  }

  /** An experiment has a list for percentile `p` exactly when `p` is in
      `key` and some row of the experiment was matched, and that list is
      never empty. */
  lemma {:induction false} GatherYsKeys(rows: seq<Run>, mapping: Mapping, boxes: map<string, seq<real>>, key: seq<real>, pct: PercentileFn,
                                        exp: string, p: real)
    requires HasTypes(rows)
    ensures p in YsOf(Gather(rows, mapping, boxes, key, pct), exp) <==> p in key && Matched(rows, exp, mapping, boxes) != []
    ensures p in YsOf(Gather(rows, mapping, boxes, key, pct), exp) ==> YsOf(Gather(rows, mapping, boxes, key, pct), exp)[p] != []
    decreases |rows|
  {
    if rows != [] {
      var n := |rows| - 1;
      var st := Gather(rows[..n], mapping, boxes, key, pct);
      var b := MappedBox(mapping, boxes, rows[n]);
      GatherYsKeys(rows[..n], mapping, boxes, key, pct, exp, p);
      GatherKeysAgree(rows[..n], mapping, boxes, key, pct);
      StepYs(st, rows[n], b, key, pct, exp);
      if rows[n].exp == exp && b.Some? {
        AppendPercsSpec(YsOf(st, exp), key, b.value, pct);
        if p in key {
          assert multiset(key)[p] > 0;
        }
      }
    }
  }

  /** With no percentile repeated in `key`, the list of percentile `p` holds
      percentile `p` of each matched row's box, in order. */
  lemma {:induction false} GatherYs(rows: seq<Run>, mapping: Mapping, boxes: map<string, seq<real>>, key: seq<real>, pct: PercentileFn,
                                    exp: string, p: real)
    requires HasTypes(rows) && Distinct(key) && p in key
    ensures ListOf(YsOf(Gather(rows, mapping, boxes, key, pct), exp), p) == PercsOf(Matched(rows, exp, mapping, boxes), p, pct)
    decreases |rows|
  {
    if rows != [] {
      var n := |rows| - 1;
      var st := Gather(rows[..n], mapping, boxes, key, pct);
      var b := MappedBox(mapping, boxes, rows[n]);
      var ms0 := Matched(rows[..n], exp, mapping, boxes);
      var ms := Matched(rows, exp, mapping, boxes);
      GatherYs(rows[..n], mapping, boxes, key, pct, exp, p);
      if rows[n].exp == exp && b.Some? {
        var ys := AppendPercs(YsOf(st, exp), key, b.value, pct);
        assert YsOf(Gather(rows, mapping, boxes, key, pct), exp) == ys by {
          GatherKeysAgree(rows[..n], mapping, boxes, key, pct);
          StepYs(st, rows[n], b, key, pct, exp);
        }
        assert ListOf(ys, p) == ListOf(YsOf(st, exp), p) + [Perc(pct, b.value, p)] by {
          AppendPercsDistinct(YsOf(st, exp), key, b.value, pct, p);
        }
        assert ms == ms0 + [(RunX(rows[n]), b.value)];
        PercsOfSnoc(ms0, (RunX(rows[n]), b.value), p, pct);
      } else {
        assert YsOf(Gather(rows, mapping, boxes, key, pct), exp) == YsOf(st, exp) by {
          GatherKeysAgree(rows[..n], mapping, boxes, key, pct);
          StepYs(st, rows[n], b, key, pct, exp);
        }
        assert ms == ms0;
      }
    }
  }



  /** An experiment is in `mapped` exactly when one of its rows was
      matched ... */
  lemma {:induction false} GatherMappedKeys(rows: seq<Run>, mapping: Mapping, boxes: map<string, seq<real>>, key: seq<real>, pct: PercentileFn, exp: string)
    requires HasTypes(rows)
    ensures exp in Gather(rows, mapping, boxes, key, pct).mapped.entries <==> Matched(rows, exp, mapping, boxes) != []
    decreases |rows|
  {
    if rows != [] {
      var n := |rows| - 1;
      var st := Gather(rows[..n], mapping, boxes, key, pct);
      var b := MappedBox(mapping, boxes, rows[n]);
      GatherMappedKeys(rows[..n], mapping, boxes, key, pct, exp);
      assert exp in Gather(rows, mapping, boxes, key, pct).mapped.entries <==>
        exp in st.mapped.entries || (rows[n].exp == exp && b.Some?) by {
        StepMapped(st, rows[n], b, key, pct, exp);
      }
    }
  }

  /** ... and then holds the box of the last one. */
  lemma {:induction false} GatherMapped(rows: seq<Run>, mapping: Mapping, boxes: map<string, seq<real>>, key: seq<real>, pct: PercentileFn, exp: string)
    requires HasTypes(rows) && exp in Gather(rows, mapping, boxes, key, pct).mapped.entries
    ensures Matched(rows, exp, mapping, boxes) != []
    ensures Gather(rows, mapping, boxes, key, pct).mapped.entries[exp] ==
      Matched(rows, exp, mapping, boxes)[|Matched(rows, exp, mapping, boxes)| - 1].1
    decreases |rows|
  {
    GatherMappedKeys(rows, mapping, boxes, key, pct, exp);
    var n := |rows| - 1;
    var st := Gather(rows[..n], mapping, boxes, key, pct);
    var b := MappedBox(mapping, boxes, rows[n]);
    var m := Gather(rows, mapping, boxes, key, pct).mapped;
    assert (exp in m.entries <==> exp in st.mapped.entries || (rows[n].exp == exp && b.Some?))
      && (exp in m.entries ==> m.entries[exp] == if rows[n].exp == exp && b.Some? then b.value else st.mapped.entries[exp]) by {
      StepMapped(st, rows[n], b, key, pct, exp);
    }
    if rows[n].exp != exp || b.None? {
      GatherMapped(rows[..n], mapping, boxes, key, pct, exp);
    }
  }

  lemma ZipPoints(ms: seq<(real, seq<real>)>, p: real, pct: PercentileFn)
    ensures Zip(Fsts(ms), PercsOf(ms, p, pct)) == PointsOf(ms, p, pct)
  {
  }

  /** With no percentile repeated, pairing an experiment's x list with its
      list for a percentile of `key` gives each matched row's x value
      together with that percentile of the row's own box. */
  lemma GatherPairs(rows: seq<Run>, mapping: Mapping, boxes: map<string, seq<real>>, key: seq<real>, pct: PercentileFn, exp: string, p: real)
    requires HasTypes(rows) && Distinct(key) && p in key
    ensures Zip(XsOf(Gather(rows, mapping, boxes, key, pct), exp), ListOf(YsOf(Gather(rows, mapping, boxes, key, pct), exp), p))
      == PointsOf(Matched(rows, exp, mapping, boxes), p, pct)
  {
    GatherXs(rows, mapping, boxes, key, pct, exp);
    GatherYs(rows, mapping, boxes, key, pct, exp, p);
    ZipPoints(Matched(rows, exp, mapping, boxes), p, pct);
  }

  // ---------------------------------------------------------------------
  // The loop as written.

  /** As written, an experiment's x list holds the x value of every one of
      its rows, matched or not. */
  lemma {:induction false} GatherAsWrittenXs(rows: seq<Run>, mapping: Mapping, boxes: map<string, seq<real>>, key: seq<real>, pct: PercentileFn, exp: string)
    requires HasTypes(rows)
    ensures XsOf(GatherAsWritten(rows, mapping, boxes, key, pct), exp) == RowXs(rows, exp)
    decreases |rows|
  {
    if rows != [] {
      var n := |rows| - 1;
      GatherAsWrittenXs(rows[..n], mapping, boxes, key, pct, exp);
      StepAsWrittenXs(GatherAsWritten(rows[..n], mapping, boxes, key, pct), rows[n], MappedBox(mapping, boxes, rows[n]), key, pct, exp);
    }
  }

  /** The two passes agree on everything but the x lists' contents. */
  predicate SameButXs(a: LoopState, b: LoopState) {
    a.axisLabel == b.axisLabel && a.yss == b.yss && a.mapped == b.mapped && a.xss.Keys == b.xss.Keys
  }

  lemma StepSameButXs(a: LoopState, b: LoopState, row: Run, box: Option<seq<real>>, key: seq<real>, pct: PercentileFn)
    requires row.first.Some? && SameButXs(a, b)
    ensures SameButXs(StepAsWritten(a, row, box, key, pct), Step(b, row, box, key, pct))
  {
    assert row.exp in a.xss <==> row.exp in b.xss;
  }

  /** As written, the y lists, the mapped datasets and the axis label are
      those of the corrected loop. */
  lemma {:induction false} GatherAsWrittenSame(rows: seq<Run>, mapping: Mapping, boxes: map<string, seq<real>>, key: seq<real>, pct: PercentileFn)
    requires HasTypes(rows)
    ensures SameButXs(GatherAsWritten(rows, mapping, boxes, key, pct), Gather(rows, mapping, boxes, key, pct))
    decreases |rows|
  {
    if rows != [] {
      var n := |rows| - 1;
      GatherAsWrittenSame(rows[..n], mapping, boxes, key, pct);
      StepSameButXs(GatherAsWritten(rows[..n], mapping, boxes, key, pct), Gather(rows[..n], mapping, boxes, key, pct),
                    rows[n], MappedBox(mapping, boxes, rows[n]), key, pct);
    }
  }

  /** Two runs of one experiment with different x values, of which only
      the second has a dataset: as written, the first run's x value is
      paired with the percentile of the second run's dataset; corrected, the
      second run's x value is. */
  lemma GatherAsWrittenMispairs(r1: Run, r2: Run, mapping: Mapping, boxes: map<string, seq<real>>, p: real, pct: PercentileFn)
    requires r1.exp == r2.exp && r1.first.Some? && r2.first.Some? && RunX(r1) != RunX(r2)
    requires MappedBox(mapping, boxes, r1).None? && MappedBox(mapping, boxes, r2).Some?
    ensures var pt := Perc(pct, MappedBox(mapping, boxes, r2).value, p);
      && Zip(XsOf(GatherAsWritten([r1, r2], mapping, boxes, [p], pct), r1.exp),
             ListOf(YsOf(GatherAsWritten([r1, r2], mapping, boxes, [p], pct), r1.exp), p))
         == [(RunX(r1), pt)]
      && Zip(XsOf(Gather([r1, r2], mapping, boxes, [p], pct), r1.exp),
             ListOf(YsOf(Gather([r1, r2], mapping, boxes, [p], pct), r1.exp), p))
         == [(RunX(r2), pt)]
  {
    var rows := [r1, r2];
    var key := [p];
    var exp := r1.exp;
    assert rows[..1] == [r1];
    assert rows[..1][..0] == [];
    var v := Perc(pct, MappedBox(mapping, boxes, r2).value, p);
    var aw := GatherAsWritten(rows, mapping, boxes, key, pct);
    var st := Gather(rows, mapping, boxes, key, pct);
    assert Matched(rows[..1], exp, mapping, boxes) == [] by {
      assert Matched(rows[..1][..0], exp, mapping, boxes) == [];
    }
    assert Matched(rows, exp, mapping, boxes) == [(RunX(r2), MappedBox(mapping, boxes, r2).value)];
    assert RowXs(rows[..1], exp) == [RunX(r1)] by {
      assert RowXs(rows[..1][..0], exp) == [];
    }
    assert RowXs(rows, exp) == [RunX(r1), RunX(r2)];
    GatherAsWrittenXs(rows, mapping, boxes, key, pct, exp);
    GatherAsWrittenSame(rows, mapping, boxes, key, pct);
    GatherXs(rows, mapping, boxes, key, pct, exp);
    GatherYs(rows, mapping, boxes, key, pct, exp, p);
    assert ListOf(YsOf(aw, exp), p) == [v];
  }

  // ---------------------------------------------------------------------
  // The plotting half.

  /** One `ax.plot(xs, ys, label=exp)` of percentile `percentile`. */
  datatype LoopCurve = LoopCurve(exp: string, percentile: real, xs: seq<real>, ys: seq<real>)

  /** `yss[exp][percentile]` and `xss[exp]` (`KeyError` when missing),
      zipped, sorted by x and split again; the split of an empty zip raises
      `ValueError`. */
  function CurveFor(st: LoopState, exp: string, p: real): Result<LoopCurve> {
    if exp !in st.yss || p !in st.yss[exp] || exp !in st.xss then Err(KeyError)
    else
      var r := GetSortedValues(st.xss[exp], st.yss[exp][p], "xs");
      if r.0 == [] then Err(ValueError) else Ok(LoopCurve(exp, p, r.0, r.1))
  }

  /** The percentile loop of one experiment. */
  function ExpCurves(st: LoopState, exp: string, ks: seq<real>): Result<seq<LoopCurve>>
    decreases |ks|
  {
    if ks == [] then Ok([])
    else
      var init :- ExpCurves(st, exp, ks[..|ks| - 1]);
      var c :- CurveFor(st, exp, ks[|ks| - 1]);
      Ok(init + [c])
  }

  /** The experiment loop. */
  function CurvesOf(st: LoopState, exps: seq<string>, ks: seq<real>): Result<seq<LoopCurve>>
    decreases |exps|
  {
    if exps == [] then Ok([])
    else
      var init :- CurvesOf(st, exps[..|exps| - 1], ks);
      var cs :- ExpCurves(st, exps[|exps| - 1], ks);
      Ok(init + cs)
  }

  /** `sorted(mapped.items())`: experiment names are distinct, so they
      alone decide. */
  function MappedLe(a: (string, seq<real>), b: (string, seq<real>)): bool {
    StrLe(a.0, b.0)
  }

  function RealLe(a: real, b: real): bool {
    a <= b
  }

  function SortedExps(st: LoopState): seq<string> {
    Fsts(SortBy(Items(st.mapped), MappedLe))
  }

  /** The second half of `plot_loop`: over `sorted(mapped.items())` and
      `sorted(key)`. */
  function LoopCurves(st: LoopState, key: seq<real>): Result<seq<LoopCurve>> {
    CurvesOf(st, SortedExps(st), SortBy(key, RealLe))
  }

  /** `plot_loop`: the axis label and the curves. */
  function PlotLoop(rows: seq<Row>, mapping: Mapping, hist: Dict<string, HistDataset>, key: seq<real>, pct: PercentileFn)
    : Result<(Option<string>, seq<LoopCurve>)>
  {
    var st :- LoopGathered(rows, mapping, hist, key, pct);
    var cs :- LoopCurves(st, DefaultPercentiles(key));
    Ok((st.axisLabel, cs))
  }

  // ---------------------------------------------------------------------
  // The gathering loop as a method.

  /** The gathering loop of `plot_loop`, with the x value appended after a
      successful lookup. */
  method CollectLoop(rows: seq<Row>, mapping: Mapping, hist: Dict<string, HistDataset>, key: seq<real>, pct: PercentileFn)
    returns (r: Result<LoopState>)
    ensures r == LoopGathered(rows, mapping, hist, key, pct)
  {
    var ks := DefaultPercentiles(key);
    var boxes := Boxes(hist);
    ghost var runs := Runs(rows);
    var axisLabel: Option<string> := None;
    var xss: map<string, seq<real>> := map[];
    var yss: map<string, map<real, seq<real>>> := map[];
    var mapped: Dict<string, seq<real>> := Empty();
    for i := 0 to |rows|
      invariant HasTypes(runs[..i])
      invariant LoopState(axisLabel, xss, yss, mapped) == Gather(runs[..i], mapping, boxes, ks, pct)
    {
      var row := rows[i];
      if row.typ.keys == [] {
        assert !HasTypes(runs) by {
          assert runs[i].first.None?;
        }
        return Err(IndexError);
      }
      HasTypesSnoc(runs, i);
      GatherSnoc(runs, i, mapping, boxes, ks, pct);
      GatherKeysAgree(runs[..i], mapping, boxes, ks, pct);
      var exp := row.exp;
      axisLabel := Some(row.typ.keys[0]);
      if exp !in xss {
        xss := xss[exp := []];
        yss := yss[exp := map[]];
      }
      var box := MappedBox(mapping, boxes, RunOf(row));
      if box.Some? {
        xss := xss[exp := xss[exp] + [row.typ.entries[row.typ.keys[0]]]];
        mapped := Set(mapped, exp, box.value);
        var ys := AppendLoop(yss[exp], ks, box.value, pct);
        yss := yss[exp := ys];
      }
    }
    assert runs[..|rows|] == runs;
    return Ok(LoopState(axisLabel, xss, yss, mapped));
  }

  lemma HasTypesSnoc(rows: seq<Run>, i: nat)
    requires i < |rows| && HasTypes(rows[..i]) && rows[i].first.Some?
    ensures HasTypes(rows[..i + 1])
  {
    assert rows[..i + 1] == rows[..i] + [rows[i]];
  }

  /** The percentile loop for one matched row. */
  method AppendLoop(ys0: map<real, seq<real>>, key: seq<real>, box: seq<real>, pct: PercentileFn)
    returns (ys: map<real, seq<real>>)
    ensures ys == AppendPercs(ys0, key, box, pct)
  {
    ys := ys0;
    for j := 0 to |key|
      invariant ys == AppendPercs(ys0, key[..j], box, pct)
    {
      var p := key[j];
      var perc := match pct(box, p) case Some(v) => v case None => -1.0;
      if p !in ys {
        ys := ys[p := []];
      }
      ys := ys[p := ys[p] + [perc]];
      assert key[..j + 1][..j] == key[..j];
    }
    assert key[..|key|] == key;
  }

  // ---------------------------------------------------------------------
  // What is drawn.

  /** The percentile loop of one experiment succeeds exactly when each of
      its curves does, and then draws them in the order of `ks`. */
  lemma {:induction false} ExpCurvesSpec(st: LoopState, exp: string, ks: seq<real>)
    ensures ExpCurves(st, exp, ks).Ok? <==> forall j | 0 <= j < |ks| :: CurveFor(st, exp, ks[j]).Ok?
    ensures ExpCurves(st, exp, ks).Ok? ==>
      && |ExpCurves(st, exp, ks).value| == |ks|
      && forall j | 0 <= j < |ks| :: ExpCurves(st, exp, ks).value[j] == CurveFor(st, exp, ks[j]).value
    decreases |ks|
  {
    if ks != [] {
      var n := |ks| - 1;
      ExpCurvesSpec(st, exp, ks[..n]);
      if forall j | 0 <= j < |ks| :: CurveFor(st, exp, ks[j]).Ok? {
        forall j | 0 <= j < n ensures CurveFor(st, exp, ks[..n][j]).Ok? {
          assert ks[..n][j] == ks[j];
        }
      }
      if ExpCurves(st, exp, ks[..n]).Ok? {
        forall j | 0 <= j < n ensures CurveFor(st, exp, ks[j]).Ok? {
          assert ks[..n][j] == ks[j];
        }
      }
    }
  }

  /** The experiment loop succeeds when every experiment's percentile loop
      does. */
  lemma {:induction false} CurvesOfOk(st: LoopState, exps: seq<string>, ks: seq<real>)
    requires forall i, j | 0 <= i < |exps| && 0 <= j < |ks| :: CurveFor(st, exps[i], ks[j]).Ok?
    ensures CurvesOf(st, exps, ks).Ok?
    decreases |exps|
  {
    if exps != [] {
      var n := |exps| - 1;
      CurvesOfOk(st, exps[..n], ks);
      ExpCurvesSpec(st, exps[n], ks);
    }
  }

  /** Each curve drawn is that of one of the experiments and one of the
      percentiles. */
  lemma {:induction false} CurvesOfSource(st: LoopState, exps: seq<string>, ks: seq<real>, k: nat) returns (i: nat, j: nat)
    requires CurvesOf(st, exps, ks).Ok? && k < |CurvesOf(st, exps, ks).value|
    ensures i < |exps| && j < |ks| && CurveFor(st, exps[i], ks[j]) == Ok(CurvesOf(st, exps, ks).value[k])
    decreases |exps|
  {
    var n := |exps| - 1;
    var init := CurvesOf(st, exps[..n], ks).value;
    var last := ExpCurves(st, exps[n], ks).value;
    assert CurvesOf(st, exps, ks).value == init + last;
    if k < |init| {
      i, j := CurvesOfSource(st, exps[..n], ks, k);
      assert exps[..n][i] == exps[i];
    } else {
      ExpCurvesSpec(st, exps[n], ks);
      i, j := n, k - |init|;
    }
  }

  /** Each experiment and percentile has its curve drawn. */
  lemma {:induction false} CurvesOfDrawn(st: LoopState, exps: seq<string>, ks: seq<real>, i: nat, j: nat) returns (k: nat)
    requires CurvesOf(st, exps, ks).Ok? && i < |exps| && j < |ks|
    ensures k < |CurvesOf(st, exps, ks).value| && CurveFor(st, exps[i], ks[j]) == Ok(CurvesOf(st, exps, ks).value[k])
    decreases |exps|
  {
    var n := |exps| - 1;
    var init := CurvesOf(st, exps[..n], ks).value;
    var last := ExpCurves(st, exps[n], ks).value;
    assert CurvesOf(st, exps, ks).value == init + last;
    if i < n {
      k := CurvesOfDrawn(st, exps[..n], ks, i, j);
      assert exps[..n][i] == exps[i];
    } else {
      ExpCurvesSpec(st, exps[n], ks);
      k := |init| + j;
    }
  }

  /** The experiments drawn are those of `mapped`, in ascending order. */
  lemma SortedExpsSpec(st: LoopState)
    ensures forall e :: e in SortedExps(st) <==> e in st.mapped.entries
    ensures forall i, j | 0 <= i < j < |SortedExps(st)| :: StrLe(SortedExps(st)[i], SortedExps(st)[j])
  {
    var items := SortBy(Items(st.mapped), MappedLe);
    SortByItems(st.mapped, MappedLe);
    forall e | e in st.mapped.entries ensures e in SortedExps(st) {
      var i := SortByItemIndex(st.mapped, MappedLe, e);
      assert SortedExps(st)[i] == e;
    }
    assert TotalPreorder(MappedLe) by {
      forall a: (string, seq<real>), b: (string, seq<real>) ensures MappedLe(a, b) || MappedLe(b, a) {
        StrLeTotal(a.0, b.0);
      }
      forall a: (string, seq<real>), b: (string, seq<real>), c: (string, seq<real>) | MappedLe(a, b) && MappedLe(b, c)
        ensures MappedLe(a, c)
      {
        StrLeTransitive(a.0, b.0, c.0);
      }
    }
    SortBySorted(Items(st.mapped), MappedLe);
    forall i, j | 0 <= i < j < |SortedExps(st)| ensures StrLe(SortedExps(st)[i], SortedExps(st)[j]) {
      assert MappedLe(items[i], items[j]);
    }
  }

  /** A gathered experiment in `mapped` has a curve for every percentile of
      `key`. */
  lemma GatheredCurveOk(rows: seq<Run>, mapping: Mapping, boxes: map<string, seq<real>>, key: seq<real>, pct: PercentileFn,
                        exp: string, p: real)
    requires HasTypes(rows) && p in key
    requires exp in Gather(rows, mapping, boxes, key, pct).mapped.entries
    ensures CurveFor(Gather(rows, mapping, boxes, key, pct), exp, p).Ok?
  {
    var st := Gather(rows, mapping, boxes, key, pct);
    GatherMapped(rows, mapping, boxes, key, pct, exp);
    GatherXs(rows, mapping, boxes, key, pct, exp);
    GatherKeysAgree(rows, mapping, boxes, key, pct);
    GatherYsKeys(rows, mapping, boxes, key, pct, exp, p);
    assert exp in st.xss && exp in st.yss && p in st.yss[exp];
    GetSortedValuesSpec(st.xss[exp], st.yss[exp][p], "xs");
  }

  /** With no percentile repeated in `key`, the curve of an experiment and
      a percentile holds each matched row's x value paired with that
      percentile of the row's own box, ordered by x, rows with equal x
      values in the order of `content`. */
  lemma GatheredCurve(rows: seq<Run>, mapping: Mapping, boxes: map<string, seq<real>>, key: seq<real>, pct: PercentileFn,
                      exp: string, p: real, c: LoopCurve)
    requires HasTypes(rows) && Distinct(key) && p in key
    requires CurveFor(Gather(rows, mapping, boxes, key, pct), exp, p) == Ok(c)
    ensures c.exp == exp && c.percentile == p && |c.xs| == |c.ys|
    ensures multiset(Zip(c.xs, c.ys)) == multiset(PointsOf(Matched(rows, exp, mapping, boxes), p, pct))
    ensures forall i, j | 0 <= i < j < |c.xs| :: c.xs[i] <= c.xs[j]
    ensures forall e :: EquivClass(Zip(c.xs, c.ys), ByComponent(0), e)
                     == EquivClass(PointsOf(Matched(rows, exp, mapping, boxes), p, pct), ByComponent(0), e)
  {
    var st := Gather(rows, mapping, boxes, key, pct);
    GatherPairs(rows, mapping, boxes, key, pct, exp, p);
    GetSortedValuesSpec(st.xss[exp], st.yss[exp][p], "xs");
  }

  /** Every experiment in `mapped` and every percentile of `key` has its
      curve, so the plotting half cannot fail on a gathered state. */
  lemma GatheredCurvesOk(rows: seq<Run>, mapping: Mapping, boxes: map<string, seq<real>>, key: seq<real>, pct: PercentileFn)
    requires HasTypes(rows)
    ensures LoopCurves(Gather(rows, mapping, boxes, key, pct), key).Ok?
  {
    var st := Gather(rows, mapping, boxes, key, pct);
    var exps := SortedExps(st);
    var ks := SortBy(key, RealLe);
    SortedExpsSpec(st);
    SortByPermutes(key, RealLe);
    forall i, j | 0 <= i < |exps| && 0 <= j < |ks| ensures CurveFor(st, exps[i], ks[j]).Ok? {
      assert ks[j] in multiset(ks);
      GatheredCurveOk(rows, mapping, boxes, key, pct, exps[i], ks[j]);
    }
    CurvesOfOk(st, exps, ks);
  }

  /** `plot_loop` fails only when a row has an empty `type`, and then with
      an `IndexError`. */
  lemma PlotLoopError(rows: seq<Row>, mapping: Mapping, hist: Dict<string, HistDataset>, key: seq<real>, pct: PercentileFn)
    ensures PlotLoop(rows, mapping, hist, key, pct).Err? <==> exists i | 0 <= i < |rows| :: rows[i].typ.keys == []
    ensures PlotLoop(rows, mapping, hist, key, pct).Err? ==> PlotLoop(rows, mapping, hist, key, pct).error == IndexError
  {
    var runs := Runs(rows);
    if HasTypes(runs) {
      GatheredCurvesOk(runs, mapping, Boxes(hist), DefaultPercentiles(key), pct);
      forall i | 0 <= i < |rows| ensures rows[i].typ.keys != [] {
        assert runs[i].first.Some?;
      }
    } else {
      var i :| 0 <= i < |runs| && runs[i].first.None?;
      assert rows[i].typ.keys == [];
    }
  }

  /** The axis label is the first `type` key of the last row. */
  lemma PlotLoopLabel(rows: seq<Row>, mapping: Mapping, hist: Dict<string, HistDataset>, key: seq<real>, pct: PercentileFn)
    requires PlotLoop(rows, mapping, hist, key, pct).Ok?
    ensures PlotLoop(rows, mapping, hist, key, pct).value.0 ==
      if rows == [] then None else Some(rows[|rows| - 1].typ.keys[0])
  {
    var runs := Runs(rows);
    GatherLabel(runs, mapping, Boxes(hist), DefaultPercentiles(key), pct);
    if rows != [] {
      assert runs[|rows| - 1] == RunOf(rows[|rows| - 1]);
    }
  }

  /** Each curve drawn belongs to an experiment with a matched row and to a
      percentile of `key` (50 when `key` is empty). */
  lemma PlotLoopCurveSource(rows: seq<Row>, mapping: Mapping, hist: Dict<string, HistDataset>, key: seq<real>, pct: PercentileFn,
                            k: nat) returns (exp: string, p: real)
    requires PlotLoop(rows, mapping, hist, key, pct).Ok? && k < |PlotLoop(rows, mapping, hist, key, pct).value.1|
    ensures HasTypes(Runs(rows))
    ensures Matched(Runs(rows), exp, mapping, Boxes(hist)) != [] && p in DefaultPercentiles(key)
    ensures CurveFor(Gather(Runs(rows), mapping, Boxes(hist), DefaultPercentiles(key), pct), exp, p)
         == Ok(PlotLoop(rows, mapping, hist, key, pct).value.1[k])
  {
    var ks := DefaultPercentiles(key);
    var st := Gather(Runs(rows), mapping, Boxes(hist), ks, pct);
    var exps := SortedExps(st);
    var sks := SortBy(ks, RealLe);
    var i, j := CurvesOfSource(st, exps, sks, k);
    exp, p := exps[i], sks[j];
    SortedExpsSpec(st);
    GatherMappedKeys(Runs(rows), mapping, Boxes(hist), ks, pct, exp);
    SortByPermutes(ks, RealLe);
    assert p in multiset(sks);
  }

  /** Each experiment with a matched row has a curve drawn for each
      percentile of `key`. */
  lemma PlotLoopCurveDrawn(rows: seq<Row>, mapping: Mapping, hist: Dict<string, HistDataset>, key: seq<real>, pct: PercentileFn,
                           exp: string, p: real) returns (k: nat)
    requires HasTypes(Runs(rows))
    requires Matched(Runs(rows), exp, mapping, Boxes(hist)) != [] && p in DefaultPercentiles(key)
    ensures PlotLoop(rows, mapping, hist, key, pct).Ok? && k < |PlotLoop(rows, mapping, hist, key, pct).value.1|
    ensures CurveFor(Gather(Runs(rows), mapping, Boxes(hist), DefaultPercentiles(key), pct), exp, p)
         == Ok(PlotLoop(rows, mapping, hist, key, pct).value.1[k])
  {
    var ks := DefaultPercentiles(key);
    var st := Gather(Runs(rows), mapping, Boxes(hist), ks, pct);
    var exps := SortedExps(st);
    var sks := SortBy(ks, RealLe);
    GatheredCurvesOk(Runs(rows), mapping, Boxes(hist), ks, pct);
    SortedExpsSpec(st);
    GatherMappedKeys(Runs(rows), mapping, Boxes(hist), ks, pct, exp);
    var i :| 0 <= i < |exps| && exps[i] == exp;
    SortByPermutes(ks, RealLe);
    assert p in multiset(sks);
    var j :| 0 <= j < |sks| && sks[j] == p;
    k := CurvesOfDrawn(st, exps, sks, i, j);
  }

  // ---------------------------------------------------------------------
  // `plot_loop` as written: the x value appended before the lookup.

  /** What the gathering half of `plot_loop` as written leaves. */
  function LoopGatheredAsWritten(rows: seq<Row>, mapping: Mapping, hist: Dict<string, HistDataset>, key: seq<real>, pct: PercentileFn)
    : Result<LoopState>
  {
    var runs := Runs(rows);
    if HasTypes(runs) then Ok(GatherAsWritten(runs, mapping, Boxes(hist), DefaultPercentiles(key), pct)) else Err(IndexError)
  }

  /** `plot_loop` as written: the axis label and the curves. */
  function PlotLoopAsWritten(rows: seq<Row>, mapping: Mapping, hist: Dict<string, HistDataset>, key: seq<real>, pct: PercentileFn)
    : Result<(Option<string>, seq<LoopCurve>)>
  {
    var st :- LoopGatheredAsWritten(rows, mapping, hist, key, pct);
    var cs :- LoopCurves(st, DefaultPercentiles(key));
    Ok((st.axisLabel, cs))
  }

  /** Each matched row of an experiment is one of its rows. */
  lemma {:induction false} MatchedWithinRowXs(rows: seq<Run>, exp: string, mapping: Mapping, boxes: map<string, seq<real>>)
    requires HasTypes(rows)
    ensures |Matched(rows, exp, mapping, boxes)| <= |RowXs(rows, exp)|
    decreases |rows|
  {
    if rows != [] {
      MatchedWithinRowXs(rows[..|rows| - 1], exp, mapping, boxes);
    }
  }

  /** When every row of an experiment has a dataset, its x list as written
      is the corrected one: the two loops differ only after a missed run. */
  lemma {:induction false} RowXsAllMatched(rows: seq<Run>, exp: string, mapping: Mapping, boxes: map<string, seq<real>>)
    requires HasTypes(rows)
    requires forall i | 0 <= i < |rows| && rows[i].exp == exp :: MappedBox(mapping, boxes, rows[i]).Some?
    ensures RowXs(rows, exp) == Fsts(Matched(rows, exp, mapping, boxes))
    decreases |rows|
  {
    if rows != [] {
      var n := |rows| - 1;
      assert forall i | 0 <= i < n :: rows[..n][i] == rows[i];
      RowXsAllMatched(rows[..n], exp, mapping, boxes);
      var b := MappedBox(mapping, boxes, rows[n]);
      FstsSnoc(Matched(rows[..n], exp, mapping, boxes), (RunX(rows[n]), if b.Some? then b.value else []));
    }
  }

  /** As written, an experiment in `mapped` still has a curve for every
      percentile of `key`: its x list is never shorter than its y lists. */
  lemma GatheredAsWrittenCurveOk(rows: seq<Run>, mapping: Mapping, boxes: map<string, seq<real>>, key: seq<real>, pct: PercentileFn,
                                 exp: string, p: real)
    requires HasTypes(rows) && p in key
    requires exp in GatherAsWritten(rows, mapping, boxes, key, pct).mapped.entries
    ensures CurveFor(GatherAsWritten(rows, mapping, boxes, key, pct), exp, p).Ok?
  {
    var aw := GatherAsWritten(rows, mapping, boxes, key, pct);
    var st := Gather(rows, mapping, boxes, key, pct);
    GatherAsWrittenSame(rows, mapping, boxes, key, pct);
    GatherMapped(rows, mapping, boxes, key, pct, exp);
    GatherXs(rows, mapping, boxes, key, pct, exp);
    GatherKeysAgree(rows, mapping, boxes, key, pct);
    GatherYsKeys(rows, mapping, boxes, key, pct, exp, p);
    GatherAsWrittenXs(rows, mapping, boxes, key, pct, exp);
    MatchedWithinRowXs(rows, exp, mapping, boxes);
    assert exp in st.xss && exp in aw.xss && exp in aw.yss && p in aw.yss[exp];
    GetSortedValuesSpec(aw.xss[exp], aw.yss[exp][p], "xs");
  }

  /** As written, with no percentile repeated in `key`, the curve of an
      experiment and a percentile pairs the x values of ALL its rows, by
      position, with that percentile of each MATCHED row's box (`zip`
      dropping the surplus x values), ordered by x. */
  lemma GatheredAsWrittenCurve(rows: seq<Run>, mapping: Mapping, boxes: map<string, seq<real>>, key: seq<real>, pct: PercentileFn,
                               exp: string, p: real, c: LoopCurve)
    requires HasTypes(rows) && Distinct(key) && p in key
    requires CurveFor(GatherAsWritten(rows, mapping, boxes, key, pct), exp, p) == Ok(c)
    ensures c.exp == exp && c.percentile == p && |c.xs| == |c.ys|
    ensures multiset(Zip(c.xs, c.ys)) == multiset(Zip(RowXs(rows, exp), PercsOf(Matched(rows, exp, mapping, boxes), p, pct)))
    ensures forall i, j | 0 <= i < j < |c.xs| :: c.xs[i] <= c.xs[j]
    ensures forall e :: EquivClass(Zip(c.xs, c.ys), ByComponent(0), e)
                     == EquivClass(Zip(RowXs(rows, exp), PercsOf(Matched(rows, exp, mapping, boxes), p, pct)), ByComponent(0), e)
  {
    var aw := GatherAsWritten(rows, mapping, boxes, key, pct);
    GatherAsWrittenSame(rows, mapping, boxes, key, pct);
    GatherAsWrittenXs(rows, mapping, boxes, key, pct, exp);
    GatherYs(rows, mapping, boxes, key, pct, exp, p);
    assert aw.xss[exp] == RowXs(rows, exp);
    assert aw.yss[exp][p] == PercsOf(Matched(rows, exp, mapping, boxes), p, pct);
    GetSortedValuesSpec(aw.xss[exp], aw.yss[exp][p], "xs");
  }

  /** As written, the plotting half cannot fail on a gathered state either. */
  lemma GatheredAsWrittenCurvesOk(rows: seq<Run>, mapping: Mapping, boxes: map<string, seq<real>>, key: seq<real>, pct: PercentileFn)
    requires HasTypes(rows)
    ensures LoopCurves(GatherAsWritten(rows, mapping, boxes, key, pct), key).Ok?
  {
    var aw := GatherAsWritten(rows, mapping, boxes, key, pct);
    var exps := SortedExps(aw);
    var ks := SortBy(key, RealLe);
    SortedExpsSpec(aw);
    SortByPermutes(key, RealLe);
    forall i, j | 0 <= i < |exps| && 0 <= j < |ks| ensures CurveFor(aw, exps[i], ks[j]).Ok? {
      assert ks[j] in multiset(ks);
      GatheredAsWrittenCurveOk(rows, mapping, boxes, key, pct, exps[i], ks[j]);
    }
    CurvesOfOk(aw, exps, ks);
  }

  /** `plot_loop` as written fails only when a row has an empty `type`, and
      then with an `IndexError`. */
  lemma PlotLoopAsWrittenError(rows: seq<Row>, mapping: Mapping, hist: Dict<string, HistDataset>, key: seq<real>, pct: PercentileFn)
    ensures PlotLoopAsWritten(rows, mapping, hist, key, pct).Err? <==> exists i | 0 <= i < |rows| :: rows[i].typ.keys == []
    ensures PlotLoopAsWritten(rows, mapping, hist, key, pct).Err? ==> PlotLoopAsWritten(rows, mapping, hist, key, pct).error == IndexError
  {
    var runs := Runs(rows);
    if HasTypes(runs) {
      GatheredAsWrittenCurvesOk(runs, mapping, Boxes(hist), DefaultPercentiles(key), pct);
      forall i | 0 <= i < |rows| ensures rows[i].typ.keys != [] {
        assert runs[i].first.Some?;
      }
    } else {
      var i :| 0 <= i < |runs| && runs[i].first.None?;
      assert rows[i].typ.keys == [];
    }
  }

  /** As written, the axis label is the first `type` key of the last row. */
  lemma PlotLoopAsWrittenLabel(rows: seq<Row>, mapping: Mapping, hist: Dict<string, HistDataset>, key: seq<real>, pct: PercentileFn)
    requires PlotLoopAsWritten(rows, mapping, hist, key, pct).Ok?
    ensures PlotLoopAsWritten(rows, mapping, hist, key, pct).value.0 ==
      if rows == [] then None else Some(rows[|rows| - 1].typ.keys[0])
  {
    var runs := Runs(rows);
    GatherAsWrittenSame(runs, mapping, Boxes(hist), DefaultPercentiles(key), pct);
    GatherLabel(runs, mapping, Boxes(hist), DefaultPercentiles(key), pct);
    if rows != [] {
      assert runs[|rows| - 1] == RunOf(rows[|rows| - 1]);
    }
  }

  /** As written, each curve drawn belongs to an experiment with a matched
      row and to a percentile of `key` (`[50]` when `key` is empty). */
  lemma PlotLoopAsWrittenCurveSource(rows: seq<Row>, mapping: Mapping, hist: Dict<string, HistDataset>, key: seq<real>, pct: PercentileFn,
                                     k: nat) returns (exp: string, p: real)
    requires PlotLoopAsWritten(rows, mapping, hist, key, pct).Ok? && k < |PlotLoopAsWritten(rows, mapping, hist, key, pct).value.1|
    ensures HasTypes(Runs(rows))
    ensures Matched(Runs(rows), exp, mapping, Boxes(hist)) != [] && p in DefaultPercentiles(key)
    ensures CurveFor(GatherAsWritten(Runs(rows), mapping, Boxes(hist), DefaultPercentiles(key), pct), exp, p)
         == Ok(PlotLoopAsWritten(rows, mapping, hist, key, pct).value.1[k])
  {
    var ks := DefaultPercentiles(key);
    var aw := GatherAsWritten(Runs(rows), mapping, Boxes(hist), ks, pct);
    var exps := SortedExps(aw);
    var sks := SortBy(ks, RealLe);
    var i, j := CurvesOfSource(aw, exps, sks, k);
    exp, p := exps[i], sks[j];
    SortedExpsSpec(aw);
    GatherAsWrittenSame(Runs(rows), mapping, Boxes(hist), ks, pct);
    GatherMappedKeys(Runs(rows), mapping, Boxes(hist), ks, pct, exp);
    SortByPermutes(ks, RealLe);
    assert p in multiset(sks);
  }

  /** As written, each experiment with a matched row has a curve drawn for
      each percentile of `key`. */
  lemma PlotLoopAsWrittenCurveDrawn(rows: seq<Row>, mapping: Mapping, hist: Dict<string, HistDataset>, key: seq<real>, pct: PercentileFn,
                                    exp: string, p: real) returns (k: nat)
    requires HasTypes(Runs(rows))
    requires Matched(Runs(rows), exp, mapping, Boxes(hist)) != [] && p in DefaultPercentiles(key)
    ensures PlotLoopAsWritten(rows, mapping, hist, key, pct).Ok? && k < |PlotLoopAsWritten(rows, mapping, hist, key, pct).value.1|
    ensures CurveFor(GatherAsWritten(Runs(rows), mapping, Boxes(hist), DefaultPercentiles(key), pct), exp, p)
         == Ok(PlotLoopAsWritten(rows, mapping, hist, key, pct).value.1[k])
  {
    var ks := DefaultPercentiles(key);
    var aw := GatherAsWritten(Runs(rows), mapping, Boxes(hist), ks, pct);
    var exps := SortedExps(aw);
    var sks := SortBy(ks, RealLe);
    GatheredAsWrittenCurvesOk(Runs(rows), mapping, Boxes(hist), ks, pct);
    SortedExpsSpec(aw);
    GatherAsWrittenSame(Runs(rows), mapping, Boxes(hist), ks, pct);
    GatherMappedKeys(Runs(rows), mapping, Boxes(hist), ks, pct, exp);
    var i :| 0 <= i < |exps| && exps[i] == exp;
    SortByPermutes(ks, RealLe);
    assert p in multiset(sks);
    var j :| 0 <= j < |sks| && sks[j] == p;
    k := CurvesOfDrawn(aw, exps, sks, i, j);
  }
}
