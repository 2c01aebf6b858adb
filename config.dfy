/** `plot`: the top-level driver. It plots the sequence data, extracts the
    histogram data, stops early when there is nothing to plot, checks that
    the options which only work in pairs are given in pairs, and then draws
    the progression and loop plots. The drawing itself is left out; what is
    kept is which plots are drawn, with what data, and which exception the
    modelled steps raise. */
module Config {
  import opened Runtime
  import opened Dicts
  import opened Matches
  import opened Extraction
  import opened Progression
  import opened Curves

  /** The keyword arguments of `plot`. Python's truthiness is kept: an empty
      string or list stands for a missing option, and a mapping function is
      given or not. `round` stands for `round(_, round_ms_digits)` and
      `basepath` for the one passed on through `**kwargs`. */
  datatype PlotOptions = PlotOptions(
    basepath: string,
    defaultPlots: bool,
    percentiles: seq<seq<real>>,
    histogramFile: string,
    round: real -> real,
    sequenceFile: string,
    mapping: Option<string -> real>,
    xLabel: string,
    loopFile: string,
    loopOrder: seq<string>)

  /** What `plot` draws or reports, in order. */
  datatype Action =
    | SequencePlot          // plot_sequence
    | NoSequenceData        // 'No sequence data found'
    | HistogramPlots        // _plot_default_histogram
    | NoHistogramData       // 'No histogram data found'
    | NoPercentiles         // 'you need to define the percentiles ...'
    | ProgressionPlot(percentiles: seq<real>, curves: seq<Curve>, limits: (real, real))
    | LoopPlot              // _plot_loop

  /** The actions taken, and the exception that ended the call, if any. */
  datatype PlotRun = PlotRun(actions: seq<Action>, error: Option<PyError>)

  function HistOpts(o: PlotOptions): HistOptions {
    HistOptions(o.basepath, o.histogramFile, o.round, o.mapping)
  }

  /** `actions` followed by the run `r`. */
  function Then(actions: seq<Action>, r: PlotRun): PlotRun {
    PlotRun(actions + r.actions, r.error)
  }

  /** `_plot_sequence`. */
  function SequenceStep(paths: PathsArg, o: PlotOptions, fs: FileSystem): PlotRun {
    if o.sequenceFile == "" then PlotRun([], None)
    else
      match ExtractSequenceSpec(paths, o.basepath, o.sequenceFile, fs)
      case Err(e) => PlotRun([], Some(e))
      case Ok(d) => PlotRun([if d.keys == [] then NoSequenceData else SequencePlot], None)
  }

  /** `_plot_progression`: one `plot_progression` per percentile list, the
      first exception ending the loop. */
  function Progressions(h: Dict<string, HistDataset>, pss: seq<seq<real>>, pct: PercentileFn): PlotRun
    decreases |pss|
  {
    if pss == [] then PlotRun([], None)
    else
      var before := Progressions(h, pss[..|pss| - 1], pct);
      var ps := pss[|pss| - 1];
      if before.error.Some? then before
      else
        match ProgressionValues(h, ps, pct)
        case Err(e) => PlotRun(before.actions, Some(e))
        case Ok(v) =>
          match PlotData(v)
          case Err(e) => PlotRun(before.actions, Some(e))
          case Ok(d) => PlotRun(before.actions + [ProgressionPlot(ps, d.0, d.1)], None)
  }

  /** Whether the first pair of options is given by halves. */
  predicate ProgressionMismatch(o: PlotOptions) {
    o.mapping.Some? != (o.xLabel != "")
  }

  /** Whether the second pair of options is given by halves. */
  predicate LoopMismatch(o: PlotOptions) {
    (o.loopFile != "") != (o.loopOrder != [])
  }

  /** Everything from the percentile check on; `hist` is `None` when
      `hist_data` was never assigned. */
  function Checks(o: PlotOptions, hist: Option<Dict<string, HistDataset>>, pct: PercentileFn): PlotRun {
    if o.percentiles == [] then PlotRun([NoPercentiles], None)
    else if ProgressionMismatch(o) then PlotRun([], Some(RuntimeError))
    else
      var prog :=
        if o.mapping.None? then PlotRun([], None)
        else if hist.None? then PlotRun([], Some(UnboundLocalError))
        else Progressions(hist.value, o.percentiles, pct);
      if prog.error.Some? then prog
      else if LoopMismatch(o) then PlotRun(prog.actions, Some(RuntimeError))
      else if o.loopFile == "" then prog
      else if hist.None? then PlotRun(prog.actions, Some(UnboundLocalError))
      else PlotRun(prog.actions + [LoopPlot], None)
  }

  /** `plot(paths, ...)`: `sequence` is what `_plot_sequence` did and
      `hist` what `extract_hist_data` returns; the latter is only looked at
      when a histogram file is given. */
  function PlotWith(o: PlotOptions, sequence: PlotRun, hist: Result<Dict<string, HistDataset>>, pct: PercentileFn): PlotRun {
    if sequence.error.Some? then sequence
    else if o.histogramFile == "" then Then(sequence.actions, Checks(o, None, pct))
    else
      match hist
      case Err(e) => PlotRun(sequence.actions, Some(e))
      case Ok(h) =>
        if h.keys == [] then PlotRun(sequence.actions + [NoHistogramData], None)
        else Then(sequence.actions + (if o.defaultPlots then [HistogramPlots] else []), Checks(o, Some(h), pct))
  }

  /** `plot(paths, ...)` on the file system `fs`. */
  function Plot(paths: PathsArg, o: PlotOptions, fs: FileSystem, pct: PercentileFn): PlotRun {
    PlotWith(o, SequenceStep(paths, o, fs), ExtractHistSpec(paths, HistOpts(o), fs), pct)
  }

  /** Whether the call gets past the sequence plot, the histogram
      extraction and the two early returns, to the option checks. */
  predicate ReachesChecks(o: PlotOptions, sequence: PlotRun, hist: Result<Dict<string, HistDataset>>) {
    && sequence.error.None?
    && (o.histogramFile != "" ==> hist.Ok? && hist.value.keys != [])
    && o.percentiles != []
  }

  // ---------------------------------------------------------------------
  // Progression plots

  /** Every dataset has an x value. */
  predicate AllHaveXValue(h: Dict<string, HistDataset>) {
    forall n | n in h.entries :: h.entries[n].xValue.Some?
  }

  /** `a` is the progression plot `plot_progression` draws for the
      percentile list `ps`. */
  predicate DrawnFor(h: Dict<string, HistDataset>, ps: seq<real>, pct: PercentileFn, a: Action) {
    && a.ProgressionPlot?
    && a.percentiles == ps
    && ProgressionValues(h, ps, pct).Ok?
    && PlotData(ProgressionValues(h, ps, pct).value) == Ok((a.curves, a.limits))
  }

  /** When every dataset has an x value, each percentile list gets its
      progression plot, in order, and none fails. */
  lemma {:induction false} ProgressionsOk(h: Dict<string, HistDataset>, pss: seq<seq<real>>, pct: PercentileFn)
    requires AllHaveXValue(h)
    ensures Progressions(h, pss, pct).error.None?
    ensures |Progressions(h, pss, pct).actions| == |pss|
    ensures forall i | 0 <= i < |pss| :: DrawnFor(h, pss[i], pct, Progressions(h, pss, pct).actions[i])
    decreases |pss|
  {
    if pss != [] {
      var n := |pss| - 1;
      var before := Progressions(h, pss[..n], pct).actions;
      ProgressionsOk(h, pss[..n], pct);
      ProgressionError(h, pss[n], pct);
      var v := ProgressionValues(h, pss[n], pct).value;
      ProgressionPlotOk(h, pss[n], pct, v);
      var d := PlotData(v).value;
      var acts := Progressions(h, pss, pct).actions;
      assert acts == before + [ProgressionPlot(pss[n], d.0, d.1)];
      forall i | 0 <= i < |pss| ensures DrawnFor(h, pss[i], pct, acts[i]) {
        if i < n {
          assert pss[..n][i] == pss[i] && acts[i] == before[i];
        }
      }
    }
  }

  // ---------------------------------------------------------------------
  // The option checks

  /** The checks raise `RuntimeError` exactly when one of the two pairs is
      given by halves, the second pair being checked only when the
      progression plots did not already fail on an unassigned `hist_data`. */
  lemma ChecksRuntimeError(o: PlotOptions, hist: Option<Dict<string, HistDataset>>, pct: PercentileFn)
    requires o.percentiles != []
    requires hist.Some? && o.mapping.Some? ==> AllHaveXValue(hist.value)
    ensures Checks(o, hist, pct).error == Some(RuntimeError) <==>
      ProgressionMismatch(o) || (!(o.mapping.Some? && hist.None?) && LoopMismatch(o))
  {
    if hist.Some? && o.mapping.Some? {
      ProgressionsOk(hist.value, o.percentiles, pct);
    }
  }

  /** The checks raise `UnboundLocalError` exactly when a consistent pair
      asks for a plot while `hist_data` was never assigned. */
  lemma ChecksUnbound(o: PlotOptions, hist: Option<Dict<string, HistDataset>>, pct: PercentileFn)
    requires o.percentiles != []
    requires hist.Some? && o.mapping.Some? ==> AllHaveXValue(hist.value)
    ensures Checks(o, hist, pct).error == Some(UnboundLocalError) <==>
      hist.None? && !ProgressionMismatch(o) && (o.mapping.Some? || (!LoopMismatch(o) && o.loopFile != ""))
  {
    if hist.Some? && o.mapping.Some? {
      ProgressionsOk(hist.value, o.percentiles, pct);
    }
  }

  /** The checks raise nothing else. */
  lemma ChecksErrors(o: PlotOptions, hist: Option<Dict<string, HistDataset>>, pct: PercentileFn)
    requires hist.Some? && o.mapping.Some? ==> AllHaveXValue(hist.value)
    ensures Checks(o, hist, pct).error in {None, Some(RuntimeError), Some(UnboundLocalError)}
  {
    if hist.Some? && o.mapping.Some? {
      ProgressionsOk(hist.value, o.percentiles, pct);
    }
  }

  /** The checks draw the loop plot exactly when there is histogram data,
      both pairs are given in full or not at all, and a loop file is
      given. */
  lemma ChecksLoop(o: PlotOptions, hist: Option<Dict<string, HistDataset>>, pct: PercentileFn)
    requires o.percentiles != []
    requires hist.Some? && o.mapping.Some? ==> AllHaveXValue(hist.value)
    ensures LoopPlot in Checks(o, hist, pct).actions <==>
      hist.Some? && !ProgressionMismatch(o) && !LoopMismatch(o) && o.loopFile != ""
  {
    if hist.Some? && o.mapping.Some? {
      ProgressionsOk(hist.value, o.percentiles, pct);
    }
  }

  /** A progression plot drawn by the checks is one of a percentile list,
      drawn with histogram data and both progression options. */
  lemma ChecksProgressionNeeds(o: PlotOptions, hist: Option<Dict<string, HistDataset>>, pct: PercentileFn, a: Action)
    requires a in Checks(o, hist, pct).actions && a.ProgressionPlot?
    ensures hist.Some? && o.mapping.Some? && o.xLabel != "" && a.percentiles in o.percentiles
  {
    if hist.Some? && o.mapping.Some? {
      ProgressionsActions(hist.value, o.percentiles, pct, a);
    }
  }

  /** Every action of the progression loop is the plot of one of its
      percentile lists. */
  lemma {:induction false} ProgressionsActions(h: Dict<string, HistDataset>, pss: seq<seq<real>>, pct: PercentileFn, a: Action)
    requires a in Progressions(h, pss, pct).actions
    ensures a.ProgressionPlot? && a.percentiles in pss
    decreases |pss|
  {
    var n := |pss| - 1;
    var before := Progressions(h, pss[..n], pct);
    if a in before.actions {
      ProgressionsActions(h, pss[..n], pct, a);
      assert a.percentiles in pss[..n];
    }
  }

  /** With histogram data and both progression options, the checks start
      with one progression plot per percentile list, in order. */
  lemma ChecksProgressions(o: PlotOptions, h: Dict<string, HistDataset>, pct: PercentileFn)
    requires o.percentiles != [] && o.mapping.Some? && o.xLabel != "" && AllHaveXValue(h)
    ensures |o.percentiles| <= |Checks(o, Some(h), pct).actions|
    ensures Checks(o, Some(h), pct).actions[..|o.percentiles|] == Progressions(h, o.percentiles, pct).actions
  {
    ProgressionsOk(h, o.percentiles, pct);
  }

  // ---------------------------------------------------------------------
  // Properties of `plot`

  /** What the checks may assume of `hist`: the extraction was given the
      mapping function, so with one every dataset has an x value. */
  predicate XValuesGiven(o: PlotOptions, hist: Result<Dict<string, HistDataset>>) {
    o.mapping.Some? && hist.Ok? ==> AllHaveXValue(hist.value)
  }

  /** `extract_hist_data` gives what the checks assume. */
  lemma PlotExtraction(paths: PathsArg, o: PlotOptions, fs: FileSystem)
    ensures XValuesGiven(o, ExtractHistSpec(paths, HistOpts(o), fs))
  {
    if o.mapping.Some? && ExtractHistSpec(paths, HistOpts(o), fs).Ok? {
      HistXValues(paths, HistOpts(o), fs);
    }
  }

  /** `hist_data` at the checks: unassigned without a histogram file. */
  function HistAt(o: PlotOptions, hist: Result<Dict<string, HistDataset>>): Option<Dict<string, HistDataset>>
    requires o.histogramFile != "" ==> hist.Ok?
  {
    if o.histogramFile == "" then None else Some(hist.value)
  }

  /** The actions taken before the checks. */
  function Before(o: PlotOptions, sequence: PlotRun): seq<Action> {
    sequence.actions + (if o.histogramFile != "" && o.defaultPlots then [HistogramPlots] else [])
  }

  /** A call that gets to the checks first draws the sequence and default
      histogram plots and then does what the checks do. */
  lemma PlotReached(o: PlotOptions, sequence: PlotRun, hist: Result<Dict<string, HistDataset>>, pct: PercentileFn)
    requires ReachesChecks(o, sequence, hist) && XValuesGiven(o, hist)
    ensures PlotWith(o, sequence, hist, pct) == Then(Before(o, sequence), Checks(o, HistAt(o, hist), pct))
    ensures HistAt(o, hist).Some? && o.mapping.Some? ==> AllHaveXValue(HistAt(o, hist).value)
  {
  }

  /** A call that stops before the checks adds no progression or loop plot
      to what the sequence plot did, and raises only what the sequence or
      histogram extraction raised. */
  lemma PlotEarlyExit(o: PlotOptions, sequence: PlotRun, hist: Result<Dict<string, HistDataset>>, pct: PercentileFn)
    requires !ReachesChecks(o, sequence, hist)
    ensures forall a | a in PlotWith(o, sequence, hist, pct).actions ::
      a in sequence.actions || (!a.ProgressionPlot? && !a.LoopPlot?)
    ensures PlotWith(o, sequence, hist, pct).error ==
      if sequence.error.Some? then sequence.error
      else if o.histogramFile != "" && hist.Err? then Some(hist.error)
      else None
  {
  }

  /** Past the early returns, `RuntimeError` is raised exactly when one of
      the two pairs is given by halves (the second one only counting when
      the progression plots were not asked for without a histogram file). */
  lemma PlotRuntimeError(o: PlotOptions, sequence: PlotRun, hist: Result<Dict<string, HistDataset>>, pct: PercentileFn)
    requires ReachesChecks(o, sequence, hist) && XValuesGiven(o, hist)
    ensures PlotWith(o, sequence, hist, pct).error == Some(RuntimeError) <==>
      ProgressionMismatch(o) || (!(o.mapping.Some? && o.histogramFile == "") && LoopMismatch(o))
  {
    PlotReached(o, sequence, hist, pct);
    ChecksRuntimeError(o, HistAt(o, hist), pct);
  }

  /** Past the early returns, `UnboundLocalError` is raised exactly when a
      consistent pair asks for a plot while no histogram file was given. */
  lemma PlotUnbound(o: PlotOptions, sequence: PlotRun, hist: Result<Dict<string, HistDataset>>, pct: PercentileFn)
    requires ReachesChecks(o, sequence, hist) && XValuesGiven(o, hist)
    ensures PlotWith(o, sequence, hist, pct).error == Some(UnboundLocalError) <==>
      && o.histogramFile == ""
      && !ProgressionMismatch(o)
      && (o.mapping.Some? || (!LoopMismatch(o) && o.loopFile != ""))
  {
    PlotReached(o, sequence, hist, pct);
    ChecksUnbound(o, HistAt(o, hist), pct);
  }

  /** Past the early returns, nothing else is raised. */
  lemma PlotChecksErrors(o: PlotOptions, sequence: PlotRun, hist: Result<Dict<string, HistDataset>>, pct: PercentileFn)
    requires ReachesChecks(o, sequence, hist) && XValuesGiven(o, hist)
    ensures PlotWith(o, sequence, hist, pct).error in {None, Some(RuntimeError), Some(UnboundLocalError)}
  {
    PlotReached(o, sequence, hist, pct);
    ChecksErrors(o, HistAt(o, hist), pct);
  }

  /** The loop plot is drawn exactly when the call gets to the checks with
      histogram data, both pairs given in full or not at all, and a loop
      file given. */
  lemma PlotLoopDrawn(o: PlotOptions, sequence: PlotRun, hist: Result<Dict<string, HistDataset>>, pct: PercentileFn)
    requires XValuesGiven(o, hist) && LoopPlot !in sequence.actions
    ensures LoopPlot in PlotWith(o, sequence, hist, pct).actions <==>
      && ReachesChecks(o, sequence, hist)
      && o.histogramFile != ""
      && !ProgressionMismatch(o) && !LoopMismatch(o)
      && o.loopFile != ""
  {
    if !ReachesChecks(o, sequence, hist) {
      PlotEarlyExit(o, sequence, hist, pct);
    } else {
      PlotReached(o, sequence, hist, pct);
      ChecksLoop(o, HistAt(o, hist), pct);
    }
  }

  /** With the histogram data and both progression options given, the
      progression plots of all the percentile lists are drawn one after the
      other, right after the sequence and default plots; `ProgressionsOk`
      says what each holds. */
  lemma PlotProgressionsDrawn(o: PlotOptions, sequence: PlotRun, hist: Result<Dict<string, HistDataset>>, pct: PercentileFn)
    returns (k: nat)
    requires ReachesChecks(o, sequence, hist) && XValuesGiven(o, hist)
    requires o.histogramFile != "" && o.mapping.Some? && o.xLabel != ""
    ensures AllHaveXValue(hist.value)
    ensures k == |Before(o, sequence)| && k + |o.percentiles| <= |PlotWith(o, sequence, hist, pct).actions|
    ensures PlotWith(o, sequence, hist, pct).actions[k..k + |o.percentiles|] == Progressions(hist.value, o.percentiles, pct).actions
  {
    PlotReached(o, sequence, hist, pct);
    ChecksProgressions(o, hist.value, pct);
    k := |Before(o, sequence)|;
    SliceAfter(Before(o, sequence), Checks(o, Some(hist.value), pct).actions, |o.percentiles|);
  }

  lemma SliceAfter<T>(a: seq<T>, b: seq<T>, n: nat)
    requires n <= |b|
    ensures (a + b)[|a|..|a| + n] == b[..n]
  {
  }

  /** A progression plot not drawn by the sequence plot is drawn only when
      the call gets to the checks with histogram data and both progression
      options, and only for one of the percentile lists. */
  lemma PlotProgressionNeeds(o: PlotOptions, sequence: PlotRun, hist: Result<Dict<string, HistDataset>>, pct: PercentileFn, a: Action)
    requires XValuesGiven(o, hist)
    requires a in PlotWith(o, sequence, hist, pct).actions && a.ProgressionPlot? && a !in sequence.actions
    ensures ReachesChecks(o, sequence, hist) && o.histogramFile != "" && o.mapping.Some? && o.xLabel != ""
    ensures a.percentiles in o.percentiles
  {
    if !ReachesChecks(o, sequence, hist) {
      PlotEarlyExit(o, sequence, hist, pct);
    } else {
      PlotReached(o, sequence, hist, pct);
      assert a !in Before(o, sequence);
      ChecksProgressionNeeds(o, HistAt(o, hist), pct, a);
    }
  }

  /** `_plot_sequence` draws no progression or loop plot. */
  lemma SequenceStepActions(paths: PathsArg, o: PlotOptions, fs: FileSystem)
    ensures forall a | a in SequenceStep(paths, o, fs).actions :: a == SequencePlot || a == NoSequenceData
  {
  }
}
