/** `extract_hist_data` and `extract_sequence_data`: the per-experiment
    drivers. Each match of a specifier's pattern is read with `read_2c_csv`
    and run through the transforms; the results are stored under a display
    name derived from the specifier and, when the pattern matched several
    files, from the match itself. */
module Extraction {
  import opened Runtime
  import opened Dicts
  import opened Strings
  import opened Sums
  import opened Loader
  import opened Transforms
  import opened Accumulation
  import opened Matches

  // ---------------------------------------------------------------------
  // Naming

  /** The part of a match's path that `extract_hist_data` appends to the
      base name: `basepath`, `path` and the file name removed, `//`
      collapsed to `/`, and the last character dropped. With `basepath`
      `'.'` or `'..'` the variable `histo` is never assigned, and the first
      `histo.replace` raises `UnboundLocalError`. */
  function HistSuffix(basepath: string, path: string, filename: string, exp: string): (r: Result<string>)
    ensures r.Err? <==> basepath == "." || basepath == ".."
    ensures r.Err? ==> r.error == UnboundLocalError
  {
    if basepath == "." || basepath == ".." then Err(UnboundLocalError)
    else
      var histo := ReplaceAll(exp, basepath, "");
      var histo := ReplaceAll(histo, path, "");
      var histo := ReplaceAll(histo, filename, "");
      var histo := ReplaceAll(histo, "//", "/");
      Ok(DropLast(histo))
  }

  /** The name `extract_hist_data` stores a match under: the base name when
      the pattern matched a single file, the base name and the suffix when
      it matched several. */
  function HistName(m: Match, basepath: string, filename: string): (r: Result<string>)
    ensures r.Err? <==> basepath == "." || basepath == ".."
    ensures r.Ok? && !m.several ==> r.value == m.baseName
    ensures r.Ok? && m.several ==> r.value == m.baseName + HistSuffix(basepath, m.path, filename, m.exp).value
  {
    var suffix :- HistSuffix(basepath, m.path, filename, m.exp);
    Ok(if m.several then m.baseName + suffix else m.baseName)
  }

  /** The suffix `extract_sequence_data` uses: only `basepath` and the file
      name are removed; `path` stays, `//` is not collapsed and no
      character is dropped. */
  function SeqSuffix(basepath: string, filename: string, exp: string): string {
    ReplaceAll(ReplaceAll(exp, basepath, ""), filename, "")
  }

  /** The name `extract_sequence_data` stores a match under; it never raises. */
  function SeqName(m: Match, basepath: string, filename: string): (r: string)
    ensures !m.several ==> r == m.baseName
    ensures m.several ==> r == m.baseName + SeqSuffix(basepath, filename, m.exp)
  {
    if m.several then m.baseName + SeqSuffix(basepath, filename, m.exp) else m.baseName
  }

  /** Outside the base paths `'.'` and `'..'`, both extractors name a match
      of a pattern that globbed a single file alike, whatever the file
      names; with several files both names extend the base name. */
  lemma SeqNameHistName(m: Match, basepath: string, histogramFile: string, sequenceFile: string)
    requires basepath != "." && basepath != ".."
    ensures HistName(m, basepath, histogramFile).Ok?
    ensures !m.several ==> HistName(m, basepath, histogramFile).value == SeqName(m, basepath, sequenceFile)
    ensures m.baseName <= HistName(m, basepath, histogramFile).value
    ensures m.baseName <= SeqName(m, basepath, sequenceFile)
  {
  }

  // ---------------------------------------------------------------------
  // extract_hist_data

  /** `data[name]`: `hist`, `hist_norm`, `cdf`, `hdr`, `box`, and `x_value`
      when a progression mapping function was given. */
  datatype HistDataset = HistDataset(
    hist: Dict<real, int>,
    histNorm: Dict<real, real>,
    cdf: Dict<real, real>,
    hdr: Dict<real, real>,
    box: seq<real>,
    xValue: Option<real>)

  /** The keyword arguments of `extract_hist_data`; `round` stands for
      `round(_, round_ms_digits)`. */
  datatype HistOptions = HistOptions(
    basepath: string,
    histogramFile: string,
    round: real -> real,
    mapping: Option<string -> real>)

  /** `if progression_mapping_function: ... progression_mapping_function(exp)` */
  function XValue(opts: HistOptions, exp: string): Option<real> {
    if opts.mapping.Some? then Some(opts.mapping.value(exp)) else None
  }

  /** The processing steps for one file: read, scale to microseconds, bin,
      expand, normalize, accumulate, and compute the tail values. A
      malformed line raises `ValueError`, a histogram whose counts sum to
      zero raises `ZeroDivisionError`. */
  function HistPipeline(lines: seq<string>, exp: string, opts: HistOptions): Result<HistDataset> {
    var raw :- ReadSpec(lines);
    var scaled := ToMicrosecond(raw, true, false);
    var msData := scaled.value.byKey;
    var histData := BinItems(Items(msData), opts.round);
    var boxData := ExpandItems(Items(msData));
    var normalized :- Normalize(histData);
    var accumulated := AccumulateSpec(normalized);
    Ok(HistDataset(histData, normalized, accumulated, ToHdr(accumulated), boxData, XValue(opts, exp)))
  }

  /** The derived fields agree with each other and with the file: the
      histogram holds every count of the file; the normalized histogram sums
      to one; the CDF has the histogram's keys, in ascending order, and
      reaches one at the largest; the HDR keys are CDF keys; and the box
      data repeats every latency its count times. */
  lemma HistPipelineFacts(lines: seq<string>, exp: string, opts: HistOptions)
    requires HistPipeline(lines, exp, opts).Ok?
    ensures var ds := HistPipeline(lines, exp, opts).value;
      && ReadSpec(lines).Ok?
      && Total(ds.hist) == Total(ReadSpec(lines).value)
      && (|ds.hist.keys| > 0 ==> TotalR(ds.histNorm) == 1.0)
      && (forall k :: k in ds.cdf.entries <==> k in ds.hist.entries)
      && (forall i, j | 0 <= i < j < |ds.cdf.keys| :: ds.cdf.keys[i] < ds.cdf.keys[j])
      && (forall k | k in ds.hdr.entries :: k in ds.cdf.entries)
      && (forall kmax | kmax in ds.hist.entries && (forall k | k in ds.hist.entries :: k <= kmax) ::
            ds.cdf.entries[kmax] == 1.0)
      && (forall x :: multiset(ds.box)[x] ==
            if x in KeysToMicro(ReadSpec(lines).value).entries then Pos(KeysToMicro(ReadSpec(lines).value).entries[x]) else 0)
  {
    var raw := ReadSpec(lines).value;
    var msData := KeysToMicro(raw);
    var histData := BinItems(Items(msData), opts.round);
    var normalized := Normalize(histData).value;
    var ds := HistPipeline(lines, exp, opts).value;
    assert ds.hist == histData && ds.histNorm == normalized && ds.cdf == AccumulateSpec(normalized);
    BinsOfDict(msData, opts.round);
    assert Total(msData) == Total(raw);
    if |histData.keys| > 0 {
      NormalizeSumsToOne(histData);
    }
    AccumulateKeys(normalized);
    forall kmax | kmax in ds.hist.entries && (forall k | k in ds.hist.entries :: k <= kmax)
      ensures ds.cdf.entries[kmax] == 1.0
    {
      AccumulateMaxIsTotal(normalized, kmax);
      NormalizeSumsToOne(histData);
    }
    ItemsRoundTrip(msData);
    forall x ensures multiset(ds.box)[x] == if x in msData.entries then Pos(msData.entries[x]) else 0 {
      ExpandCount(Items(msData), x);
    }
  }

  /** How `extract_hist_data` names a match. */
  function HistNamer(opts: HistOptions): Match -> Result<string> {
    (m: Match) => HistName(m, opts.basepath, opts.histogramFile)
  }

  /** How `extract_hist_data` loads a match: nothing when the file does not
      exist (`FileNotFoundError` is caught), otherwise the pipeline's
      result. */
  function HistLoader(opts: HistOptions, fs: FileSystem): Match -> Option<Result<HistDataset>> {
    (m: Match) => if m.exp in fs.files then Some(HistPipeline(fs.files[m.exp], m.exp, opts)) else None
  }

  /** `extract_hist_data(paths, basepath, histogram_file, round_ms_digits,
      progression_mapping_function)` */
  function ExtractHistSpec(paths: PathsArg, opts: HistOptions, fs: FileSystem): Result<Dict<string, HistDataset>> {
    Run(AllMatches(AsList(paths), opts.basepath, opts.histogramFile, fs), HistNamer(opts), HistLoader(opts, fs))
  }

  /** With a progression mapping function, every stored dataset has an x
      value. */
  lemma HistXValues(paths: PathsArg, opts: HistOptions, fs: FileSystem)
    requires opts.mapping.Some? && ExtractHistSpec(paths, opts, fs).Ok?
    ensures forall n | n in ExtractHistSpec(paths, opts, fs).value.entries :: ExtractHistSpec(paths, opts, fs).value.entries[n].xValue.Some?
  {
    var ms := AllMatches(AsList(paths), opts.basepath, opts.histogramFile, fs);
    var load := HistLoader(opts, fs);
    forall i | 0 <= i < |ms| && load(ms[i]).Some? && load(ms[i]).value.Ok?
      ensures load(ms[i]).value.value.xValue.Some?
    {
      var lines := fs.files[ms[i].exp];
      assert load(ms[i]) == Some(HistPipeline(lines, ms[i].exp, opts));
    }
    RunValues(ms, HistNamer(opts), load, (d: HistDataset) => d.xValue.Some?);
  }

  /** With `basepath` `'.'` or `'..'`, the first match raises
      `UnboundLocalError`, whether its file exists or not. */
  lemma DotBasepathRaises(ms: seq<Match>, opts: HistOptions, fs: FileSystem)
    requires opts.basepath == "." || opts.basepath == ".."
    requires ms != []
    ensures Run(ms, HistNamer(opts), HistLoader(opts, fs)) == Err(UnboundLocalError)
  {
    RunSnoc([], ms[0], HistNamer(opts), HistLoader(opts, fs));
    assert [ms[0]] + ms[1..] == ms;
    RunErrorSticky([ms[0]], ms[1..], HistNamer(opts), HistLoader(opts, fs));
  }

  /** The body of the loop over the matches of `extract_hist_data`, for a
      match `m` of the pattern, with `data` built so far. */
  method ProcessHistMatch(g: ModuleGlobals, data: Dict<string, HistDataset>, m: Match, opts: HistOptions, fs: FileSystem,
                          ghost done: seq<Match>, ghost mine: seq<Match>, ghost j: nat)
    returns (r: Result<Dict<string, HistDataset>>)
    requires j < |mine| && m == mine[j]
    requires Run(done + mine[..j], HistNamer(opts), HistLoader(opts, fs)) == Ok(data)
    modifies g
    ensures r == Step(data, m, HistNamer(opts), HistLoader(opts, fs))
    ensures r == Run(done + mine[..j + 1], HistNamer(opts), HistLoader(opts, fs))
    ensures r.Err? ==> r == Run(done + mine, HistNamer(opts), HistLoader(opts, fs))
  {
    RunSnoc(done + mine[..j], m, HistNamer(opts), HistLoader(opts, fs));
    RunLoopStep(done, mine, j, HistNamer(opts), HistLoader(opts, fs));
    var exp := m.exp;
    var name := m.baseName;
    if opts.basepath == "." || opts.basepath == ".." {
      return Err(UnboundLocalError);
    }
    var histo := ReplaceAll(exp, opts.basepath, "");
    histo := ReplaceAll(histo, m.path, "");
    histo := ReplaceAll(histo, opts.histogramFile, "");
    histo := ReplaceAll(histo, "//", "/");
    histo := DropLast(histo);
    if m.several {
      name := m.baseName + histo;
    }
    if exp !in fs.files {
      return Ok(data);
    }
    var rawData := ReadTwoColumnCsv(fs.files[exp]);
    if rawData.Err? {
      return Err(rawData.error);
    }
    var scaled := ToMicrosecond(rawData.value, true, false);
    var msData := scaled.value.byKey;
    var histData := ToMsBins(msData, opts.round);
    var boxData := ToExpanded(msData);
    var normalizedData := Normalize(histData);
    if normalizedData.Err? {
      return Err(normalizedData.error);
    }
    var accumulatedData := g.Accumulate(normalizedData.value);
    var hdrData := ToHdr(accumulatedData);
    var xValue := if opts.mapping.Some? then Some(opts.mapping.value(exp)) else None;
    r := Ok(Set(data, name, HistDataset(histData, normalizedData.value, accumulatedData, hdrData, boxData, xValue)));
  }

  /** The loop over the matches of one specifier in `extract_hist_data`,
      after the matches `done` of the earlier specifiers built `data`. */
  method ProcessHistSpec(g: ModuleGlobals, data: Dict<string, HistDataset>, spec: Specifier, opts: HistOptions,
                         fs: FileSystem, ghost done: seq<Match>)
    returns (r: Result<Dict<string, HistDataset>>)
    requires Run(done, HistNamer(opts), HistLoader(opts, fs)) == Ok(data)
    modifies g
    ensures r == Run(done + MatchesOf(spec, opts.basepath, opts.histogramFile, fs), HistNamer(opts), HistLoader(opts, fs))
  {
    var baseName := BaseName(spec);
    var extendedPath := PathJoin(opts.basepath, spec.path);
    var experiment := PathJoin(extendedPath, opts.histogramFile);
    var subexperiments := fs.glob(experiment);
    var updateName := |subexperiments| > 1;
    ghost var mine := SpecMatches(spec, subexperiments);
    assert done + mine[..0] == done;
    var acc := data;
    for j := 0 to |subexperiments|
      invariant Run(done + mine[..j], HistNamer(opts), HistLoader(opts, fs)) == Ok(acc)
    {
      var m := Match(baseName, spec.path, subexperiments[j], updateName);
      assert m == mine[j];
      var res := ProcessHistMatch(g, acc, m, opts, fs, done, mine, j);
      if res.Err? {
        return res;
      }
      acc := res.value;
    }
    assert mine[..|subexperiments|] == mine;
    r := Ok(acc);
  }

  /** `extract_hist_data`. The only state it changes is `curr`, through
      `accumulate`. */
  method ExtractHistData(g: ModuleGlobals, paths: PathsArg, opts: HistOptions, fs: FileSystem)
    returns (r: Result<Dict<string, HistDataset>>)
    modifies g
    ensures r == ExtractHistSpec(paths, opts, fs)
  {
    var specs := AsList(paths);
    var data: Dict<string, HistDataset> := Empty();
    for i := 0 to |specs|
      invariant Run(AllMatches(specs[..i], opts.basepath, opts.histogramFile, fs), HistNamer(opts), HistLoader(opts, fs)) == Ok(data)
    {
      ghost var done := AllMatches(specs[..i], opts.basepath, opts.histogramFile, fs);
      AllMatchesAt(specs, i, opts.basepath, opts.histogramFile, fs);
      var res := ProcessHistSpec(g, data, specs[i], opts, fs, done);
      if res.Err? {
        RunErrorSticky(done + MatchesOf(specs[i], opts.basepath, opts.histogramFile, fs),
                       AllMatches(specs[i + 1..], opts.basepath, opts.histogramFile, fs), HistNamer(opts), HistLoader(opts, fs));
        return res;
      }
      data := res.value;
    }
    assert specs[..|specs|] == specs;
    r := Ok(data);
  }

  // ---------------------------------------------------------------------
  // extract_sequence_data

  /** `data[name]['seq']`: the sequence with its values in microseconds. */
  datatype SeqDataset = SeqDataset(sequence: Dict<int, real>)

  /** Reading one sequence file: a malformed line raises `ValueError`. */
  function SeqPipeline(lines: seq<string>): Result<SeqDataset> {
    var raw :- ReadSpec(lines);
    var scaled := ToMicrosecond(raw, false, true);
    Ok(SeqDataset(scaled.value.byValue))
  }

  /** How `extract_sequence_data` names a match. */
  function SeqNamer(basepath: string, filename: string): Match -> Result<string> {
    (m: Match) => Ok(SeqName(m, basepath, filename))
  }

  /** How `extract_sequence_data` loads a match. */
  function SeqLoader(fs: FileSystem): Match -> Option<Result<SeqDataset>> {
    (m: Match) => if m.exp in fs.files then Some(SeqPipeline(fs.files[m.exp])) else None
  }

  /** `extract_sequence_data(paths, basepath, sequence_file)` */
  function ExtractSequenceSpec(paths: PathsArg, basepath: string, sequenceFile: string, fs: FileSystem)
    : Result<Dict<string, SeqDataset>>
  {
    Run(AllMatches(AsList(paths), basepath, sequenceFile, fs), SeqNamer(basepath, sequenceFile), SeqLoader(fs))
  }

  /** Every existing file of the matches `ms` reads without error. */
  predicate AllFilesParse(ms: seq<Match>, fs: FileSystem) {
    forall i | 0 <= i < |ms| :: ms[i].exp in fs.files ==> AllLinesParse(fs.files[ms[i].exp])
  }

  /** The sequence extraction finishes exactly when every existing file of
      a match parses. */
  lemma ExtractSequenceOk(paths: PathsArg, basepath: string, sequenceFile: string, fs: FileSystem)
    ensures ExtractSequenceSpec(paths, basepath, sequenceFile, fs).Ok?
        <==> AllFilesParse(AllMatches(AsList(paths), basepath, sequenceFile, fs), fs)
  {
    var ms := AllMatches(AsList(paths), basepath, sequenceFile, fs);
    var namer, loader := SeqNamer(basepath, sequenceFile), SeqLoader(fs);
    assert ExtractSequenceSpec(paths, basepath, sequenceFile, fs) == Run(ms, namer, loader);
    RunOk(ms, namer, loader);
    forall i | 0 <= i < |ms|
      ensures (namer(ms[i]).Ok? && (loader(ms[i]).Some? ==> loader(ms[i]).value.Ok?))
          <==> (ms[i].exp in fs.files ==> AllLinesParse(fs.files[ms[i].exp]))
    {
      SeqLoaderOk(fs, ms[i]);
    }
  }

  /** Every stored sequence name is the name of a match whose file exists. */
  lemma ExtractSequenceKeys(paths: PathsArg, basepath: string, sequenceFile: string, fs: FileSystem, n: string)
    requires ExtractSequenceSpec(paths, basepath, sequenceFile, fs).Ok?
    requires n in ExtractSequenceSpec(paths, basepath, sequenceFile, fs).value.entries
    ensures exists i | 0 <= i < |AllMatches(AsList(paths), basepath, sequenceFile, fs)| ::
      var m := AllMatches(AsList(paths), basepath, sequenceFile, fs)[i];
      SeqName(m, basepath, sequenceFile) == n && m.exp in fs.files
  {
    var ms := AllMatches(AsList(paths), basepath, sequenceFile, fs);
    assert ExtractSequenceSpec(paths, basepath, sequenceFile, fs) == Run(ms, SeqNamer(basepath, sequenceFile), SeqLoader(fs));
    var i := SeqRunKeys(ms, basepath, sequenceFile, fs, n);
    assert SeqName(ms[i], basepath, sequenceFile) == n && ms[i].exp in fs.files;
  }

  lemma SeqRunKeys(ms: seq<Match>, basepath: string, sequenceFile: string, fs: FileSystem, n: string)
      returns (i: nat)
    requires Run(ms, SeqNamer(basepath, sequenceFile), SeqLoader(fs)).Ok?
    requires n in Run(ms, SeqNamer(basepath, sequenceFile), SeqLoader(fs)).value.entries
    ensures i < |ms| && SeqName(ms[i], basepath, sequenceFile) == n && ms[i].exp in fs.files
  {
    var namer, loader := SeqNamer(basepath, sequenceFile), SeqLoader(fs);
    RunKeys(ms, namer, loader, n);
    i :| 0 <= i < |ms| && namer(ms[i]) == Ok(n) && loader(ms[i]).Some?;
  }

  lemma SeqLoaderOk(fs: FileSystem, m: Match)
    ensures SeqLoader(fs)(m).Some? <==> m.exp in fs.files
    ensures m.exp in fs.files ==> (SeqLoader(fs)(m).value.Ok? <==> AllLinesParse(fs.files[m.exp]))
  {
  }

  /** The body of the loop over the matches of `extract_sequence_data`. */
  method ProcessSeqMatch(data: Dict<string, SeqDataset>, m: Match, basepath: string, sequenceFile: string, fs: FileSystem,
                         ghost done: seq<Match>, ghost mine: seq<Match>, ghost j: nat)
    returns (r: Result<Dict<string, SeqDataset>>)
    requires j < |mine| && m == mine[j]
    requires Run(done + mine[..j], SeqNamer(basepath, sequenceFile), SeqLoader(fs)) == Ok(data)
    ensures r == Step(data, m, SeqNamer(basepath, sequenceFile), SeqLoader(fs))
    ensures r == Run(done + mine[..j + 1], SeqNamer(basepath, sequenceFile), SeqLoader(fs))
    ensures r.Err? ==> r == Run(done + mine, SeqNamer(basepath, sequenceFile), SeqLoader(fs))
  {
    RunSnoc(done + mine[..j], m, SeqNamer(basepath, sequenceFile), SeqLoader(fs));
    RunLoopStep(done, mine, j, SeqNamer(basepath, sequenceFile), SeqLoader(fs));
    var exp := m.exp;
    var name := m.baseName;
    var histo := ReplaceAll(exp, basepath, "");
    histo := ReplaceAll(histo, sequenceFile, "");
    if m.several {
      name := m.baseName + histo;
    }
    if exp !in fs.files {
      return Ok(data);
    }
    var rawData := ReadTwoColumnCsv(fs.files[exp]);
    if rawData.Err? {
      return Err(rawData.error);
    }
    var seqData := ToMicrosecond(rawData.value, false, true);
    r := Ok(Set(data, name, SeqDataset(seqData.value.byValue)));
  }

  /** The loop over the matches of one specifier in `extract_sequence_data`. */
  method ProcessSeqSpec(data: Dict<string, SeqDataset>, spec: Specifier, basepath: string, sequenceFile: string,
                        fs: FileSystem, ghost done: seq<Match>)
    returns (r: Result<Dict<string, SeqDataset>>)
    requires Run(done, SeqNamer(basepath, sequenceFile), SeqLoader(fs)) == Ok(data)
    ensures r == Run(done + MatchesOf(spec, basepath, sequenceFile, fs), SeqNamer(basepath, sequenceFile), SeqLoader(fs))
  {
    var baseName := BaseName(spec);
    var extendedPath := PathJoin(basepath, spec.path);
    var experiment := PathJoin(extendedPath, sequenceFile);
    var subexperiments := fs.glob(experiment);
    var updateName := |subexperiments| > 1;
    ghost var mine := SpecMatches(spec, subexperiments);
    assert MatchesOf(spec, basepath, sequenceFile, fs) == mine;
    assert done + mine[..0] == done;
    var acc := data;
    for j := 0 to |subexperiments|
      invariant Run(done + mine[..j], SeqNamer(basepath, sequenceFile), SeqLoader(fs)) == Ok(acc)
    {
      var m := Match(baseName, spec.path, subexperiments[j], updateName);
      assert m == mine[j];
      var res := ProcessSeqMatch(acc, m, basepath, sequenceFile, fs, done, mine, j);
      if res.Err? {
        return res;
      }
      acc := res.value;
    }
    assert mine[..|subexperiments|] == mine;
    r := Ok(acc);
  }

  /** `extract_sequence_data` */
  method ExtractSequenceData(paths: PathsArg, basepath: string, sequenceFile: string, fs: FileSystem)
    returns (r: Result<Dict<string, SeqDataset>>)
    ensures r == ExtractSequenceSpec(paths, basepath, sequenceFile, fs)
  {
    var specs := AsList(paths);
    ghost var namer, loader := SeqNamer(basepath, sequenceFile), SeqLoader(fs);
    var data: Dict<string, SeqDataset> := Empty();
    for i := 0 to |specs|
      invariant Run(AllMatches(specs[..i], basepath, sequenceFile, fs), namer, loader) == Ok(data)
    {
      ghost var done := AllMatches(specs[..i], basepath, sequenceFile, fs);
      AllMatchesAt(specs, i, basepath, sequenceFile, fs);
      var res := ProcessSeqSpec(data, specs[i], basepath, sequenceFile, fs, done);
      if res.Err? {
        RunErrorSticky(done + MatchesOf(specs[i], basepath, sequenceFile, fs),
                       AllMatches(specs[i + 1..], basepath, sequenceFile, fs), namer, loader);
        return res;
      }
      data := res.value;
    }
    assert specs[..|specs|] == specs;
    r := Ok(data);
  }
}
