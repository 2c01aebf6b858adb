/** The loop shared by `extract_hist_data` and `extract_sequence_data`: each
    path specifier is expanded by `glob` into matching files, and every match
    is named, skipped when its file does not exist, loaded, and stored under
    its name in the result dictionary. What differs between the two drivers
    — how a match is named and what is loaded from it — is passed in as
    `name` and `load`. */
module Matches {
  import opened Runtime
  import opened Dicts
  import opened Strings

  /** One element of `paths`: a bare path, or a `(path, label)` tuple. */
  datatype Specifier = Bare(path: string) | Labelled(path: string, caption: string)

  /** The `paths` argument: a list of specifiers, or a single one. */
  datatype PathsArg = Many(specs: seq<Specifier>) | One(spec: Specifier)

  /** `if not isinstance(paths, list): paths = [paths]` */
  function AsList(paths: PathsArg): seq<Specifier> {
    match paths
    case Many(specs) => specs
    case One(spec) => [spec]
  }

  /** What the drivers see of the file system: `glob` as a function from a
      pattern to the paths it matches, in the order it returns them, and
      the lines of every file that exists. */
  datatype FileSystem = FileSystem(glob: string -> seq<string>, files: map<string, seq<string>>)

  /** The display name of a specifier: the path with `_` replaced by `-`
      (TeX-friendly), or the label of a tuple. */
  function BaseName(s: Specifier): (r: string)
    ensures s.Labelled? ==> r == s.caption
    ensures s.Bare? ==> |r| == |s.path| && '_' !in r
    ensures s.Bare? ==> forall i | 0 <= i < |r| :: r[i] == if s.path[i] == '_' then '-' else s.path[i]
  {
    match s
    case Bare(p) =>
      ReplaceAllChar(p, '_', '-');
      ReplaceAll(p, "_", "-")
    case Labelled(_, caption) => caption
  }

  /** `os.path.join(os.path.join(basepath, path), filename)` */
  function Pattern(basepath: string, path: string, filename: string): string {
    PathJoin(PathJoin(basepath, path), filename)
  }

  /** A file a specifier's pattern matched, with what naming it needs: the
      base name, the specifier's path, the file, and whether the pattern
      matched more than one file (`update_name`). */
  datatype Match = Match(baseName: string, path: string, exp: string, several: bool)

  /** The matches of one specifier, in `glob` order. */
  function SpecMatches(s: Specifier, found: seq<string>): (r: seq<Match>)
    ensures |r| == |found|
    ensures forall i | 0 <= i < |found| :: r[i] == Match(BaseName(s), s.path, found[i], |found| > 1)
  {
    seq(|found|, i requires 0 <= i < |found| => Match(BaseName(s), s.path, found[i], |found| > 1))
  }

  /** The matches of one specifier under a base path and file name. */
  function MatchesOf(s: Specifier, basepath: string, filename: string, fs: FileSystem): seq<Match> {
    SpecMatches(s, fs.glob(Pattern(basepath, s.path, filename)))
  }

  /** The lists `f(x)` for the elements `x` of `xs`, one after the other. */
  function FlatMap<T, U>(xs: seq<T>, f: T -> seq<U>): seq<U>
    decreases |xs|
  {
    if xs == [] then [] else FlatMap(xs[..|xs| - 1], f) + f(xs[|xs| - 1])
  }

  lemma {:induction false} FlatMapConcat<T, U>(a: seq<T>, b: seq<T>, f: T -> seq<U>)
    ensures FlatMap(a + b, f) == FlatMap(a, f) + FlatMap(b, f)
    decreases |b|
  {
    if b == [] {
      assert a + b == a;
    } else {
      var n := |b| - 1;
      FlatMapConcat(a, b[..n], f);
      assert (a + b)[..|a + b| - 1] == a + b[..n];
    }
  }

  /** `MatchesOf` of a specifier, for a fixed base path, file name and file
      system. */
  function MatchesFn(basepath: string, filename: string, fs: FileSystem): Specifier -> seq<Match> {
    (s: Specifier) => MatchesOf(s, basepath, filename, fs)
  }

  /** Every match, specifier by specifier. */
  function AllMatches(specs: seq<Specifier>, basepath: string, filename: string, fs: FileSystem): seq<Match> {
    FlatMap(specs, MatchesFn(basepath, filename, fs))
  }

  lemma AllMatchesConcat(a: seq<Specifier>, b: seq<Specifier>, basepath: string, filename: string, fs: FileSystem)
    ensures AllMatches(a + b, basepath, filename, fs) == AllMatches(a, basepath, filename, fs) + AllMatches(b, basepath, filename, fs)
  {
    FlatMapConcat(a, b, MatchesFn(basepath, filename, fs));
  }

  /** The matches of the specifiers before `i`, then of `i`, then after. */
  lemma AllMatchesAt(specs: seq<Specifier>, i: nat, basepath: string, filename: string, fs: FileSystem)
    requires i < |specs|
    ensures AllMatches(specs, basepath, filename, fs)
         == AllMatches(specs[..i], basepath, filename, fs)
          + MatchesOf(specs[i], basepath, filename, fs)
          + AllMatches(specs[i + 1..], basepath, filename, fs)
    ensures AllMatches(specs[..i + 1], basepath, filename, fs)
         == AllMatches(specs[..i], basepath, filename, fs) + MatchesOf(specs[i], basepath, filename, fs)
  {
    assert specs == specs[..i + 1] + specs[i + 1..];
    AllMatchesConcat(specs[..i + 1], specs[i + 1..], basepath, filename, fs);
    assert specs[..i + 1][..i] == specs[..i];
  }

  /** The loop body for one match: name it (which may raise), skip it when
      `load` finds no file (`FileNotFoundError`), otherwise load it (which
      may raise) and store it under its name. */
  function Step<D>(acc: Dict<string, D>, m: Match, name: Match -> Result<string>,
                   load: Match -> Option<Result<D>>): Result<Dict<string, D>>
  {
    var n :- name(m);
    match load(m)
    case None => Ok(acc)
    case Some(res) =>
      var ds :- res;
      Ok(Set(acc, n, ds))
  }

  /** The result of the loop over `ms`: the first exception raised, or the
      dictionary built. */
  function Run<D>(ms: seq<Match>, name: Match -> Result<string>, load: Match -> Option<Result<D>>): Result<Dict<string, D>>
    decreases |ms|
  {
    if ms == [] then Ok(Empty())
    else
      var acc :- Run(ms[..|ms| - 1], name, load);
      Step(acc, ms[|ms| - 1], name, load)
  }

  lemma SliceSnoc<T>(done: seq<T>, mine: seq<T>, j: nat)
    requires j < |mine|
    ensures done + mine[..j + 1] == (done + mine[..j]) + [mine[j]]
  {
    assert mine[..j + 1] == mine[..j] + [mine[j]];
  }

  /** The last element of `a + b` and what comes before it. */
  lemma ConcatInit<T>(a: seq<T>, b: seq<T>)
    requires b != []
    ensures (a + b)[..|a + b| - 1] == a + b[..|b| - 1]
    ensures (a + b)[|a + b| - 1] == b[|b| - 1]
  {
  }

  lemma RunSnoc<D>(ms: seq<Match>, m: Match, name: Match -> Result<string>, load: Match -> Option<Result<D>>)
    ensures Run(ms + [m], name, load) == if Run(ms, name, load).Ok? then Step(Run(ms, name, load).value, m, name, load) else Run(ms, name, load)
  {
    assert (ms + [m])[..|ms|] == ms;
  }

  /** What happens after the loop has reached a state depends on that state
      only. */
  lemma {:induction false} RunSameState<D>(a: seq<Match>, a': seq<Match>, b: seq<Match>,
                                           name: Match -> Result<string>, load: Match -> Option<Result<D>>)
    requires Run(a, name, load) == Run(a', name, load)
    ensures Run(a + b, name, load) == Run(a' + b, name, load)
    decreases |b|
  {
    if b == [] {
      assert a + b == a && a' + b == a';
    } else {
      RunSameState(a, a', b[..|b| - 1], name, load);
      ConcatInit(a, b);
      ConcatInit(a', b);
    }
  }

  /** An exception ends the loop: nothing after it is processed. */
  lemma {:induction false} RunErrorSticky<D>(a: seq<Match>, b: seq<Match>,
                                             name: Match -> Result<string>, load: Match -> Option<Result<D>>)
    requires Run(a, name, load).Err?
    ensures Run(a + b, name, load) == Run(a, name, load)
    decreases |b|
  {
    if b == [] {
      assert a + b == a;
    } else {
      RunErrorSticky(a, b[..|b| - 1], name, load);
      ConcatInit(a, b);
    }
  }

  /** One turn of the loop over a specifier's matches `mine`, after the
      matches `done` of the earlier specifiers: match `j` extends the prefix
      by one, and an exception it raises is the result of the whole loop. */
  lemma RunLoopStep<D>(done: seq<Match>, mine: seq<Match>, j: nat,
                       name: Match -> Result<string>, load: Match -> Option<Result<D>>)
    requires j < |mine|
    ensures done + mine[..j + 1] == (done + mine[..j]) + [mine[j]]
    ensures Run((done + mine[..j]) + [mine[j]], name, load).Err? ==>
      Run(done + mine, name, load) == Run((done + mine[..j]) + [mine[j]], name, load)
  {
    SliceSnoc(done, mine, j);
    if Run(done + mine[..j + 1], name, load).Err? {
      assert done + mine == (done + mine[..j + 1]) + mine[j + 1..];
      RunErrorSticky(done + mine[..j + 1], mine[j + 1..], name, load);
    }
  }

  /** A match whose file is missing is skipped and changes nothing: the
      result is as if it had not been found at all. */
  lemma RunSkipsMissing<D>(a: seq<Match>, m: Match, b: seq<Match>,
                           name: Match -> Result<string>, load: Match -> Option<Result<D>>)
    requires name(m).Ok? && load(m).None?
    ensures Run(a + [m] + b, name, load) == Run(a + b, name, load)
  {
    RunSnoc(a, m, name, load);
    RunSameState(a + [m], a, b, name, load);
  }

  /** The loop finishes without an exception exactly when every match can be
      named and every match whose file exists loads. */
  lemma {:induction false} RunOk<D>(ms: seq<Match>, name: Match -> Result<string>, load: Match -> Option<Result<D>>)
    ensures Run(ms, name, load).Ok? <==>
      forall i | 0 <= i < |ms| :: name(ms[i]).Ok? && (load(ms[i]).Some? ==> load(ms[i]).value.Ok?)
    decreases |ms|
  {
    if ms != [] {
      var n := |ms| - 1;
      RunOk(ms[..n], name, load);
      if !Run(ms[..n], name, load).Ok? {
        var i :| 0 <= i < n && !(name(ms[..n][i]).Ok? && (load(ms[..n][i]).Some? ==> load(ms[..n][i]).value.Ok?));
        assert ms[..n][i] == ms[i];
      }
    }
  }

  /** A property of every dataset a match loads holds of every dataset
      stored. */
  lemma {:induction false} RunValues<D>(ms: seq<Match>, name: Match -> Result<string>, load: Match -> Option<Result<D>>,
                                        good: D -> bool)
    requires Run(ms, name, load).Ok?
    requires forall i | 0 <= i < |ms| :: load(ms[i]).Some? && load(ms[i]).value.Ok? ==> good(load(ms[i]).value.value)
    ensures forall n | n in Run(ms, name, load).value.entries :: good(Run(ms, name, load).value.entries[n])
    decreases |ms|
  {
    if ms != [] {
      var k := |ms| - 1;
      forall i | 0 <= i < k
        ensures load(ms[..k][i]).Some? && load(ms[..k][i]).value.Ok? ==> good(load(ms[..k][i]).value.value)
      {
        assert ms[..k][i] == ms[i];
      }
      RunValues(ms[..k], name, load, good);
      var acc := Run(ms[..k], name, load).value;
      if load(ms[k]).Some? {
        SetEntries(acc, name(ms[k]).value, load(ms[k]).value.value);
      }
    }
  }

  /** Every stored name is the name of a match whose file exists. */
  lemma {:induction false} RunKeys<D>(ms: seq<Match>, name: Match -> Result<string>, load: Match -> Option<Result<D>>, n: string)
    requires Run(ms, name, load).Ok?
    requires n in Run(ms, name, load).value.entries
    ensures exists i | 0 <= i < |ms| :: name(ms[i]) == Ok(n) && load(ms[i]).Some?
    decreases |ms|
  {
    var k := |ms| - 1;
    var acc := Run(ms[..k], name, load).value;
    if n in acc.entries {
      RunKeys(ms[..k], name, load, n);
      var i :| 0 <= i < k && name(ms[..k][i]) == Ok(n) && load(ms[..k][i]).Some?;
      assert ms[..k][i] == ms[i];
    } else {
      assert name(ms[k]) == Ok(n) && load(ms[k]).Some?;
    }
  }

  /** A name keeps the data of the last match stored under it: a later
      match with the same name replaces it. */
  lemma {:induction false} RunLastWins<D>(ms: seq<Match>, name: Match -> Result<string>, load: Match -> Option<Result<D>>, i: nat)
    requires Run(ms, name, load).Ok?
    requires i < |ms| && name(ms[i]).Ok? && load(ms[i]).Some?
    requires forall j | i < j < |ms| :: !(name(ms[j]) == name(ms[i]) && load(ms[j]).Some?)
    ensures load(ms[i]).value.Ok?
    ensures name(ms[i]).value in Run(ms, name, load).value.entries
    ensures Run(ms, name, load).value.entries[name(ms[i]).value] == load(ms[i]).value.value
    decreases |ms|
  {
    var k := |ms| - 1;
    var prefix := ms[..k];
    var before := Run(prefix, name, load);
    assert before.Ok?;
    var acc := before.value;
    assert Run(ms, name, load) == Step(acc, ms[k], name, load);
    var n := name(ms[i]).value;
    var nk := name(ms[k]).value;
    if i == k {
      var v := load(ms[k]).value.value;
      assert Run(ms, name, load) == Ok(Set(acc, n, v));
      SetEntries(acc, n, v);
    } else {
      forall j | i < j < |prefix| ensures !(name(prefix[j]) == name(prefix[i]) && load(prefix[j]).Some?) {
        assert prefix[j] == ms[j];
      }
      assert prefix[i] == ms[i];
      RunLastWins(prefix, name, load, i);
      assert n in acc.entries && acc.entries[n] == load(ms[i]).value.value;
      if load(ms[k]).Some? {
        var v := load(ms[k]).value.value;
        assert nk != n;
        assert Run(ms, name, load) == Ok(Set(acc, nk, v));
        SetEntries(acc, nk, v);
      } else {
        assert Run(ms, name, load) == Ok(acc);
      }
    }
  }
}
