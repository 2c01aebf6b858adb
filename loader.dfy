/** `read_2c_csv`: a two-column `lat,occ` text becomes a latency -> occurrence
    dictionary. Opening the file is outside the model: the loader is given
    the lines the file object yields, each possibly ending in a newline. */
module Loader {
  import opened Runtime
  import opened Dicts
  import opened Strings

  /** `lat, occ = line.strip().split(',')` followed by `int(lat)` and
      `int(occ)`: anything but two integer fields raises `ValueError`. */
  function ParseLine(line: string): Result<(int, int)> {
    var fields := Split(Strip(line), ',');
    if |fields| != 2 then Err(ValueError)
    else match ParseInt(fields[0])
      case None => Err(ValueError)
      case Some(lat) =>
        match ParseInt(fields[1])
        case None => Err(ValueError)
        case Some(occ) => Ok((lat, occ))
  }

  predicate LineParses(line: string) {
    ParseLine(line).Ok?
  }

  /** The pair a line parses to, or a placeholder for a line that does not. */
  function PairOf(line: string): (int, int) {
    if ParseLine(line).Ok? then ParseLine(line).value else (0, 0)
  }

  predicate AllLinesParse(lines: seq<string>) {
    forall i | 0 <= i < |lines| :: LineParses(lines[i])
  }

  function ParsedPairs(lines: seq<string>): (r: seq<(int, int)>)
    ensures |r| == |lines|
    ensures forall i | 0 <= i < |lines| :: r[i] == PairOf(lines[i])
  {
    seq(|lines|, i requires 0 <= i < |lines| => PairOf(lines[i]))
  }

  /** What reading the lines produces: every line inserted in turn with
      `data[lat] = occ`, or `ValueError` if any line is malformed. */
  function ReadSpec(lines: seq<string>): Result<Dict<int, int>> {
    if AllLinesParse(lines) then Ok(FromItems(ParsedPairs(lines))) else Err(ValueError)
  }

  /** `read_2c_csv` over the lines of an opened file. */
  method ReadTwoColumnCsv(lines: seq<string>) returns (r: Result<Dict<int, int>>)
    ensures r == ReadSpec(lines)
    ensures r.Ok? <==> AllLinesParse(lines)
  {
    var data: Dict<int, int> := Empty();
    for i := 0 to |lines|
      invariant AllLinesParse(lines[..i])
      invariant data == FromItems(ParsedPairs(lines[..i]))
    {
      var parsed := ParseLine(lines[i]);
      if parsed.Err? {
        assert !AllLinesParse(lines);
        return Err(ValueError);
      }
      var (lat, occ) := parsed.value;
      assert PairOf(lines[i]) == (lat, occ);
      AllLinesParseSnoc(lines, i);
      assert ParsedPairs(lines[..i + 1])[..i] == ParsedPairs(lines[..i]);
      data := Set(data, lat, occ);
    }
    assert lines[..|lines|] == lines;
    r := Ok(data);
  }

  lemma AllLinesParseSnoc(lines: seq<string>, i: nat)
    requires i < |lines| && AllLinesParse(lines[..i]) && LineParses(lines[i])
    ensures AllLinesParse(lines[..i + 1])
  {
    var pre := lines[..i + 1];
    forall j | 0 <= j < i + 1 ensures LineParses(pre[j]) {
      if j < i { assert pre[j] == lines[..i][j]; }
    }
  }

  /** One entry per latency that occurs: the keys are exactly the parsed
      latencies, so there are never more entries than lines. */
  lemma ReadKeys(lines: seq<string>)
    requires ReadSpec(lines).Ok?
    ensures forall lat :: lat in ReadSpec(lines).value.entries <==>
      exists i | 0 <= i < |lines| :: ParseLine(lines[i]) == Ok((lat, ParseLine(lines[i]).value.1))
    ensures |ReadSpec(lines).value.keys| <= |lines|
  {
    var pairs := ParsedPairs(lines);
    FromItemsKeys(pairs);
    FromItemsSize(pairs);
    forall lat ensures lat in Fsts(pairs) <==>
      exists i | 0 <= i < |lines| :: ParseLine(lines[i]) == Ok((lat, ParseLine(lines[i]).value.1))
    {
      if lat in Fsts(pairs) {
        var i :| 0 <= i < |pairs| && Fsts(pairs)[i] == lat;
        assert ParseLine(lines[i]) == Ok((lat, ParseLine(lines[i]).value.1));
      }
    }
  }

  /** A repeated latency keeps the occurrence of its LAST line: later lines
      overwrite, counts are not added up. */
  lemma ReadLastWins(lines: seq<string>, i: nat)
    requires ReadSpec(lines).Ok?
    requires i < |lines|
    requires forall j | i < j < |lines| :: ParseLine(lines[j]).value.0 != ParseLine(lines[i]).value.0
    ensures ParseLine(lines[i]).value.0 in ReadSpec(lines).value.entries
    ensures ReadSpec(lines).value.entries[ParseLine(lines[i]).value.0] == ParseLine(lines[i]).value.1
  {
    FromItemsLast(ParsedPairs(lines), i);
  }

  /** When no latency repeats, every line gives its own entry, in file order. */
  lemma ReadDistinct(lines: seq<string>)
    requires ReadSpec(lines).Ok?
    requires Distinct(Fsts(ParsedPairs(lines)))
    ensures |ReadSpec(lines).value.keys| == |lines|
    ensures Items(ReadSpec(lines).value) == ParsedPairs(lines)
  {
    ItemsOfFromItems(ParsedPairs(lines));
  }

  /** A line written as `str(lat) + ',' + str(occ) + '\n'` reads back as
      `(lat, occ)`. */
  lemma ParseLineOfPrinted(lat: int, occ: int)
    ensures ParseLine(IntToString(lat) + "," + IntToString(occ) + "\n") == Ok((lat, occ))
  {
    var a, b := IntToString(lat), IntToString(occ);
    var line := a + "," + b + "\n";
    var core := a + "," + b;
    IntToStringShape(lat);
    IntToStringShape(occ);
    assert line == core + "\n";
    StripPrinted(core);
    assert Strip(line) == core;
    SplitAround(a, ',', b);
    SplitFree(a, ',');
    SplitFree(b, ',');
    ParseIntOfIntToString(lat);
    ParseIntOfIntToString(occ);
  }

  /** Printed integers hold no comma and no whitespace. */
  lemma IntToStringShape(n: int)
    ensures ',' !in IntToString(n)
    ensures forall i | 0 <= i < |IntToString(n)| :: !IsSpace(IntToString(n)[i]) && IntToString(n)[i] != ','
  {
    var m: nat := if n < 0 then -n else n;
    var digits := NatToString(m);
    var s := IntToString(n);
    if n < 0 {
      assert s == "-" + digits;
      forall i | 0 <= i < |s| ensures !IsSpace(s[i]) && s[i] != ',' {
        if i > 0 { assert s[i] == digits[i - 1]; }
      }
    } else {
      assert s == digits;
    }
  }

  /** Stripping `core + "\n"` gives `core` when `core` has no whitespace at
      its ends. */
  lemma StripPrinted(core: string)
    requires |core| > 0 && !IsSpace(core[0]) && !IsSpace(core[|core| - 1])
    ensures Strip(core + "\n") == core
  {
    var line := core + "\n";
    assert LStrip(line) == line;
    assert line[..|line| - 1] == core;
    assert RStrip(line) == RStrip(core);
  }
}
