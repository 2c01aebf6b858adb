# Latency histogram pipeline of `plot_latency.py`

`plot_latency.py` reads latency measurements and turns them into plots. Each
measurement is a two-column file of `latency,occurrences` lines. It is read
into a dictionary and scaled from nanoseconds to microseconds. From there the
script derives:

- the binned histogram;
- the normalized histogram;
- the cumulative distribution (CDF);
- the tail values `1/(1-p)` of the HDR plot;
- the expanded list of latencies behind the box plot.

`extract_hist_data` runs these steps for every file that an experiment's glob
pattern matches. It names each dataset after its experiment and skips files
that do not exist. `extract_sequence_data` reads the sequence files the same
way.

After extraction the datasets are shaped into plot series:

- `get_sorted_values` sorts paired lists.
- `plot_progression` groups the datasets into families, takes percentiles of
  their latencies and sorts each series by its x value.
- `plot_loop` takes the same percentiles, but for the runs that a loop file
  maps to datasets.

Finally, `plot` ties it together. It plots the sequence data, extracts the
histogram data and stops early when there is none. It then checks that the
options that only work in pairs are given in pairs, and draws the progression
and loop plots.

The Dafny modules follow this structure:

| module | what it holds |
|---|---|
| `Runtime` | the exceptions that reach or leave the modelled code, and `Option`/`Result` |
| `Dicts` | Python's insertion-ordered `dict` (`Dict`: keys in insertion order plus a map), `d[k] = v`, `items()` and comprehensions |
| `Sums` | `sum` over lists and dictionary values |
| `Strings` | `strip`, `split`, `join`, `replace`, `int()`, `str()`, `os.path.join` and string order |
| `Sorting` | `sorted` as a stable insertion sort under a key order |
| `Loader` | `read_2c_csv`, as a loop over the lines of a file |
| `Transforms` | `to_microsecond`, `to_ms_bins`, `to_expanded`, `normalize`, `to_hdr` |
| `Accumulation` | `accumulate`, with the module global `curr` as the field of a class |
| `Matches` | the specifiers in `paths`, glob matches, display names, and the loop over matches both extractors share |
| `Extraction` | `extract_hist_data` and `extract_sequence_data` |
| `Series` | `zip` and `get_sorted_values` |
| `Progression` | the gathering half of `plot_progression` |
| `Curves` | the sorting half of `plot_progression` and its x range |
| `Loops` | `plot_loop`: the gathering loop and the sorted curves |
| `Config` | `plot`: which plots are drawn, with what data, and which exception the modelled steps raise |

Some choices apply across the model:

- **Counts** are `int`, because `int(occ)` accepts negative numbers. `[x] * n`
  makes `max(n, 0)` copies. Properties that need non-negative counts take that
  as a hypothesis.
- **Latencies and fractions** are exact `real`s, not floats.
- **Parameters:**
  - Python's `round(_, round_ms_digits)` is the parameter `round`.
  - `np.percentile` is the parameter `pct`; it gives `None` where NumPy raises
    `IndexError`.
  - `progression_mapping_function` is an optional parameter.
- **The file system** is a value: `glob` is a function from a pattern to the
  paths it matches, in order. A file is its list of lines, and a path with no
  file raises `FileNotFoundError`.
- **Truthiness:** in `plot`, an empty string or list stands for a missing
  option, as Python's truthiness has it.

Three behaviours of the code that the model follows:

- `to_hdr` keys its result by latency, with the tail value as the value.
- `normalize` of a non-empty histogram whose counts sum to zero raises
  `ZeroDivisionError`, which ends `extract_hist_data`.
- The option checks of `plot` run after the extraction, and only when
  percentiles are given.

In two places the code evidently misbehaves (see Findings): the left limit of
`plot_progression` and the x values of `plot_loop`. There the model states
both the code as written and the corrected code. Rows marked "(corrected)"
are about the corrected code, and "## Left out" names the as-written member
beside each.

## Model

| member | source | states |
|---|---|---|
| Loader.ReadSpec | plot_scripts/plot_latency.py:120-126 | the definition of `read_2c_csv`: the dictionary of the parsed pairs, inserted in file order, or `ValueError` when a line does not parse |
| Loader.ParseLine | plot_scripts/plot_latency.py:124-125 | the definition of reading one line: `strip`, `split(',')` into exactly two fields and `int()` of each, or `ValueError` |
| Loader.ReadTwoColumnCsv | plot_scripts/plot_latency.py:120-126 | reading the lines inserts each parsed `(lat, occ)` with `data[lat] = occ` in file order, and succeeds exactly when every line is two integer fields |
| Loader.ReadKeys | plot_scripts/plot_latency.py:123-125 | the keys are exactly the latencies of the lines, so there are never more entries than lines |
| Loader.ReadLastWins | plot_scripts/plot_latency.py:123-125 | a repeated latency keeps the count of its last line; counts are not added up |
| Loader.ReadDistinct | plot_scripts/plot_latency.py:123-125 | with no repeated latency, every line gives its own entry, in file order |
| Loader.ParseLineOfPrinted | plot_scripts/plot_latency.py:124-125 | a line written as `str(lat) + ',' + str(occ) + '\n'` reads back as `(lat, occ)` |
| Strings.Strip | plot_scripts/plot_latency.py:124 | the definition of `str.strip()`: the leading and then the trailing whitespace removed |
| Strings.Split | plot_scripts/plot_latency.py:124 | the definition of `str.split(',')`: the pieces between the separators, one more piece than there are separators |
| Strings.ParseInt | plot_scripts/plot_latency.py:125 | the definition of `int()` of a string: optional surrounding whitespace, an optional sign and decimal digits, or no value where Python raises `ValueError` |
| Strings.LStripSpec | plot_scripts/plot_latency.py:124 | `lstrip` removes exactly the leading whitespace |
| Strings.RStripSpec | plot_scripts/plot_latency.py:124 | `rstrip` removes exactly the trailing whitespace |
| Strings.StripOfUnspaced | plot_scripts/plot_latency.py:124 | text without whitespace is its own stripped form |
| Strings.ParseIntOfIntToString | plot_scripts/plot_latency.py:125 | `int(str(n)) == n` for every integer |
| Strings.ReplaceAll | plot_scripts/plot_latency.py:206-209 | the definition of `str.replace`: every non-overlapping occurrence, from the left, is replaced; an empty pattern inserts the replacement around every character |
| Strings.ReplaceAllAbsent | plot_scripts/plot_latency.py:206-209 | replacing text that does not occur leaves the string unchanged |
| Strings.ReplaceAllSelf | plot_scripts/plot_latency.py:206-208 | replacing a text by itself changes nothing, the empty text included |
| Strings.ReplaceAllChar | plot_scripts/plot_latency.py:188 | replacing one character by another maps the string character by character |
| Strings.JoinSplit | plot_scripts/plot_latency.py:503 | `c.join(s.split(c)) == s` |
| Strings.SplitPiecesFree | plot_scripts/plot_latency.py:503 | no piece of a split holds the separator |
| Strings.DropLastSegmentIsPrefix | plot_scripts/plot_latency.py:503 | the family of a name is the text before its last `/` |
| Strings.DropLastSegmentWithoutSeparator | plot_scripts/plot_latency.py:503 | a name without `/` has the empty family |
| Strings.DropLast | plot_scripts/plot_latency.py:210 | `s[:-1]` removes the last character, and the empty string stays empty |
| Strings.PathJoin | plot_scripts/plot_latency.py:193-194 | `os.path.join` on POSIX: an absolute second part replaces the first, otherwise one `/` goes between |
| Strings.StrLeTotal | plot_scripts/plot_latency.py:579 | the string order `sorted` uses is total |
| Strings.StrLeTransitive | plot_scripts/plot_latency.py:579 | the string order is transitive |
| Strings.StrLeAntisymmetric | plot_scripts/plot_latency.py:579 | two strings that sort both ways are equal |
| Dicts.Set | plot_scripts/plot_latency.py:125 | the definition of `d[k] = v`: a new key goes at the end of the key order, an existing key keeps its place and takes the new value |
| Dicts.Items | plot_scripts/plot_latency.py:134 | the definition of `d.items()`: the pairs of the dictionary in its key order |
| Dicts.FromItems | plot_scripts/plot_latency.py:134-138 | the definition of a dictionary comprehension: the pairs inserted one by one with `d[k] = v`, so a repeated key keeps its first place and its last value |
| Dicts.SetEntries | plot_scripts/plot_latency.py:125 | `d[k] = v` gives `k` the value `v`, keeps the position of an existing key, appends a new one, and changes nothing else |
| Dicts.FromItemsKeys | plot_scripts/plot_latency.py:134-138 | the keys of a comprehension are exactly the keys of its pairs |
| Dicts.FromItemsDistinct | plot_scripts/plot_latency.py:158 | a comprehension over pairs with distinct keys keeps every pair, in order |
| Dicts.FromItemsLast | plot_scripts/plot_latency.py:168 | a comprehension keeps the last value given to a key |
| Dicts.ItemsRoundTrip | plot_scripts/plot_latency.py:134-138 | rebuilding a dictionary from its `items()` gives it back |
| Transforms.AddCount | plot_scripts/plot_latency.py:144-147 | the definition of one step of `to_ms_bins`: a new rounded key takes the count, an existing one adds it to its count |
| Transforms.BinItems | plot_scripts/plot_latency.py:140-147 | the definition of `to_ms_bins`: every pair in order, its key rounded, added with `Transforms.AddCount` |
| Transforms.ExpandItems | plot_scripts/plot_latency.py:150-153 | the definition of `to_expanded`: the concatenation, in key order, of `[val] * occ` for every pair |
| Transforms.NormItems | plot_scripts/plot_latency.py:158 | the definition of `normalize`'s comprehension: every pair keeps its key and has its count divided by the total, in the same order |
| Transforms.Tail | plot_scripts/plot_latency.py:173 | the definition of the HDR tail value `1/(1-v)` |
| Transforms.HdrKeeps | plot_scripts/plot_latency.py:172-173 | the definition of `to_hdr`'s filter: `1 - v` is not zero and the tail value is neither negative nor above `MAX_ACCURACY` (1000000000) |
| Transforms.HdrItems | plot_scripts/plot_latency.py:170-173 | the definition of `to_hdr`'s comprehension: the pairs the filter keeps, in order, each with its tail value |
| Transforms.Micro | plot_scripts/plot_latency.py:134-138 | `x / 1000` is the number that, times 1000, gives `x` |
| Transforms.MicroInjective | plot_scripts/plot_latency.py:136 | scaling by 1/1000 never merges two latencies |
| Transforms.KeysToMicro | plot_scripts/plot_latency.py:136 | scaling the keys keeps every entry, in order, with its own count |
| Transforms.ValuesToMicro | plot_scripts/plot_latency.py:138 | scaling the values keeps the keys and scales each value |
| Transforms.BothToMicro | plot_scripts/plot_latency.py:134 | scaling both keeps every entry, in order, each key and value scaled |
| Transforms.ToMicrosecond | plot_scripts/plot_latency.py:132-138 | the result is `None` exactly when neither flag is set, and otherwise the shape the flags choose |
| Transforms.ToMsBins | plot_scripts/plot_latency.py:140-148 | the loop leaves the bins of the dictionary's pairs taken in order |
| Transforms.AddCountTotal | plot_scripts/plot_latency.py:144-147 | one turn of the binning loop adds its count to the total |
| Transforms.AddCountKeys | plot_scripts/plot_latency.py:144-147 | one turn of the binning loop adds its bin and no other |
| Transforms.BinTotal | plot_scripts/plot_latency.py:140-148 | binning loses no count, whatever the rounding |
| Transforms.BinHasKey | plot_scripts/plot_latency.py:143-145 | every rounded latency gets a bin |
| Transforms.BinKeyWitness | plot_scripts/plot_latency.py:143-145 | every bin comes from a latency that rounds to it |
| Transforms.BinKeys | plot_scripts/plot_latency.py:140-148 | there is a bin exactly for each value some latency rounds to |
| Transforms.BinValue | plot_scripts/plot_latency.py:140-148 | each bin holds the sum of the counts of the latencies that round to it |
| Transforms.BinsOfDict | plot_scripts/plot_latency.py:140-148 | for a dictionary: the total is kept, there is a bin for each rounded key and no other, and each bin sums the counts that round to it |
| Transforms.Repeat | plot_scripts/plot_latency.py:153 | `[x] * n` holds `max(n, 0)` copies of `x` |
| Transforms.RepeatMultiset | plot_scripts/plot_latency.py:153 | `[x] * n` holds `x` `max(n, 0)` times and nothing else |
| Transforms.ExpandLength | plot_scripts/plot_latency.py:150-154 | the expansion is as long as the counts' copies added up |
| Transforms.ExpandCount | plot_scripts/plot_latency.py:150-154 | over distinct keys, each key occurs in the expansion as often as its count |
| Transforms.ToExpanded | plot_scripts/plot_latency.py:150-154 | the loop leaves the expansion, whose length is the sum of the copies and in which each latency occurs its count times |
| Transforms.ExpandedLengthIsTotal | plot_scripts/plot_latency.py:150-154 | with no negative count, the expansion is exactly as long as the total count |
| Transforms.Normalize | plot_scripts/plot_latency.py:156-159 | it raises `ZeroDivisionError` exactly for a non-empty dictionary whose total is 0; otherwise it keeps the keys in order and maps each count to count/total, so `{}` gives `{}` |
| Transforms.NormItemsSum | plot_scripts/plot_latency.py:158 | the fractions add up to the sum of the counts over the total |
| Transforms.NormalizeSumsToOne | plot_scripts/plot_latency.py:156-159 | the fractions of a non-empty histogram sum to one |
| Transforms.HdrKeepsIff | plot_scripts/plot_latency.py:171-173 | the filter keeps exactly the fractions at most `1 - 1/MAX_ACCURACY` |
| Transforms.TailBounds | plot_scripts/plot_latency.py:172-173 | a tail value the filter keeps is positive and at most `MAX_ACCURACY` |
| Transforms.HdrItemsEntries | plot_scripts/plot_latency.py:173 | over distinct keys, a key is kept exactly when its value passes the filter, and it maps to its tail value |
| Transforms.HdrKeys | plot_scripts/plot_latency.py:173 | the reference for the key order: the keys of the input, in order, whose value passes the filter |
| Transforms.HdrOrder | plot_scripts/plot_latency.py:173 | the comprehension keeps the passing keys in the order of `data.items()` |
| Transforms.ToHdr | plot_scripts/plot_latency.py:170-173 | the result's keys are the input keys whose value passes the filter, each mapped to `1/(1-v)`, and they keep the order of the input (`Transforms.HdrKeys`) |
| Transforms.HdrAll | plot_scripts/plot_latency.py:170-173 | the comprehension over `items()` keeps exactly the keys that pass the filter, each with its tail value |
| Transforms.ToHdrBounds | plot_scripts/plot_latency.py:170-173 | every tail value kept is in `(0, MAX_ACCURACY]`, and a key is kept exactly when its fraction is at most `1 - 1/MAX_ACCURACY` |
| Sorting.SortBy | plot_scripts/plot_latency.py:304 | the definition of `sorted` under a key order: a stable insertion sort |
| Sorting.SortByPermutes | plot_scripts/plot_latency.py:304 | `sorted` rearranges its input and neither adds nor drops an element |
| Sorting.SortBySorted | plot_scripts/plot_latency.py:304 | under a total preorder, the result of `sorted` is ordered |
| Sorting.SortByStable | plot_scripts/plot_latency.py:304 | `sorted` is stable: elements that compare equal keep their input order |
| Sorting.SortByDistinct | plot_scripts/plot_latency.py:168 | sorting elements that are all different gives elements that are all different |
| Sorting.SortByItems | plot_scripts/plot_latency.py:502 | sorting `d.items()` keeps exactly the dictionary's own pairs |
| Sorting.SortByItemIndex | plot_scripts/plot_latency.py:502 | every key of the dictionary has its pair somewhere in the sorted items |
| Accumulation.PairLe | plot_scripts/plot_latency.py:168 | the definition of the order `sorted` uses on the items: by key, then by value |
| Accumulation.SortedItems | plot_scripts/plot_latency.py:168 | the definition of `sorted(data.items())` |
| Accumulation.RunningSums | plot_scripts/plot_latency.py:162-168 | the definition of what `acc` returns for each item: the sum of `curr`'s increments so far, that is, of the values up to and including this item |
| Accumulation.AccumulateSpec | plot_scripts/plot_latency.py:161-168 | the definition of `accumulate`: the items sorted by key, each carrying the running sum of the values up to it |
| Accumulation.PairLeTotalPreorder | plot_scripts/plot_latency.py:168 | Python's order on `(key, value)` tuples is a total preorder |
| Accumulation.RunningSumsAt | plot_scripts/plot_latency.py:164-168 | the i-th running sum adds up the first `i + 1` values |
| Accumulation.RunningSumsSnoc | plot_scripts/plot_latency.py:164-168 | one more pair adds one more running sum, the previous sum plus its value |
| Accumulation.RunningSumsKeys | plot_scripts/plot_latency.py:168 | the running sums keep the keys of the pairs they sum |
| Accumulation.FracsWhereSortBy | plot_scripts/plot_latency.py:168 | reordering the pairs does not change what they sum to |
| Accumulation.SortedItemsShape | plot_scripts/plot_latency.py:168 | the sorted pairs are exactly the dictionary's own pairs, in strictly ascending key order |
| Accumulation.SortedKeys | plot_scripts/plot_latency.py:168 | the keys of the sorted pairs are the dictionary's keys, strictly ascending |
| Accumulation.SortedItemsTotal | plot_scripts/plot_latency.py:168 | the sorted values sum to the total |
| Accumulation.AccumulateKeys | plot_scripts/plot_latency.py:168 | the cumulative dictionary has the same keys, now in ascending order |
| Accumulation.PrefixIsFracsAtMost | plot_scripts/plot_latency.py:164-168 | over ascending keys, the running sum at a key is the sum of the values at keys up to it |
| Accumulation.RunningSumsEntry | plot_scripts/plot_latency.py:168 | the comprehension maps each key to the sum of the values at keys up to it |
| Accumulation.AccumulateValue | plot_scripts/plot_latency.py:161-168 | the value at key `k` is the sum of the fractions at every key `<= k` |
| Accumulation.AccumulateMonotone | plot_scripts/plot_latency.py:161-168 | with no negative fraction, cumulative values never decrease with the key |
| Accumulation.AccumulateMaxIsTotal | plot_scripts/plot_latency.py:161-168 | the largest key carries the total |
| Accumulation.ModuleGlobals.Accumulate | plot_scripts/plot_latency.py:161-168 | the result does not depend on what `curr` held before the call (the sum restarts at 0), and `curr` is left at the total |
| Matches.Step | plot_scripts/plot_latency.py:203-240 | the definition of one pass of the loop over the matched files: the display name, then either a skip for a missing file, the exception of the first failing step, or the dataset stored under the name |
| Matches.Run | plot_scripts/plot_latency.py:185-240 | the definition of the loop over all matched files, in order, starting from an empty dictionary and ending at the first exception |
| Matches.BaseName | plot_scripts/plot_latency.py:186-191 | a tuple is named by its label; a bare path by itself with every `_` replaced by `-` |
| Matches.SpecMatches | plot_scripts/plot_latency.py:197-203 | one match per globbed file, in glob order, each flagged when the pattern matched more than one file |
| Matches.RunErrorSticky | plot_scripts/plot_latency.py:203-240 | an exception ends the loop over the matches: nothing after it is processed |
| Matches.RunSkipsMissing | plot_scripts/plot_latency.py:217-221 | a match whose file is missing changes nothing: the result is as if it had not been found |
| Matches.RunOk | plot_scripts/plot_latency.py:185-240 | the loop finishes exactly when every match can be named and every existing file loads |
| Matches.RunValues | plot_scripts/plot_latency.py:233-240 | a property of every dataset loaded holds of every dataset stored |
| Matches.RunKeys | plot_scripts/plot_latency.py:233 | every stored name is the name of a match whose file exists |
| Matches.RunLastWins | plot_scripts/plot_latency.py:233-238 | a name keeps the data of the last match stored under it |
| Extraction.SeqSuffix | plot_scripts/plot_latency.py:269-270 | the definition of the label part of a sequence file: the path with the base path and the file name replaced by nothing |
| Extraction.XValue | plot_scripts/plot_latency.py:239-240 | the definition of the stored `x_value`: the mapping function applied to the path when one is given, and no key otherwise |
| Extraction.HistPipeline | plot_scripts/plot_latency.py:218-240 | the definition of what `extract_hist_data` stores for one file: read, scaled to microseconds, binned, expanded for the box, normalized, accumulated and given its HDR tail, with the x value when a mapping function is given; or the exception of the first step that raises |
| Extraction.ExtractHistSpec | plot_scripts/plot_latency.py:179-242 | the definition of `extract_hist_data`: the loop over every match of every specifier, with the datasets named after their experiments |
| Extraction.HistSuffix | plot_scripts/plot_latency.py:204-210 | the suffix raises `UnboundLocalError` exactly when `basepath` is `'.'` or `'..'` |
| Extraction.HistName | plot_scripts/plot_latency.py:198-214 | the definition of the name `extract_hist_data` stores a match under: the base name with one match, the base name plus the suffix with several; it raises `UnboundLocalError` exactly for the base paths `'.'` and `'..'`, as `HistSuffix` does |
| Extraction.SeqName | plot_scripts/plot_latency.py:262-274 | the definition of the name `extract_sequence_data` stores a match under: the base name, plus its own suffix when several files matched |
| Extraction.SeqNameHistName | plot_scripts/plot_latency.py:262-274 | outside the base paths `'.'` and `'..'`, a pattern that globbed a single file gives its match the same name in both extractors, and with several files both names extend the base name |
| Extraction.HistPipelineFacts | plot_scripts/plot_latency.py:224-238 | the stored histogram holds every count of the file; the normalized one sums to one; the CDF has the histogram's keys ascending and reaches one at the largest; HDR keys are CDF keys; the box data repeats each latency its count times |
| Extraction.HistXValues | plot_scripts/plot_latency.py:239-240 | with a mapping function, every stored dataset has an x value |
| Extraction.DotBasepathRaises | plot_scripts/plot_latency.py:205-207 | with `basepath` `'.'` or `'..'`, the first match raises `UnboundLocalError`, whether or not its file exists |
| Extraction.ProcessHistMatch | plot_scripts/plot_latency.py:203-240 | one turn of the match loop extends the result by that match, and an exception it raises is the result of the whole call |
| Extraction.ProcessHistSpec | plot_scripts/plot_latency.py:185-240 | the loop over one specifier's matches continues the result over exactly those matches |
| Extraction.ExtractHistData | plot_scripts/plot_latency.py:179-242 | the driver computes its specification over all matches of all specifiers |
| Extraction.SeqPipeline | plot_scripts/plot_latency.py:278-289 | the definition of what `extract_sequence_data` stores for one file: the pairs read, with the values scaled to microseconds, or `ValueError` |
| Extraction.ExtractSequenceSpec | plot_scripts/plot_latency.py:244-291 | the definition of `extract_sequence_data`: the loop over every match of every specifier, with the datasets named by `Extraction.SeqName` |
| Extraction.ExtractSequenceOk | plot_scripts/plot_latency.py:244-291 | the sequence extraction finishes exactly when every existing matched file parses |
| Extraction.ExtractSequenceKeys | plot_scripts/plot_latency.py:267-289 | every stored sequence name is that of a match whose file exists |
| Extraction.SeqLoaderOk | plot_scripts/plot_latency.py:277-284 | a match loads exactly when its file exists, and then without error exactly when every line parses |
| Extraction.ProcessSeqMatch | plot_scripts/plot_latency.py:267-289 | one turn of the sequence match loop, as for the histogram loop |
| Extraction.ProcessSeqSpec | plot_scripts/plot_latency.py:249-289 | the loop over one specifier's matches continues the result over exactly those matches |
| Extraction.ExtractSequenceData | plot_scripts/plot_latency.py:244-291 | the driver computes its specification over all matches |
| Series.Zip | plot_scripts/plot_latency.py:303 | `zip` stops at the shorter list and pairs elements by position |
| Series.ZipOfSplit | plot_scripts/plot_latency.py:305-306 | splitting pairs into two lists and zipping them gives the pairs back |
| Series.ByComponentTotalPreorder | plot_scripts/plot_latency.py:304 | ordering pairs by one component is a total preorder |
| Series.GetSortedValues | plot_scripts/plot_latency.py:297-307 | the definition of `get_sorted_values`: `zip`, a stable `sorted` on the chosen component, and the two halves split again |
| Series.GetSortedValuesSpec | plot_scripts/plot_latency.py:297-307 | the two lists have the length of the shorter input, hold the input pairs rearranged, are ordered by the chosen component, and keep ties in input order |
| Progression.Perc | plot_scripts/plot_latency.py:509-513 | the definition of the percentile stored: `np.percentile` of the box, or -1 when it raises `IndexError` |
| Progression.DefaultPercentiles | plot_scripts/plot_latency.py:491-492 | the definition of the default percentiles: `[50]` for an empty list |
| Progression.AddPoint | plot_scripts/plot_latency.py:514-516 | the definition of the append to `values[test][percentile]`, which starts an empty list for a new percentile |
| Progression.AddPoints | plot_scripts/plot_latency.py:508-516 | the definition of the percentile loop for one dataset: one point `(x_value, perc)` per percentile, in order |
| Progression.GatherStep | plot_scripts/plot_latency.py:503-516 | the definition of one pass of the gathering loop: the family is created when new and receives the points of the dataset |
| Progression.Family | plot_scripts/plot_latency.py:503 | the definition of the family of an experiment: its name without the last `/` segment |
| Progression.PointsAt | plot_scripts/plot_latency.py:514-516 | the definition of the list of one percentile in a family, empty while the percentile has none |
| Progression.FamilyOf | plot_scripts/plot_latency.py:503-505 | the definition of `values[test]` after `if test not in values: values[test] = {}` |
| Progression.GatherValues | plot_scripts/plot_latency.py:502-516 | the definition of the gathering loop: one pass per sorted dataset, adding its point to its family for each percentile |
| Progression.ProgressionValues | plot_scripts/plot_latency.py:490-516 | the definition of the gathering half of `plot_progression`: the datasets sorted by name and grouped into families, one list of points per percentile, or `KeyError` |
| Progression.GatherProgression | plot_scripts/plot_latency.py:497-516 | the gathering loop computes its specification over the sorted datasets |
| Progression.PercentileLoop | plot_scripts/plot_latency.py:508-516 | the percentile loop raises `KeyError` exactly when there is a percentile and no x value, and otherwise adds one point per percentile |
| Progression.AddPointSpec | plot_scripts/plot_latency.py:514-516 | adding a point creates its percentile's list if new, at the end of the keys, and appends exactly that point to it; every other list is unchanged |
| Progression.AddPointsSpec | plot_scripts/plot_latency.py:508-516 | after the percentile loop the family has every percentile, and each list holds its earlier points plus the dataset's point |
| Progression.AddPointsLists | plot_scripts/plot_latency.py:508-516 | after the percentile loop, the list of a percentile is its earlier list followed by the dataset's point once for each time the percentile is asked for |
| Progression.GatherKeys | plot_scripts/plot_latency.py:502-505 | one pass adds the dataset's family and no other |
| Progression.GatherHasFamily | plot_scripts/plot_latency.py:503-505 | every dataset's family is a key of `values` |
| Progression.GatherFamilyWitness | plot_scripts/plot_latency.py:503-505 | every key of `values` is the family of some dataset |
| Progression.GatherPercentiles | plot_scripts/plot_latency.py:508-516 | every family has a list for each percentile asked for, and no other |
| Progression.GatherHasPoint | plot_scripts/plot_latency.py:508-516 | each dataset adds its point to its family's list of every percentile |
| Progression.GatherPointWitness | plot_scripts/plot_latency.py:508-516 | each point in a list comes from a dataset of that family, with its x value and its percentile |
| Progression.SampleAt | plot_scripts/plot_latency.py:502 | each sorted dataset is one of `data`, with its own x value and box |
| Progression.SampleIndex | plot_scripts/plot_latency.py:502 | each dataset of `data` appears among the sorted ones |
| Progression.ProgressionError | plot_scripts/plot_latency.py:502-516 | gathering raises exactly when some dataset has no x value, and then raises `KeyError` |
| Progression.DataFamilies | plot_scripts/plot_latency.py:502-505 | with any grouping, the groups are exactly the groups of the dataset names |
| Progression.ProgressionFamilies | plot_scripts/plot_latency.py:502-505 | the families are exactly the names with their last `/` segment dropped |
| Progression.DataPercentiles | plot_scripts/plot_latency.py:508-516 | with any grouping, each group has a list for exactly the requested percentiles |
| Progression.ProgressionPercentiles | plot_scripts/plot_latency.py:490-516 | every family has a list for exactly the requested percentiles, `[50]` when none are given |
| Progression.DataHasPoints | plot_scripts/plot_latency.py:502-516 | with any grouping, each dataset's point is in its group's list of every percentile |
| Progression.FamilyPoints | plot_scripts/plot_latency.py:502-516 | the reference list of one family and percentile: the point of each dataset of the family, in the order of the sorted datasets, repeated as often as the percentile is asked for |
| Progression.GatherLists | plot_scripts/plot_latency.py:502-516 | the gathering loop leaves in every list exactly its reference list `Progression.FamilyPoints` |
| Progression.ProgressionHasPoints | plot_scripts/plot_latency.py:502-516 | each family's list of a percentile holds `(x_value, percentile of box)` of every dataset of the family; and each list is exactly `Progression.FamilyPoints`: those points in name order, each once per time the percentile is asked for, so once per dataset when no percentile repeats |
| Progression.ProgressionPointSource | plot_scripts/plot_latency.py:502-516 | and nothing else: each point comes from a dataset of its family, with its x value and that dataset's percentile |
| Curves.Limits | plot_scripts/plot_latency.py:518-530 | (corrected) the definition of the x range of the curves, with the left limit `min(min_x_value, min(xs))`, or `ValueError` for a curve without points |
| Curves.LimitsAsWritten | plot_scripts/plot_latency.py:518-530 | the definition of the x range as written, with the left limit `min(max_x_value, min(xs))` |
| Curves.PlotData | plot_scripts/plot_latency.py:518-530 | (corrected) the definition of the plotting half of `plot_progression`: every curve of every family and percentile, and the corrected x range |
| Curves.SeqMin | plot_scripts/plot_latency.py:525 | `min(xs)` is an element of `xs` no larger than any other |
| Curves.SeqMax | plot_scripts/plot_latency.py:524 | `max(xs)` is an element of `xs` no smaller than any other |
| Curves.CurveOf | plot_scripts/plot_latency.py:521-523 | the definition of one curve: the points sorted, split into `xs` and `ys` |
| Curves.AllCurves | plot_scripts/plot_latency.py:519-523 | the definition of the curves drawn: one per family of `values` and percentile of that family, in dictionary order |
| Curves.CurveOfSpec | plot_scripts/plot_latency.py:521-523 | a curve holds exactly the gathered points, one coordinate pair each, in ascending order of x, ties by y |
| Curves.CurveHasX | plot_scripts/plot_latency.py:521-522 | the x value of a gathered point is an x value of its curve |
| Curves.FamilyCurves | plot_scripts/plot_latency.py:520-523 | a family gives one curve per percentile, in the order of its percentiles |
| Curves.CurveSource | plot_scripts/plot_latency.py:519-526 | each curve drawn is the curve of a family of `values` and one of its percentiles |
| Curves.CurveDrawn | plot_scripts/plot_latency.py:519-526 | each family and percentile of `values` has its curve drawn |
| Curves.LimitsSnoc | plot_scripts/plot_latency.py:524-525 | (corrected) one more curve widens the range to its x values, or fails if it has none |
| Curves.LimitsError | plot_scripts/plot_latency.py:524-525 | the range fails exactly when some curve has no points, and then raises `ValueError` |
| Curves.LimitsBound | plot_scripts/plot_latency.py:498-530 | (corrected) the range holds every x value of every curve, and does not shrink the initial range |
| Curves.LimitsAttained | plot_scripts/plot_latency.py:498-530 | (corrected) each limit is its initial value or an x value of some curve |
| Curves.LimitsErrorSticky | plot_scripts/plot_latency.py:519-525 | once computing the range has failed, more curves do not mend it |
| Curves.LimitsAsWrittenShape | plot_scripts/plot_latency.py:524-525 | as written, the loop fails on the same inputs and has the same right limit, but its left limit is the smallest x of the last curve only |
| Curves.LimitsAsWrittenHidesCurve | plot_scripts/plot_latency.py:525 | for two curves at x = 1 and x = 5, the left limit as written is 5, which hides the first curve; the corrected one is 1 |
| Curves.PlotProgression | plot_scripts/plot_latency.py:518-530 | the plotting loop computes the curves and the corrected x range |
| Curves.FamilyLoop | plot_scripts/plot_latency.py:520-526 | (corrected) the inner loop appends the family's curves and keeps the range of all curves so far |
| Curves.ProgressionCurvePoints | plot_scripts/plot_latency.py:502-521 | every curve of gathered values has points |
| Curves.ProgressionPlotOk | plot_scripts/plot_latency.py:518-525 | plotting gathered values never fails |
| Curves.RangeCoversPoint | plot_scripts/plot_latency.py:524-530 | (corrected) the x range holds the x value of every gathered point |
| Curves.ProgressionRangeCovers | plot_scripts/plot_latency.py:497-530 | with the corrected left limit, the x range shown holds the x value of every dataset |
| Loops.RunOf | plot_scripts/plot_latency.py:557-562 | the definition of the loop variable of a row: the first key and value of its `type` dictionary, or none when `type` is empty |
| Loops.RunX | plot_scripts/plot_latency.py:562 | the definition of a row's x value: the first value of its `type` dictionary |
| Loops.MappedBox | plot_scripts/plot_latency.py:564-566 | the definition of `hist_data[mapping[exp][run]]`: the dataset's box, or none where a lookup raises `KeyError` |
| Loops.Open | plot_scripts/plot_latency.py:559-561 | the definition of the first sight of an experiment: an empty x list and an empty dictionary of y lists |
| Loops.AppendPerc | plot_scripts/plot_latency.py:575-577 | the definition of the append to `yss[exp][percentile]`, which starts an empty list for a new percentile |
| Loops.AppendPercs | plot_scripts/plot_latency.py:569-577 | the definition of the percentile loop for one run: one value per entry of `key`, in order |
| Loops.AddX | plot_scripts/plot_latency.py:562 | the definition of the append of the row's x value to `xss[exp]` |
| Loops.Record | plot_scripts/plot_latency.py:564-577 | the definition of a successful lookup: `mapped[exp]` is set and the percentile loop extends `yss[exp]` |
| Loops.SortedExps | plot_scripts/plot_latency.py:579 | the definition of the experiments of `sorted(mapped.items())`, in that order |
| Loops.MappedLe | plot_scripts/plot_latency.py:579 | the definition of the order `sorted` uses on `mapped.items()`: by experiment name, since the names are distinct |
| Loops.ExpCurves | plot_scripts/plot_latency.py:580-587 | the definition of the curves of one experiment: one per percentile of the list it is given (`sorted(key)` in `Loops.LoopCurves`), in order, or the first exception |
| Loops.CurvesOf | plot_scripts/plot_latency.py:579-587 | the definition of the curves of all mapped experiments, in sorted order, or the first exception |
| Loops.StepAsWritten | plot_scripts/plot_latency.py:557-577 | the definition of one pass of the gathering loop as written: the x value is appended before the lookup, the percentile lists only after a successful one |
| Loops.GatherAsWritten | plot_scripts/plot_latency.py:557-577 | the definition of the gathering loop as written, one `StepAsWritten` per row |
| Loops.Step | plot_scripts/plot_latency.py:557-577 | (corrected) the definition of one pass of the gathering loop with the x value appended after a successful lookup |
| Loops.Gather | plot_scripts/plot_latency.py:557-577 | (corrected) the definition of the gathering loop, one `Loops.Step` per row |
| Loops.LoopGathered | plot_scripts/plot_latency.py:544-577 | (corrected) the definition of the gathering half of `plot_loop` on the corrected loop: `IndexError` for a row with an empty `type` |
| Loops.LoopGatheredAsWritten | plot_scripts/plot_latency.py:544-577 | the definition of the gathering half of `plot_loop` as written, on `Loops.GatherAsWritten` |
| Loops.CurveFor | plot_scripts/plot_latency.py:579-585 | the definition of one curve: `KeyError` for a missing list, the lists sorted by `get_sorted_values` on x, and `ValueError` for an empty curve |
| Loops.LoopCurves | plot_scripts/plot_latency.py:579-585 | the definition of the plotting half of `plot_loop`: the curve of every experiment of `mapped`, in ascending order, and every percentile of `key`, sorted |
| Loops.PlotLoop | plot_scripts/plot_latency.py:544-587 | (corrected) the definition of `plot_loop` built on the corrected gathering loop `Loops.Gather`: the axis label and the curves, or the exception raised |
| Loops.PlotLoopAsWritten | plot_scripts/plot_latency.py:544-587 | the definition of `plot_loop` as written, built on `Loops.GatherAsWritten` |
| Loops.AppendPercsSpec | plot_scripts/plot_latency.py:569-577 | each percentile of `key` gets a list, which grows by that percentile of the box once per occurrence in `key`; other lists are unchanged |
| Loops.AppendPercsDistinct | plot_scripts/plot_latency.py:569-577 | with no repeated percentile, each list of `key` grows by exactly one value |
| Loops.StepXs | plot_scripts/plot_latency.py:559-566 | (corrected) a pass appends the row's x value to its own experiment's list when the lookup succeeds, and to no other |
| Loops.StepYs | plot_scripts/plot_latency.py:559-577 | a pass runs the percentile loop on its own experiment's lists when the lookup succeeds, and changes no other experiment's lists |
| Loops.StepMapped | plot_scripts/plot_latency.py:563-566 | a pass maps its experiment to the box when the lookup succeeds, and changes no other experiment's mapping |
| Loops.StepAsWrittenXs | plot_scripts/plot_latency.py:559-562 | as written, a pass appends the x value whether or not the lookup succeeds |
| Loops.GatherLabel | plot_scripts/plot_latency.py:558 | the axis label is the first `type` key of the last row |
| Loops.GatherXsKeys | plot_scripts/plot_latency.py:559-561 | every experiment of `content` gets an x list, and no other |
| Loops.GatherXs | plot_scripts/plot_latency.py:557-566 | (corrected) an experiment's x list holds the x values of its matched rows, in order |
| Loops.GatherKeysAgree | plot_scripts/plot_latency.py:559-561 | `xss` and `yss` always have the same keys |
| Loops.GatherYsKeys | plot_scripts/plot_latency.py:569-577 | an experiment has a list for a percentile exactly when it is in `key` and a row of the experiment was matched, and the list is never empty |
| Loops.GatherYs | plot_scripts/plot_latency.py:569-577 | the list of a percentile holds that percentile of each matched row's box, in order |
| Loops.GatherMappedKeys | plot_scripts/plot_latency.py:563-566 | an experiment is in `mapped` exactly when one of its rows was matched |
| Loops.GatherMapped | plot_scripts/plot_latency.py:564 | `mapped` holds the box of the experiment's last matched row |
| Loops.GatherPairs | plot_scripts/plot_latency.py:557-583 | (corrected) zipping an experiment's x list with a percentile's list gives each matched row's x value with that percentile of its own box |
| Loops.GatherAsWrittenXs | plot_scripts/plot_latency.py:557-562 | as written, an experiment's x list holds the x value of every one of its rows, matched or not |
| Loops.GatherAsWrittenSame | plot_scripts/plot_latency.py:557-577 | as written, the y lists, the mapped boxes and the axis label are as in the corrected loop |
| Loops.GatherAsWrittenMispairs | plot_scripts/plot_latency.py:562-583 | two runs of one experiment, only the second mapped: as written, the first run's x value is paired with the second run's percentile; corrected, the second run's is |
| Loops.MatchedWithinRowXs | plot_scripts/plot_latency.py:557-566 | an experiment has at least as many rows as matched rows, so as written its x list is never shorter than its percentile lists |
| Loops.RowXsAllMatched | plot_scripts/plot_latency.py:557-566 | when every row of an experiment has a dataset, the x list as written is the corrected one |
| Loops.CollectLoop | plot_scripts/plot_latency.py:544-577 | the gathering loop, with the x value appended after a successful lookup, computes its specification, and raises `IndexError` on a row with an empty `type` |
| Loops.AppendLoop | plot_scripts/plot_latency.py:569-577 | the percentile loop for one matched row computes its specification |
| Loops.ExpCurvesSpec | plot_scripts/plot_latency.py:580-587 | the percentile loop of one experiment succeeds exactly when each of its curves does, and then gives them in the order of the percentiles |
| Loops.CurvesOfOk | plot_scripts/plot_latency.py:579-587 | the experiment loop succeeds when every curve does |
| Loops.CurvesOfSource | plot_scripts/plot_latency.py:579-587 | each curve drawn is that of one of the experiments and one of the percentiles |
| Loops.CurvesOfDrawn | plot_scripts/plot_latency.py:579-587 | each experiment and percentile has its curve drawn |
| Loops.SortedExpsSpec | plot_scripts/plot_latency.py:579 | the experiments drawn are those of `mapped`, in ascending order |
| Loops.GatheredCurveOk | plot_scripts/plot_latency.py:579-585 | an experiment in `mapped` has a curve for every percentile of `key` |
| Loops.GatheredCurve | plot_scripts/plot_latency.py:579-585 | (corrected) a curve holds each matched row's x value with that percentile of its own box, rearranged, ordered by x, equal x values in the order of `content` |
| Loops.GatheredCurvesOk | plot_scripts/plot_latency.py:579-587 | the plotting half never fails on a gathered state |
| Loops.PlotLoopError | plot_scripts/plot_latency.py:557-587 | `plot_loop` fails exactly when a row has an empty `type`, and then with `IndexError` |
| Loops.PlotLoopLabel | plot_scripts/plot_latency.py:551-558 | the axis label is the first `type` key of the last row, or `None` without rows |
| Loops.PlotLoopCurveSource | plot_scripts/plot_latency.py:544-587 | (corrected) each curve drawn belongs to an experiment with a matched row and to a percentile of `key`, `[50]` when none is given |
| Loops.PlotLoopCurveDrawn | plot_scripts/plot_latency.py:544-587 | (corrected) each experiment with a matched row has a curve drawn for each percentile of `key` |
| Loops.GatheredAsWrittenCurveOk | plot_scripts/plot_latency.py:579-585 | as written, an experiment in `mapped` still has a curve for every percentile of `key` |
| Loops.GatheredAsWrittenCurve | plot_scripts/plot_latency.py:557-585 | as written, a curve pairs the x values of ALL rows of the experiment, by position, with that percentile of each MATCHED row's box, the surplus x values dropped, ordered by x, equal x values in row order |
| Loops.GatheredAsWrittenCurvesOk | plot_scripts/plot_latency.py:579-587 | as written, the plotting half never fails on a gathered state |
| Loops.PlotLoopAsWrittenError | plot_scripts/plot_latency.py:557-587 | as written, `plot_loop` fails exactly when a row has an empty `type`, and then with `IndexError` |
| Loops.PlotLoopAsWrittenLabel | plot_scripts/plot_latency.py:551-558 | as written, the axis label is the first `type` key of the last row, or `None` without rows |
| Loops.PlotLoopAsWrittenCurveSource | plot_scripts/plot_latency.py:544-587 | as written, each curve drawn is that of an experiment with a matched row and a percentile of `key`, over the as-written lists |
| Loops.PlotLoopAsWrittenCurveDrawn | plot_scripts/plot_latency.py:544-587 | as written, each experiment with a matched row has a curve drawn for each percentile of `key` |
| Config.ProgressionMismatch | plot_scripts/plot_latency.py:658 | the definition of the first `RuntimeError` condition: exactly one of the mapping function and the x label is given |
| Config.LoopMismatch | plot_scripts/plot_latency.py:663 | the definition of the second `RuntimeError` condition: exactly one of the loop file and the loop order is given |
| Config.SequenceStep | plot_scripts/plot_latency.py:605-611 | the definition of `_plot_sequence` when a sequence file is given: the sequence plot, the no-data report, or the exception of `extract_sequence_data` |
| Config.Progressions | plot_scripts/plot_latency.py:623-626 | (corrected x range) the definition of `_plot_progression`: one `plot_progression` per percentile list, the first exception ending the loop |
| Config.Checks | plot_scripts/plot_latency.py:654-666 | (corrected x range) the definition of the option checks and the plots after them |
| Config.PlotWith | plot_scripts/plot_latency.py:632-666 | (corrected x range) the definition of `plot` given the outcome of the sequence plot and of the histogram extraction |
| Config.Plot | plot_scripts/plot_latency.py:632-666 | (corrected x range) the definition of `plot`: `Config.PlotWith` applied to the sequence plot and to `extract_hist_data` |
| Config.ProgressionsOk | plot_scripts/plot_latency.py:623-626 | (corrected x range) when every dataset has an x value, each percentile list gets its progression plot, in order, and none fails |
| Config.ChecksRuntimeError | plot_scripts/plot_latency.py:654-665 | the checks raise `RuntimeError` exactly when a pair is given by halves; the loop pair only counts when the progression plots did not already fail on an unassigned `hist_data` |
| Config.ChecksUnbound | plot_scripts/plot_latency.py:657-666 | the checks raise `UnboundLocalError` exactly when a consistent pair asks for a plot while `hist_data` was never assigned |
| Config.ChecksErrors | plot_scripts/plot_latency.py:654-666 | the checks raise nothing else |
| Config.ChecksLoop | plot_scripts/plot_latency.py:663-666 | the loop plot is drawn exactly when there is histogram data, both pairs are consistent and a loop file is given |
| Config.ChecksProgressionNeeds | plot_scripts/plot_latency.py:658-661 | a progression plot is drawn only with histogram data and both progression options, and only for a given percentile list |
| Config.ProgressionsActions | plot_scripts/plot_latency.py:623-626 | every action of the progression loop is the plot of one of its percentile lists |
| Config.ChecksProgressions | plot_scripts/plot_latency.py:660-661 | (corrected x range) with histogram data and both progression options, the checks start with one progression plot per percentile list, in order |
| Config.PlotExtraction | plot_scripts/plot_latency.py:644-646 | the extraction is given the mapping function, so with one every dataset has an x value |
| Config.PlotReached | plot_scripts/plot_latency.py:639-666 | a call that gets to the checks first does the sequence and default histogram plots and then what the checks do |
| Config.PlotEarlyExit | plot_scripts/plot_latency.py:639-656 | a call that stops before the checks adds no progression or loop plot, and raises only what the sequence or histogram extraction raised |
| Config.PlotRuntimeError | plot_scripts/plot_latency.py:658-664 | past the early returns, `RuntimeError` is raised exactly when a pair is given by halves; the loop pair does not count when progression plots were asked for without a histogram file |
| Config.PlotUnbound | plot_scripts/plot_latency.py:642-666 | past the early returns, `UnboundLocalError` is raised exactly when a consistent pair asks for a plot and no histogram file was given |
| Config.PlotChecksErrors | plot_scripts/plot_latency.py:654-666 | past the early returns, nothing else is raised |
| Config.PlotLoopDrawn | plot_scripts/plot_latency.py:642-666 | the loop plot is drawn exactly when the call gets to the checks with histogram data and a loop file, and both pairs are consistent |
| Config.PlotProgressionsDrawn | plot_scripts/plot_latency.py:660-661 | (corrected x range) with histogram data and both progression options, the progression plots of all percentile lists come one after the other, right after the sequence and default plots |
| Config.PlotProgressionNeeds | plot_scripts/plot_latency.py:657-661 | a progression plot is drawn only when the call reaches the checks with histogram data and both progression options, and only for one of the percentile lists |
| Config.SequenceStepActions | plot_scripts/plot_latency.py:605-611 | `_plot_sequence` draws the sequence plot or reports that there is no data, and nothing else |

## Left out

- Rendering is left out: figures, axes, colours, legends, `ylim`/`xlim`, `save_plt`, `plt.show` and `plot_sequence`, `plot_hist`, `plot_box`, `plot_cdf`, `plot_hdr`. `plot` records only which plots it draws, as actions. A progression plot action carries its curves and x range. Exceptions raised inside the rendering functions are not modelled either, and `plot` is taken to continue past them. Two such exceptions are `max([])` in `plot_sequence`, for a sequence file with no lines (320), and `math.log10(0)` in `plot_hdr`, when every dataset's `hdr` is empty (435).
- The progress messages (`print`, `rprint`) are left out; the two "no data" messages and the percentile message are recorded as actions.
- `_plot_loop` (called at 666) belongs to a helper notebook that is not part of this model. `plot` records the loop plot as an action. `plot_loop` itself is modelled in `Loops`, with the rows of the loop file and the run mapping given as inputs.
- Opening files, `glob` and directory listing are inputs: a path either has its lines or raises `FileNotFoundError`. Other I/O errors are not modelled.
- Python's `round` on binary floats, `np.percentile` and the user's mapping function are parameters. Exceptions raised inside them, other than `IndexError` from `np.percentile`, are not modelled.
- IEEE floating point is not modelled; latencies and fractions are exact reals. This is why `to_hdr`'s filter reduces to a bound on the fraction.
- `Strings.ParseInt` accepts ASCII decimal digits only, while Python's `int()` also accepts other Unicode digits.
- The command line (`run_from_cli`) and the example cells are left out, as are the `name` and `historgram_bar_width` options, which only reach rendering.
- `Extraction.HistDataset`: `x_value` is an `Option`, standing for a key that is present or absent.
- `Loops.LoopState`: `xss`, `yss` and the dictionaries inside `yss` are maps, because nothing iterates over them. `mapped` holds only the `box` of each dataset, the only field the loop reads.
- `Loops.GatherYs`: the list contents are stated only when `key` holds no repeated percentile. With repeats, `Loops.AppendPercsSpec` states how the lists grow.
- `Loops.GatherPairs`: stated for a `key` without repeated percentiles, for the same reason. It is also the corrected member of a finding; as written, `Loops.GatherAsWrittenMispairs` shows the pairing that goes wrong.
- `Loops.GatheredCurve`: stated for a `key` without repeated percentiles, for the same reason. It is also stated for the corrected loop (see Findings); as written, `Loops.GatheredAsWrittenCurve` states the curve.
- `Loops.CollectLoop`: it models the loop with the x value appended after the lookup (see Findings). The loop as written is `Loops.GatherAsWritten`.
- `Curves.PlotProgression`: it uses the corrected left limit (see Findings). The loop as written is `Curves.LimitsAsWritten`.
- `Loops.StepXs`: it states the corrected pass, which appends the x value only after a successful lookup (see Findings). As written, `Loops.StepAsWrittenXs` states the pass.
- `Loops.GatherXs`: it states the corrected loop, whose x list holds only the matched rows. As written, `Loops.GatherAsWrittenXs` states the x list of every row.
- `Loops.PlotLoop`: it is built on the corrected loop `Loops.Gather`. As written, the call is `Loops.PlotLoopAsWritten`.
- `Loops.Step`, `Loops.Gather` and `Loops.LoopGathered`: they are the corrected loop. As written, the loop is `Loops.StepAsWritten`, `Loops.GatherAsWritten` and `Loops.LoopGatheredAsWritten`.
- `Loops.PlotLoopCurveSource`: it states the curves of the corrected loop. As written, `Loops.PlotLoopAsWrittenCurveSource` states them.
- `Loops.PlotLoopCurveDrawn`: it states the curves of the corrected loop. As written, `Loops.PlotLoopAsWrittenCurveDrawn` states them.
- `Curves.Limits`: it takes the corrected left limit (see Findings). As written, the range is `Curves.LimitsAsWritten`, and `Curves.LimitsAsWrittenShape` states how the two differ.
- `Curves.PlotData`: it uses the corrected left limit, for the same reason.
- `Curves.LimitsSnoc`: it states the corrected range. As written, one more curve replaces the left limit by its own smallest x value; `Curves.LimitsAsWrittenShape` states this.
- `Curves.LimitsBound`: it is the corrected member of a finding. As written, `Curves.LimitsAsWrittenHidesCurve` shows a curve that falls outside the range.
- `Curves.LimitsAttained`: it states the corrected range. As written, the left limit is the last curve's smallest x value or the initial one.
- `Curves.FamilyLoop`: it keeps the corrected range of all curves so far. As written, the loop keeps the range of `Curves.LimitsAsWritten`.
- `Curves.RangeCoversPoint`: it states the corrected range; as written, line 525 breaks it (see Findings).
- `Curves.ProgressionRangeCovers`: it states the corrected range; as written, `Curves.LimitsAsWrittenHidesCurve` shows a dataset whose x value falls outside the range.
- `Config.ProgressionsOk`: a progression plot action carries the corrected x range of `Curves.PlotData`.
- `Config.ChecksProgressions`: a progression plot action carries the corrected x range, for the same reason.
- `Config.PlotProgressionsDrawn`: a progression plot action carries the corrected x range, for the same reason.
- `Config.Progressions`, `Config.Checks`, `Config.PlotWith` and `Config.Plot`: a progression plot action carries the corrected x range of `Curves.PlotData`. As written, the left limit is that of `Curves.LimitsAsWritten`.
- `Accumulation.ModuleGlobals.Accumulate`: `curr` is the only module global modelled, because `accumulate` is the only function that uses one.

## Findings

| source | as written | input that shows it | evidently intended | confidence | as-written member | corrected member |
|---|---|---|---|---|---|---|
| plot_scripts/plot_latency.py:525 | `min_x_value = min(max_x_value, min(xs))`: each curve replaces the left limit, so only the last curve's smallest x counts | two curves of percentile 50, one with a point at x = 1.0 and one at x = 5.0: the left limit becomes 5.0 and the first curve's point lies outside the view | `min(min_x_value, min(xs))`, a left limit no larger than any x value, here 1.0 | not executed | Curves.LimitsAsWrittenHidesCurve | Curves.LimitsBound |
| plot_scripts/plot_latency.py:562-583 | the x value is appended at 562, before the lookup that may raise `KeyError`, so a run without a dataset leaves an x value without a y value, and `zip` pairs them by position | two runs of one experiment with x values 1 and 2, where only the second has a dataset: the curve gets the point (1, percentile of the second run's data) | append the x value only after a successful lookup, pairing each x value with its own run's percentile | not executed | Loops.GatherAsWrittenMispairs | Loops.GatherPairs |
