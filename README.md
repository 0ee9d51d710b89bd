# scale_map.py in Dafny

This project models the sequential logic of `scale_map.py`, a two-phase
map/reduce job that counts integers across data files. It proves the model's
properties with Dafny.

- **Mapper.** `mapper()` reads one file line by line. It applies `int()` to
  each stripped line and counts the integers in a `defaultdict(int)`.
- **Map phase.** `run_mappers()` runs the mapper on every data file and
  writes result `i` as the JSON artifact `mapper_output_i.json`. JSON turns
  the integer keys into decimal strings.
- **Reduce phase.** `reducer()` loads every artifact the glob finds. It
  converts each key back with `int(num)` and adds the counts into
  `final_counts`. It then sorts the items by decreasing count with Python's
  stable `sorted` and writes the first six under a header line.
- **`.env` loading.** `load_dotenv()` reads `KEY=VALUE` lines into the
  environment. It never replaces a variable that is already set.

Python dictionaries keep their keys in insertion order, and the stable sort
breaks ties by that order. A dictionary is therefore modelled as
`Counts.Tally`: the key list in first-insertion order plus a map from keys to
counts. `Counts.Valid` is its invariant. Its operations mirror the
dictionary's: `Add` is `d[k] += n`, `Get` reads without inserting, `Items` is
`d.items()`.

Inputs are given as values:

- An input file is `Option<seq<string>>`, its lines. `None` means
  `FileNotFoundError`.
- The glob result of the reducer is a sequence of `Artifact`s, in glob order.
  `LoadFailed` stands for a `json.JSONDecodeError` or `FileNotFoundError`.
  `Loaded(entries)` is the object's members as `data.items()` returns them.
- The environment is a `map<string, string>`.

Each loop of the source is a Dafny method with loop invariants:
`Mapper.Mapper`, `Pipeline.RunMappers`, `Aggregate.Aggregate` with its
inner loop `Aggregate.AddMembers`, `Ranking.SortByCount`,
`Ranking.RenderReport` and `DotEnv.LoadDotenv`.
The `ensures` of each method ties its result to a specification:

- `Mapper.Mapper` to the recursive function `TallyLines`;
- `Pipeline.RunMappers` to `WrittenFor`, the JSON of each file's mapper result;
- `Aggregate.Aggregate` to the recursive function `AddArtifacts`;
- `Aggregate.AddMembers` to `AddAll` of the converted members, or `None`
  exactly when `DecodeEntries` fails;
- `Ranking.SortByCount` to three conditions: sorted by count, a permutation,
  and the items of each count in input order. `Ranking.StableSortUnique`
  shows that only one list meets them;
- `Ranking.RenderReport` to the header followed by `RenderAll`, one
  `RenderLine` per entry;
- `DotEnv.LoadDotenv` to the recursive function `LoadLines`.

Lemmas then state what the source promises about those specifications.

Python's `int()` is modelled on the subset `PyInt.ParseInt` accepts:

- `str.strip()` white space around the number;
- an optional `+` or `-`;
- ASCII digits, optionally with single `_` between digits.

A string outside that subset gives `None`. Python raises `ValueError` for
it, except for numerals with non-ASCII decimal digits, which Python converts
(see "## Left out").
What converts reads as the integer whose decimal text is the numeral's
canonical form (`PyInt.Canon`): a `+` and the underscores dropped, leading
zeros dropped, and `-0` read as 0.
`str.strip()` removes every character Python's `str.isspace()` accepts.

The two phases are connected end to end. `Pipeline.EndToEndTotals` proves the
following: suppose the reducer finds exactly the artifacts the mappers wrote,
in any order. Then no key fails to convert, and the total of every integer is
the number of lines holding it, summed over all input files.

The model follows the code on these points:

- Ties in the ranking keep the order in which their values were first seen,
  across the artifacts in glob order. They are not ordered by ascending
  value. `Pipeline.GlobOrderDecidesTies` shows two artifacts whose ranking
  depends on the order in which the glob lists them.
- Report lines read `Number: <num>, Frequency: <count>` and follow a header
  line. They are not `<value>: <count>`.
- A missing input file makes the mapper return `{}`. It is not a failure.
- An artifact that fails to load is skipped. It does not abort the run.
  A key that `int()` rejects is not caught, and the reducer stops
  (`Report.Crashed`).

## Model

| member | source | states |
|---|---|---|
| PyStr.Strip | scale_map.py:54 | `strip()` never lengthens the text, and what it returns neither starts nor ends with white space |
| PyStr.LStripSpec | scale_map.py:20 | the leading part `lstrip` drops is made of stripped characters, and what remains does not start with one |
| PyStr.RStripSpec | scale_map.py:20 | the trailing part `rstrip` drops is made of stripped characters, and what remains does not end with one |
| PyStr.StripSetSpec | scale_map.py:20 | `strip` leaves a middle slice of the text whose two ends are not stripped characters, everything cut on either side being stripped characters |
| PyStr.StripSetKeeps | scale_map.py:26-27 | a text whose two ends are not stripped characters is left unchanged by `strip` |
| PyStr.StripSetIdempotent | scale_map.py:26 | stripping twice is stripping once |
| PyStr.IndexOf | scale_map.py:23-25 | the index found is the first occurrence of the character, and `None` exactly when the character is absent |
| PyStr.IndexAfter | scale_map.py:25 | the first `=` of `key + "=" + rest` is at the end of a key without `=` |
| PyInt.ParseInt | scale_map.py:54 | text that `int()` converts is, once stripped, an optional sign, then digits and underscores ending in a digit; a negative result comes from a leading `-`; stripped text of ASCII digits alone always converts |
| PyInt.ParseIntMeaning | scale_map.py:54 | `int()` converts a text exactly when, once stripped, it is an optional sign followed by digits with single underscores between digits; the integer it gives has as decimal text the numeral without `+`, underscores and leading zeros, and without `-` when it is zero |
| PyInt.ParseIntValue | scale_map.py:54 | a numeral whose canonical form is the decimal text of `v` converts to `v` |
| PyInt.PaddedNumeral | scale_map.py:54 | an optional `+` or `-`, any number of leading zeros and the digits of `n` convert to `n` or `-n`: `+7` and `007` give 7, `-0` gives 0 |
| PyInt.UnderscoreExample | scale_map.py:54 | `int("1_0")` is 10 |
| PyInt.UnderscoreText | scale_map.py:54 | `1_0` is a numeral with nothing to strip, whose canonical form is the decimal text of 10 |
| PyInt.DoubleUnderscoreExample | scale_map.py:54 | `int("1__0")` raises `ValueError` |
| PyInt.RunShapeIff | scale_map.py:54 | the grammar of a digit run and its character-by-character description agree |
| PyInt.RunCanon | scale_map.py:54 | the canonical digits of a run are the decimal text of its value |
| PyInt.CanonValue | scale_map.py:54 | digits without a leading zero are the decimal text of the number they denote |
| PyInt.StripZerosValue | scale_map.py:54 | leading zeros do not change the value of a run of digits |
| PyInt.DigitsOfValue | scale_map.py:54 | underscores do not change the value of a run of digits |
| PyInt.DigitRunChars | scale_map.py:54 | a run of digits with single underscores starts and ends with a digit and holds nothing else |
| PyInt.AllDigitsRun | scale_map.py:54 | ASCII digits without underscores form such a run |
| PyInt.EncodeInt | scale_map.py:89 | `str(v)` is canonical decimal text: a `-` exactly for negative numbers, then digits only, with no leading zero unless `v` is 0 |
| PyInt.DigitChar | scale_map.py:89 | the digit character written for `d` is an ASCII digit whose value is `d` |
| PyInt.NatDigits | scale_map.py:89 | the decimal text of a natural number is non-empty, all digits, and has no leading zero |
| PyInt.NatDigitsValue | scale_map.py:89 | the decimal text of `n` is a digit run denoting `n` |
| PyInt.KeyRoundTrip | scale_map.py:112-113 | `int(str(v)) == v` for every integer: a JSON key reads back as the integer written |
| PyInt.EncodeIntInjective | scale_map.py:89 | distinct integers are written as distinct keys, so the keys of an artifact never collide |
| PyInt.EncodeIntNoComma | scale_map.py:128 | the decimal text of an integer holds no comma |
| Counts.Add | scale_map.py:55 | `d[k] += n` raises the count of `k` by `n` and changes no other count; the key list is unchanged when `k` was present and gains `k` at its end otherwise; the dictionary invariant is kept |
| Counts.Items | scale_map.py:119 | `d.items()` has one entry per key |
| Counts.ItemsExact | scale_map.py:119 | a pair is among the items exactly when it is a key with its count, and no key occurs twice |
| Counts.Dedup | scale_map.py:105-113 | the first occurrences of a sequence have no repeats and hold exactly its elements |
| Counts.DistinctKeysCount | scale_map.py:119 | a dictionary has as many items as distinct keys |
| Counts.TotalAdd | scale_map.py:55 | `d[k] += n` raises the sum of all counts by exactly `n` |
| Counts.AddKeepsFirstSeen | scale_map.py:112-113 | adding to a dictionary keeps its keys in first-seen order |
| Counts.AddAll | scale_map.py:112-113 | `d[k] += n` for each pair in turn keeps the dictionary invariant, and every key gains the sum of the counts paired with it |
| Counts.AddAllSpec | scale_map.py:112-113 | adding a sequence of pairs appends the keys not yet present, in first-seen order |
| Counts.ItemsRebuild | scale_map.py:112-113 | adding the items of a dictionary, in order, to an empty one gives the same dictionary, order included |
| Counts.ItemsOf | scale_map.py:119 | the items under a key list are those keys, in order, each with its count |
| Counts.ItemsCount | scale_map.py:112-113 | in the items of a dictionary, the count paired with `v` sums to the count of `v` |
| Mapper.TallyLinesCounts | scale_map.py:49-58 | the counting loop keeps the dictionary invariant, and the count of every integer is the number of lines whose stripped text parses to it |
| Mapper.TallyLinesPositive | scale_map.py:52-58 | every key present has a count of at least 1 |
| Mapper.TallyLinesOrder | scale_map.py:52-55 | the keys are ordered by the line where each integer first occurs |
| Mapper.TallyLinesTotal | scale_map.py:52-58 | the counts add up to the number of lines that parse as integers |
| Mapper.NonIntegerLinesCountNowhere | scale_map.py:56-58 | removing a line that does not parse changes no count |
| Mapper.Mapper | scale_map.py:44-64 | the loop computes the counts of the file: the invariant holds, each count is the number of lines holding the integer, the sum is the number of parsable lines, every count is at least 1, and a missing file gives `{}` |
| Artifact.EncodeItems | scale_map.py:89 | one JSON member is written per item |
| Artifact.DecodeEntriesSpec | scale_map.py:112-113 | converting the keys of a loaded object fails exactly when some key does not convert; otherwise it converts every member in place |
| Artifact.EncodeDecode | scale_map.py:112-113 | the members written for a sequence of items convert back to exactly those items |
| Artifact.EncodedReloads | scale_map.py:111-113 | the artifact of a mapper dictionary converts back to its items, and adding them up gives the dictionary again |
| Aggregate.ContributionOk | scale_map.py:109-116 | an artifact contributes pairs exactly when it failed to load or all its keys convert |
| Aggregate.AddArtifactsOk | scale_map.py:108-116 | the loop succeeds exactly when every loaded artifact's keys convert |
| Aggregate.AddArtifactsSpec | scale_map.py:105-116 | the loop succeeds exactly when every loaded artifact's keys convert; then the invariant holds, each total is the sum of the artifacts' counts (failed loads counting 0), and keys are first-seen across the artifacts in order |
| Aggregate.DecodePrefixFails | scale_map.py:112-113 | a key that fails among the first members makes the whole artifact fail |
| Aggregate.AddPrefixFails | scale_map.py:108-113 | a failure among the first artifacts makes the whole loop fail |
| Aggregate.Aggregate | scale_map.py:105-116 | the loop over the artifacts, with `AddMembers` as its inner loop, computes `AddArtifacts`: `None` exactly when a key does not convert; otherwise `SumsOf`: the invariant holds, each total is the sum over the artifacts, and keys are in first-seen order |
| Aggregate.AddMembers | scale_map.py:112-113 | the inner loop over one artifact gives `None` exactly when one of its keys does not convert, and otherwise adds every converted pair to the totals |
| Aggregate.Succeeded | scale_map.py:105-116 | when the loop succeeds, every key converted and the totals are the sums over the artifacts in first-seen order |
| Aggregate.ArtifactFails | scale_map.py:109-113 | a loaded artifact with a key that does not convert stops the whole loop |
| Aggregate.TotalForConcat | scale_map.py:108-113 | the total over two runs of artifacts is the sum of their totals |
| Aggregate.TotalForPermutation | scale_map.py:108-113 | the total of every integer is the same for any reordering of the artifacts |
| Aggregate.AllKeysMention | scale_map.py:108-113 | an integer is among the keys seen exactly when some artifact mentions it |
| Aggregate.AllOkPermutation | scale_map.py:108-113 | whether a key fails to convert does not depend on the order of the artifacts |
| Aggregate.KeysPermutation | scale_map.py:108-113 | the set of integers seen does not depend on the order of the artifacts |
| Aggregate.AggregateOrderIndependent | scale_map.py:108-113 | for two orders of the same artifacts, the loop fails for both or for neither; when it succeeds, the totals have the same counts and the same keys, so they are equal as Python dictionaries, whose `==` ignores key order |
| Ranking.WithCountConcat | scale_map.py:119 | picking the items of one count distributes over concatenation |
| Ranking.InsertAt | scale_map.py:119 | inserting an item after every item with a count at least its own, and before the smaller ones, keeps the list sorted and appends it to its count's items |
| Ranking.InsertStep | scale_map.py:119 | one insertion step extends a stable sort of the first `i` items to the first `i + 1` |
| Ranking.SortByCount | scale_map.py:119 | the insertion sort returns a list sorted by non-increasing count, a permutation of the items, with the items of each count in input order |
| Ranking.StableSortUnique | scale_map.py:119 | there is only one stable sort by count of a given list, so the model's sort is the one `sorted(..., reverse=True)` returns |
| Ranking.StableTies | scale_map.py:119 | two entries of a stable sort with the same count appear in the input in the same order |
| Ranking.Top | scale_map.py:127 | `sorted_counts[:6]` is the first min(6, n) entries |
| Ranking.TopShape | scale_map.py:119-127 | the report of a sorted permutation of the items lists min(6, number of distinct values) entries, each a key with its count, in non-increasing order, and no key left out has a count above the last one listed |
| Ranking.TopEntries | scale_map.py:127 | each listed entry is a key of the dictionary with its count |
| Ranking.TopOmitted | scale_map.py:119-127 | no key left out has a count above the last listed entry |
| Ranking.OmittedAt | scale_map.py:119-127 | a key left out of the report sits, with its count, in the sorted list after the listed part |
| Ranking.TopCut | scale_map.py:119-127 | a key left out with the count of a listed entry comes after that entry's key in the dictionary's key order |
| Ranking.RenderReport | scale_map.py:126-130 | the written lines are the header followed by `RenderAll` of the entries |
| Ranking.RenderAll | scale_map.py:127-129 | the loop body writes one line per entry |
| Ranking.RenderAllAt | scale_map.py:127-129 | line `k` after the header is the rendering of entry `k` |
| Ranking.RenderLine | scale_map.py:128 | a report line holds no line break, so each entry takes exactly one line of the file |
| Ranking.RenderLineRoundTrip | scale_map.py:128 | reading a report line back gives the number and the count it was written from |
| Ranking.SplitRendered | scale_map.py:128 | the text of a report line splits back into the number and the count it was made from |
| Pipeline.MapperSpecValid | scale_map.py:44-64 | a mapper result satisfies the dictionary invariant, and its counts are the file's line counts (0 for a missing file) |
| Pipeline.WrittenArtifacts | scale_map.py:86-89 | artifact `i` holds the JSON of mapper result `i` |
| Pipeline.RunMappers | scale_map.py:82-90 | the loop writes one artifact per file, in file order, and each converts back to that file's mapper dictionary |
| Pipeline.AllWrittenReload | scale_map.py:86-89 | every artifact of a run converts back to its file's mapper dictionary |
| Pipeline.WrittenReloads | scale_map.py:111-113 | a written artifact converts back to exactly the mapper dictionary it came from |
| Pipeline.WrittenArtifactCount | scale_map.py:111-113 | a written artifact converts, and its count of `v` is the number of lines of its file holding `v` |
| Pipeline.WrittenArtifactsTotal | scale_map.py:82-113 | over the artifacts as written, every key converts and each total is the file counts summed |
| Pipeline.EndToEndTotals | scale_map.py:82-116 | in any glob order of the artifacts the mappers wrote, aggregation succeeds and the total of every integer is its line count summed over all input files |
| Pipeline.Reducer | scale_map.py:94-130 | no artifact found gives no report; a key that does not convert gives a crash; otherwise the report lists what `ListsTop` describes: min(6, distinct values) entries, sorted, each with its total, none left out above the last, ties in first-seen order, and a value left out with the total of a listed entry first seen after it; the lines are the header and one `Number: …, Frequency: …` line per entry |
| Pipeline.ReportSpec | scale_map.py:119-127 | the first six of a stable sort of the totals' items are what the report must list |
| Pipeline.ReportEntries | scale_map.py:119-127 | the listed entries are as many as `min(6, distinct values)`, sorted, and each is a value seen with its total |
| Pipeline.ReportOmitted | scale_map.py:119-127 | no value left out has a total above the last listed entry |
| Pipeline.ReportTies | scale_map.py:119-127 | listed entries with equal totals appear in the order their values were first seen |
| Pipeline.ReportCut | scale_map.py:119-127 | a value left out whose total equals a listed entry's was first seen after that entry's value, so ties at the sixth place go to the values seen first |
| Pipeline.TotalsOf | scale_map.py:105-116 | the totals keep the invariant, list the values in first-seen order, and hold each value's total |
| Pipeline.TotalOfKey | scale_map.py:105-116 | a value seen in some artifact is a key of the totals, with its total |
| Pipeline.GlobOrderDecidesTies | scale_map.py:99-119 | `{"1": 1}` then `{"2": 1}` gives keys `[1, 2]`, the reverse order gives `[2, 1]`, with the same totals: the glob order decides ties |
| DotEnv.ParseEnvLine | scale_map.py:20-27 | a line is skipped exactly when stripped it is blank, starts with `#` or has no `=` |
| DotEnv.ParseEnvLineSpec | scale_map.py:20-27 | a line that is not skipped is split at its first `=` into a stripped key and an unquoted value |
| DotEnv.StripQuotes | scale_map.py:27 | the value is no longer than the text after `=`, neither starts nor ends with `'`, and is that text unchanged when its ends are neither white space nor quotes |
| DotEnv.CleanValueKept | scale_map.py:27 | a value whose ends are neither white space nor quotes goes through `strip().strip('"').strip("'")` unchanged |
| DotEnv.ParsedClean | scale_map.py:25-27 | a parsed key has no `=` and nothing to strip, and a parsed value neither starts nor ends with `'` |
| DotEnv.FirstValueSpec | scale_map.py:19-30 | the value found comes from the first line assigning the key; none is found exactly when no line assigns it |
| DotEnv.LoadLinesSpec | scale_map.py:19-30 | a variable already set keeps its value; any other is set exactly when some line assigns it, to the value of the first such line |
| DotEnv.LoadDotenv | scale_map.py:9-32 | a missing file changes nothing; otherwise the loop computes `LoadLines`, keeps every existing variable, and sets each new one exactly to its first assigned value |
| DotEnv.AssignmentRoundTrip | scale_map.py:20-27 | `KEY=VALUE`, `KEY="VALUE"` and `KEY='VALUE'` all assign `VALUE` to `KEY` when both have clean ends |
| DotEnv.SplitAt | scale_map.py:23-25 | a non-comment line splits at its first `=` |
| DotEnv.Unquote | scale_map.py:27 | `val.strip().strip('"').strip("'")` removes one kind of quotes put around a value with clean ends |
| DotEnv.QuotedStrip | scale_map.py:27 | stripping a quote character from a value wrapped in it gives the value back |

## Left out

- File I/O: `open`, `glob`, `os.path.isfile`, `os.makedirs`, the JSON writes and `final_output.txt` itself. The model takes file contents, the artifact list and the environment as values and returns the report lines.
- `print` output. It is logging only and is not modelled.
- `ProcessPoolExecutor` parallelism (scale_map.py:82-83). Modelled as one sequential loop over the files that maps each file and writes its artifact. `executor.map` keeps input order, so result `i` comes from file `i`.
- The configuration read from `os.environ` at module level (scale_map.py:36-42). The paths it yields only locate files, which are not modelled.
- The early return of `run_mappers` when no data file is found (scale_map.py:77-79). It is modelled only through its effect: an empty file list writes no artifact.
- Stale artifacts from earlier runs. The glob may find them beside fresh ones. `Pipeline.EndToEndTotals` therefore assumes the artifacts found are exactly those written, in any order.
- JSON beyond the integer-key round trip. A loaded artifact is its sequence of members. A non-object document, duplicate member names and counts that are not non-negative integers are not modelled. The artifacts the mappers write have none of these.
- `PyInt.ParseInt`: accepts only ASCII digits. Python's `int()` also accepts other Unicode decimal digits, which the model rejects.
- `PyInt.ParseInt`: has no limit on the number of digits. From Python 3.11 on, `int()` raises `ValueError` for a decimal text of more than 4300 digits, the default of `sys.set_int_max_str_digits`. The mapper then skips such a line, and the reducer crashes on such a key. The model converts it. Every integer the mapper reads comes from at most 4300 digits, and `str()` of it gives no more, so the mapper's own artifacts never hold such a key.
- `PyStr.IsSpace`: the Unicode white-space set is written out as a table rather than derived from the Unicode database.
- Exceptions other than those the source handles: `PermissionError`, I/O errors, and the reducer's `TypeError` from a non-integer count.
- The `except Exception` of `load_dotenv` (scale_map.py:31-32), and the partial update it can leave behind when reading stops part way. The model reads every line.
