# drone_trace: a verified model of the subtitle-log pipeline

`drone_trace/process.py` turns the `.SRT` subtitle files a drone writes
beside its videos into one table with a row per video frame, and summarises
that table with one row per flight. This project models the pipeline in
Dafny and proves what it promises.

- **Blocks.** A file's text is cut at blank lines into blocks, and each
  block into lines. The lines are a frame counter, a timing line
  `start --> end`, a counter line with `DiffTime : <n>ms`, a clock line
  `date time` and an annotation line.
- **Annotation.** The annotation line holds `[key : value]` entries. It is
  read into a dict (`parse_raw_metadata`). Numerals become ints or floats,
  and ratios `a/b` become their quotient.
- **Zoom and altitude.** The metadata dict then has its zoom entry split
  into a ratio and a delta (`process_dzoom`). Its altitude entry is split
  into a relative and an absolute altitude (`process_altitude`).
- **Rows.** `large_dataframe` builds one row per block of three lines or
  more. It then checks that the columns it casts exist.
- **Directory.** `process_dir` appends every `.SRT` file's rows, cut down to
  a fixed column order by `reorder_cols`.
- **Summary.** `summarize_data` groups the rows by (filename, date).

The modules follow the pipeline:

| module | file | what |
|---|---|---|
| `Common` | common.dfy | `Option`, `Result` and the Python exceptions the pipeline can raise |
| `PyStr` | pystr.dfy | the Python string operations the code relies on: `strip`, `split`, `find`, `replace`, `int()` and `isdigit` |
| `Annotation` | annotation.dfy | `parse_raw_metadata`: the regular-expression scan, value classification and the dict loop |
| `Normalize` | normalize.dfy | `process_dzoom` and `process_altitude` as methods of a `Metadata` class whose `entries` they update in place |
| `Table` | table.dfy | a pandas frame as a list of dict rows; `df[cols]` column selection |
| `Blocks` | blocks.dfy | the block split of `process_dir` and `large_dataframe` with its record loop |
| `Corpus` | corpus.dfy | `reorder_cols`, `pd.concat` and the `process_dir` loop |
| `Summary` | summary.dfy | `summarize_data` over typed records |

Each imperative function of the source is a `method` with a loop or with
in-place updates. These are `ParseRawMetadata`, `Metadata.ProcessDzoom`,
`Metadata.ProcessAltitude`, `LargeDataframe` and `ProcessDir`. Each method
is proved equal to a specification function (`BuildMeta`, `Dzoom`,
`Altitude`, `LargeFrame` and `DirFrame`), and the lemmas state what those
functions promise.

Python's `float()` is a parameter `toFloat: string -> Option<real>` where
the code calls it on a piece of a ratio or an altitude. Lemmas that need
concrete values assume only that it reads plain decimal numerals exactly
(`PyStr.DecimalSound`). A dotted numeral in `parse_raw_metadata` is read as
the exact decimal it denotes (`Annotation.NumeralValue`). `int()` is
modelled by its grammar (`PyStr.PyInt`): ASCII whitespace, an optional
sign, and digits with single underscores.

Behaviour of the code that the model keeps:

- **Key collisions.** In the row literal, annotation entries come after the
  scalar fields (`**metadata` is last). So an annotation entry named like
  a scalar field wins (`Blocks.MetadataWins`).
- **Short blocks.** A block of three or four lines is not skipped, because
  the skip test is `len < 3`. Such a block raises IndexError on
  `subsection[4]` (`Blocks.KeptBlocksAreLong`).
- **Exceptions while parsing.** `parse_raw_metadata` can raise
  ZeroDivisionError for a ratio whose denominator is zero
  (`Annotation.ClassifyRatio`).
- **Numeric zoom.** A zoom entry that is a plain numeral has already become
  a number, so `process_dzoom` raises AttributeError
  (`Normalize.DzoomOfNumeral`).
- **Every `delta:` is removed.** `replace("delta:", "")` deletes every
  occurrence, not only a prefix.
- **Partial update.** `process_altitude` stores the relative altitude
  before it reads the absolute one. A failure on the absolute altitude
  therefore leaves the relative one converted (`Normalize.Altitude`).
- **Column order.** `large_dataframe` does not reorder columns. Only
  `process_dir` does, through `reorder_cols`.
- **Group order.** pandas' `groupby` returns groups in sorted key order,
  not in input order. `first` and `last` still follow input order within a
  group (`Summary.SummaryFirst` and `Summary.SummaryLast`).

## Model

| member | source | states |
|---|---|---|
| Annotation.FirstFrom | drone_trace/process.py:10 | the first occurrence of a character at or after a position, or the end: every character before it differs |
| Annotation.BracketUnique | drone_trace/process.py:10 | the pattern's colon and closing bracket at a position are determined: a match is unique |
| Annotation.MatchHere | drone_trace/process.py:10 | the pattern's colon and closing bracket when it matches at the start of the text, and no match at all otherwise |
| Annotation.Scan | drone_trace/process.py:10-11 | findall's matches, left to right; each takes at least five characters, so there are at most a fifth as many as characters |
| Annotation.ScanShape | drone_trace/process.py:10-11 | every key group found is non-empty without a colon; every value group is non-empty without a `]` |
| Annotation.ScanEmpty | drone_trace/process.py:10-11 | findall returns nothing exactly when the pattern matches at no position |
| Annotation.MatchEntry | drone_trace/process.py:10 | a written entry `[key:value]` is matched with its groups equal to key and value, and the scan resumes right after it |
| Annotation.ScanEntry | drone_trace/process.py:10-11 | scanning an entry followed by any text yields that entry, then the matches of the text |
| Annotation.ScanRender | drone_trace/process.py:10-11 | scanning written entries gives back exactly those entries, in order, duplicates kept |
| Annotation.ScanSkipText | drone_trace/process.py:10-11 | text without a `[` matches nowhere: scanning it followed by any text gives the matches of that text alone |
| Annotation.ScanRenderSep | drone_trace/process.py:10-11 | entries written with a separator without `[` after each, as the spaces of an annotation line, scan back to exactly those entries, in order |
| Annotation.StripAvoids | drone_trace/process.py:15-16 | stripping a text cannot introduce a character it lacked |
| Annotation.Classify | drone_trace/process.py:18-25 | a numeral without a dot becomes the int `int()` reads from it; a dotted numeral the float it denotes; a text without numeral or slash stays itself; only a ratio can raise, and only ZeroDivisionError; never None |
| Annotation.ClassifyDecimal | drone_trace/process.py:18-19 | with an exact `float()`, a numeral with a dot becomes the float `float()` reads from it |
| Annotation.ClassifyNat | drone_trace/process.py:18-19 | the decimal text of any natural number is classified back to that int |
| Annotation.ClassifySignedOrEmpty | drone_trace/process.py:18 | a signed, empty or lone-dot value without a slash stays a string (`-75.5` is not a numeral) |
| Annotation.SlashNotNumeral | drone_trace/process.py:18 | a value containing a slash is never a numeral |
| Annotation.SplitOnce | drone_trace/process.py:22 | splitting `num/den` with one slash gives exactly `[num, den]` |
| Annotation.RatioSplit | drone_trace/process.py:22 | the slash split has two pieces exactly when there is one slash, and they are the texts before and after it |
| Annotation.RatioParts | drone_trace/process.py:20-22 | the two floats exactly when the value has one slash and `float()` reads both sides, and then they are the floats of the two sides |
| Annotation.RatioOfOneSlash | drone_trace/process.py:20-22 | a one-slash value takes the ratio branch, and its two floats are those `float()` reads from each side |
| Annotation.ClassifyRatio | drone_trace/process.py:20-25 | `num/den`: the quotient when both sides parse and the denominator is not zero, ZeroDivisionError when it is zero, the text unchanged when either side fails to parse |
| Annotation.ClassifyManySlashes | drone_trace/process.py:22-25 | a value with two or more slashes fails the two-name unpacking and stays text |
| Annotation.BuildMeta | drone_trace/process.py:13-28 | the loop succeeds only when every stripped value classifies without raising; when it raises, it raises the exception of the first value that does |
| Annotation.BuildMetaNext | drone_trace/process.py:14-27 | one turn of the loop: the next stripped value is classified and stored under its stripped key, or its exception ends the loop |
| Annotation.BuildMetaErrSticks | drone_trace/process.py:14-27 | once a classification raises, later matches change nothing |
| Annotation.BuildMetaKeys | drone_trace/process.py:14-27 | on success the dict's keys are exactly the stripped keys of the matches |
| Annotation.BuildMetaLast | drone_trace/process.py:14-27 | on success each key holds the classification of its last occurrence's value (later duplicates overwrite) |
| Annotation.BuildStripped | drone_trace/process.py:14-27 | over already stripped keys and values that all classify, the dict has exactly those keys, each holding its last value |
| Annotation.ParsedKeys | drone_trace/process.py:10-27 | every key of a parsed dict has no colon and no surrounding whitespace |
| Annotation.ParseRendered | drone_trace/process.py:6-29 | written entries with stripped keys and values parse back to a dict over exactly their keys, each holding its last value |
| Annotation.NoMatchEmptyDict | drone_trace/process.py:6-29 | a line the pattern matches nowhere gives the empty dict |
| Annotation.ParseRawMetadata | drone_trace/process.py:6-29 | the method's loop over the matches returns the dict or exception of `BuildMeta` over the scan |
| Normalize.OnlyChangedThen | drone_trace/process.py:61-63 | two normalisation steps that each change only their keys together change only the union of those keys |
| Normalize.Dzoom | drone_trace/process.py:32-40 | KeyError without a zoom entry, AttributeError for a non-text one; otherwise only the ratio and delta keys change, the ratio is the text before the first comma, and the delta is None without a comma, else the text between the first two commas with every `delta:` removed |
| Normalize.DzoomRoundTrip | drone_trace/process.py:36-40 | an entry written `ratio,delta:delta` splits back into that ratio and that delta |
| Normalize.DzoomOfPieces | drone_trace/process.py:36-40 | an entry whose comma split is `[ratio, t]` gets ratio `ratio` and delta `t` with `delta:` removed |
| Normalize.DzoomWithoutDelta | drone_trace/process.py:36-40 | an entry without a comma keeps its text as the ratio and gets a None delta |
| Normalize.DzoomOfNumeral | drone_trace/process.py:18-19 | a zoom entry that is a numeral was made a number, so `process_dzoom` raises AttributeError |
| Normalize.Altitude | drone_trace/process.py:43-49 | KeyError or AttributeError as the source raises them; only the two altitude keys change; ValueError with nothing changed when the relative altitude is not a float; IndexError or ValueError after storing it when the absolute part is missing or not a float; otherwise both floats, read from the text before and after ` abs_alt: ` |
| Normalize.AltitudeRoundTrip | drone_trace/process.py:47-49 | an entry written `rel abs_alt: abs` becomes the two floats `float()` reads from `rel` and `abs` |
| Normalize.AltitudeOfNumerals | drone_trace/process.py:47-49 | with an exact `float()`, the altitudes are the numbers the two numerals denote |
| Normalize.AltitudeWithoutAbsolute | drone_trace/process.py:47-49 | without ` abs_alt: ` the relative altitude is converted and then IndexError is raised |
| Normalize.Metadata.constructor | drone_trace/process.py:61 | the metadata object holds the parsed dict |
| Normalize.Metadata.ProcessDzoom | drone_trace/process.py:32-40 | the entries become those of `Dzoom`, or stay as they were when it raises |
| Normalize.Metadata.ProcessAltitude | drone_trace/process.py:43-49 | the entries and exception are those of `Altitude`, including the relative altitude stored before a failure |
| Table.FirstMissing | drone_trace/process.py:89-90 | no column is reported exactly when every column is in some row; otherwise the first column no row has |
| Table.Project | drone_trace/process.py:154 | a row cut down to the given columns keeps exactly those of its keys, with their values |
| Table.Select | drone_trace/process.py:150-154 | `df[cols]`: KeyError naming the first missing column, otherwise one row per row with only the selected columns and the same values |
| Table.SelectedRows | drone_trace/process.py:150-154 | selected rows have only selected columns and keep every selected column all the rows had |
| Table.SelectAll | drone_trace/process.py:150-154 | selecting all of a frame's columns, in any order, keeps every row whole |
| Table.SelectTwice | drone_trace/process.py:150-154 | selecting the same columns again changes nothing |
| Blocks.Subsections | drone_trace/process.py:189-190 | one block per blank-line section, each block's lines joined by newlines giving back its section |
| Blocks.SubsectionsRoundTrip | drone_trace/process.py:189-190 | writing the blocks back with newlines and blank lines gives the file text |
| Blocks.SubsectionLines | drone_trace/process.py:190 | no line of a block contains a newline |
| Blocks.NormalizedMeta | drone_trace/process.py:61-63 | on success the dict has the parsed keys plus the delta and absolute altitude; only the zoom and altitude keys changed; the ratio is text, the delta text or None, and both altitudes floats |
| Blocks.ScalarFieldsOk | drone_trace/process.py:66-73 | the scalar fields are read exactly when the counter is an int, the arrow, `DiffTime : ` with an int before `ms`, and the clock's space are present |
| Blocks.ScalarFields | drone_trace/process.py:64-73 | on success exactly the seven literal keys: the file name, `int()` of the counter, the texts around the arrow, `int()` of the text between `DiffTime : ` tags without `ms`, and the texts around the clock's space; otherwise ValueError or IndexError |
| Blocks.ScalarRow | drone_trace/process.py:64-73 | the literal part of a row has exactly the seven scalar keys holding the given values |
| Blocks.RowOf | drone_trace/process.py:59-75 | IndexError for a block shorter than five lines; success exactly when the annotation and scalar fields both succeed, with the union of their keys |
| Blocks.MetadataWins | drone_trace/process.py:64-75 | every annotation entry is in the row as normalised; a scalar field only where the annotation has no entry of its name |
| Blocks.RowShape | drone_trace/process.py:61-75 | every row has float altitudes, a text zoom ratio and a text or None delta |
| Blocks.TimesRoundTrip | drone_trace/process.py:67-68 | a timing line `start --> end` reads back `start` and `end` |
| Blocks.DiffRoundTrip | drone_trace/process.py:69-71 | a counter line ending `DiffTime : <n>ms` reads back `n` |
| Blocks.StampRoundTrip | drone_trace/process.py:72-73 | a clock line `date time` reads back `date` and `time` |
| Blocks.ScalarFieldsRoundTrip | drone_trace/process.py:64-73 | a block written from its fields has those fields read back by the row literal |
| Blocks.FrameReadBack | drone_trace/process.py:66 | the frame counter written in decimal is read back by `int()` |
| Blocks.GapReadBack | drone_trace/process.py:69-71 | the gap written on the counter line is read back |
| Blocks.TextsReadBack | drone_trace/process.py:67-73 | the timing and clock lines split back into their two texts |
| Blocks.ScalarFieldsOfParts | drone_trace/process.py:64-73 | lines whose pieces read back as given give the scalar row of those pieces |
| Blocks.Kept | drone_trace/process.py:58-60 | the blocks not skipped all have three lines or more, and there are no more of them than blocks |
| Blocks.KeptCount | drone_trace/process.py:58-60 | every block of three lines or more is kept as often as it occurs, and no shorter block is |
| Blocks.KeptAppend | drone_trace/process.py:58-60 | the kept blocks of two runs of blocks are those of the first followed by those of the second, so kept blocks keep their input order |
| Blocks.RowsOfErrSticks | drone_trace/process.py:58-76 | once a block raises, later blocks change nothing |
| Blocks.RowsOfKept | drone_trace/process.py:58-76 | the loop succeeds exactly when every kept block builds a row, and then yields one row per kept block, in order |
| Blocks.ShortBlockSkipped | drone_trace/process.py:59-60 | a block of fewer than three lines adds no row and raises nothing |
| Blocks.KeptBlocksAreLong | drone_trace/process.py:59-61 | when the loop succeeds every kept block has at least five lines |
| Blocks.RowsOf | drone_trace/process.py:56-76 | at most one row per block; success only when every block of three lines or more builds a row; otherwise the exception of the first that does not |
| Blocks.LargeFrame | drone_trace/process.py:77-91 | success exactly when the loop succeeds and every cast column is in some row; then the rows are the loop's rows |
| Blocks.RowsHaveScalarKeys | drone_trace/process.py:64-76 | every row has the file name, frame, timing, gap and clock columns |
| Blocks.NoBlocksNoFrame | drone_trace/process.py:77-89 | a file without a block to keep raises KeyError on `frame` |
| Blocks.KeptFrom | drone_trace/process.py:58-60 | every kept block is one of the blocks |
| Blocks.NormalizeAnnotation | drone_trace/process.py:61-63 | parsing and in-place normalisation through `Metadata` give `NormalizedMeta` |
| Blocks.BuildRow | drone_trace/process.py:61-75 | one loop body gives `RowOf` of the block |
| Blocks.LargeDataframe | drone_trace/process.py:52-91 | the method's loop and column check return `LargeFrame` |
| Corpus.Fresh | drone_trace/process.py:192-195 | a column is fresh exactly when the second frame has it and the first does not |
| Corpus.FreshOfNone | drone_trace/process.py:183 | against no columns every column is fresh |
| Corpus.NothingFresh | drone_trace/process.py:192-195 | no column is fresh when the first frame has them all |
| Corpus.Concat | drone_trace/process.py:192-195 | the first frame's columns then the new ones; the first frame's rows then the second's |
| Corpus.ConcatToEmpty | drone_trace/process.py:183-195 | appending to the empty starting frame gives the appended frame |
| Corpus.ConcatSameColumns | drone_trace/process.py:192-195 | appending a frame whose columns the first has keeps the first frame's columns |
| Corpus.FilePortion | drone_trace/process.py:189-193 | one file's reordered portion has exactly the fixed column order |
| Corpus.OrderCovered | drone_trace/process.py:161-182 | every column of the order except `color_md` is a literal field or a cast column |
| Corpus.OrderMissing | drone_trace/process.py:150-182 | rows with the scalar fields and every cast column can only miss `color_md` |
| Corpus.PortionNeedsColorMode | drone_trace/process.py:191-193 | once `large_dataframe` succeeds, `reorder_cols` fails only for want of `color_md` |
| Corpus.PortionRows | drone_trace/process.py:189-193 | a portion's rows have only ordered columns, and always the scalar fields |
| Corpus.DirFrame | drone_trace/process.py:183-196 | the frame process_dir returns, or the first exception a file raises; what it promises is stated by `DirFrameOk` and `DirFrameErr` |
| Corpus.DirFrameOk | drone_trace/process.py:183-196 | when process_dir returns a frame, every `.SRT` file was read without an exception |
| Corpus.DirFrameErr | drone_trace/process.py:183-196 | when process_dir raises, some `.SRT` file raises that exception and every file before it is read cleanly |
| Corpus.DirFrameColumns | drone_trace/process.py:183-195 | the result has the fixed column order once any `.SRT` file was read, and no columns otherwise |
| Corpus.NoSrtNoRows | drone_trace/process.py:183-185 | a directory without `.SRT` files gives the empty frame |
| Corpus.OtherFileIgnored | drone_trace/process.py:185 | a file not ending in `.SRT` changes nothing |
| Corpus.EmptySrtFails | drone_trace/process.py:185-191 | an empty `.SRT` file makes the whole run raise KeyError on `frame` |
| Corpus.DirFramePrefix | drone_trace/process.py:184-195 | the frame after the first files succeeds and its rows are the start of the final rows |
| Corpus.DirFrameRows | drone_trace/process.py:184-195 | every row of the result has only ordered columns, and always the scalar fields |
| Corpus.DirFrameErrSticks | drone_trace/process.py:184-195 | a file that raises ends the run with its exception |
| Corpus.DirFrameRowsAre | drone_trace/process.py:189-195 | when process_dir returns a frame, its rows are the reordered rows of every `.SRT` file, concatenated in listing order (`AllRows`) |
| Corpus.ProcessDir | drone_trace/process.py:157-196 | the method's loop over the listing returns `DirFrame` |
| Summary.BuiltRowRecord | drone_trace/process.py:64-75 | a row `large_dataframe` builds reads as a record of its file, with the date and time of the clock line, the gap of the counter line and the two normalised altitudes of the annotation |
| Summary.RecordOf | drone_trace/process.py:95-100 | a row reads as a record exactly when it has the six fields with the expected types, and the record holds their values |
| Summary.SummaryOf | drone_trace/process.py:95-127 | a flight's summary carries its key, its duration is the group's gaps in seconds, and each mean lies between its minimum and maximum |
| Summary.StrLessIrreflexive | drone_trace/process.py:95 | no string sorts before itself |
| Summary.StrLessTransitive | drone_trace/process.py:95 | the string order is transitive |
| Summary.StrLessTotal | drone_trace/process.py:95 | of two different strings one sorts first |
| Summary.KeyLessIrreflexive | drone_trace/process.py:95 | no group key sorts before itself |
| Summary.KeyLessTransitive | drone_trace/process.py:95 | the key order is transitive |
| Summary.KeyLessTotal | drone_trace/process.py:95 | of two different keys one sorts first |
| Summary.SortedSameHead | drone_trace/process.py:95 | two sorted key lists with the same keys start alike |
| Summary.SortedUnique | drone_trace/process.py:95 | two sorted key lists with the same keys are equal: the group order is determined |
| Summary.SortedCons | drone_trace/process.py:95 | a key before all of a sorted list extends it sorted |
| Summary.Insert | drone_trace/process.py:95 | inserting a key keeps the list sorted and adds exactly that key |
| Summary.GroupKeys | drone_trace/process.py:95 | the group keys are strictly sorted and are exactly the records' keys |
| Summary.Group | drone_trace/process.py:95 | a group holds only records of its key |
| Summary.GroupComplete | drone_trace/process.py:95 | a group holds every record of its key |
| Summary.KeysOfSnoc | drone_trace/process.py:95 | adding a record adds its key |
| Summary.GroupEmpty | drone_trace/process.py:95 | a key no record has has an empty group |
| Summary.GroupNonEmpty | drone_trace/process.py:95 | a key some record has has a non-empty group |
| Summary.GroupFirst | drone_trace/process.py:95-100 | a group starts with the first record of its key in input order |
| Summary.LastIndex | drone_trace/process.py:95-100 | the position of the last record of a key, or -1 |
| Summary.GroupEndsAtLastIndex | drone_trace/process.py:95-100 | a group ends with the record at `LastIndex` |
| Summary.LastIndexIsLast | drone_trace/process.py:95-100 | no record after `LastIndex` has the key |
| Summary.GroupLast | drone_trace/process.py:95-100 | a group ends with the last record of its key in input order |
| Summary.OtherKeyKept | drone_trace/process.py:95 | a final record of another key leaves a group unchanged |
| Summary.LastOfExtends | drone_trace/process.py:95-100 | the last record of a key stays last when a record of another key follows |
| Summary.Min | drone_trace/process.py:98-99 | the minimum is one of the values and at most each of them |
| Summary.Max | drone_trace/process.py:98-99 | the maximum is one of the values and at least each of them |
| Summary.SumBounds | drone_trace/process.py:98-99 | values between two bounds add up to between the bounds times their count |
| Summary.StatsBounds | drone_trace/process.py:98-99 | min and max are values of the column, and first, last and mean lie between them |
| Summary.MeanBounds | drone_trace/process.py:98-99 | the mean lies between the minimum and the maximum |
| Summary.SummaryEnds | drone_trace/process.py:98-124 | a summary's start time and first altitudes are the group's first record's; its end time and last altitudes the last record's |
| Summary.SummaryEndsWith | drone_trace/process.py:98-124 | a group ending with a record has that record's end time and last altitudes |
| Summary.Summarize | drone_trace/process.py:94-147 | one summary per group key, in the group keys' order |
| Summary.SummaryPerFlight | drone_trace/process.py:95-108 | strictly increasing keys, and a summary for exactly each (filename, date) of the records |
| Summary.SummaryAt | drone_trace/process.py:95-108 | each summary is that of the non-empty group of its key |
| Summary.GroupSummaryFirst | drone_trace/process.py:98-124 | a group's summary starts with the first record of its key in input order |
| Summary.GroupSummaryLast | drone_trace/process.py:98-124 | a group's summary ends with the last record of its key in input order |
| Summary.SummaryFirst | drone_trace/process.py:95-124 | `time_init` and the first altitudes are those of the flight's first record in input order |
| Summary.SummaryLast | drone_trace/process.py:95-124 | `time_end` and the last altitudes are those of the flight's last record in input order |
| Summary.SummaryBounds | drone_trace/process.py:95-147 | for both altitudes the min and max bound the first, last and mean; the duration is the flight's gaps divided by 1000 |
| Summary.IntSumSnoc | drone_trace/process.py:97 | a sum with one more gap grows by that gap |
| Summary.GroupMsSnoc | drone_trace/process.py:97 | a new record adds its gap to its own group only |
| Summary.NewKeyMs | drone_trace/process.py:97 | the first record of a key makes up its group's total |
| Summary.KeysMsSnoc | drone_trace/process.py:97 | over distinct keys, a new record is counted once if its key is listed |
| Summary.KeysMsInsert | drone_trace/process.py:97 | inserting a key adds its group's total once |
| Summary.GroupMsTotal | drone_trace/process.py:95-97 | the groups' gap totals add up to all the gaps: grouping loses and repeats none |
| Summary.TotalOfKeys | drone_trace/process.py:97-106 | summaries holding their groups' totals in seconds add up to those totals in seconds |
| Summary.TotalDuration | drone_trace/process.py:95-106 | all flights' durations add up to all frame gaps divided by 1000 |

## Left out

- Reading the directory and the files is left out. So are the `print`
  calls and the `__main__` block with its CSV exports
  (`drone_trace/process.py:184-188`, `199-206`). `Corpus.ProcessDir`
  takes the listing as a list of (name, content) pairs in listing order.
  The model says nothing about what order `os.listdir` gives.
- The `astype(int)` and `astype(float)` casts of `large_dataframe` are left
  out, because pandas' casting rules and NaN handling are beyond the model.
  Only the KeyError raised when a cast column is in no row is modelled.
  In particular, casting a None zoom delta to int (a block without a delta)
  is not modelled as a failure.
- Blocks.LargeFrame: pandas' KeyError lists every missing column, but the
  model names only the first one.
- Corpus.FilePortion: the same applies. `reorder_cols` reports the first
  missing column only.
- `summarize_data` is modelled over typed records (`Summary.Record`). It
  does not model NaN, missing values or mixed column types.
- Summary.BuiltRowRecord: this holds only for rows whose annotation has no
  entry named `filename`, `date`, `time` or `diff_time_ms`, because such an
  entry replaces the field the summary reads.
- Annotation.Classify: a dotted numeral becomes the exact decimal it
  denotes (`NumeralValue`), not the result of `toFloat`; how `float()`
  rounds it is not modelled.
- PyStr.PyInt: no limit on the number of digits. CPython raises ValueError
  for more than 4300 digits (`sys.set_int_max_str_digits`).
- Floating point is left out. `float()` is the parameter `toFloat`, which
  covers neither its grammar nor IEEE rounding. Sums, means and the
  division by 1000 are exact real arithmetic.
- Python's Unicode `isspace` and `isdigit` are modelled on ASCII only.
- Dict insertion order is not modelled: dicts are maps. Column order
  within `large_dataframe`'s frame is therefore not modelled. The column
  order that `reorder_cols` imposes is modelled.
- The regular expression is modelled as the left-to-right scan that the
  pattern `\[([^:]+)\s*:\s*([^\]]+)\]` performs. The engine itself is not
  modelled. The value group is recorded from just after the colon, and the
  strip that follows removes the whitespace `\s*` would have skipped.
- The output column renaming of `summarize_data`
  (`drone_trace/process.py:104`, `110-147`) is modelled as the field order
  of `Summary.FlightSummary`, not as column labels.
