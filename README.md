# A verified model of the `flamparski` 1BRC pipeline

This project models the in-memory record pipeline of
`CalculateAverage_flamparski.main`, an entry for the One Billion Row
Challenge. The input is a file of `name;value` lines, where each value has one
decimal. The program prints, for every station name, the minimum, the mean and
the maximum of its values, sorted by name, as
`{a=min/mean/max, b=min/mean/max, ...}`.

The model starts once the file's bytes are in the chunk buffers. One
`ChunkData` per chunk holds the buffer and the number of bytes read. The
program always makes `numChunks + 1 = 9` chunks, so the model needs at least
one. The rest of `main` is modelled; the differences are listed under
"## Left out":

- **The window scan** (`Scanner`). Each chunk buffer is cut into
  `numCores + 1` windows of `threadChunkSize = capacity / numCores` bytes.
  - Each window is scanned once.
  - The bytes before its first newline become its *prefix*. The prefix is
    absent (`null`) when the window holds no newline.
  - Each later line is treated in one of three ways:
    - a line with a `;` is folded, split at the `;` the scan saw last;
    - a line without one is reported on the error stream;
    - right after a prefix line that held a `;`, a line without one makes
      the scan throw. This is because `lastSemi` is only reset after a fold.
  - The bytes after the last newline become the window's *suffix*.
- **Stitching** (`Stitching`, `ChunkProcessing`, `Pipeline`).
  - The suffix of one range is glued to the prefix of the next, suffix
    first. The result is split at `;` and folded.
  - The stitch is skipped when the prefix is absent.
  - The same rule joins the windows of a chunk and then the chunks of the
    file.
  - The first chunk's prefix is folded last.
  - The last chunk's suffix is never folded.
- **The aggregator** (`Aggregation`). `addMeasurement` parses the value,
  creates an entry for an unseen name, and updates that entry's count, sum,
  maximum and minimum.
- **The report** (`Render`). The entries are sorted by name. Each is written
  as `name=min/mean/max` with one decimal. The list's text `[x, y]` then has
  its first and last characters replaced by `{` and `}`.

The windows' parallel tasks are performed one after another, in window order.
The chunks are handled in index order.

A run is described by a list of `Action`s: fold a record, report a line, or
abort. `Run` performs them in order and stops at the first failing one. A
failure is an exception, and a value that does not parse also fails the run.

Each imperative part is proved to match the action list its reference
function assigns to the input. This covers each window's scan loop, each
chunk's stitch loop, the chunk stream and the file-level stitch loop. The
aggregator's ghost log is proved to be the folds of that list. The printed
report is proved to be a function of those folds alone.

The reference functions are then related to the plain line structure of the
bytes:

- **Prefix and suffix.** They are exact slices at the first and last newline.
- **Stitched lines.** Each one is made of a suffix and the next prefix.
- **Reconstruction.** When every range holds a newline and every line is well
  formed, the folds of the scans and stitches are exactly the interior lines
  of the whole range, each once.
- **The whole run.** Take the bytes each chunk's windows scan and lay them end
  to end. Suppose every window of every chunk holds a newline and every line
  but the last is well formed. Then `main` takes one fold action for every
  line but the last, each exactly once, and the first line's comes last
  (`Pipeline.FileActionsAreRecords`).
- **When that hypothesis fails.** It fails as soon as a chunk's last window
  holds no newline. It always fails when a chunk's capacity is a multiple of
  `numCores`. That window is then empty, the chunk's suffix is empty, and the
  start of the line that runs into the next chunk is never folded
  (`ChunkProcessing.EvenSplitLosesBoundaryLine`).

Values are exact integers of tenths. All integers are unbounded.

## Model

| member | source | states |
|---|---|---|
| Aggregation.MinExt | src/main/java/dev/morling/onebrc/CalculateAverage_flamparski.java:170 | `Math.min` returns one of its arguments, and that argument is below both |
| Aggregation.MaxExt | src/main/java/dev/morling/onebrc/CalculateAverage_flamparski.java:169 | `Math.max` returns one of its arguments, and that argument is above both |
| Aggregation.ExtremesBound | src/main/java/dev/morling/onebrc/CalculateAverage_flamparski.java:169-170 | the reference minimum and maximum of a value list occur in it and bound every element |
| Aggregation.ValuesOf | src/main/java/dev/morling/onebrc/CalculateAverage_flamparski.java:161-171 | the values folded under one name, in fold order: there are some exactly when the name occurs among the folds |
| Aggregation.ValuesOfAbsent | src/main/java/dev/morling/onebrc/CalculateAverage_flamparski.java:163-164 | a name never folded has no values, so its entry is created on its first fold |
| Aggregation.UpdateSummarises | src/main/java/dev/morling/onebrc/CalculateAverage_flamparski.java:16-21 | one update of a fresh entry or of an entry summarising `vs` summarises `vs + [v]`: min, max, sum and count are exact |
| Aggregation.SummaryBounds | src/main/java/dev/morling/onebrc/CalculateAverage_flamparski.java:167-170 | an entry's min and max bound every value folded under its name, and min <= max |
| Aggregation.Summary | src/main/java/dev/morling/onebrc/CalculateAverage_flamparski.java:16-21 | a fresh entry for no values; otherwise count and sum are exact, and min and max are values of the list that bound every value |
| Aggregation.ConsistentIsSummaries | src/main/java/dev/morling/onebrc/CalculateAverage_flamparski.java:40 | a map consistent with the fold log equals the log's summaries, so the map depends only on the folds |
| Aggregation.ValuesOfSnoc | src/main/java/dev/morling/onebrc/CalculateAverage_flamparski.java:161-171 | a fold adds its value to its own name's values only |
| Aggregation.FoldKeepsConsistent | src/main/java/dev/morling/onebrc/CalculateAverage_flamparski.java:163-170 | one `addMeasurement` update keeps every entry the exact summary of its name's values |
| Aggregation.OtherValuesUnchanged | src/main/java/dev/morling/onebrc/CalculateAverage_flamparski.java:166 | a fold leaves the values of every other name as they were |
| Aggregation.Aggregator.constructor | src/main/java/dev/morling/onebrc/CalculateAverage_flamparski.java:40 | the map starts empty, with an empty log |
| Aggregation.Aggregator.AddMeasurement | src/main/java/dev/morling/onebrc/CalculateAverage_flamparski.java:161-171 | succeeds exactly when the value parses; on success it logs the fold, replaces only the name's entry by its update and keeps the map consistent with the log; on failure nothing changes |
| Aggregation.Aggregator.Fold | src/main/java/dev/morling/onebrc/CalculateAverage_flamparski.java:163-170 | creates the entry when absent and applies count, sum, max and min; the new value lies between the entry's min and max |
| Actions.RunOne | src/main/java/dev/morling/onebrc/CalculateAverage_flamparski.java:88 | a single action run from scratch is one step |
| Actions.RunOk | src/main/java/dev/morling/onebrc/CalculateAverage_flamparski.java:85-94 | a run survives iff every action succeeds; each surviving action adds exactly one fold or diagnostic |
| Actions.RunSnoc | src/main/java/dev/morling/onebrc/CalculateAverage_flamparski.java:79-100 | one more action takes effect only while the run is alive |
| Actions.RunConcat | src/main/java/dev/morling/onebrc/CalculateAverage_flamparski.java:73-146 | running two lists in turn is the first run followed by the second, which starts only if the first is alive |
| Basics.FirstIndex | src/main/java/dev/morling/onebrc/CalculateAverage_flamparski.java:82-83 | the position of the first newline: it holds one, and none comes before it |
| Basics.LastIndex | src/main/java/dev/morling/onebrc/CalculateAverage_flamparski.java:97-98 | the position of the last `;`: it holds one, and none comes after it |
| Values.Digits | src/main/java/dev/morling/onebrc/CalculateAverage_flamparski.java:153 | the decimal digits of a number are digits and read back as that number, and the first digit is `0` only for zero |
| Values.ParseTenths | src/main/java/dev/morling/onebrc/CalculateAverage_flamparski.java:162 | a text accepted as a one-decimal value holds a `.` and at least three bytes |
| Values.FormatParses | src/main/java/dev/morling/onebrc/CalculateAverage_flamparski.java:153 | `%.1f` of a number of tenths parses back to that number |
| Values.DigitsOfValue | src/main/java/dev/morling/onebrc/CalculateAverage_flamparski.java:153 | digits without a leading zero are the digits of their value |
| Values.FormatCanonical | src/main/java/dev/morling/onebrc/CalculateAverage_flamparski.java:153 | `%.1f` writes canonical text: at least one integer digit, no leading zero, never `-0.0` |
| Values.UnsignedFormats | src/main/java/dev/morling/onebrc/CalculateAverage_flamparski.java:162 | unsigned text with no leading zero is the formatting of its parsed value |
| Values.ParseFormats | src/main/java/dev/morling/onebrc/CalculateAverage_flamparski.java:162 | parsing canonical text and formatting the value gives the text back, so the two are inverse on canonical text |
| Values.NegativeFormats | src/main/java/dev/morling/onebrc/CalculateAverage_flamparski.java:162 | the same for canonical text starting with `-` |
| Values.NegatedFormats | src/main/java/dev/morling/onebrc/CalculateAverage_flamparski.java:153 | the negation of a non-zero unsigned value is written `-` followed by its text |
| LineSplit.Lines | src/main/java/dev/morling/onebrc/CalculateAverage_flamparski.java:79-101 | a range has at least one piece, exactly one iff it holds no newline, and no piece holds a newline |
| LineSplit.LinesSnoc | src/main/java/dev/morling/onebrc/CalculateAverage_flamparski.java:79-99 | reading one more byte extends the pieces as the scan loop does |
| LineSplit.JoinLines | src/main/java/dev/morling/onebrc/CalculateAverage_flamparski.java:79-101 | the pieces joined with newlines are the range again: no byte is lost |
| LineSplit.LinesJoin | src/main/java/dev/morling/onebrc/CalculateAverage_flamparski.java:79-101 | splitting newline-free pieces joined with newlines gives the pieces back |
| LineSplit.LinesWithoutNewline | src/main/java/dev/morling/onebrc/CalculateAverage_flamparski.java:79-101 | a range without a newline is one piece |
| LineSplit.LinesConcat | src/main/java/dev/morling/onebrc/CalculateAverage_flamparski.java:105-118 | the pieces of two adjacent ranges are theirs with the boundary pieces fused |
| LineSplit.ExtendFuse | src/main/java/dev/morling/onebrc/CalculateAverage_flamparski.java:105-118 | extending a fused list extends its second part |
| LineSplit.FuseEnds | src/main/java/dev/morling/onebrc/CalculateAverage_flamparski.java:105-118 | the first and last pieces and the length of a fused list |
| LineSplit.FirstPiece | src/main/java/dev/morling/onebrc/CalculateAverage_flamparski.java:82-83 | the first piece is the bytes before the first newline |
| LineSplit.FirstPieceEmpty | src/main/java/dev/morling/onebrc/CalculateAverage_flamparski.java:82-83 | a range starting with a newline has an empty first piece |
| LineSplit.LastPiece | src/main/java/dev/morling/onebrc/CalculateAverage_flamparski.java:101 | the last piece is the bytes after the last newline |
| LineSplit.LinesAfterNewline | src/main/java/dev/morling/onebrc/CalculateAverage_flamparski.java:95 | a newline followed by a newline-free piece gives an empty piece and that piece |
| LineSplit.FuseAfterNewline | src/main/java/dev/morling/onebrc/CalculateAverage_flamparski.java:95 | fusing with such a list appends the piece |
| Scanner.Chunk.constructor | src/main/java/dev/morling/onebrc/CalculateAverage_flamparski.java:23-32 | a chunk with the given index and a fresh buffer of the given size, filled to 0 |
| Scanner.LineActionShape | src/main/java/dev/morling/onebrc/CalculateAverage_flamparski.java:81-99 | a later line is folded iff it holds a `;`, split at its last `;` into a name and a `;`-free value; it aborts iff it has no `;` while `lastSemi` is stale; otherwise it is reported verbatim |
| Scanner.LineActions | src/main/java/dev/morling/onebrc/CalculateAverage_flamparski.java:79-100 | one action per interior line |
| Scanner.LineActionsAt | src/main/java/dev/morling/onebrc/CalculateAverage_flamparski.java:79-100 | interior line `i` gets its own action, in order, and only the first can see the prefix line's stale `;` |
| Scanner.FragmentsAreSlices | src/main/java/dev/morling/onebrc/CalculateAverage_flamparski.java:76-101 | the prefix is absent iff the window has no newline, and is otherwise the slice before the first newline; the suffix is the slice after the last newline, or the whole window |
| Scanner.LineActionsNewPiece | src/main/java/dev/morling/onebrc/CalculateAverage_flamparski.java:81-95 | a newline closes the current line and adds its action |
| Scanner.LineActionsSameLast | src/main/java/dev/morling/onebrc/CalculateAverage_flamparski.java:97-99 | changing the still-open line changes no action |
| Scanner.ExtendByte | src/main/java/dev/morling/onebrc/CalculateAverage_flamparski.java:97-99 | a non-newline byte grows the open line, and a `;` moves `lastSemi` to it |
| Scanner.ScanByte | src/main/java/dev/morling/onebrc/CalculateAverage_flamparski.java:97-99 | a non-newline byte keeps the loop invariant, with `lastSemi` updated on `;` |
| Scanner.ByteExtends | src/main/java/dev/morling/onebrc/CalculateAverage_flamparski.java:97-99 | a non-newline byte performs no action |
| Scanner.ExtendNewline | src/main/java/dev/morling/onebrc/CalculateAverage_flamparski.java:81-95 | a newline starts an empty piece, and the pending `;` is the prefix line's or none |
| Scanner.ScanFirstNewline | src/main/java/dev/morling/onebrc/CalculateAverage_flamparski.java:82-84 | the first newline fixes the prefix, performs nothing and keeps `lastSemi` |
| Scanner.ScanNewline | src/main/java/dev/morling/onebrc/CalculateAverage_flamparski.java:85-95 | a later newline performs the action for the line it closes and resets `lastSemi` |
| Scanner.ClosedLine | src/main/java/dev/morling/onebrc/CalculateAverage_flamparski.java:85-94 | that action is the one the reference assigns to the closed line |
| Scanner.ClosedRecord | src/main/java/dev/morling/onebrc/CalculateAverage_flamparski.java:86-88 | with `lastSemi` at the line's last `;`, the name and value strings are the two sides of it |
| Scanner.LineActionsPrefix | src/main/java/dev/morling/onebrc/CalculateAverage_flamparski.java:79-100 | more bytes only add actions after the existing ones |
| Scanner.LineActionAgrees | src/main/java/dev/morling/onebrc/CalculateAverage_flamparski.java:79-100 | an action once taken is not changed by later bytes |
| Scanner.WindowActionsPrefix | src/main/java/dev/morling/onebrc/CalculateAverage_flamparski.java:79-100 | the actions of a range begin with those of each of its prefixes |
| Scanner.RunAfterFailure | src/main/java/dev/morling/onebrc/CalculateAverage_flamparski.java:88 | after an exception, later actions change nothing |
| Scanner.ReplayWarn | src/main/java/dev/morling/onebrc/CalculateAverage_flamparski.java:91-94 | reporting a line extends the replayed run by that diagnostic |
| Scanner.ReplayFold | src/main/java/dev/morling/onebrc/CalculateAverage_flamparski.java:86-88 | a successful fold extends the replayed run by that reading |
| Scanner.ReplayFail | src/main/java/dev/morling/onebrc/CalculateAverage_flamparski.java:86-88 | a failing action ends the run with the folds and diagnostics so far |
| Scanner.ScanWindow | src/main/java/dev/morling/onebrc/CalculateAverage_flamparski.java:73-104 | a window's task folds into the map exactly its actions' readings up to the first failure and reports their diagnostics; on success it returns the window's fragments |
| Scanner.ScanRange | src/main/java/dev/morling/onebrc/CalculateAverage_flamparski.java:74-101 | the loop over `[start, min(end, length))`, with the same guarantee for that range |
| Scanner.ScanStep | src/main/java/dev/morling/onebrc/CalculateAverage_flamparski.java:80-99 | one loop iteration keeps the invariant, or ends the task with the run so far when it throws |
| Scanner.CloseLine | src/main/java/dev/morling/onebrc/CalculateAverage_flamparski.java:81-95 | the newline branch: prefix, fold, or report; it keeps the invariant or ends the task when it throws |
| Scanner.ScanEnd | src/main/java/dev/morling/onebrc/CalculateAverage_flamparski.java:101 | after the loop, the scan's prefix and suffix are the window's fragments |
| Scanner.Aborted | src/main/java/dev/morling/onebrc/CalculateAverage_flamparski.java:79-100 | a failure part way is the outcome of the whole window |
| Stitching.SplitsAgree | src/main/java/dev/morling/onebrc/CalculateAverage_flamparski.java:86-88 | on a line with one `;`, the scanner's split and `split(";")` give the same record |
| Stitching.SplitRecordRoundTrip | src/main/java/dev/morling/onebrc/CalculateAverage_flamparski.java:114-116 | splitting `name;value` with `;`-free parts gives `name` and `value` back |
| Stitching.StitchesTake | src/main/java/dev/morling/onebrc/CalculateAverage_flamparski.java:107-118 | a stitch pass reads only its two neighbours |
| Stitching.ScansTake | src/main/java/dev/morling/onebrc/CalculateAverage_flamparski.java:73-104 | a window's scan reads only its own window |
| Stitching.ChunkWindows | src/main/java/dev/morling/onebrc/CalculateAverage_flamparski.java:73-75 | the given number of windows |
| Stitching.ChunkWindowsAt | src/main/java/dev/morling/onebrc/CalculateAverage_flamparski.java:74-75 | window `i` starts at `i * threadChunkSize` |
| Stitching.WindowsTile | src/main/java/dev/morling/onebrc/CalculateAverage_flamparski.java:74-79 | windows laid end to end are the buffer up to `min(count * width, length)`, with no gap or overlap |
| Stitching.WindowsCover | src/main/java/dev/morling/onebrc/CalculateAverage_flamparski.java:70-79 | the windows cover the filled bytes iff the length is at most `count * width` |
| Stitching.SmallChunkLosesBytes | src/main/java/dev/morling/onebrc/CalculateAverage_flamparski.java:70-79 | with 4 cores, a 7-byte chunk has 1-byte windows, and bytes 5 and 6 are never scanned |
| Stitching.LinesOfConcat | src/main/java/dev/morling/onebrc/CalculateAverage_flamparski.java:105-120 | when each range holds a newline, the whole range's lines are the first prefix, each stitched line and interior line in order, and the last suffix |
| Stitching.AllHaveNewlineInit | src/main/java/dev/morling/onebrc/CalculateAverage_flamparski.java:105-118 | the property holds for the first ranges |
| Stitching.FuseBody | src/main/java/dev/morling/onebrc/CalculateAverage_flamparski.java:111-113 | fusing a range onto earlier ones glues the old last piece, suffix first, to the new first piece |
| Stitching.AllPrefixes | src/main/java/dev/morling/onebrc/CalculateAverage_flamparski.java:108-110 | every range that holds a newline has a present prefix, its first line |
| Stitching.FragmentsOfAllSnoc | src/main/java/dev/morling/onebrc/CalculateAverage_flamparski.java:102-103 | one more window adds its fragments at the end |
| Stitching.WindowActionsWellFormed | src/main/java/dev/morling/onebrc/CalculateAverage_flamparski.java:85-90 | on well-formed lines, a window's actions fold exactly its interior lines |
| Stitching.RecordsOfAppend | src/main/java/dev/morling/onebrc/CalculateAverage_flamparski.java:85-90 | records of joined line lists are joined |
| Stitching.ChunkActionsAreRecords | src/main/java/dev/morling/onebrc/CalculateAverage_flamparski.java:73-118 | reconstruction: with a newline in every range and well-formed lines, the scans and stitches take one fold action for every interior line of the whole range, each exactly once |
| Stitching.OneRange | src/main/java/dev/morling/onebrc/CalculateAverage_flamparski.java:73-104 | reconstruction for a single range |
| Stitching.BodySnoc | src/main/java/dev/morling/onebrc/CalculateAverage_flamparski.java:107-118 | how the interior lines and their records grow by one range |
| Stitching.LinesBeforeLast | src/main/java/dev/morling/onebrc/CalculateAverage_flamparski.java:105-146 | when each range holds a newline, all lines of the joined ranges but the last are the first range's first line and then the interior lines, and their records are in that order |
| Stitching.WellFormedCons | src/main/java/dev/morling/onebrc/CalculateAverage_flamparski.java:114-116 | well-formedness and records split off the first line |
| Stitching.BodyPart | src/main/java/dev/morling/onebrc/CalculateAverage_flamparski.java:105-118 | well-formed interior lines of joined ranges include the interior lines of each range |
| Stitching.BodyInit | src/main/java/dev/morling/onebrc/CalculateAverage_flamparski.java:105-118 | they include those of all ranges but the last, and the last range's own interior lines |
| Stitching.WellFormedSplit | src/main/java/dev/morling/onebrc/CalculateAverage_flamparski.java:114-116 | well-formedness and records split around one line |
| Stitching.ChunkActionsSnoc | src/main/java/dev/morling/onebrc/CalculateAverage_flamparski.java:107-118 | one more range adds its scan and one stitched line |
| Stitching.NoNewlineSkipsStitch | src/main/java/dev/morling/onebrc/CalculateAverage_flamparski.java:110 | a range without a newline has a null prefix, so no stitch is made and the previous suffix is never folded |
| Stitching.StaleSemicolonAborts | src/main/java/dev/morling/onebrc/CalculateAverage_flamparski.java:82-94 | `a;1.0\nab\n` aborts on `ab`, while `ab\nab\n` reports it |
| ChunkProcessing.WidthFits | src/main/java/dev/morling/onebrc/CalculateAverage_flamparski.java:70-74 | the last window starts inside the buffer |
| ChunkProcessing.Windows | src/main/java/dev/morling/onebrc/CalculateAverage_flamparski.java:71-73 | `numCores + 1` windows |
| ChunkProcessing.ChunkResultFragments | src/main/java/dev/morling/onebrc/CalculateAverage_flamparski.java:105-120 | when every window holds a newline, the chunk's prefix and suffix are the fragments of its scanned bytes, and its interior lines are the windows' interior and stitched lines |
| ChunkProcessing.EvenSplitLosesBoundaryLine | src/main/java/dev/morling/onebrc/CalculateAverage_flamparski.java:70-110 | when the capacity is a multiple of `numCores`, the extra window is empty, the chunk's suffix is empty, and the last real window's suffix is never stitched |
| ChunkProcessing.Glue | src/main/java/dev/morling/onebrc/CalculateAverage_flamparski.java:111-113 | a newly allocated buffer holding the suffix followed by the prefix |
| ChunkProcessing.Perform | src/main/java/dev/morling/onebrc/CalculateAverage_flamparski.java:116 | performs a fold or an abort and logs exactly its reading |
| ChunkProcessing.StitchInto | src/main/java/dev/morling/onebrc/CalculateAverage_flamparski.java:111-116 | one stitch folds `split(";")` of suffix ++ prefix, or fails |
| ChunkProcessing.ReplayGoesOn | src/main/java/dev/morling/onebrc/CalculateAverage_flamparski.java:73-118 | a successful step after a replayed run extends it |
| ChunkProcessing.ReplayStops | src/main/java/dev/morling/onebrc/CalculateAverage_flamparski.java:73-118 | a failing step after a replayed run fails the joint run |
| ChunkProcessing.FailedPrefix | src/main/java/dev/morling/onebrc/CalculateAverage_flamparski.java:73-118 | a failure among the first actions is the failure of the whole list |
| ChunkProcessing.ScansPrefix | src/main/java/dev/morling/onebrc/CalculateAverage_flamparski.java:73-104 | the first windows' actions begin those of more windows |
| ChunkProcessing.StitchesPrefix | src/main/java/dev/morling/onebrc/CalculateAverage_flamparski.java:107-118 | the first stitches begin more stitches |
| ChunkProcessing.FailedEarly | src/main/java/dev/morling/onebrc/CalculateAverage_flamparski.java:73-118 | a failed run of the first actions is the run of all of them |
| ChunkProcessing.ProcessChunk | src/main/java/dev/morling/onebrc/CalculateAverage_flamparski.java:69-121 | a chunk's `map` step: the map receives exactly the folds of its windows' scans and then its stitches, up to the first failure; on success it returns the first window's prefix and the last window's suffix |
| ChunkProcessing.ScanAll | src/main/java/dev/morling/onebrc/CalculateAverage_flamparski.java:71-104 | all window tasks: the folds and diagnostics of every scan; on success the arrays hold each window's fragments |
| ChunkProcessing.ScanAndStore | src/main/java/dev/morling/onebrc/CalculateAverage_flamparski.java:73-104 | one task and its stores: the replayed scans grow by window `i` and slot `i` holds its fragments, or the chunk's scan run has failed |
| ChunkProcessing.Store | src/main/java/dev/morling/onebrc/CalculateAverage_flamparski.java:102-103 | stores window `i`'s fragments in slot `i`, keeps earlier slots, and leaves later slots as they were |
| ChunkProcessing.ScanOne | src/main/java/dev/morling/onebrc/CalculateAverage_flamparski.java:73-104 | one task returns its window's fragments and extends the replayed scans, or ends the chunk's run |
| ChunkProcessing.ScanStep | src/main/java/dev/morling/onebrc/CalculateAverage_flamparski.java:73-104 | a scanned window extends the replayed scans, and a failed one ends them |
| ChunkProcessing.StitchAll | src/main/java/dev/morling/onebrc/CalculateAverage_flamparski.java:105-118 | the intra-chunk stitch loop performs exactly the stitch list's folds, up to the first failure, and reports nothing |
| ChunkProcessing.StitchesFailed | src/main/java/dev/morling/onebrc/CalculateAverage_flamparski.java:107-118 | a failed stitch ends the loop's run |
| ChunkProcessing.StitchesAll | src/main/java/dev/morling/onebrc/CalculateAverage_flamparski.java:107-118 | every stitch replayed means the whole list succeeded |
| ChunkProcessing.StitchOne | src/main/java/dev/morling/onebrc/CalculateAverage_flamparski.java:108-117 | one pass: stitch when the prefix is present, otherwise skip |
| ChunkProcessing.StitchStep | src/main/java/dev/morling/onebrc/CalculateAverage_flamparski.java:110-116 | a performed stitch extends the replayed stitches by one line |
| ChunkProcessing.StitchSkip | src/main/java/dev/morling/onebrc/CalculateAverage_flamparski.java:110 | a null prefix adds no stitch |
| Pipeline.Load | src/main/java/dev/morling/onebrc/CalculateAverage_flamparski.java:52-67 | a fresh chunk holding the bytes read and their count |
| Pipeline.Calculate | src/main/java/dev/morling/onebrc/CalculateAverage_flamparski.java:40-158 | `main` on the chunk buffers reports the diagnostics of the run; it prints iff no step throws, and what it prints is the report of the summaries of the folds performed |
| Pipeline.Aggregate | src/main/java/dev/morling/onebrc/CalculateAverage_flamparski.java:52-146 | the map receives exactly the folds of every chunk's actions, then the chunk stitches, then the first prefix's fold, up to the first failure |
| Pipeline.MapFailed | src/main/java/dev/morling/onebrc/CalculateAverage_flamparski.java:69-122 | a chunk that threw ends the whole run |
| Pipeline.BoundaryFailed | src/main/java/dev/morling/onebrc/CalculateAverage_flamparski.java:131-143 | a chunk stitch that threw ends the whole run |
| Pipeline.FirstFolded | src/main/java/dev/morling/onebrc/CalculateAverage_flamparski.java:145-146 | the first prefix's fold decides the run's outcome |
| Pipeline.FoldFirst | src/main/java/dev/morling/onebrc/CalculateAverage_flamparski.java:145-146 | folds `split(";")` of the first prefix, and throws when it is null |
| Pipeline.MapChunks | src/main/java/dev/morling/onebrc/CalculateAverage_flamparski.java:52-122 | the chunk stream: every chunk's actions in index order; on success the `MeasurementChunk` list |
| Pipeline.MapOne | src/main/java/dev/morling/onebrc/CalculateAverage_flamparski.java:53-121 | one chunk read and processed: its result and its actions, or the end of the stream |
| Pipeline.MapActionsSnoc | src/main/java/dev/morling/onebrc/CalculateAverage_flamparski.java:52-122 | one more chunk appends its actions |
| Pipeline.MapActionsPrefix | src/main/java/dev/morling/onebrc/CalculateAverage_flamparski.java:52-122 | earlier chunks' actions come first |
| Pipeline.MapStep | src/main/java/dev/morling/onebrc/CalculateAverage_flamparski.java:52-122 | a chunk that got through extends the replayed run, and one that threw ends it |
| Pipeline.Collect | src/main/java/dev/morling/onebrc/CalculateAverage_flamparski.java:126-129 | the `prefixes` and `suffixes` lists hold each chunk's prefix and suffix, in chunk order |
| Pipeline.ScannedBytes | src/main/java/dev/morling/onebrc/CalculateAverage_flamparski.java:70-79 | one byte range per chunk: the start of its buffer up to `min((numCores + 1) * threadChunkSize, length)` |
| Pipeline.ScannedPrefixes | src/main/java/dev/morling/onebrc/CalculateAverage_flamparski.java:70-79 | a chunk's windows laid end to end are exactly that start of its buffer |
| Pipeline.ChunkScanAgrees | src/main/java/dev/morling/onebrc/CalculateAverage_flamparski.java:69-121 | with a newline in every window and well-formed lines, a chunk's `map` step folds the same records as one scan of its bytes |
| Pipeline.MapIsScans | src/main/java/dev/morling/onebrc/CalculateAverage_flamparski.java:52-122 | per-chunk lists with each chunk's scan actions, in some order, have together the actions of all the scans |
| Pipeline.ScansAreMapped | src/main/java/dev/morling/onebrc/CalculateAverage_flamparski.java:73-104 | the scans of the first ranges are their lists end to end |
| Pipeline.MapSameMultisets | src/main/java/dev/morling/onebrc/CalculateAverage_flamparski.java:52-122 | lists pairwise with the same actions have, end to end, the same actions |
| Pipeline.AppendSameMultisets | src/main/java/dev/morling/onebrc/CalculateAverage_flamparski.java:52-122 | appending keeps equal action multisets equal |
| Pipeline.FileActionsAreRecords | src/main/java/dev/morling/onebrc/CalculateAverage_flamparski.java:52-146 | reconstruction for the whole run: with a newline in every window and well-formed lines, `main` takes one fold action for every line of the scanned bytes but the last, each exactly once, and the first line's comes last |
| Pipeline.ScansAreMap | src/main/java/dev/morling/onebrc/CalculateAverage_flamparski.java:52-122 | the chunks' `map` steps take the actions of one scan of each chunk's bytes |
| Pipeline.BoundaryIsFragments | src/main/java/dev/morling/onebrc/CalculateAverage_flamparski.java:126-131 | the collected prefixes and suffixes are the fragments of each chunk's scanned bytes, and the first prefix is their first line |
| Render.BelowReflexive | src/main/java/dev/morling/onebrc/CalculateAverage_flamparski.java:148 | the name order is reflexive |
| Render.BelowTotal | src/main/java/dev/morling/onebrc/CalculateAverage_flamparski.java:148 | the name order is total |
| Render.BelowAntisymmetric | src/main/java/dev/morling/onebrc/CalculateAverage_flamparski.java:148 | the name order is antisymmetric |
| Render.BelowTransitive | src/main/java/dev/morling/onebrc/CalculateAverage_flamparski.java:148 | the name order is transitive |
| Render.InsertPermutes | src/main/java/dev/morling/onebrc/CalculateAverage_flamparski.java:148 | inserting adds the entry and keeps every other one |
| Render.InsertSorted | src/main/java/dev/morling/onebrc/CalculateAverage_flamparski.java:148 | inserting into a sorted list keeps it sorted |
| Render.SortSorted | src/main/java/dev/morling/onebrc/CalculateAverage_flamparski.java:148 | the sort orders by name and is a permutation |
| Render.InsertDistinct | src/main/java/dev/morling/onebrc/CalculateAverage_flamparski.java:148 | inserting a new name keeps the names distinct |
| Render.SortAscending | src/main/java/dev/morling/onebrc/CalculateAverage_flamparski.java:148 | sorting distinct names gives strictly ascending names |
| Render.SortDistinct | src/main/java/dev/morling/onebrc/CalculateAverage_flamparski.java:148 | sorting keeps names distinct |
| Render.AscendingUnique | src/main/java/dev/morling/onebrc/CalculateAverage_flamparski.java:148 | two strictly ascending lists of the same names are equal, so the output does not depend on the map's order |
| Render.LeastExists | src/main/java/dev/morling/onebrc/CalculateAverage_flamparski.java:148 | a non-empty set of names has a least one |
| Render.LeastOf | src/main/java/dev/morling/onebrc/CalculateAverage_flamparski.java:148 | returns that least name |
| Render.InOrder | src/main/java/dev/morling/onebrc/CalculateAverage_flamparski.java:148 | a set's names, strictly ascending, each once |
| Render.SortedIsOrdered | src/main/java/dev/morling/onebrc/CalculateAverage_flamparski.java:148 | sorting any enumeration of the map gives its entries in ascending order, each once |
| Render.PermutedKeys | src/main/java/dev/morling/onebrc/CalculateAverage_flamparski.java:148 | a rearranged enumeration still has the map's keys |
| Render.OrderedEntries | src/main/java/dev/morling/onebrc/CalculateAverage_flamparski.java:148 | the report's entries enumerate the map by strictly ascending name |
| Render.EntrySet | src/main/java/dev/morling/onebrc/CalculateAverage_flamparski.java:148 | `entrySet()` lists every entry once, in an unspecified order |
| Render.MeanRounds | src/main/java/dev/morling/onebrc/CalculateAverage_flamparski.java:152-153 | the printed mean is within half a tenth of `sum / count`, and ties go away from zero |
| Render.MeanBetween | src/main/java/dev/morling/onebrc/CalculateAverage_flamparski.java:150-153 | the printed mean lies between the entry's minimum and maximum |
| Render.RoundedBetween | src/main/java/dev/morling/onebrc/CalculateAverage_flamparski.java:152-153 | a rounded quotient keeps the bounds of the exact one |
| Render.EntryLineParses | src/main/java/dev/morling/onebrc/CalculateAverage_flamparski.java:149-153 | a line is `name=min/mean/max`, the three numbers read back as the entry's min, mean and max, and min <= mean <= max |
| Render.JoinConcat | src/main/java/dev/morling/onebrc/CalculateAverage_flamparski.java:155 | `toString` puts `, ` between each two neighbours |
| Render.Brace | src/main/java/dev/morling/onebrc/CalculateAverage_flamparski.java:155-157 | the first character becomes `{`, the last `}`, and all others are kept |
| Render.ReportEmpty | src/main/java/dev/morling/onebrc/CalculateAverage_flamparski.java:148-157 | an empty map prints `{}` |
| Render.ReportShape | src/main/java/dev/morling/onebrc/CalculateAverage_flamparski.java:148-157 | the report is `{`, one line per entry by ascending name joined by `, `, then `}`, and every name lies between the first and the last |
| Render.DistinctCount | src/main/java/dev/morling/onebrc/CalculateAverage_flamparski.java:148 | an enumeration has one element per key |
| Render.NamesCard | src/main/java/dev/morling/onebrc/CalculateAverage_flamparski.java:148 | distinct entries have as many names as elements |
| Render.Render | src/main/java/dev/morling/onebrc/CalculateAverage_flamparski.java:148-157 | the text built and braced is exactly the report of the map |

The definitions that carry the model have no contract of their own. The
lemmas and methods in the table above pin them down:

- `Scanner.WindowWidth`, `Scanner.WindowStart`, `Scanner.Window` (lines
  70-79): `ChunkProcessing.WidthFits`, `Stitching.ChunkWindowsAt`,
  `Stitching.WindowsTile`, `Stitching.WindowsCover`.
- `Scanner.WindowActions` (lines 79-100): `Scanner.ScanWindow`,
  `Scanner.ScanRange`, `Scanner.LineActionsAt`.
- `Scanner.NewlineAction` (lines 85-94): `Scanner.ClosedLine`,
  `Scanner.ScanNewline`, `Scanner.CloseLine`.
- `Scanner.LineAction` (lines 85-94): `Scanner.LineActionShape`,
  `Scanner.ClosedLine`.
- `Scanner.FragmentsOf` (lines 76-84, 101): `Scanner.FragmentsAreSlices`,
  `Scanner.ScanEnd`.
- `Values.ParseUnsigned` (line 162): `Values.UnsignedFormats`,
  `Values.FormatParses`, `Values.ParseFormats`.
- `Stitching.Body` (lines 105-118): `Stitching.LinesOfConcat`,
  `Stitching.BodySnoc`, `ChunkProcessing.ChunkResultFragments`.
- `Stitching.SplitRecord` (lines 114-116, 140-141, 145-146):
  `Stitching.SplitRecordRoundTrip`, `Stitching.SplitsAgree`.
- `Stitching.Stitch`, `Stitching.StitchActions`, `Stitching.ScanActions`,
  `Stitching.ChunkActions` (lines 73-118): `Stitching.ChunkActionsAreRecords`,
  `Stitching.NoNewlineSkipsStitch`, `ChunkProcessing.StitchOne`,
  `ChunkProcessing.ProcessChunk`.
- `ChunkProcessing.ChunkResult` (lines 105-106, 120):
  `ChunkProcessing.ChunkResultFragments`, `ChunkProcessing.ProcessChunk`.
- `Pipeline.FirstAction`, `Pipeline.FileActions` (lines 126-146):
  `Pipeline.FoldFirst`, `Pipeline.Aggregate`, `Pipeline.FileActionsAreRecords`.
- `Aggregation.Update` (lines 163-170): `Aggregation.UpdateSummarises`,
  `Aggregation.Aggregator.Fold`.
- `Aggregation.Summaries`, `Aggregation.Consistent` (the content of
  `measurements`, lines 40 and 161-171): `Aggregation.ConsistentIsSummaries`,
  `Aggregation.FoldKeepsConsistent`, `Aggregation.Aggregator.AddMeasurement`.
- `Actions.Step`, `Actions.Run` (exceptions end the run): `Actions.RunOk`,
  `Actions.RunSnoc`, `Actions.RunConcat`.
- `Values.FormatTenths` (line 153): `Values.FormatParses`,
  `Values.ParseFormats`, `Values.FormatCanonical`.
- `Render.MeanTenths` (line 152): `Render.MeanRounds`, `Render.MeanBetween`.
- `Render.EntryLine` (line 153): `Render.EntryLineParses`.
- `Render.Below` (`compareTo`, line 148): `Render.BelowReflexive`,
  `Render.BelowTotal`, `Render.BelowAntisymmetric`, `Render.BelowTransitive`.
- `Render.ExtText`, `Render.MeanText` (`%.1f`, including an infinite min or
  max and a `NaN` mean of an empty entry, line 153): `Render.EntryLineParses`.
- `Render.SortByName` (line 148): `Render.SortSorted`, `Render.SortedIsOrdered`.
- `Render.EntryLines`, `Render.CommaJoin` (`List.toString`, line 155):
  `Render.JoinConcat`, `Render.ReportShape`.
- `Render.ListText`, `Render.Report` (lines 148-157): `Render.JoinConcat`,
  `Render.Brace`, `Render.ReportShape`, `Render.ReportEmpty`, `Render.Render`.

## Left out

- File I/O: opening the file and the read loop (lines 43-67) are not modelled. The chunk buffers and fill levels are an input of the model. The read loop always writes at offset 0 of the buffer, whatever it has already read; the model takes the buffer as it is after reading.
- Parallelism and the `ConcurrentHashMap`: the window tasks run one after another, in window order. The model does not cover interleavings, lost updates of the unsynchronised `MeasurementAggregator` fields, or the order in which a parallel failure surfaces.
- Floating point: values are exact integers of tenths, and sums do not round. `%.1f` of the mean is rounded half away from zero on the exact quotient. The result can differ from what the doubles produce when a double sum drifts.
- Values.ParseTenths: accepts only `[-]digits.digit`. `Double.valueOf` also accepts other forms (exponents, `+`, spaces, `NaN`); the model treats these as a parse failure, which aborts the run. On the canonical text `%.1f` writes, parsing and formatting are inverse (`Values.ParseFormats`, `Values.FormatParses`).
- `String.format` locale (line 153): `%.1f` writes the default locale's decimal separator, `,` under `de_DE` for instance. `Values.FormatTenths` and `Render.Render` always write `.`.
- Malformed UTF-8 (lines 86-87, 114, 139, 145): `new String(..., UTF_8)` replaces invalid bytes by U+FFFD. Two different invalid byte names can then become one key of the `ConcurrentHashMap`. The model's map is keyed by bytes (`Aggregation.Aggregator.entries`) and keeps them apart.
- UTF-8 decoding: names stay bytes. `Render.Below` orders them bytewise. Java's `String.compareTo` compares UTF-16 code units, which can order supplementary characters differently.
- `String.split(";")`: only its behaviour on the first two parts is modelled. An empty value is treated as a parse failure, and a line with no `;` aborts.
- The text of the `System.err` diagnostic and the final `println`: the model keeps the reported line bytes and the report bytes.
- `long` and `int` overflow: count, sum and the window arithmetic are unbounded.
- `-0.0`: the input value `-0.0` and a negative mean that rounds to zero print as `0.0` here, whereas `%.1f` prints `-0.0`.
- Exceptions other than parse failures (a negative `String` length, a missing `parts[1]`, a null first prefix) are one `Abort` action. Their type and message are not modelled.
- ChunkProcessing.StitchAll: takes the window arrays' contents as sequences, since the loop only reads them.
- Render.EntrySet: leaves the map's iteration order unspecified; the sorted report is proved independent of it.
- Render.Brace: requires a non-empty buffer. `results.toString()` always holds at least `[]`.
- Nothing is left out for the window remainder. The windows end at `(numCores + 1) * threadChunkSize`, and fill levels beyond that are never scanned. This is modelled as the code does it (`Stitching.WindowsCover`, `Stitching.SmallChunkLosesBytes`). The last window does not absorb the rest of the buffer.
