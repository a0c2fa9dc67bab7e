/**
 * The file-level pipeline of `main`: every chunk is scanned and stitched in
 * index order, the chunks' boundary fragments are stitched to each other in
 * the same way as a chunk's windows, and the first chunk's prefix (the
 * file's first line) is folded last. The last chunk's suffix is never folded.
 *
 * The bytes the file reads put into each chunk buffer are an input of the
 * model: `ChunkData` holds a chunk's buffer and the number of bytes read.
 */
module Pipeline {
  import opened Basics
  import opened Aggregation
  import opened Actions
  import opened Scanner
  import opened Stitching
  import opened ChunkProcessing
  import opened Render
  import LineSplit

  /** A chunk buffer as the file read left it, and its fill level. */
  datatype ChunkData = ChunkData(bytes: seq<byte>, length: nat)

  /** Every fill level lies within its buffer. */
  predicate WellRead(data: seq<ChunkData>)
  {
    forall c :: 0 <= c < |data| ==> data[c].length <= |data[c].bytes|
  }

  /** The windows chunk `c` is scanned in. */
  function WindowsOf(data: seq<ChunkData>, numCores: nat, c: nat): seq<seq<byte>>
    requires numCores >= 1 && WellRead(data) && c < |data|
  {
    Windows(data[c].bytes, data[c].length, numCores)
  }

  /** Each chunk's `map`-step actions. */
  function ChunkActionLists(data: seq<ChunkData>, numCores: nat): seq<seq<Action>>
    requires numCores >= 1 && WellRead(data)
  {
    seq(|data|, c requires 0 <= c < |data| => ChunkActions(WindowsOf(data, numCores, c)))
  }

  /** The actions of the first `n` lists, in order. */
  function MapActions(ls: seq<seq<Action>>, n: nat): seq<Action>
    requires n <= |ls|
  {
    Concat(ls[..n])
  }

  /** The `MeasurementChunk` list, when every chunk got through its `map` step. */
  function Results(data: seq<ChunkData>, numCores: nat): seq<MeasurementChunk>
    requires numCores >= 1 && WellRead(data)
  {
    seq(|data|, c requires 0 <= c < |data| => ChunkResult(c, WindowsOf(data, numCores, c)))
  }

  /** The chunks' boundary fragments, in chunk order. */
  function BoundaryFragments(rs: seq<MeasurementChunk>): (fr: seq<Fragments>)
    ensures |fr| == |rs|
    ensures forall c :: 0 <= c < |rs| ==> fr[c] == ChunkFragments(rs[c])
  {
    seq(|rs|, c requires 0 <= c < |rs| => ChunkFragments(rs[c]))
  }

  /** `new String(prefix).split(";")` and `addMeasurement(parts[0], parts[1])`
      on the first chunk's prefix: a null prefix throws. */
  function FirstAction(rs: seq<MeasurementChunk>): Action
    requires |rs| >= 1
  {
    match rs[0].prefix
    case None => Abort
    case Some(p) => SplitRecord(p)
  }

  /** Every action `main` takes before it renders the result. */
  function FileActions(data: seq<ChunkData>, numCores: nat): (fa: seq<Action>)
    requires numCores >= 1 && WellRead(data) && |data| >= 1
    ensures |fa| >= 1 && Last(fa) == FirstAction(Results(data, numCores))
  {
    var rs := Results(data, numCores);
    MapActions(ChunkActionLists(data, numCores), |data|) + StitchActions(BoundaryFragments(rs)) + [FirstAction(rs)]
  }

  /** A chunk buffer filled with `data`'s bytes. */
  method Load(index: int, data: ChunkData) returns (chunk: Chunk)
    requires data.length <= |data.bytes|
    ensures fresh(chunk) && chunk.Valid()
    ensures chunk.index == index && chunk.bytes[..] == data.bytes && chunk.length == data.length
  {
    chunk := new Chunk(index, |data.bytes|);
    forall k | 0 <= k < |data.bytes| {
      chunk.bytes[k] := data.bytes[k];
    }
    chunk.length := data.length;
  }

  /** `main` from the chunk buffers on: every line is aggregated into a
      fresh `measurements` map, which is then rendered. `None` when the run
      throws before the report is printed. */
  method Calculate(data: seq<ChunkData>, numCores: nat)
    returns (report: Option<seq<byte>>, warnings: seq<seq<byte>>)
    requires numCores >= 1 && WellRead(data) && |data| >= 1
    ensures var t := Run(FileActions(data, numCores));
            && warnings == t.warnings
            && (report.Some? <==> t.ok)
            && (t.ok ==> report.value == Report(Summaries(t.folds)))
  {
    ghost var t := Run(FileActions(data, numCores));
    var agg := new Aggregator();
    var ok;
    ok, warnings := Aggregate(data, numCores, agg);
    if !ok {
      return None, warnings;
    }
    assert agg.log == t.folds;
    ConsistentIsSummaries(agg.entries, agg.log);
    var text := Render.Render(agg.entries);
    assert text == Report(Summaries(t.folds));
    report := Some(text);
  }

  /** From the chunk stream to the printed map: the `map` step of every
      chunk in turn, the stitch of neighbouring chunks, and the fold of the
      first prefix. `ok` is false when some step threw. */
  method Aggregate(data: seq<ChunkData>, numCores: nat, agg: Aggregator)
    returns (ok: bool, warnings: seq<seq<byte>>)
    requires numCores >= 1 && WellRead(data) && |data| >= 1 && agg.Valid()
    modifies agg
    ensures agg.Valid()
    ensures var t := Run(FileActions(data, numCores));
            && agg.log == old(agg.log) + t.folds
            && warnings == t.warnings
            && ok == t.ok
  {
    ghost var log0 := agg.log;
    var results;
    ok, results, warnings := MapChunks(data, numCores, agg);
    if !ok {
      MapFailed(data, numCores, agg.log, log0, warnings);
      return;
    }
    ghost var log1 := agg.log;
    var prefixes, suffixes := Collect(results);
    ok := StitchAll(prefixes, suffixes, agg, BoundaryFragments(results));
    if !ok {
      BoundaryFailed(data, numCores, log1, agg.log, log0, warnings);
      return;
    }
    ghost var log2 := agg.log;
    ok := FoldFirst(prefixes[0], agg);
    FirstFolded(data, numCores, log1, log2, agg.log, log0, warnings, ok);
  }

  /** A chunk that threw ends the whole run. */
  lemma MapFailed(data: seq<ChunkData>, numCores: nat, log: seq<Reading>, log0: seq<Reading>, warnings: seq<seq<byte>>)
    requires numCores >= 1 && WellRead(data) && |data| >= 1
    requires var t := Run(MapActions(ChunkActionLists(data, numCores), |data|));
             !t.ok && log == log0 + t.folds && warnings == t.warnings
    ensures var t := Run(FileActions(data, numCores)); !t.ok && log == log0 + t.folds && warnings == t.warnings
  {
    var rs := Results(data, numCores);
    var a, b, c := MapActions(ChunkActionLists(data, numCores), |data|), StitchActions(BoundaryFragments(rs)), [FirstAction(rs)];
    assert FileActions(data, numCores) == a + b + c;
    FailedPrefix(a, b);
    FailedPrefix(a + b, c);
  }

  /** A stitch of neighbouring chunks that threw ends the whole run. */
  lemma BoundaryFailed(data: seq<ChunkData>, numCores: nat, log1: seq<Reading>, log: seq<Reading>, log0: seq<Reading>,
                       warnings: seq<seq<byte>>)
    requires numCores >= 1 && WellRead(data) && |data| >= 1
    requires Replayed(log1, log0, warnings, MapActions(ChunkActionLists(data, numCores), |data|))
    requires var t := Run(StitchActions(BoundaryFragments(Results(data, numCores))));
             !t.ok && log == log1 + t.folds && t.warnings == []
    ensures var t := Run(FileActions(data, numCores)); !t.ok && log == log0 + t.folds && warnings == t.warnings
  {
    var rs := Results(data, numCores);
    var a, b, c := MapActions(ChunkActionLists(data, numCores), |data|), StitchActions(BoundaryFragments(rs)), [FirstAction(rs)];
    assert FileActions(data, numCores) == a + b + c;
    assert warnings + Run(b).warnings == warnings;
    ReplayStops(log1, log0, warnings, a, b, log, warnings);
    FailedPrefix(a + b, c);
  }

  /** After the chunk stitches, the first prefix's fold decides the run. */
  lemma FirstFolded(data: seq<ChunkData>, numCores: nat, log1: seq<Reading>, log2: seq<Reading>, log: seq<Reading>,
                    log0: seq<Reading>, warnings: seq<seq<byte>>, ok: bool)
    requires numCores >= 1 && WellRead(data) && |data| >= 1
    requires Replayed(log1, log0, warnings, MapActions(ChunkActionLists(data, numCores), |data|))
    requires var t := Run(StitchActions(BoundaryFragments(Results(data, numCores))));
             t.ok && log2 == log1 + t.folds && t.warnings == []
    requires var p := Results(data, numCores)[0].prefix;
             var t := Step(Trace([], [], true), if p.None? then Abort else SplitRecord(p.value));
             ok == t.ok && log == log2 + t.folds
    ensures var t := Run(FileActions(data, numCores)); ok == t.ok && log == log0 + t.folds && warnings == t.warnings
  {
    var rs := Results(data, numCores);
    var a, b, c := MapActions(ChunkActionLists(data, numCores), |data|), StitchActions(BoundaryFragments(rs)), [FirstAction(rs)];
    assert FileActions(data, numCores) == (a + b) + c;
    assert warnings + Run(b).warnings == warnings;
    ReplayGoesOn(log1, log0, warnings, a, b, log2, warnings);
    RunOne(FirstAction(rs));
    assert warnings + Run(c).warnings == warnings;
    if ok {
      ReplayGoesOn(log2, log0, warnings, a + b, c, log, warnings);
    } else {
      ReplayStops(log2, log0, warnings, a + b, c, log, warnings);
    }
  }

  /** Lines 145-146: fold the first prefix, which throws when it is null. */
  method FoldFirst(prefix: Option<seq<byte>>, agg: Aggregator) returns (ok: bool)
    requires agg.Valid()
    modifies agg
    ensures agg.Valid()
    ensures var t := Step(Trace([], [], true), if prefix.None? then Abort else SplitRecord(prefix.value));
            ok == t.ok && agg.log == old(agg.log) + t.folds
  {
    if prefix.None? {
      return false;
    }
    ok := Perform(SplitRecord(prefix.value), agg);
  }

  /** The chunk stream up to `toList()`: each chunk read and put through its
      `map` step, in index order; an exception in one ends the stream. */
  method MapChunks(data: seq<ChunkData>, numCores: nat, agg: Aggregator)
    returns (ok: bool, results: seq<MeasurementChunk>, warnings: seq<seq<byte>>)
    requires numCores >= 1 && WellRead(data) && agg.Valid()
    modifies agg
    ensures agg.Valid()
    ensures var t := Run(MapActions(ChunkActionLists(data, numCores), |data|));
            && agg.log == old(agg.log) + t.folds
            && warnings == t.warnings
            && ok == t.ok
            && (ok ==> results == Results(data, numCores))
  {
    ghost var log0 := agg.log;
    ghost var ls := ChunkActionLists(data, numCores);
    ghost var rs := Results(data, numCores);
    results, warnings := [], [];
    var c := 0;
    while c < |data|
      invariant c <= |data| && agg.Valid()
      invariant Replayed(agg.log, log0, warnings, MapActions(ls, c))
      invariant results == rs[..c]
    {
      var r;
      r, warnings := MapOne(data, numCores, c, agg, ls, rs, log0, warnings);
      if r.None? {
        return false, results, warnings;
      }
      SliceSnoc(rs, c);
      results := results + [r.value];
      c := c + 1;
    }
    assert rs[..c] == rs;
    ok := true;
  }

  /** One chunk through its `map` step. */
  method MapOne(data: seq<ChunkData>, numCores: nat, c: nat, agg: Aggregator,
                ghost ls: seq<seq<Action>>, ghost rs: seq<MeasurementChunk>, ghost log0: seq<Reading>,
                warnings: seq<seq<byte>>)
    returns (r: Option<MeasurementChunk>, warnings': seq<seq<byte>>)
    requires numCores >= 1 && WellRead(data) && c < |data| && agg.Valid()
    requires ls == ChunkActionLists(data, numCores) && rs == Results(data, numCores)
    requires Replayed(agg.log, log0, warnings, MapActions(ls, c))
    modifies agg
    ensures agg.Valid()
    ensures r.Some? ==> r.value == rs[c] && Replayed(agg.log, log0, warnings', MapActions(ls, c + 1))
    ensures r.None? ==> var t := Run(MapActions(ls, |ls|));
                        !t.ok && agg.log == log0 + t.folds && warnings' == t.warnings
  {
    assert ls[c] == ChunkActions(WindowsOf(data, numCores, c));
    assert rs[c] == ChunkResult(c, WindowsOf(data, numCores, c));
    var chunk := Load(c, data[c]);
    ghost var before := agg.log;
    var w;
    r, w := ProcessChunk(chunk, numCores, agg);
    warnings' := warnings + w;
    MapStep(ls, c, before, log0, warnings, agg.log, warnings', r.Some?);
  }

  lemma SliceSnoc<T>(s: seq<T>, c: nat)
    requires c < |s|
    ensures s[..c + 1] == s[..c] + [s[c]]
  {
  }

  /** One more chunk appends its actions. */
  lemma MapActionsSnoc(ls: seq<seq<Action>>, c: nat)
    requires c < |ls|
    ensures MapActions(ls, c + 1) == MapActions(ls, c) + ls[c]
  {
    assert DropLast(ls[..c + 1]) == ls[..c];
  }

  /** The first `n` chunks' actions begin those of the first `m`. */
  lemma MapActionsPrefix(ls: seq<seq<Action>>, n: nat, m: nat)
    requires n <= m <= |ls|
    ensures |MapActions(ls, n)| <= |MapActions(ls, m)| && MapActions(ls, m)[..|MapActions(ls, n)|] == MapActions(ls, n)
  {
    assert ls[..m] == ls[..n] + ls[n..m];
    ConcatAppend(ls[..n], ls[n..m]);
  }

  /** A chunk that got through extends the replayed actions by its own; a
      chunk that threw ends the stream. */
  lemma {:induction false} MapStep(ls: seq<seq<Action>>, c: nat, log: seq<Reading>, log0: seq<Reading>,
                                   warnings: seq<seq<byte>>, log': seq<Reading>, warnings': seq<seq<byte>>, ok: bool)
    requires c < |ls| && Replayed(log, log0, warnings, MapActions(ls, c))
    requires var t := Run(ls[c]); ok == t.ok && log' == log + t.folds && warnings' == warnings + t.warnings
    ensures ok ==> Replayed(log', log0, warnings', MapActions(ls, c + 1))
    ensures !ok ==> var t := Run(MapActions(ls, |ls|)); !t.ok && log' == log0 + t.folds && warnings' == t.warnings
  {
    var a, b := MapActions(ls, c), ls[c];
    MapActionsSnoc(ls, c);
    if ok {
      ReplayGoesOn(log, log0, warnings, a, b, log', warnings');
    } else {
      ReplayStops(log, log0, warnings, a, b, log', warnings');
      MapActionsPrefix(ls, c + 1, |ls|);
      FailedEarly(a + b, MapActions(ls, |ls|), log', log0, warnings');
    }
  }

  /** Lines 126-129: the `prefixes` and `suffixes` lists, in chunk order. */
  method Collect(results: seq<MeasurementChunk>) returns (prefixes: seq<Option<seq<byte>>>, suffixes: seq<Option<seq<byte>>>)
    ensures |prefixes| == |results| && |suffixes| == |results|
    ensures forall k :: 0 <= k < |results| ==> prefixes[k] == results[k].prefix && suffixes[k] == Some(results[k].suffix)
  {
    prefixes, suffixes := [], [];
    var i := 0;
    while i < |results|
      invariant i <= |results| && |prefixes| == i && |suffixes| == i
      invariant forall k :: 0 <= k < i ==> prefixes[k] == results[k].prefix && suffixes[k] == Some(results[k].suffix)
    {
      prefixes := prefixes + [results[i].prefix];
      suffixes := suffixes + [Some(results[i].suffix)];
      i := i + 1;
    }
  }

  // ----------------------------------------------------------------------
  // Reconstruction across chunks

  /** The bytes each chunk's windows scan, laid end to end: the start of
      the chunk's buffer, up to its fill level or the end of the last window,
      whichever comes first. */
  function ScannedBytes(data: seq<ChunkData>, numCores: nat): (sc: seq<seq<byte>>)
    requires numCores >= 1 && WellRead(data)
    ensures |sc| == |data|
    ensures forall c :: 0 <= c < |data| ==>
              sc[c] == data[c].bytes[..Min((numCores + 1) * WindowWidth(|data[c].bytes|, numCores), data[c].length)]
  {
    ScannedPrefixes(data, numCores);
    seq(|data|, c requires 0 <= c < |data| => Concat(WindowsOf(data, numCores, c)))
  }

  /** The windows of a chunk tile the start of its buffer. */
  lemma ScannedPrefixes(data: seq<ChunkData>, numCores: nat)
    requires numCores >= 1 && WellRead(data)
    ensures forall c :: 0 <= c < |data| ==>
              Concat(WindowsOf(data, numCores, c))
              == data[c].bytes[..Min((numCores + 1) * WindowWidth(|data[c].bytes|, numCores), data[c].length)]
  {
    forall c | 0 <= c < |data|
      ensures Concat(WindowsOf(data, numCores, c))
              == data[c].bytes[..Min((numCores + 1) * WindowWidth(|data[c].bytes|, numCores), data[c].length)]
    {
      var buf := data[c].bytes;
      WidthFits(|buf|, numCores);
      WindowsTile(buf, WindowWidth(|buf|, numCores), data[c].length, numCores + 1);
    }
  }

  /** Every window of every chunk holds a newline. */
  predicate EveryWindowHasNewline(data: seq<ChunkData>, numCores: nat)
    requires numCores >= 1 && WellRead(data)
  {
    forall c :: 0 <= c < |data| ==> AllHaveNewline(WindowsOf(data, numCores, c))
  }

  /** A chunk whose windows all hold a newline folds what one scan of all its
      bytes would, when its interior lines are well formed. */
  lemma ChunkScanAgrees(data: seq<ChunkData>, numCores: nat, c: nat)
    requires numCores >= 1 && WellRead(data) && c < |data| && EveryWindowHasNewline(data, numCores)
    requires WellFormed(LineSplit.Middle(LineSplit.Lines(ScannedBytes(data, numCores)[c])))
    ensures multiset(ChunkActionLists(data, numCores)[c]) == multiset(WindowActions(ScannedBytes(data, numCores)[c]))
  {
    var ws := WindowsOf(data, numCores, c);
    assert AllHaveNewline(ws);
    ChunkResultFragments(c, ws);
    ChunkActionsAreRecords(ws);
    WindowActionsWellFormed(Concat(ws));
  }

  /** Lists with the actions of the scans of `sc`, each in some order, laid
      end to end have the actions of all those scans. */
  lemma MapIsScans(ls: seq<seq<Action>>, sc: seq<seq<byte>>, n: nat)
    requires |ls| == |sc| && n <= |ls|
    requires forall c :: 0 <= c < |ls| ==> multiset(ls[c]) == multiset(WindowActions(sc[c]))
    ensures multiset(MapActions(ls, n)) == multiset(Scans(sc, n))
  {
    MapSameMultisets(ls, ScanLists(sc), n);
    ScansAreMapped(sc, n);
  }

  /** Each range's scan actions, as one list per range. */
  function ScanLists(sc: seq<seq<byte>>): (ms: seq<seq<Action>>)
    ensures |ms| == |sc| && forall c :: 0 <= c < |sc| ==> ms[c] == WindowActions(sc[c])
  {
    seq(|sc|, c requires 0 <= c < |sc| => WindowActions(sc[c]))
  }

  /** Scanning the first `n` ranges takes their lists' actions end to end. */
  lemma {:induction false} ScansAreMapped(sc: seq<seq<byte>>, n: nat)
    requires n <= |sc|
    ensures Scans(sc, n) == MapActions(ScanLists(sc), n)
  {
    if n > 0 {
      ScansAreMapped(sc, n - 1);
      MapActionsSnoc(ScanLists(sc), n - 1);
    }
  }

  /** Lists with the same actions, each in some order, laid end to end have
      the same actions. */
  lemma {:induction false} MapSameMultisets(ls: seq<seq<Action>>, ms: seq<seq<Action>>, n: nat)
    requires |ls| == |ms| && n <= |ls|
    requires forall c :: 0 <= c < |ls| ==> multiset(ls[c]) == multiset(ms[c])
    ensures multiset(MapActions(ls, n)) == multiset(MapActions(ms, n))
  {
    if n > 0 {
      MapSameMultisets(ls, ms, n - 1);
      MapActionsSnoc(ls, n - 1);
      MapActionsSnoc(ms, n - 1);
      AppendSameMultisets(MapActions(ls, n - 1), MapActions(ms, n - 1), ls[n - 1], ms[n - 1]);
    }
  }

  lemma AppendSameMultisets(a: seq<Action>, b: seq<Action>, x: seq<Action>, y: seq<Action>)
    requires multiset(a) == multiset(b) && multiset(x) == multiset(y)
    ensures multiset(a + x) == multiset(b + y)
  {
  }

  /** The reconstruction theorem for the whole run. Take every window of
      every chunk holding a newline, and every line of the scanned bytes
      well formed. Then the actions `main` takes are the records of every
      line of those bytes except the last, each exactly once, and the last
      action folds the first line. The last chunk's suffix, the last line,
      is never folded. */
  lemma FileActionsAreRecords(data: seq<ChunkData>, numCores: nat)
    requires numCores >= 1 && WellRead(data) && |data| >= 1
    requires EveryWindowHasNewline(data, numCores)
    requires WellFormed(DropLast(LineSplit.Lines(Concat(ScannedBytes(data, numCores)))))
    ensures var lines := LineSplit.Lines(Concat(ScannedBytes(data, numCores)));
            && |lines| >= 2
            && multiset(FileActions(data, numCores)) == multiset(RecordsOf(DropLast(lines)))
            && Last(FileActions(data, numCores)) == RecordsOf(DropLast(lines))[0]
  {
    var sc, rs := ScannedBytes(data, numCores), Results(data, numCores);
    BoundaryIsFragments(data, numCores);
    LinesBeforeLast(sc);
    ScansAreMap(data, numCores);
    ChunkActionsAreRecords(sc);
    var first := LineSplit.Lines(sc[0])[0];
    SplitsAgree(first, false);
    var fa := FileActions(data, numCores);
    var before := MapActions(ChunkActionLists(data, numCores), |data|) + StitchActions(BoundaryFragments(rs));
    assert fa == before + [FirstAction(rs)];
    assert ChunkActions(sc) == ScanActions(sc) + StitchActions(FragmentsOfAll(sc));
    assert multiset(fa) == multiset(before) + multiset{FirstAction(rs)};
    assert Last(fa) == FirstAction(rs) == RecordOf(first);
    assert NEWLINE in sc[0];
    assert |LineSplit.Lines(Concat(sc))| >= 2;
  }

  /** Under the same conditions, the chunks' `map` steps take the actions of
      one scan of each chunk's bytes, in some order. */
  lemma ScansAreMap(data: seq<ChunkData>, numCores: nat)
    requires numCores >= 1 && WellRead(data) && |data| >= 1 && EveryWindowHasNewline(data, numCores)
    requires WellFormed(Body(ScannedBytes(data, numCores)))
    ensures multiset(MapActions(ChunkActionLists(data, numCores), |data|)) == multiset(ScanActions(ScannedBytes(data, numCores)))
  {
    var sc, ls := ScannedBytes(data, numCores), ChunkActionLists(data, numCores);
    forall c | 0 <= c < |data|
      ensures multiset(ls[c]) == multiset(WindowActions(sc[c]))
    {
      BodyPart(sc, c);
      ChunkScanAgrees(data, numCores, c);
    }
    MapIsScans(ls, sc, |data|);
  }

  /** When every window holds a newline, each chunk's scanned bytes hold one,
      and the chunks' boundary fragments are those of their scanned bytes. */
  lemma BoundaryIsFragments(data: seq<ChunkData>, numCores: nat)
    requires numCores >= 1 && WellRead(data) && EveryWindowHasNewline(data, numCores)
    ensures AllHaveNewline(ScannedBytes(data, numCores))
    ensures BoundaryFragments(Results(data, numCores)) == FragmentsOfAll(ScannedBytes(data, numCores))
    ensures |data| >= 1 ==> Results(data, numCores)[0].prefix == Some(LineSplit.Lines(ScannedBytes(data, numCores)[0])[0])
  {
    var sc, rs := ScannedBytes(data, numCores), Results(data, numCores);
    forall c | 0 <= c < |data|
      ensures NEWLINE in sc[c] && ChunkFragments(rs[c]) == FragmentsOf(sc[c])
    {
      ChunkResultFragments(c, WindowsOf(data, numCores, c));
    }
  }
}
