/**
 * One file chunk: its `numCores + 1` windows are scanned, then each window's
 * suffix is stitched to the next window's prefix, and the chunk hands its
 * own first prefix and last suffix on as a `MeasurementChunk`.
 */
module ChunkProcessing {
  import opened Basics
  import opened LineSplit
  import opened Values
  import opened Aggregation
  import opened Actions
  import opened Scanner
  import opened Stitching

  /** What a processed chunk leaves for the file-level stitch. */
  datatype MeasurementChunk = MeasurementChunk(index: int, prefix: Option<seq<byte>>, suffix: seq<byte>)

  function ChunkFragments(mc: MeasurementChunk): Fragments
  {
    Fragments(mc.prefix, mc.suffix)
  }

  /** The last window starts at `numCores * threadChunkSize`, within the buffer. */
  lemma {:induction false} WidthFits(capacity: nat, numCores: nat)
    requires numCores >= 1
    ensures numCores * WindowWidth(capacity, numCores) <= capacity
  {
    var w := capacity / numCores;
    assert capacity == numCores * w + capacity % numCores;
  }

  /** The windows the scan reads: `numCores + 1` of them, each
      `threadChunkSize` wide. */
  function Windows(buf: seq<byte>, length: nat, numCores: nat): (ws: seq<seq<byte>>)
    requires numCores >= 1 && length <= |buf|
    ensures |ws| == numCores + 1
  {
    WidthFits(|buf|, numCores);
    ChunkWindows(buf, WindowWidth(|buf|, numCores), length, numCores + 1)
  }

  /** The chunk's own prefix is its first window's, its suffix its last window's. */
  function ChunkResult(index: int, ws: seq<seq<byte>>): MeasurementChunk
    requires |ws| >= 1
  {
    MeasurementChunk(index, FragmentsOf(ws[0]).prefix, FragmentsOf(Last(ws)).suffix)
  }

  /** When every window holds a newline, the chunk's prefix and suffix are
      those of the bytes its windows scan, laid end to end, and the lines
      the chunk folds by itself (the `Body`) are that range's interior lines. */
  lemma {:induction false} ChunkResultFragments(index: int, ws: seq<seq<byte>>)
    requires |ws| >= 1 && AllHaveNewline(ws)
    ensures NEWLINE in Concat(ws)
    ensures ChunkFragments(ChunkResult(index, ws)) == FragmentsOf(Concat(ws))
    ensures Middle(Lines(Concat(ws))) == Body(ws)
  {
    LinesOfConcat(ws);
    var l := Lines(Concat(ws));
    assert NEWLINE in ws[0];
    assert l[0] == Lines(ws[0])[0];
    assert Last(l) == FragmentsOf(Last(ws)).suffix;
    assert l[1..|l| - 1] == Body(ws);
  }

  /** When the capacity is a multiple of `numCores`, the extra window is
      empty. The chunk's suffix is then empty and the stitch into the extra
      window is skipped, so the suffix of the window before it, the start of
      the line that runs into the next chunk, is never folded. */
  lemma EvenSplitLosesBoundaryLine(buf: seq<byte>, length: nat, numCores: nat, index: int)
    requires numCores >= 1 && length <= |buf| && |buf| % numCores == 0
    ensures var ws := Windows(buf, length, numCores);
            && ws[numCores] == []
            && ChunkResult(index, ws).suffix == []
            && Stitch(FragmentsOf(ws[numCores - 1]), FragmentsOf(ws[numCores])) == []
  {
    var width := WindowWidth(|buf|, numCores);
    assert numCores * width == |buf|;
    WidthFits(|buf|, numCores);
    ChunkWindowsAt(buf, width, length, numCores + 1, numCores);
    assert Lines([]) == [[]];
  }

  /** The two `System.arraycopy` calls: a new buffer holding `s` then `p`. */
  method Glue(s: seq<byte>, p: seq<byte>) returns (buf: array<byte>)
    ensures fresh(buf)
    ensures buf.Length == |s| + |p|
    ensures buf[..|s|] == s && buf[|s|..] == p
  {
    buf := new byte[|p| + |s|];
    forall k | 0 <= k < |s| {
      buf[k] := s[k];
    }
    forall k | 0 <= k < |p| {
      buf[|s| + k] := p[k];
    }
  }

  /** Performs a fold or an abort on the aggregator. */
  method Perform(act: Action, agg: Aggregator) returns (ok: bool)
    requires agg.Valid() && !act.Warn?
    modifies agg
    ensures agg.Valid()
    ensures var t := Step(Trace([], [], true), act); ok == t.ok && agg.log == old(agg.log) + t.folds && t.warnings == []
  {
    match act
    case FoldRecord(name, value) =>
      ok := agg.AddMeasurement(name, value);
      if ok {
        assert Step(Trace([], [], true), act).folds == [Reading(name, ParseTenths(value).value)];
      }
    case Abort =>
      ok := false;
  }

  /** One stitch: glue the suffix `s` and the prefix `p`, split at `;` and fold. */
  method StitchInto(s: seq<byte>, p: seq<byte>, agg: Aggregator) returns (ok: bool)
    requires agg.Valid()
    modifies agg
    ensures agg.Valid()
    ensures var t := Run([SplitRecord(s + p)]); ok == t.ok && agg.log == old(agg.log) + t.folds && t.warnings == []
  {
    var buf := Glue(s, p);
    assert buf[..] == s + p by { assert buf[..] == buf[..|s|] + buf[|s|..]; }
    ok := Perform(SplitRecord(buf[..]), agg);
    RunOne(SplitRecord(s + p));
  }

  /** A replayed `a` followed by a successful `b` is a replayed `a + b`. */
  lemma {:induction false} ReplayGoesOn(log: seq<Reading>, log0: seq<Reading>, warnings: seq<seq<byte>>,
                                        a: seq<Action>, b: seq<Action>, log': seq<Reading>, warnings': seq<seq<byte>>)
    requires Replayed(log, log0, warnings, a) && Run(b).ok
    requires log' == log + Run(b).folds && warnings' == warnings + Run(b).warnings
    ensures Replayed(log', log0, warnings', a + b)
  {
    RunConcat(a, b);
  }

  /** A replayed `a` followed by a failing `b` is a failed `a + b`. */
  lemma {:induction false} ReplayStops(log: seq<Reading>, log0: seq<Reading>, warnings: seq<seq<byte>>,
                                       a: seq<Action>, b: seq<Action>, log': seq<Reading>, warnings': seq<seq<byte>>)
    requires Replayed(log, log0, warnings, a) && !Run(b).ok
    requires log' == log + Run(b).folds && warnings' == warnings + Run(b).warnings
    ensures var u := Run(a + b); !u.ok && log' == log0 + u.folds && warnings' == u.warnings
  {
    RunConcat(a, b);
  }

  /** A failure among the first actions of a list is the failure of the whole list. */
  lemma {:induction false} FailedPrefix(a: seq<Action>, b: seq<Action>)
    requires !Run(a).ok
    ensures Run(a + b) == Run(a)
  {
    RunConcat(a, b);
  }

  /** The scans of the first `n` windows begin the scans of the first `m`. */
  lemma {:induction false} ScansPrefix(ws: seq<seq<byte>>, n: nat, m: nat)
    requires n <= m <= |ws|
    ensures |Scans(ws, n)| <= |Scans(ws, m)| && Scans(ws, m)[..|Scans(ws, n)|] == Scans(ws, n)
  {
    if n < m {
      ScansPrefix(ws, n, m - 1);
      assert Scans(ws, m)[..|Scans(ws, m - 1)|] == Scans(ws, m - 1);
    }
  }

  /** The first `n` stitches begin the first `m`. */
  lemma {:induction false} StitchesPrefix(fr: seq<Fragments>, n: nat, m: nat)
    requires n <= m < |fr|
    ensures |Stitches(fr, n)| <= |Stitches(fr, m)| && Stitches(fr, m)[..|Stitches(fr, n)|] == Stitches(fr, n)
  {
    if n < m {
      StitchesPrefix(fr, n, m - 1);
      assert Stitches(fr, m)[..|Stitches(fr, m - 1)|] == Stitches(fr, m - 1);
    }
  }

  /** A failed run of the first actions is the run of all of them. */
  lemma {:induction false} FailedEarly(a: seq<Action>, b: seq<Action>, log: seq<Reading>, log0: seq<Reading>,
                                       warnings: seq<seq<byte>>)
    requires |a| <= |b| && b[..|a|] == a
    requires var t := Run(a); !t.ok && log == log0 + t.folds && warnings == t.warnings
    ensures var t := Run(b); !t.ok && log == log0 + t.folds && warnings == t.warnings
  {
    RunAfterFailure(a, b);
  }

  /** The `map` step for one chunk: scan every window, then stitch each
      window's suffix to the next window's prefix. The result carries the
      chunk's first prefix and last suffix; the aggregator has received
      the folds of the windows' lines and of the stitched lines, and the
      run stops at the first failing action. */
  method ProcessChunk(chunk: Chunk, numCores: nat, agg: Aggregator)
    returns (res: Option<MeasurementChunk>, warnings: seq<seq<byte>>)
    requires numCores >= 1 && chunk.Valid() && agg.Valid()
    modifies agg
    ensures agg.Valid()
    ensures var ws := Windows(chunk.bytes[..], chunk.length, numCores);
            var t := Run(ChunkActions(ws));
            && agg.log == old(agg.log) + t.folds
            && warnings == t.warnings
            && res == (if t.ok then Some(ChunkResult(chunk.index, ws)) else None)
  {
    ghost var ws := Windows(chunk.bytes[..], chunk.length, numCores);
    ghost var fr := FragmentsOfAll(ws);
    ghost var log0 := agg.log;
    var myPrefixes := new Option<seq<byte>>[numCores + 1](_ => None);
    var mySuffixes := new Option<seq<byte>>[numCores + 1](_ => None);
    ghost var scanned, stitched := ScanActions(ws), StitchActions(fr);
    assert ChunkActions(ws) == scanned + stitched;
    var alive;
    alive, warnings := ScanAll(chunk, numCores, agg, myPrefixes, mySuffixes);
    if !alive {
      FailedPrefix(scanned, stitched);
      return None, warnings;
    }
    ghost var log1 := agg.log;
    alive := StitchAll(myPrefixes[..], mySuffixes[..], agg, fr);
    assert warnings + Run(stitched).warnings == warnings;
    if !alive {
      ReplayStops(log1, log0, warnings, scanned, stitched, agg.log, warnings);
      return None, warnings;
    }
    ReplayGoesOn(log1, log0, warnings, scanned, stitched, agg.log, warnings);
    res := Some(MeasurementChunk(chunk.index, myPrefixes[0], mySuffixes[numCores].value));
  }

  /** The parallel `forEach` over the windows, performed in window order:
      window `i`'s fragments go to `myPrefixes[i]` and `mySuffixes[i]`. */
  method ScanAll(chunk: Chunk, numCores: nat, agg: Aggregator,
                 myPrefixes: array<Option<seq<byte>>>, mySuffixes: array<Option<seq<byte>>>)
    returns (alive: bool, warnings: seq<seq<byte>>)
    requires numCores >= 1 && chunk.Valid() && agg.Valid()
    requires myPrefixes.Length == numCores + 1 && mySuffixes.Length == numCores + 1 && myPrefixes != mySuffixes
    modifies agg, myPrefixes, mySuffixes
    ensures agg.Valid()
    ensures var ws := Windows(chunk.bytes[..], chunk.length, numCores);
            var t := Run(ScanActions(ws));
            && agg.log == old(agg.log) + t.folds
            && warnings == t.warnings
            && alive == t.ok
            && (alive ==> forall k :: 0 <= k <= numCores ==>
                  myPrefixes[k] == FragmentsOf(ws[k]).prefix && mySuffixes[k] == Some(FragmentsOf(ws[k]).suffix))
  {
    ghost var buf := chunk.bytes[..];
    ghost var ws := Windows(buf, chunk.length, numCores);
    ghost var fr := FragmentsOfAll(ws);
    ghost var log0 := agg.log;
    var width := chunk.bytes.Length / numCores;
    WidthFits(chunk.bytes.Length, numCores);
    warnings := [];
    var i := 0;
    while i < numCores + 1
      invariant i <= numCores + 1 && agg.Valid()
      invariant Replayed(agg.log, log0, warnings, Scans(ws, i))
      invariant forall k :: 0 <= k < i ==> myPrefixes[k] == fr[k].prefix
      invariant forall k :: 0 <= k < i ==> mySuffixes[k] == Some(fr[k].suffix)
    {
      var ok;
      ok, warnings := ScanAndStore(chunk, numCores, i, width, agg, myPrefixes, mySuffixes, ws, fr, log0, warnings);
      if !ok {
        return false, warnings;
      }
      i := i + 1;
    }
    alive := true;
  }

  /** One task of the `forEach` and its two stores: window `i` is scanned,
      and its fragments go to slot `i`. */
  method ScanAndStore(chunk: Chunk, numCores: nat, i: nat, width: nat, agg: Aggregator,
                      myPrefixes: array<Option<seq<byte>>>, mySuffixes: array<Option<seq<byte>>>,
                      ghost ws: seq<seq<byte>>, ghost fr: seq<Fragments>, ghost log0: seq<Reading>,
                      warnings: seq<seq<byte>>)
    returns (ok: bool, warnings': seq<seq<byte>>)
    requires chunk.Valid() && agg.Valid() && numCores >= 1 && i <= numCores
    requires width == WindowWidth(chunk.bytes.Length, numCores)
    requires ws == Windows(chunk.bytes[..], chunk.length, numCores) && fr == FragmentsOfAll(ws)
    requires myPrefixes.Length == numCores + 1 && mySuffixes.Length == numCores + 1 && myPrefixes != mySuffixes
    requires Replayed(agg.log, log0, warnings, Scans(ws, i))
    requires forall k :: 0 <= k < i ==> myPrefixes[k] == fr[k].prefix
    requires forall k :: 0 <= k < i ==> mySuffixes[k] == Some(fr[k].suffix)
    modifies agg, myPrefixes, mySuffixes
    ensures agg.Valid()
    ensures ok ==> && Replayed(agg.log, log0, warnings', Scans(ws, i + 1))
                   && (forall k :: 0 <= k <= i ==> myPrefixes[k] == fr[k].prefix)
                   && (forall k :: 0 <= k <= i ==> mySuffixes[k] == Some(fr[k].suffix))
    ensures !ok ==> var t := Run(ScanActions(ws));
                    !t.ok && agg.log == log0 + t.folds && warnings' == t.warnings
  {
    var r;
    r, warnings' := ScanOne(chunk, numCores, i, width, agg, ws, log0, warnings);
    if r.None? {
      return false, warnings';
    }
    Store(myPrefixes, mySuffixes, i, r.value, fr);
    ok := true;
  }

  /** `myPrefixes[i] = prefix; mySuffixes[i] = suffix;` */
  method Store(myPrefixes: array<Option<seq<byte>>>, mySuffixes: array<Option<seq<byte>>>, i: nat,
               f: Fragments, ghost fr: seq<Fragments>)
    requires i < myPrefixes.Length && i < mySuffixes.Length && myPrefixes != mySuffixes && i < |fr| && f == fr[i]
    requires forall k :: 0 <= k < i ==> myPrefixes[k] == fr[k].prefix
    requires forall k :: 0 <= k < i ==> mySuffixes[k] == Some(fr[k].suffix)
    modifies myPrefixes, mySuffixes
    ensures forall k :: 0 <= k <= i ==> myPrefixes[k] == fr[k].prefix
    ensures forall k :: 0 <= k <= i ==> mySuffixes[k] == Some(fr[k].suffix)
    ensures myPrefixes[..] == old(myPrefixes[..])[i := f.prefix] && mySuffixes[..] == old(mySuffixes[..])[i := Some(f.suffix)]
  {
    myPrefixes[i] := f.prefix;
    mySuffixes[i] := Some(f.suffix);
  }

  /** One task of the `forEach`: window `i`. */
  method ScanOne(chunk: Chunk, numCores: nat, i: nat, width: nat, agg: Aggregator,
                 ghost ws: seq<seq<byte>>, ghost log0: seq<Reading>, warnings: seq<seq<byte>>)
    returns (r: Option<Fragments>, warnings': seq<seq<byte>>)
    requires chunk.Valid() && agg.Valid() && numCores >= 1 && i <= numCores
    requires width == WindowWidth(chunk.bytes.Length, numCores)
    requires ws == Windows(chunk.bytes[..], chunk.length, numCores)
    requires Replayed(agg.log, log0, warnings, Scans(ws, i))
    modifies agg
    ensures agg.Valid()
    ensures r.Some? ==> r.value == FragmentsOf(ws[i]) && Replayed(agg.log, log0, warnings', Scans(ws, i + 1))
    ensures r.None? ==> var t := Run(ScanActions(ws));
                        !t.ok && agg.log == log0 + t.folds && warnings' == t.warnings
  {
    ghost var buf := chunk.bytes[..];
    WidthFits(chunk.bytes.Length, numCores);
    ChunkWindowsAt(buf, width, chunk.length, numCores + 1, i);
    ghost var before := agg.log;
    var w;
    r, w := ScanWindow(chunk, i, width, agg);
    warnings' := warnings + w;
    ScanStep(ws, i, before, log0, warnings, agg.log, warnings', r.Some?);
  }

  /** A scanned window extends the replayed scans by its actions; a failed
      one ends the chunk's scan. */
  lemma {:induction false} ScanStep(ws: seq<seq<byte>>, i: nat, log: seq<Reading>, log0: seq<Reading>,
                                    warnings: seq<seq<byte>>, log': seq<Reading>, warnings': seq<seq<byte>>, ok: bool)
    requires i < |ws| && Replayed(log, log0, warnings, Scans(ws, i))
    requires var t := Run(WindowActions(ws[i]));
             ok == t.ok && log' == log + t.folds && warnings' == warnings + t.warnings
    ensures ok ==> Replayed(log', log0, warnings', Scans(ws, i + 1))
    ensures !ok ==> var t := Run(ScanActions(ws)); !t.ok && log' == log0 + t.folds && warnings' == t.warnings
  {
    var b := WindowActions(ws[i]);
    assert Scans(ws, i + 1) == Scans(ws, i) + b;
    if ok {
      ReplayGoesOn(log, log0, warnings, Scans(ws, i), b, log', warnings');
    } else {
      ReplayStops(log, log0, warnings, Scans(ws, i), b, log', warnings');
      ScansPrefix(ws, i + 1, |ws|);
      FailedEarly(Scans(ws, i + 1), ScanActions(ws), log', log0, warnings');
    }
  }

  /** The stitch loop over neighbouring windows `j` and `j + 1`. The arrays
      are not written during the loop, so it reads their contents. */
  method StitchAll(myPrefixes: seq<Option<seq<byte>>>, mySuffixes: seq<Option<seq<byte>>>,
                   agg: Aggregator, ghost fr: seq<Fragments>)
    returns (alive: bool)
    requires agg.Valid() && |fr| >= 1 && |myPrefixes| == |fr| && |mySuffixes| == |fr|
    requires forall k :: 0 <= k < |fr| ==> myPrefixes[k] == fr[k].prefix && mySuffixes[k] == Some(fr[k].suffix)
    modifies agg
    ensures agg.Valid()
    ensures var t := Run(StitchActions(fr));
            && agg.log == old(agg.log) + t.folds
            && t.warnings == []
            && alive == t.ok
  {
    ghost var log0 := agg.log;
    var j := 0;
    while j < |myPrefixes| - 1
      invariant j <= |fr| - 1 && agg.Valid()
      invariant Replayed(agg.log, log0, [], Stitches(fr, j))
    {
      var ok := StitchOne(myPrefixes[j + 1], mySuffixes[j], agg, fr, j, log0);
      if !ok {
        StitchesFailed(fr, j + 1, agg.log, log0);
        return false;
      }
      j := j + 1;
    }
    alive := true;
    StitchesAll(fr, agg.log, log0);
  }

  /** A failure among the first stitches is the failure of all of them. */
  lemma StitchesFailed(fr: seq<Fragments>, n: nat, log: seq<Reading>, log0: seq<Reading>)
    requires n < |fr|
    requires var t := Run(Stitches(fr, n)); !t.ok && log == log0 + t.folds && t.warnings == []
    ensures var t := Run(StitchActions(fr)); !t.ok && log == log0 + t.folds && t.warnings == []
  {
    StitchesPrefix(fr, n, |fr| - 1);
    FailedEarly(Stitches(fr, n), StitchActions(fr), log, log0, []);
  }

  /** All stitches replayed: the whole stitch list succeeded. */
  lemma StitchesAll(fr: seq<Fragments>, log: seq<Reading>, log0: seq<Reading>)
    requires |fr| >= 1 && Replayed(log, log0, [], Stitches(fr, |fr| - 1))
    ensures var t := Run(StitchActions(fr)); log == log0 + t.folds && t.warnings == [] && t.ok
  {
  }

  /** One pass of the stitch loop: neighbours `j` and `j + 1`. */
  method StitchOne(p: Option<seq<byte>>, s: Option<seq<byte>>, agg: Aggregator,
                   ghost fr: seq<Fragments>, ghost j: nat, ghost log0: seq<Reading>)
    returns (alive: bool)
    requires agg.Valid() && j + 1 < |fr| && p == fr[j + 1].prefix && s == Some(fr[j].suffix)
    requires Replayed(agg.log, log0, [], Stitches(fr, j))
    modifies agg
    ensures agg.Valid()
    ensures alive ==> Replayed(agg.log, log0, [], Stitches(fr, j + 1))
    ensures !alive ==> var t := Run(Stitches(fr, j + 1));
                       !t.ok && agg.log == log0 + t.folds && t.warnings == []
  {
    if p.Some? && s.Some? {
      ghost var before := agg.log;
      alive := StitchInto(s.value, p.value, agg);
      StitchStep(fr, j, before, log0, agg.log, alive);
    } else {
      alive := true;
      StitchSkip(fr, j);
    }
  }

  /** A stitch that is performed extends the replayed stitches by one line. */
  lemma {:induction false} StitchStep(fr: seq<Fragments>, j: nat, log: seq<Reading>, log0: seq<Reading>,
                                      log': seq<Reading>, ok: bool)
    requires j + 1 < |fr| && fr[j + 1].prefix.Some?
    requires Replayed(log, log0, [], Stitches(fr, j))
    requires var t := Run([SplitRecord(fr[j].suffix + fr[j + 1].prefix.value)]);
             ok == t.ok && log' == log + t.folds && t.warnings == []
    ensures ok ==> Replayed(log', log0, [], Stitches(fr, j + 1))
    ensures !ok ==> var t := Run(Stitches(fr, j + 1)); !t.ok && log' == log0 + t.folds && t.warnings == []
  {
    var b := Stitch(fr[j], fr[j + 1]);
    assert Stitches(fr, j + 1) == Stitches(fr, j) + b;
    if ok {
      ReplayGoesOn(log, log0, [], Stitches(fr, j), b, log', []);
    } else {
      ReplayStops(log, log0, [], Stitches(fr, j), b, log', []);
    }
  }

  /** A window without a newline adds no stitch. */
  lemma StitchSkip(fr: seq<Fragments>, j: nat)
    requires j + 1 < |fr| && fr[j + 1].prefix.None?
    ensures Stitches(fr, j + 1) == Stitches(fr, j)
  {
    assert Stitches(fr, j) + [] == Stitches(fr, j);
  }
}
