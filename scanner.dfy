/**
 * The per-window scan of `CalculateAverage_flamparski.main`. A chunk's
 * buffer is cut into `numCores + 1` windows of `threadChunkSize` bytes; each
 * window is walked once: the bytes before its first newline become the
 * prefix fragment, every later complete line is folded into the aggregator
 * (or reported when it has no `;`), and the bytes after its last newline
 * become the suffix fragment.
 */
module Scanner {
  import opened Basics
  import opened LineSplit
  import opened Values
  import opened Aggregation
  import opened Actions

  /** A chunk of the file: a buffer of fixed capacity, filled up to `length`. */
  class Chunk {
    const index: int
    const bytes: array<byte>
    var length: nat

    ghost predicate Valid()
      reads this
    {
      length <= bytes.Length
    }

    constructor (index: int, size: nat)
      ensures Valid() && this.index == index && bytes.Length == size && length == 0
      ensures fresh(bytes) && bytes[..] == seq(size, _ => 0)
    {
      this.index := index;
      bytes := new byte[size](_ => 0);
      length := 0;
    }
  }

  /** `threadChunkSize`: the window width, taken from the buffer's capacity. */
  function WindowWidth(capacity: nat, numCores: nat): nat
    requires numCores >= 1
  {
    capacity / numCores
  }

  /** Where window `i` starts scanning. */
  function WindowStart(i: nat, width: nat): nat
  {
    i * width
  }

  /** Where window `i` stops scanning: at its nominal end or at `length`,
      whichever comes first, but never before its start. */
  function WindowStop(i: nat, width: nat, length: nat): nat
  {
    Max(i * width, Min((i + 1) * width, length))
  }

  /** The bytes window `i` scans. */
  function Window(buf: seq<byte>, width: nat, length: nat, i: nat): seq<byte>
    requires i * width <= |buf| && length <= |buf|
  {
    buf[WindowStart(i, width)..WindowStop(i, width, length)]
  }

  /** What the scan does with one complete line after the window's first
      newline: fold it when it has a `;`, otherwise abort when `stale` and
      report it when not. `stale` says that the scan still holds the `;`
      position of the prefix line (see `LineActionShape`). */
  function LineAction(line: seq<byte>, stale: bool): Action
  {
    if SEMICOLON in line then
      var k := LastIndex(line, SEMICOLON);
      FoldRecord(line[..k], line[k + 1..])
    else if stale then Abort
    else Warn(line)
  }

  /** A line with a `;` is folded, split at its last `;`: the name is
      everything before it (so it may hold other `;`) and the value holds
      none. A line without one is reported, except right after the prefix
      line when that held a `;`: `lastSemi` is only reset after a fold, so
      the name's length comes out negative and the `String` constructor
      throws. */
  lemma {:induction false} LineActionShape(line: seq<byte>, stale: bool)
    ensures LineAction(line, stale).FoldRecord? <==> SEMICOLON in line
    ensures LineAction(line, stale).FoldRecord? ==>
              && line == LineAction(line, stale).name + [SEMICOLON] + LineAction(line, stale).value
              && SEMICOLON !in LineAction(line, stale).value
    ensures LineAction(line, stale).Abort? <==> SEMICOLON !in line && stale
    ensures LineAction(line, stale).Warn? ==> LineAction(line, stale).line == line
  {
    if SEMICOLON in line {
      var k := LastIndex(line, SEMICOLON);
      assert line == line[..k] + [SEMICOLON] + line[k + 1..];
    }
  }

  /** The actions for the interior pieces of `p`, in order. */
  function LineActions(p: seq<seq<byte>>): (acts: seq<Action>)
    requires |p| >= 1
    ensures |acts| == Max(|p| - 2, 0)
  {
    if |p| <= 2 then []
    else LineActions(DropLast(p)) + [LineAction(p[|p| - 2], |p| == 3 && SEMICOLON in p[0])]
  }

  /** Each interior piece gets its own action, in order; only the first one
      can see the prefix line's stale `;`. */
  lemma {:induction false} LineActionsAt(p: seq<seq<byte>>, i: nat)
    requires |p| >= 1 && i < |LineActions(p)|
    ensures LineActions(p)[i] == LineAction(p[i + 1], i == 0 && SEMICOLON in p[0])
    decreases |p|
  {
    if i < |p| - 3 {
      LineActionsAt(DropLast(p), i);
    }
  }

  /** The actions a window's scan performs. */
  function WindowActions(w: seq<byte>): seq<Action>
  {
    LineActions(Lines(w))
  }

  /** The fragments a window leaves for the stitcher. `prefix` is None (null
      in the program) when the window holds no newline; `suffix` never is. */
  datatype Fragments = Fragments(prefix: Option<seq<byte>>, suffix: seq<byte>)

  function FragmentsOf(w: seq<byte>): Fragments
  {
    var p := Lines(w);
    Fragments(if |p| == 1 then None else Some(p[0]), Last(p))
  }

  /** The prefix is the slice before the first newline, and absent exactly
      when there is none; the suffix is the slice after the last newline, or
      the whole window. */
  lemma {:induction false} FragmentsAreSlices(w: seq<byte>)
    ensures FragmentsOf(w).prefix.None? <==> NEWLINE !in w
    ensures NEWLINE in w ==> FragmentsOf(w).prefix == Some(w[..FirstIndex(w, NEWLINE)])
    ensures FragmentsOf(w).suffix == if NEWLINE in w then w[LastIndex(w, NEWLINE) + 1..] else w
  {
    if NEWLINE !in w {
      LinesWithoutNewline(w);
    } else {
      FirstPiece(w, FirstIndex(w, NEWLINE));
      LastPiece(w, LastIndex(w, NEWLINE));
    }
  }

  /** Where `lastSemi` points after the scan has split its bytes into the
      pieces `p`, the last of which starts at `start`: at the last `;` of the
      current line, or still at the prefix line's last `;`, or nowhere. */
  function PendingSemi(p: seq<seq<byte>>, s0: int, start: int): int
    requires |p| >= 1
  {
    if SEMICOLON in Last(p) then start + LastIndex(Last(p), SEMICOLON)
    else if |p| == 2 && SEMICOLON in p[0] then s0 + LastIndex(p[0], SEMICOLON)
    else -1
  }

  lemma {:induction false} LineActionsNewPiece(p: seq<seq<byte>>)
    requires |p| >= 1
    ensures LineActions(p + [[]]) ==
      if |p| == 1 then [] else LineActions(p) + [LineAction(p[|p| - 1], |p| == 2 && SEMICOLON in p[0])]
  {
    assert DropLast(p + [[]]) == p;
  }

  lemma {:induction false} LineActionsSameLast(p: seq<seq<byte>>, x: seq<byte>)
    requires |p| >= 1
    ensures LineActions(DropLast(p) + [x]) == LineActions(p)
  {
    var q := DropLast(p) + [x];
    if |p| > 2 {
      assert DropLast(q) == DropLast(p);
      assert q[|q| - 2] == p[|p| - 2] && q[0] == p[0];
    }
  }

  /** What the scan knows after reading `buf[s0..j]`: the current line
      starts at `start`, `prefix` holds the first piece once a newline has been
      seen, and `lastSemi` is `PendingSemi` of the pieces so far. */
  ghost predicate Scanned(buf: seq<byte>, s0: nat, j: nat, start: nat, prefix: Option<seq<byte>>, lastSemi: int)
  {
    && s0 <= start <= j <= |buf|
    && var p := Lines(buf[s0..j]);
       && buf[start..j] == Last(p)
       && (|p| == 1 ==> start == s0)
       && (|p| >= 2 ==> s0 + |p[0]| < start)
       && prefix == (if |p| == 1 then None else Some(p[0]))
       && lastSemi == PendingSemi(p, s0, start)
  }

  /** A byte other than a newline extends the last piece. */
  lemma {:induction false} ExtendByte(p: seq<seq<byte>>, b: byte, s0: int, start: int)
    requires |p| >= 1 && b != NEWLINE
    ensures var q := Extend(p, b);
            && |q| == |p|
            && q[|q| - 1] == p[|p| - 1] + [b]
            && q[0] == (if |p| == 1 then q[|q| - 1] else p[0])
            && PendingSemi(q, s0, start) ==
                 (if b == SEMICOLON then start + |p[|p| - 1]| else PendingSemi(p, s0, start))
            && LineActions(q) == LineActions(p)
  {
    var q := Extend(p, b);
    if SEMICOLON in Last(q) {
      LastIndexSnoc(Last(p), b, SEMICOLON);
    }
    LineActionsSameLast(p, Last(p) + [b]);
  }

  /** Reading a byte other than a newline extends the current line; a `;`
      moves `lastSemi` to it. No action is performed. */
  lemma {:induction false} ScanByte(buf: seq<byte>, s0: nat, j: nat, start: nat, prefix: Option<seq<byte>>, lastSemi: int,
                                    log: seq<Reading>, log0: seq<Reading>, warnings: seq<seq<byte>>)
    requires ScanInvariant(buf, s0, j, start, prefix, lastSemi, log, log0, warnings)
    requires j < |buf| && buf[j] != NEWLINE
    ensures ScanInvariant(buf, s0, j + 1, start, prefix, if buf[j] == SEMICOLON then j else lastSemi, log, log0, warnings)
  {
    ByteExtends(buf, s0, j, start, prefix, lastSemi);
  }

  lemma {:induction false} ByteExtends(buf: seq<byte>, s0: nat, j: nat, start: nat, prefix: Option<seq<byte>>, lastSemi: int)
    requires Scanned(buf, s0, j, start, prefix, lastSemi)
    requires j < |buf| && buf[j] != NEWLINE
    ensures Scanned(buf, s0, j + 1, start, prefix, if buf[j] == SEMICOLON then j else lastSemi)
    ensures WindowActions(buf[s0..j + 1]) == WindowActions(buf[s0..j])
  {
    var b := buf[j];
    assert buf[s0..j + 1] == buf[s0..j] + [b];
    assert buf[start..j + 1] == buf[start..j] + [b];
    LinesSnoc(buf[s0..j], b);
    ExtendByte(Lines(buf[s0..j]), b, s0, start);
  }

  /** The action the scan takes at a newline once the prefix is known. */
  function NewlineAction(buf: seq<byte>, start: nat, j: nat, lastSemi: int): Action
    requires start <= j <= |buf|
    requires lastSemi >= start ==> lastSemi < j
  {
    if lastSemi == -1 then Warn(buf[start..j])
    else if lastSemi < start then Abort
    else FoldRecord(buf[start..lastSemi], buf[lastSemi + 1..j])
  }

  /** A newline starts a new, empty piece. */
  lemma {:induction false} ExtendNewline(p: seq<seq<byte>>, s0: int, start: int)
    requires |p| >= 1
    ensures var q := Extend(p, NEWLINE);
            && |q| == |p| + 1
            && q[0] == p[0]
            && q[|q| - 1] == []
            && PendingSemi(q, s0, start) ==
                 (if |p| == 1 && SEMICOLON in p[0] then s0 + LastIndex(p[0], SEMICOLON) else -1)
  {
  }

  /** Reading the window's first newline fixes the prefix; no action is
      performed and `lastSemi` is kept. */
  lemma {:induction false} ScanFirstNewline(buf: seq<byte>, s0: nat, j: nat, start: nat, lastSemi: int)
    requires Scanned(buf, s0, j, start, None, lastSemi)
    requires j < |buf| && buf[j] == NEWLINE
    ensures Scanned(buf, s0, j + 1, j + 1, Some(buf[start..j]), lastSemi)
    ensures WindowActions(buf[s0..j + 1]) == []
  {
    var p := Lines(buf[s0..j]);
    assert buf[s0..j + 1] == buf[s0..j] + [NEWLINE];
    LinesSnoc(buf[s0..j], NEWLINE);
    ExtendNewline(p, s0, j + 1);
    LineActionsNewPiece(p);
  }

  /** Reading a later newline performs `NewlineAction` on the line it
      closes; `lastSemi` is then reset. */
  lemma {:induction false} ScanNewline(buf: seq<byte>, s0: nat, j: nat, start: nat, prefix: Option<seq<byte>>, lastSemi: int)
    requires Scanned(buf, s0, j, start, prefix, lastSemi) && prefix.Some?
    requires j < |buf| && buf[j] == NEWLINE
    ensures lastSemi >= start ==> lastSemi < j
    ensures Scanned(buf, s0, j + 1, j + 1, prefix, -1)
    ensures WindowActions(buf[s0..j + 1]) == WindowActions(buf[s0..j]) + [NewlineAction(buf, start, j, lastSemi)]
  {
    var p := Lines(buf[s0..j]);
    assert buf[s0..j + 1] == buf[s0..j] + [NEWLINE];
    LinesSnoc(buf[s0..j], NEWLINE);
    ExtendNewline(p, s0, j + 1);
    LineActionsNewPiece(p);
    ClosedLine(buf, s0, j, start, prefix, lastSemi);
  }

  /** The line a newline closes after the prefix gets the action
      `LineAction` assigns to it. */
  lemma {:induction false} ClosedLine(buf: seq<byte>, s0: nat, j: nat, start: nat, prefix: Option<seq<byte>>, lastSemi: int)
    requires Scanned(buf, s0, j, start, prefix, lastSemi) && prefix.Some?
    ensures lastSemi >= start ==> lastSemi < j
    ensures var p := Lines(buf[s0..j]);
            NewlineAction(buf, start, j, lastSemi) == LineAction(p[|p| - 1], |p| == 2 && SEMICOLON in p[0])
  {
    var p := Lines(buf[s0..j]);
    var line, stale := p[|p| - 1], |p| == 2 && SEMICOLON in p[0];
    if SEMICOLON in line {
      ClosedRecord(buf, start, j, lastSemi, line, stale);
    } else if stale {
      assert lastSemi == s0 + LastIndex(p[0], SEMICOLON) < start;
    }
  }

  lemma {:induction false} ClosedRecord(buf: seq<byte>, start: nat, j: nat, lastSemi: int, line: seq<byte>, stale: bool)
    requires start <= j <= |buf| && buf[start..j] == line
    requires SEMICOLON in line && lastSemi == start + LastIndex(line, SEMICOLON)
    ensures start <= lastSemi < j
    ensures NewlineAction(buf, start, j, lastSemi) == LineAction(line, stale)
  {
    var k := LastIndex(line, SEMICOLON);
    assert buf[start..lastSemi] == line[..k];
    assert buf[lastSemi + 1..j] == line[k + 1..];
  }

  /** Pieces that agree on all but the last piece of `p` have actions that
      begin with those of `p`. */
  lemma {:induction false} LineActionsPrefix(p: seq<seq<byte>>, r: seq<seq<byte>>)
    requires 1 <= |p| <= |r| && forall k :: 0 <= k < |p| - 1 ==> r[k] == p[k]
    ensures |LineActions(p)| <= |LineActions(r)|
    ensures LineActions(r)[..|LineActions(p)|] == LineActions(p)
  {
    forall i | 0 <= i < |LineActions(p)|
      ensures LineActions(r)[i] == LineActions(p)[i]
    {
      LineActionAgrees(p, r, i);
    }
  }

  lemma {:induction false} LineActionAgrees(p: seq<seq<byte>>, r: seq<seq<byte>>, i: nat)
    requires 1 <= |p| <= |r| && forall k :: 0 <= k < |p| - 1 ==> r[k] == p[k]
    requires i < |LineActions(p)|
    ensures i < |LineActions(r)| && LineActions(r)[i] == LineActions(p)[i]
  {
    LineActionsAt(p, i);
    LineActionsAt(r, i);
  }

  /** The actions of a range begin with the actions of any prefix of it. */
  lemma {:induction false} WindowActionsPrefix(u: seq<byte>, v: seq<byte>)
    ensures |WindowActions(u)| <= |WindowActions(u + v)|
    ensures WindowActions(u + v)[..|WindowActions(u)|] == WindowActions(u)
  {
    var p, q := Lines(u), Lines(v);
    LinesConcat(u, v);
    var r := Fuse(p, q);
    assert r == DropLast(p) + ([Last(p) + q[0]] + q[1..]);
    assert r[..|p| - 1] == DropLast(p);
    LineActionsPrefix(p, r);
  }

  /** Once a prefix of the actions has failed, the rest changes nothing. */
  lemma {:induction false} RunAfterFailure(a: seq<Action>, b: seq<Action>)
    requires |a| <= |b| && b[..|a|] == a && !Run(a).ok
    ensures Run(b) == Run(a)
  {
    assert b == a + b[|a|..];
    RunConcat(a, b[|a|..]);
  }

  /** The folds and diagnostics so far are those of running `acts`, and the
      run is still alive. */
  ghost predicate Replayed(log: seq<Reading>, log0: seq<Reading>, warnings: seq<seq<byte>>, acts: seq<Action>)
  {
    var t := Run(acts);
    t.ok && log == log0 + t.folds && warnings == t.warnings
  }

  /** The loop invariant of the scan: its state after reading `buf[s0..j]`,
      and the folds and diagnostics of that range's actions. */
  ghost predicate ScanInvariant(buf: seq<byte>, s0: nat, j: nat, start: nat, prefix: Option<seq<byte>>, lastSemi: int,
                                log: seq<Reading>, log0: seq<Reading>, warnings: seq<seq<byte>>)
  {
    && Scanned(buf, s0, j, start, prefix, lastSemi)
    && Replayed(log, log0, warnings, WindowActions(buf[s0..j]))
  }

  lemma {:induction false} ReplayWarn(log: seq<Reading>, log0: seq<Reading>, warnings: seq<seq<byte>>, acts: seq<Action>, l: seq<byte>)
    requires Replayed(log, log0, warnings, acts)
    ensures Replayed(log, log0, warnings + [l], acts + [Warn(l)])
  {
    RunSnoc(acts, Warn(l));
  }

  lemma {:induction false} ReplayFold(log: seq<Reading>, log0: seq<Reading>, warnings: seq<seq<byte>>, acts: seq<Action>,
                                      name: seq<byte>, value: seq<byte>)
    requires Replayed(log, log0, warnings, acts) && ParseTenths(value).Some?
    ensures Replayed(log + [Reading(name, ParseTenths(value).value)], log0, warnings, acts + [FoldRecord(name, value)])
  {
    RunSnoc(acts, FoldRecord(name, value));
  }

  /** The first failing action ends the run with the folds and diagnostics so far. */
  lemma {:induction false} ReplayFail(log: seq<Reading>, log0: seq<Reading>, warnings: seq<seq<byte>>, acts: seq<Action>, a: Action)
    requires Replayed(log, log0, warnings, acts) && !Succeeds(a)
    ensures var t := Run(acts + [a]); !t.ok && log == log0 + t.folds && warnings == t.warnings
  {
    RunSnoc(acts, a);
  }

  /** The bytes a window starting at `begin` and nominally ending at `end`
      scans in a buffer filled up to `length`. */
  function Range(buf: seq<byte>, begin: nat, end: nat, length: nat): seq<byte>
    requires begin <= |buf| && length <= |buf|
  {
    buf[begin..Max(begin, Min(end, length))]
  }

  /** The scan of window `i` (the body of the parallel `forEach`). On
      success it returns the window's fragments; on an abort it returns None.
      Either way the aggregator has received exactly the folds the window's
      actions perform before the first failure, in order. */
  method ScanWindow(chunk: Chunk, i: nat, width: nat, agg: Aggregator)
    returns (res: Option<Fragments>, warnings: seq<seq<byte>>)
    requires chunk.Valid() && agg.Valid()
    requires i * width <= chunk.bytes.Length
    modifies agg
    ensures agg.Valid()
    ensures var w := Window(chunk.bytes[..], width, chunk.length, i);
            var t := Run(WindowActions(w));
            && agg.log == old(agg.log) + t.folds
            && warnings == t.warnings
            && res == (if t.ok then Some(FragmentsOf(w)) else None)
  {
    var start := i * width;
    var end := (i + 1) * width;
    res, warnings := ScanRange(chunk, start, end, agg);
  }

  /** The loop of the scan, over `[begin, end)` cut at the chunk's length. */
  method ScanRange(chunk: Chunk, begin: nat, end: nat, agg: Aggregator)
    returns (res: Option<Fragments>, warnings: seq<seq<byte>>)
    requires chunk.Valid() && agg.Valid()
    requires begin <= chunk.bytes.Length
    modifies agg
    ensures agg.Valid()
    ensures var w := Range(chunk.bytes[..], begin, end, chunk.length);
            var t := Run(WindowActions(w));
            && agg.log == old(agg.log) + t.folds
            && warnings == t.warnings
            && res == (if t.ok then Some(FragmentsOf(w)) else None)
  {
    ghost var buf := chunk.bytes[..];
    ghost var log0 := agg.log;
    ghost var stop := Max(begin, Min(end, chunk.length));
    assert Range(chunk.bytes[..], begin, end, chunk.length) == buf[begin..stop];
    var start: nat := begin;
    var prefix: Option<seq<byte>> := None;
    var j := begin;
    var lastSemi := -1;
    warnings := [];
    assert buf[begin..j] == [];
    while j < end && j < chunk.length
      invariant j <= stop && chunk.bytes[..] == buf
      invariant agg.Valid()
      invariant ScanInvariant(buf, begin, j, start, prefix, lastSemi, agg.log, log0, warnings)
    {
      var alive;
      alive, start, prefix, lastSemi, warnings := ScanStep(chunk, begin, j, start, prefix, lastSemi, warnings, agg, buf, log0);
      if !alive {
        Aborted(buf, begin, j + 1, stop);
        return None, warnings;
      }
      j := j + 1;
    }
    var suffix := chunk.bytes[start..j];
    res := Some(Fragments(prefix, suffix));
    assert j == stop;
    ScanEnd(buf, begin, j, start, prefix, lastSemi);
  }

  /** One iteration of the scan loop: reads byte `j`. It returns false when
      the iteration throws, which ends the window's task. */
  method ScanStep(chunk: Chunk, begin: nat, j: nat, start: nat, prefix: Option<seq<byte>>, lastSemi: int,
                  warnings: seq<seq<byte>>, agg: Aggregator, ghost buf: seq<byte>, ghost log0: seq<Reading>)
    returns (alive: bool, start': nat, prefix': Option<seq<byte>>, lastSemi': int, warnings': seq<seq<byte>>)
    requires chunk.Valid() && agg.Valid() && j < chunk.length && buf == chunk.bytes[..]
    requires ScanInvariant(buf, begin, j, start, prefix, lastSemi, agg.log, log0, warnings)
    modifies agg
    ensures agg.Valid()
    ensures alive ==> ScanInvariant(buf, begin, j + 1, start', prefix', lastSemi', agg.log, log0, warnings')
    ensures !alive ==>
              var t := Run(WindowActions(buf[begin..j + 1]));
              !t.ok && agg.log == log0 + t.folds && warnings' == t.warnings
  {
    var chr := chunk.bytes[j];
    if chr == NEWLINE {
      alive, prefix', lastSemi', warnings' := CloseLine(chunk, begin, j, start, prefix, lastSemi, warnings, agg, buf, log0);
      start' := j + 1;
    } else {
      ScanByte(buf, begin, j, start, prefix, lastSemi, agg.log, log0, warnings);
      alive, start', prefix', lastSemi', warnings' := true, start, prefix, lastSemi, warnings;
      if chr == SEMICOLON {
        lastSemi' := j;
      }
    }
  }

  /** The newline branch of the scan loop, at byte `j`: the first newline
      fixes the prefix, later ones fold or report the line they close. It
      returns false when the branch throws, which ends the window's task. */
  method CloseLine(chunk: Chunk, begin: nat, j: nat, start: nat, prefix: Option<seq<byte>>, lastSemi: int,
                   warnings: seq<seq<byte>>, agg: Aggregator, ghost buf: seq<byte>, ghost log0: seq<Reading>)
    returns (alive: bool, prefix': Option<seq<byte>>, lastSemi': int, warnings': seq<seq<byte>>)
    requires chunk.Valid() && agg.Valid() && j < chunk.length && buf == chunk.bytes[..] && buf[j] == NEWLINE
    requires ScanInvariant(buf, begin, j, start, prefix, lastSemi, agg.log, log0, warnings)
    modifies agg
    ensures agg.Valid()
    ensures alive ==>
              ScanInvariant(buf, begin, j + 1, j + 1, prefix', lastSemi', agg.log, log0, warnings')
    ensures !alive ==>
              var t := Run(WindowActions(buf[begin..j + 1]));
              !t.ok && agg.log == log0 + t.folds && warnings' == t.warnings
  {
    ghost var acts := WindowActions(buf[begin..j]);
    alive, prefix', lastSemi', warnings' := true, prefix, lastSemi, warnings;
    if prefix == None {
      ScanFirstNewline(buf, begin, j, start, lastSemi);
      prefix' := Some(chunk.bytes[start..j]);
    } else {
      ScanNewline(buf, begin, j, start, prefix, lastSemi);
      if lastSemi != -1 {
        if lastSemi < start {
          // The name's length `lastSemi - start` is negative: the `String`
          // constructor throws.
          ReplayFail(agg.log, log0, warnings, acts, Abort);
          return false, prefix, lastSemi, warnings;
        }
        var name := chunk.bytes[start..lastSemi];
        var value := chunk.bytes[lastSemi + 1..j];
        assert NewlineAction(buf, start, j, lastSemi) == FoldRecord(name, value);
        ghost var log1 := agg.log;
        var ok := agg.AddMeasurement(name, value);
        if !ok {
          ReplayFail(log1, log0, warnings, acts, FoldRecord(name, value));
          return false, prefix, lastSemi, warnings;
        }
        ReplayFold(log1, log0, warnings, acts, name, value);
        lastSemi' := -1;
      } else {
        ReplayWarn(agg.log, log0, warnings, acts, chunk.bytes[start..j]);
        warnings' := warnings + [chunk.bytes[start..j]];
      }
    }
  }

  /** At the end of the window, the scan's state is its fragments. */
  lemma {:induction false} ScanEnd(buf: seq<byte>, s0: nat, j: nat, start: nat, prefix: Option<seq<byte>>, lastSemi: int)
    requires Scanned(buf, s0, j, start, prefix, lastSemi)
    ensures FragmentsOf(buf[s0..j]) == Fragments(prefix, buf[start..j])
  {
  }

  /** A failure after reading `buf[s0..j]` is the outcome of the whole window. */
  lemma {:induction false} Aborted(buf: seq<byte>, s0: nat, j: nat, stop: nat)
    requires s0 <= j <= stop <= |buf|
    requires !Run(WindowActions(buf[s0..j])).ok
    ensures Run(WindowActions(buf[s0..stop])) == Run(WindowActions(buf[s0..j]))
  {
    assert buf[s0..stop] == buf[s0..j] + buf[j..stop];
    WindowActionsPrefix(buf[s0..j], buf[j..stop]);
    RunAfterFailure(WindowActions(buf[s0..j]), WindowActions(buf[s0..stop]));
  }
}
