/**
 * Joining fragments. The suffix of one range and the prefix of the next are
 * the two halves of the line that straddles their boundary; the program glues
 * them together (suffix first) and splits the result at `;`. The same rule
 * joins the windows of a chunk and the chunks of the file. This module holds
 * the reference definitions of that rule and the proof that, when every
 * range holds a newline, the interior lines of the ranges and the stitched
 * lines are exactly the interior lines of their concatenation.
 */
module Stitching {
  import opened Basics
  import opened LineSplit
  import opened Actions
  import opened Scanner

  /** `new String(buf).split(";")` followed by `addMeasurement(parts[0],
      parts[1])`. The name runs to the first `;` and the value to the next
      `;` or the end. Without any `;` there is no `parts[1]` and the program
      throws. An empty value (`a;` or `a;;…`) either has no `parts[1]` or
      does not parse; both throw, and the empty value fails to parse here. */
  function SplitRecord(buf: seq<byte>): Action
  {
    if SEMICOLON !in buf then Abort
    else
      var k := FirstIndex(buf, SEMICOLON);
      var rest := buf[k + 1..];
      FoldRecord(buf[..k], if SEMICOLON in rest then rest[..FirstIndex(rest, SEMICOLON)] else rest)
  }

  /** A line with exactly one `;`. */
  predicate OneSemicolon(line: seq<byte>)
  {
    SEMICOLON in line && SEMICOLON !in line[FirstIndex(line, SEMICOLON) + 1..]
  }

  /** The fold a well-formed line stands for. */
  function RecordOf(line: seq<byte>): Action
    requires SEMICOLON in line
  {
    var k := FirstIndex(line, SEMICOLON);
    FoldRecord(line[..k], line[k + 1..])
  }

  /** On a line with exactly one `;`, the scanner's split (at the last `;`)
      and the stitcher's split (at the first) agree. */
  lemma {:induction false} SplitsAgree(line: seq<byte>, stale: bool)
    requires OneSemicolon(line)
    ensures SplitRecord(line) == RecordOf(line)
    ensures LineAction(line, stale) == RecordOf(line)
  {
    var k := FirstIndex(line, SEMICOLON);
    var m := LastIndex(line, SEMICOLON);
    assert k == m;
  }

  /** Writing `name;value` with a `;`-free name and value and splitting it
      gives `name` and `value` back. */
  lemma {:induction false} SplitRecordRoundTrip(name: seq<byte>, value: seq<byte>)
    requires SEMICOLON !in name && SEMICOLON !in value
    ensures SplitRecord(name + [SEMICOLON] + value) == FoldRecord(name, value)
  {
    var line := name + [SEMICOLON] + value;
    assert line[|name|] == SEMICOLON;
    assert line[..|name|] == name;
    assert line[|name| + 1..] == value;
  }

  /** The stitch between two neighbouring ranges: nothing when the second
      has no prefix (the program skips a null prefix); otherwise the fold of
      the first's suffix followed by the second's prefix. */
  function Stitch(left: Fragments, right: Fragments): seq<Action>
  {
    if right.prefix.None? then [] else [SplitRecord(left.suffix + right.prefix.value)]
  }

  /** The first `n` passes of the stitch loop: neighbours `fr[j]` and
      `fr[j + 1]` for each `j < n`, in order. */
  function Stitches(fr: seq<Fragments>, n: nat): seq<Action>
    requires n < |fr|
  {
    if n == 0 then [] else Stitches(fr, n - 1) + Stitch(fr[n - 1], fr[n])
  }

  /** The whole stitch loop. */
  function StitchActions(fr: seq<Fragments>): seq<Action>
  {
    if fr == [] then [] else Stitches(fr, |fr| - 1)
  }

  /** The fragments of each range. */
  function FragmentsOfAll(ws: seq<seq<byte>>): (fr: seq<Fragments>)
    ensures |fr| == |ws|
    ensures forall i :: 0 <= i < |ws| ==> fr[i] == FragmentsOf(ws[i])
  {
    seq(|ws|, i requires 0 <= i < |ws| => FragmentsOf(ws[i]))
  }

  /** The actions of scanning the first `n` ranges, in order. */
  function Scans(ws: seq<seq<byte>>, n: nat): seq<Action>
    requires n <= |ws|
  {
    if n == 0 then [] else Scans(ws, n - 1) + WindowActions(ws[n - 1])
  }

  /** The actions of scanning every range. */
  function ScanActions(ws: seq<seq<byte>>): seq<Action>
  {
    Scans(ws, |ws|)
  }

  /** Only the fragments the first `n` passes look at matter. */
  lemma {:induction false} StitchesTake(fr: seq<Fragments>, m: nat, n: nat)
    requires n < m <= |fr|
    ensures Stitches(fr[..m], n) == Stitches(fr, n)
  {
    if n > 0 {
      StitchesTake(fr, m, n - 1);
    }
  }

  /** Only the ranges the first `n` scans read matter. */
  lemma {:induction false} ScansTake(ws: seq<seq<byte>>, m: nat, n: nat)
    requires n <= m <= |ws|
    ensures Scans(ws[..m], n) == Scans(ws, n)
  {
    if n > 0 {
      ScansTake(ws, m, n - 1);
    }
  }

  /** Everything a chunk does, in the order the model performs it: the
      windows' scans, then the stitch loop. */
  function ChunkActions(ws: seq<seq<byte>>): seq<Action>
  {
    ScanActions(ws) + StitchActions(FragmentsOfAll(ws))
  }

  /** The windows `0 .. count - 1` of a chunk, as the scanner reads them. */
  function ChunkWindows(buf: seq<byte>, width: nat, length: nat, count: nat): (ws: seq<seq<byte>>)
    requires length <= |buf| && (count - 1) * width <= |buf|
    ensures |ws| == count
    decreases count
  {
    if count == 0 then []
    else
      MulMono(count - 2, count - 1, width);
      ChunkWindows(buf, width, length, count - 1) + [Window(buf, width, length, count - 1)]
  }

  lemma {:induction false} MulMono(a: int, b: int, w: nat)
    requires a <= b
    ensures a * w <= b * w
  {
  }

  lemma {:induction false} ChunkWindowsAt(buf: seq<byte>, width: nat, length: nat, count: nat, i: nat)
    requires length <= |buf| && (count - 1) * width <= |buf| && i < count
    ensures i * width <= |buf|
    ensures ChunkWindows(buf, width, length, count)[i] == Window(buf, width, length, i)
    decreases count
  {
    MulMono(i, count - 1, width);
    if i < count - 1 {
      MulMono(count - 2, count - 1, width);
      ChunkWindowsAt(buf, width, length, count - 1, i);
    }
  }

  /** Laid end to end, the windows are the buffer up to `count * width`,
      cut at `length`: they tile it without gap or overlap. */
  lemma {:induction false} WindowsTile(buf: seq<byte>, width: nat, length: nat, count: nat)
    requires length <= |buf| && (count - 1) * width <= |buf|
    ensures Concat(ChunkWindows(buf, width, length, count)) == buf[..Min(count * width, length)]
    decreases count
  {
    if count > 0 {
      var c := count - 1;
      MulMono(c - 1, c, width);
      var ws := ChunkWindows(buf, width, length, count);
      assert DropLast(ws) == ChunkWindows(buf, width, length, c);
      WindowsTile(buf, width, length, c);
      assert count * width == c * width + width;
      assert Concat(ws) == buf[..Min(c * width, length)] + Window(buf, width, length, c);
      if c * width <= length {
        assert buf[..Min(count * width, length)] == buf[..c * width] + buf[c * width..Min(count * width, length)];
      }
    }
  }

  /** The windows cover the filled part of the buffer exactly when it ends
      within `count * width`. */
  lemma {:induction false} WindowsCover(buf: seq<byte>, width: nat, length: nat, count: nat)
    requires length <= |buf| && (count - 1) * width <= |buf|
    ensures Concat(ChunkWindows(buf, width, length, count)) == buf[..length] <==> length <= count * width
  {
    WindowsTile(buf, width, length, count);
  }

  /** `threadChunkSize` is the capacity divided by the number of cores, so
      with 4 cores a 7-byte chunk has 1-byte windows: the five windows scan
      bytes 0 to 4, and bytes 5 and 6 are never read. */
  lemma SmallChunkLosesBytes(buf: seq<byte>)
    requires |buf| == 7
    ensures WindowWidth(7, 4) == 1
    ensures Concat(ChunkWindows(buf, 1, 7, 5)) == buf[..5]
  {
    WindowsTile(buf, 1, 7, 5);
  }

  /** The pieces of a concatenation of ranges that each hold a newline, other
      than its first and last piece: for each range, the line stitched from
      the previous range's suffix and its prefix (from the second range on),
      then its own interior lines. */
  function Body(ws: seq<seq<byte>>): seq<seq<byte>>
    requires |ws| >= 1
  {
    if |ws| == 1 then Middle(Lines(ws[0]))
    else
      var w := Last(ws);
      Body(DropLast(ws)) + [FragmentsOf(Last(DropLast(ws))).suffix + Lines(w)[0]] + Middle(Lines(w))
  }

  /** Every range holds a newline. */
  predicate AllHaveNewline(ws: seq<seq<byte>>)
  {
    forall i :: 0 <= i < |ws| ==> NEWLINE in ws[i]
  }

  /** When every range holds a newline, the pieces of their concatenation
      are the first range's prefix, the `Body`, and the last range's suffix:
      every line is accounted for once, in order. */
  lemma {:induction false} LinesOfConcat(ws: seq<seq<byte>>)
    requires |ws| >= 1 && AllHaveNewline(ws)
    ensures Lines(Concat(ws)) ==
              [Lines(ws[0])[0]] + Body(ws) + [FragmentsOf(Last(ws)).suffix]
    decreases |ws|
  {
    var w := Last(ws);
    var p := Lines(w);
    assert NEWLINE in ws[|ws| - 1];
    if |ws| == 1 {
      assert Concat(ws) == w by { assert DropLast(ws) == []; }
      assert p == [p[0]] + p[1..|p| - 1] + [p[|p| - 1]];
    } else {
      var init := DropLast(ws);
      AllHaveNewlineInit(ws);
      LinesOfConcat(init);
      LinesConcat(Concat(init), w);
      assert init[0] == ws[0];
      FuseBody(Lines(ws[0])[0], Body(init), FragmentsOf(Last(init)).suffix, p);
    }
  }

  lemma {:induction false} AllHaveNewlineInit(ws: seq<seq<byte>>)
    requires |ws| >= 1 && AllHaveNewline(ws)
    ensures AllHaveNewline(DropLast(ws))
  {
    var init := DropLast(ws);
    forall i | 0 <= i < |init| ensures NEWLINE in init[i] { assert init[i] == ws[i]; }
  }

  /** Fusing pieces that end in `s` with pieces `p` of a range holding a
      newline. */
  lemma {:induction false} FuseBody(a: seq<byte>, b: seq<seq<byte>>, s: seq<byte>, p: seq<seq<byte>>)
    requires |p| >= 2
    ensures Fuse([a] + b + [s], p) == [a] + (b + [s + p[0]] + Middle(p)) + [Last(p)]
  {
    var q := [a] + b + [s];
    assert DropLast(q) == [a] + b;
    assert p[1..] == Middle(p) + [Last(p)];
  }

  /** Every range holds a newline, so every fragment's prefix is present. */
  lemma {:induction false} AllPrefixes(ws: seq<seq<byte>>)
    requires AllHaveNewline(ws)
    ensures forall i :: 0 <= i < |ws| ==> FragmentsOfAll(ws)[i].prefix == Some(Lines(ws[i])[0])
  {
  }

  lemma {:induction false} FragmentsOfAllSnoc(ws: seq<seq<byte>>, w: seq<byte>)
    ensures FragmentsOfAll(ws + [w]) == FragmentsOfAll(ws) + [FragmentsOf(w)]
  {
  }

  /** The fold each line of the `Body` stands for. */
  function RecordsOf(lines: seq<seq<byte>>): seq<Action>
    requires forall i :: 0 <= i < |lines| ==> SEMICOLON in lines[i]
  {
    seq(|lines|, i requires 0 <= i < |lines| => RecordOf(lines[i]))
  }

  /** Every line has exactly one `;`. */
  predicate WellFormed(lines: seq<seq<byte>>)
  {
    forall i :: 0 <= i < |lines| ==> OneSemicolon(lines[i])
  }

  /** On well-formed lines, the scanner's actions for a range's interior
      lines are the records of those lines. */
  lemma {:induction false} WindowActionsWellFormed(w: seq<byte>)
    requires WellFormed(Middle(Lines(w)))
    ensures WindowActions(w) == RecordsOf(Middle(Lines(w)))
  {
    var p := Lines(w);
    var m := Middle(p);
    forall i | 0 <= i < |m|
      ensures WindowActions(w)[i] == RecordsOf(m)[i]
    {
      LineActionsAt(p, i);
      assert m[i] == p[i + 1];
      SplitsAgree(m[i], i == 0 && SEMICOLON in p[0]);
    }
  }

  lemma {:induction false} RecordsOfAppend(a: seq<seq<byte>>, b: seq<seq<byte>>)
    requires WellFormed(a) && WellFormed(b)
    ensures WellFormed(a + b)
    ensures RecordsOf(a + b) == RecordsOf(a) + RecordsOf(b)
  {
    assert forall i :: 0 <= i < |a + b| ==> (a + b)[i] == if i < |a| then a[i] else b[i - |a|];
  }

  /** The reconstruction theorem for one level of ranges: when every range
      holds a newline and every `Body` line is well formed, the actions of
      the scans and the stitch loop are the records of the `Body` lines, each
      exactly once. Only the order differs: stitched lines come last. */
  lemma {:induction false} ChunkActionsAreRecords(ws: seq<seq<byte>>)
    requires |ws| >= 1 && AllHaveNewline(ws) && WellFormed(Body(ws))
    ensures multiset(ChunkActions(ws)) == multiset(RecordsOf(Body(ws)))
    decreases |ws|
  {
    var w := Last(ws);
    assert NEWLINE in ws[|ws| - 1];
    if |ws| == 1 {
      OneRange(ws);
    } else {
      var init := DropLast(ws);
      AllHaveNewlineInit(ws);
      var stitched := FragmentsOf(Last(init)).suffix + Lines(w)[0];
      BodySnoc(ws);
      ChunkActionsAreRecords(init);
      WindowActionsWellFormed(w);
      SplitsAgree(stitched, false);
      ChunkActionsSnoc(ws);
    }
  }

  lemma {:induction false} OneRange(ws: seq<seq<byte>>)
    requires |ws| == 1 && WellFormed(Body(ws))
    ensures ChunkActions(ws) == RecordsOf(Body(ws))
  {
    var w := ws[0];
    assert ScanActions(ws) == Scans(ws, 0) + WindowActions(w);
    assert Scans(ws, 0) + WindowActions(w) == WindowActions(w);
    assert StitchActions(FragmentsOfAll(ws)) == [];
    WindowActionsWellFormed(w);
  }

  /** How the `Body` and its records grow by one range. */
  lemma {:induction false} BodySnoc(ws: seq<seq<byte>>)
    requires |ws| >= 2 && WellFormed(Body(ws))
    ensures var init, p := DropLast(ws), Lines(Last(ws));
            var stitched := FragmentsOf(Last(init)).suffix + p[0];
            && WellFormed(Body(init)) && OneSemicolon(stitched) && WellFormed(Middle(p))
            && RecordsOf(Body(ws)) == RecordsOf(Body(init)) + [RecordOf(stitched)] + RecordsOf(Middle(p))
  {
    var init, p := DropLast(ws), Lines(Last(ws));
    var stitched := FragmentsOf(Last(init)).suffix + p[0];
    assert Body(ws) == Body(init) + [stitched] + Middle(p);
    WellFormedSplit(Body(init), stitched, Middle(p));
  }

  /** All lines of a concatenation but the last are its first line and the
      `Body`, so they are well formed together, with records in that order. */
  lemma LinesBeforeLast(ws: seq<seq<byte>>)
    requires |ws| >= 1 && AllHaveNewline(ws) && WellFormed(DropLast(Lines(Concat(ws))))
    ensures Lines(Concat(ws))[0] == Lines(ws[0])[0]
    ensures OneSemicolon(Lines(ws[0])[0]) && WellFormed(Body(ws))
    ensures RecordsOf(DropLast(Lines(Concat(ws)))) == [RecordOf(Lines(ws[0])[0])] + RecordsOf(Body(ws))
  {
    LinesOfConcat(ws);
    var first, body := Lines(ws[0])[0], Body(ws);
    DropLastSnoc([first] + body, FragmentsOf(Last(ws)).suffix);
    WellFormedCons(first, body);
  }

  lemma WellFormedCons(x: seq<byte>, b: seq<seq<byte>>)
    requires WellFormed([x] + b)
    ensures OneSemicolon(x) && WellFormed(b)
    ensures RecordsOf([x] + b) == [RecordOf(x)] + RecordsOf(b)
  {
    assert ([x] + b)[0] == x;
    assert forall i :: 0 <= i < |b| ==> ([x] + b)[i + 1] == b[i];
  }

  /** Well-formed `Body` lines include the interior lines of every range. */
  lemma {:induction false} BodyPart(ws: seq<seq<byte>>, c: nat)
    requires c < |ws| && WellFormed(Body(ws))
    ensures WellFormed(Middle(Lines(ws[c])))
    decreases |ws|
  {
    if |ws| > 1 {
      BodyInit(ws);
      if c < |ws| - 1 {
        BodyPart(DropLast(ws), c);
        assert ws[c] == DropLast(ws)[c];
      }
    }
  }

  /** Well-formed `Body` lines include those of all ranges but the last and
      the last range's interior lines. */
  lemma BodyInit(ws: seq<seq<byte>>)
    requires |ws| >= 2 && WellFormed(Body(ws))
    ensures WellFormed(Body(DropLast(ws))) && WellFormed(Middle(Lines(Last(ws))))
  {
    var init, w := DropLast(ws), Last(ws);
    var stitched := FragmentsOf(Last(init)).suffix + Lines(w)[0];
    assert Body(ws) == Body(init) + [stitched] + Middle(Lines(w));
    WellFormedSplit(Body(init), stitched, Middle(Lines(w)));
  }

  lemma {:induction false} WellFormedSplit(a: seq<seq<byte>>, x: seq<byte>, b: seq<seq<byte>>)
    requires WellFormed(a + [x] + b)
    ensures WellFormed(a) && OneSemicolon(x) && WellFormed(b)
    ensures RecordsOf(a + [x] + b) == RecordsOf(a) + [RecordOf(x)] + RecordsOf(b)
  {
    var s := a + [x] + b;
    forall i | 0 <= i < |a| ensures OneSemicolon(a[i]) { assert s[i] == a[i]; }
    assert s[|a|] == x;
    forall i | 0 <= i < |b| ensures OneSemicolon(b[i]) { assert s[|a| + 1 + i] == b[i]; }
    RecordsOfAppend(a, [x]);
    RecordsOfAppend(a + [x], b);
  }

  /** How a chunk's actions grow by one range holding a newline. */
  lemma {:induction false} ChunkActionsSnoc(ws: seq<seq<byte>>)
    requires |ws| >= 2 && NEWLINE in Last(ws)
    ensures var init, w := DropLast(ws), Last(ws);
            multiset(ChunkActions(ws)) == multiset(ChunkActions(init)) + multiset(WindowActions(w))
              + multiset{SplitRecord(FragmentsOf(Last(init)).suffix + Lines(w)[0])}
  {
    var init, w := DropLast(ws), Last(ws);
    assert ws == init + [w];
    FragmentsOfAllSnoc(init, w);
    var fr := FragmentsOfAll(ws);
    assert DropLast(fr) == FragmentsOfAll(init);
    assert fr[|fr| - 2] == FragmentsOf(Last(init));
    assert fr[|fr| - 1] == FragmentsOf(w);
    ScansTake(ws, |init|, |init|);
    assert ws[..|init|] == init;
    assert ScanActions(ws) == ScanActions(init) + WindowActions(w);
    StitchesTake(fr, |init|, |init| - 1);
    assert fr[..|init|] == FragmentsOfAll(init);
    assert StitchActions(fr) == StitchActions(FragmentsOfAll(init)) + Stitch(fr[|fr| - 2], fr[|fr| - 1]);
  }

  /** A range without a newline has no prefix, so the stitch with the range
      before it is skipped and that range's suffix is never folded. */
  lemma {:induction false} NoNewlineSkipsStitch(left: seq<byte>, right: seq<byte>)
    requires NEWLINE !in right
    ensures Stitch(FragmentsOf(left), FragmentsOf(right)) == []
  {
    FragmentsAreSlices(right);
  }

  /** A concrete window whose prefix line `a;1.0` holds a `;` and whose next
      line `ab` does not: the scan throws where a later `;`-less line would
      only be reported. */
  lemma StaleSemicolonAborts()
    ensures var w: seq<byte> := [97, SEMICOLON, 49, 46, 48, NEWLINE, 97, 98, NEWLINE];
            && WindowActions(w) == [Abort]
            && !Run(WindowActions(w)).ok
    ensures var w: seq<byte> := [97, 98, NEWLINE, 97, 98, NEWLINE];
            WindowActions(w) == [Warn([97, 98])]
  {
    var w: seq<byte> := [97, SEMICOLON, 49, 46, 48, NEWLINE, 97, 98, NEWLINE];
    assert w == [97, SEMICOLON, 49, 46, 48] + [NEWLINE] + [97, 98] + [NEWLINE];
    ghost var l0: seq<byte> := [97, SEMICOLON, 49, 46, 48];
    LinesJoin([l0, [97, 98], []]);
    assert Join([l0]) == l0;
    assert DropLast([l0, [97, 98]]) == [l0];
    assert DropLast([l0, [97, 98], []]) == [l0, [97, 98]];
    assert Join([l0, [97, 98], []]) == w;
    assert SEMICOLON in l0 by { assert l0[1] == SEMICOLON; }
    var v: seq<byte> := [97, 98, NEWLINE, 97, 98, NEWLINE];
    ghost var ab: seq<byte> := [97, 98];
    LinesJoin([ab, ab, []]);
    assert Join([ab]) == ab;
    assert DropLast([ab, ab]) == [ab];
    assert DropLast([ab, ab, []]) == [ab, ab];
    assert Join([ab, ab, []]) == v;
  }
}
