/**
 * Splitting a byte range into newline-separated pieces. This is the reference
 * against which the window scanner and the stitcher are proved: a range with
 * k newlines has k + 1 pieces, the first of which is the range's prefix
 * fragment and the last its suffix fragment.
 */
module LineSplit {
  import opened Basics

  /** The pieces of `w + [b]`, given the pieces `p` of `w`. */
  function Extend(p: seq<seq<byte>>, b: byte): (r: seq<seq<byte>>)
    requires |p| >= 1
  {
    if b == NEWLINE then p + [[]] else DropLast(p) + [Last(p) + [b]]
  }

  /** The bytes of `w` between newlines, in order, newlines removed. */
  function Lines(w: seq<byte>): (r: seq<seq<byte>>)
    ensures |r| >= 1
    ensures |r| == 1 <==> NEWLINE !in w
    ensures forall i :: 0 <= i < |r| ==> NEWLINE !in r[i]
    decreases |w|
  {
    if w == [] then [[]]
    else
      assert w == DropLast(w) + [Last(w)];
      Extend(Lines(DropLast(w)), Last(w))
  }

  /** The inverse of `Lines`: pieces joined with a newline between neighbours. */
  function Join(p: seq<seq<byte>>): seq<byte>
  {
    if p == [] then []
    else if |p| == 1 then p[0]
    else Join(DropLast(p)) + [NEWLINE] + Last(p)
  }

  /** The pieces of two ranges laid end to end: the last piece of the first
      and the first piece of the second become one. */
  function Fuse(p: seq<seq<byte>>, q: seq<seq<byte>>): seq<seq<byte>>
    requires |p| >= 1 && |q| >= 1
  {
    DropLast(p) + [Last(p) + q[0]] + q[1..]
  }

  /** The interior pieces: those with a newline on both sides. */
  function Middle(p: seq<seq<byte>>): seq<seq<byte>>
  {
    if |p| <= 2 then [] else p[1..|p| - 1]
  }

  lemma LinesSnoc(w: seq<byte>, b: byte)
    ensures Lines(w + [b]) == Extend(Lines(w), b)
  {
    assert DropLast(w + [b]) == w;
  }

  lemma {:induction false} JoinLines(w: seq<byte>)
    ensures Join(Lines(w)) == w
    decreases |w|
  {
    if w != [] {
      var v, b := DropLast(w), Last(w);
      assert w == v + [b];
      var p := Lines(v);
      JoinLines(v);
      LinesSnoc(v, b);
      if b == NEWLINE {
        assert DropLast(p + [[]]) == p;
      } else if |p| >= 2 {
        var q := DropLast(p) + [Last(p) + [b]];
        assert DropLast(q) == DropLast(p);
        assert Join(q) == Join(DropLast(p)) + [NEWLINE] + (Last(p) + [b]);
        assert Join(p) == Join(DropLast(p)) + [NEWLINE] + Last(p);
      }
    }
  }

  lemma {:induction false} LinesWithoutNewline(w: seq<byte>)
    requires NEWLINE !in w
    ensures Lines(w) == [w]
    decreases |w|
  {
    if w != [] {
      assert w == DropLast(w) + [Last(w)];
      LinesWithoutNewline(DropLast(w));
    }
  }

  lemma ExtendFuse(p: seq<seq<byte>>, q: seq<seq<byte>>, b: byte)
    requires |p| >= 1 && |q| >= 1
    ensures Extend(Fuse(p, q), b) == Fuse(p, Extend(q, b))
  {
    if b != NEWLINE {
      if |q| == 1 {
        assert Fuse(p, q) == DropLast(p) + [Last(p) + q[0]];
        assert Extend(q, b) == [q[0] + [b]];
        assert Last(p) + q[0] + [b] == Last(p) + (q[0] + [b]);
      } else {
        assert Fuse(p, q) == DropLast(p) + [Last(p) + q[0]] + DropLast(q[1..]) + [Last(q)];
        assert DropLast(Fuse(p, q)) == DropLast(p) + [Last(p) + q[0]] + DropLast(q[1..]);
        assert Extend(q, b)[1..] == DropLast(q[1..]) + [Last(q) + [b]];
      }
    } else {
      assert (q + [[]])[1..] == q[1..] + [[]];
    }
  }

  /** Splitting a concatenation fuses the boundary pieces and keeps all others. */
  lemma {:induction false} LinesConcat(a: seq<byte>, b: seq<byte>)
    ensures Lines(a + b) == Fuse(Lines(a), Lines(b))
    decreases |b|
  {
    if b == [] {
      assert a + b == a;
      var p := Lines(a);
      assert Last(p) + [] == Last(p);
      var none: seq<seq<byte>> := [[]];
      assert none[1..] == [];
      assert Fuse(p, [[]]) == DropLast(p) + [Last(p)];
      assert DropLast(p) + [Last(p)] == p;
    } else {
      var v, x := DropLast(b), Last(b);
      assert b == v + [x];
      assert a + b == (a + v) + [x];
      LinesSnoc(a + v, x);
      LinesSnoc(v, x);
      LinesConcat(a, v);
      ExtendFuse(Lines(a), Lines(v), x);
    }
  }

  lemma FuseEnds(p: seq<seq<byte>>, q: seq<seq<byte>>)
    requires |p| >= 1 && |q| >= 1
    ensures Fuse(p, q)[0] == if |p| == 1 then p[0] + q[0] else p[0]
    ensures Last(Fuse(p, q)) == if |q| == 1 then Last(p) + q[0] else Last(q)
    ensures |Fuse(p, q)| == |p| + |q| - 1
  {
  }

  /** The first piece of a range is the part before its first newline. */
  lemma FirstPiece(w: seq<byte>, k: nat)
    requires k < |w| && w[k] == NEWLINE && NEWLINE !in w[..k]
    ensures |Lines(w)| >= 2 && Lines(w)[0] == w[..k]
  {
    var head, rest := w[..k], w[k..];
    assert w == head + rest;
    LinesWithoutNewline(head);
    LinesConcat(head, rest);
    assert |Lines(rest)| >= 2;
    FuseEnds(Lines(head), Lines(rest));
    FirstPieceEmpty(rest);
  }

  lemma FirstPieceEmpty(w: seq<byte>)
    requires |w| >= 1 && w[0] == NEWLINE
    ensures Lines(w)[0] == []
  {
    var nl: seq<byte> := [NEWLINE];
    assert w == nl + w[1..];
    LinesConcat(nl, w[1..]);
    assert Lines(nl) == [[], []] by { LinesSnoc([], NEWLINE); assert [] + [NEWLINE] == nl; }
    FuseEnds(Lines(nl), Lines(w[1..]));
  }

  /** The last piece of a range is the part after its last newline. */
  lemma LastPiece(w: seq<byte>, m: nat)
    requires m < |w| && w[m] == NEWLINE && NEWLINE !in w[m + 1..]
    ensures Last(Lines(w)) == w[m + 1..]
  {
    var init, tail := w[..m + 1], w[m + 1..];
    assert w == init + tail;
    assert init == w[..m] + [NEWLINE];
    LinesSnoc(w[..m], NEWLINE);
    LinesWithoutNewline(tail);
    LinesConcat(init, tail);
    FuseEnds(Lines(init), Lines(tail));
  }

  /** A newline followed by a newline-free piece `l` splits into an empty piece and `l`. */
  lemma LinesAfterNewline(l: seq<byte>)
    requires NEWLINE !in l
    ensures Lines([NEWLINE] + l) == [[], l]
  {
    LinesWithoutNewline(l);
    LinesConcat([NEWLINE], l);
    assert Lines([NEWLINE]) == [[], []] by { LinesSnoc([], NEWLINE); assert [] + [NEWLINE] == [NEWLINE]; }
    var two: seq<seq<byte>> := [[], []];
    var one: seq<seq<byte>> := [l];
    assert DropLast(two) == [[]];
    assert Last(two) + one[0] == l;
    assert one[1..] == [];
  }

  lemma FuseAfterNewline(q: seq<seq<byte>>, l: seq<byte>)
    requires |q| >= 1
    ensures Fuse(q, [[], l]) == q + [l]
  {
    var tail: seq<seq<byte>> := [[], l];
    assert tail[1..] == [l];
    assert Last(q) + tail[0] == Last(q);
    assert DropLast(q) + [Last(q)] == q;
  }

  /** `Lines` undoes `Join` on pieces that hold no newline. */
  lemma {:induction false} LinesJoin(p: seq<seq<byte>>)
    requires |p| >= 1
    requires forall i :: 0 <= i < |p| ==> NEWLINE !in p[i]
    ensures Lines(Join(p)) == p
    decreases |p|
  {
    if |p| == 1 {
      LinesWithoutNewline(p[0]);
    } else {
      var q, l := DropLast(p), Last(p);
      assert q + [l] == p;
      LinesJoin(q);
      LinesAfterNewline(l);
      LinesConcat(Join(q), [NEWLINE] + l);
      assert Join(p) == Join(q) + ([NEWLINE] + l);
      FuseAfterNewline(q, l);
    }
  }
}
