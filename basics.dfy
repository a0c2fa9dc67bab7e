/** Bytes, optional values and small sequence helpers shared by every module. */
module Basics {

  /** One element of a Java `byte[]`, read as an unsigned octet. */
  newtype byte = b: int | 0 <= b < 256

  const NEWLINE: byte := 10
  const SEMICOLON: byte := 59

  /** Stands for a Java reference that may be null. */
  datatype Option<T> = None | Some(value: T)

  function Last<T>(s: seq<T>): T
    requires |s| > 0
  {
    s[|s| - 1]
  }

  function DropLast<T>(s: seq<T>): seq<T>
    requires |s| > 0
  {
    s[..|s| - 1]
  }

  lemma DropLastSnoc<T>(s: seq<T>, x: T)
    ensures DropLast(s + [x]) == s
  {
  }

  /** The sequences of `ss`, laid end to end. */
  function Concat<T>(ss: seq<seq<T>>): seq<T>
  {
    if ss == [] then [] else Concat(DropLast(ss)) + Last(ss)
  }

  lemma {:induction false} ConcatAppend<T>(a: seq<seq<T>>, b: seq<seq<T>>)
    ensures Concat(a + b) == Concat(a) + Concat(b)
    decreases |b|
  {
    if b == [] {
      assert a + b == a;
    } else {
      assert DropLast(a + b) == a + DropLast(b);
      ConcatAppend(a, DropLast(b));
    }
  }

  /** Position of the first occurrence of `x` in `s`. */
  function FirstIndex(s: seq<byte>, x: byte): (k: nat)
    requires x in s
    ensures k < |s| && s[k] == x && x !in s[..k]
  {
    if s[0] == x then 0
    else
      var k := FirstIndex(s[1..], x);
      assert s[..k + 1] == [s[0]] + s[1..][..k];
      k + 1
  }

  /** Position of the last occurrence of `x` in `s`. */
  function LastIndex(s: seq<byte>, x: byte): (k: nat)
    requires x in s
    ensures k < |s| && s[k] == x && x !in s[k + 1..]
  {
    if Last(s) == x then |s| - 1
    else
      assert s == DropLast(s) + [Last(s)];
      var k := LastIndex(DropLast(s), x);
      assert s[k + 1..] == DropLast(s)[k + 1..] + [Last(s)];
      k
  }

  /** Appending one element moves the last occurrence only when it is that element. */
  lemma LastIndexSnoc(s: seq<byte>, b: byte, x: byte)
    requires x in s + [b]
    ensures LastIndex(s + [b], x) == if b == x then |s| else LastIndex(s, x)
  {
    assert DropLast(s + [b]) == s;
  }

  function Max(a: int, b: int): int { if a < b then b else a }
  function Min(a: int, b: int): int { if a < b then a else b }
}
