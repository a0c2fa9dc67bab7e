/**
 * The report `main` prints once every line is folded: the entries of
 * `measurements` sorted by name, each written as `name=min/mean/max` with one
 * decimal, joined as a list's `toString` joins them (`[a, b, c]`), and then
 * the first and the last character of that text overwritten with `{` and `}`.
 */
module Render {
  import opened Basics
  import opened Values
  import opened Aggregation

  const EQUALS: byte := 61
  const SLASH: byte := 47
  const COMMA: byte := 44
  const SPACE: byte := 32
  const LBRACKET: byte := 91
  const RBRACKET: byte := 93
  const LBRACE: byte := 123
  const RBRACE: byte := 125
  /** `Infinity` and `NaN`, as `%.1f` writes an infinite and an undefined double. */
  const INFINITY: seq<byte> := [73, 110, 102, 105, 110, 105, 116, 121]
  const NAN: seq<byte> := [78, 97, 78]

  // ----------------------------------------------------------------------
  // The order of names

  /** `a` sorts no later than `b`: the first differing byte decides, and a
      proper prefix sorts first. */
  predicate Below(a: seq<byte>, b: seq<byte>)
    decreases |a|
  {
    if a == [] then true
    else if b == [] then false
    else if a[0] != b[0] then a[0] < b[0]
    else Below(a[1..], b[1..])
  }

  lemma {:induction false} BelowReflexive(a: seq<byte>)
    ensures Below(a, a)
    decreases |a|
  {
    if a != [] {
      BelowReflexive(a[1..]);
    }
  }

  lemma {:induction false} BelowTotal(a: seq<byte>, b: seq<byte>)
    ensures Below(a, b) || Below(b, a)
    decreases |a|
  {
    if a != [] && b != [] && a[0] == b[0] {
      BelowTotal(a[1..], b[1..]);
    }
  }

  lemma {:induction false} BelowAntisymmetric(a: seq<byte>, b: seq<byte>)
    requires Below(a, b) && Below(b, a)
    ensures a == b
    decreases |a|
  {
    if a != [] {
      BelowAntisymmetric(a[1..], b[1..]);
      assert a == [a[0]] + a[1..] && b == [b[0]] + b[1..];
    }
  }

  lemma {:induction false} BelowTransitive(a: seq<byte>, b: seq<byte>, c: seq<byte>)
    requires Below(a, b) && Below(b, c)
    ensures Below(a, c)
    decreases |a|
  {
    if a != [] && a[0] == b[0] && b[0] == c[0] {
      BelowTransitive(a[1..], b[1..], c[1..]);
    }
  }

  // ----------------------------------------------------------------------
  // Sorting the entry set

  /** One element of `measurements.entrySet()`. */
  datatype Entry = Entry(name: seq<byte>, stats: Stats)

  /** The names of `es`, in order. */
  function KeyList(es: seq<Entry>): (ks: seq<seq<byte>>)
  {
    seq(|es|, i requires 0 <= i < |es| => es[i].name)
  }

  predicate Sorted(es: seq<Entry>)
  {
    forall i, j :: 0 <= i < j < |es| ==> Below(es[i].name, es[j].name)
  }

  /** No name occurs twice, as in a map's entry set. */
  predicate Distinct(es: seq<Entry>)
  {
    forall i, j :: 0 <= i < j < |es| ==> es[i].name != es[j].name
  }

  /** Strictly ascending names. */
  predicate Ascending(ks: seq<seq<byte>>)
  {
    forall i, j :: 0 <= i < j < |ks| ==> Below(ks[i], ks[j]) && ks[i] != ks[j]
  }

  /** `e` placed before the first element whose name it sorts no later than. */
  function Insert(e: Entry, es: seq<Entry>): seq<Entry>
  {
    if es == [] then [e]
    else if Below(e.name, es[0].name) then [e] + es
    else [es[0]] + Insert(e, es[1..])
  }

  /** `sorted(Comparator.comparing(e -> e.getKey()))`. */
  function SortByName(es: seq<Entry>): seq<Entry>
  {
    if es == [] then [] else Insert(es[0], SortByName(es[1..]))
  }

  /** Inserting adds `e` and keeps every other element. */
  lemma {:induction false} InsertPermutes(e: Entry, es: seq<Entry>)
    ensures multiset(Insert(e, es)) == multiset(es) + multiset{e}
    ensures forall x :: x in Insert(e, es) <==> x == e || x in es
    decreases |es|
  {
    if es != [] && !Below(e.name, es[0].name) {
      InsertPermutes(e, es[1..]);
      assert es == [es[0]] + es[1..];
    }
  }

  lemma {:induction false} InsertSorted(e: Entry, es: seq<Entry>)
    requires Sorted(es)
    ensures Sorted(Insert(e, es))
    decreases |es|
  {
    if es != [] {
      var r := Insert(e, es);
      if Below(e.name, es[0].name) {
        forall i, j | 0 <= i < j < |r|
          ensures Below(r[i].name, r[j].name)
        {
          if i == 0 && j > 1 {
            BelowTransitive(e.name, es[0].name, es[j - 1].name);
          }
        }
      } else {
        BelowTotal(e.name, es[0].name);
        var rest := Insert(e, es[1..]);
        InsertSorted(e, es[1..]);
        InsertPermutes(e, es[1..]);
        forall j | 0 < j < |r|
          ensures Below(es[0].name, r[j].name)
        {
          assert r[j] in rest;
        }
      }
    }
  }

  /** The sort orders the entries by name and keeps every one of them. */
  lemma {:induction false} SortSorted(es: seq<Entry>)
    ensures Sorted(SortByName(es))
    ensures multiset(SortByName(es)) == multiset(es)
    decreases |es|
  {
    if es != [] {
      var rest := SortByName(es[1..]);
      SortSorted(es[1..]);
      InsertSorted(es[0], rest);
      InsertPermutes(es[0], rest);
      assert SortByName(es) == Insert(es[0], rest);
      assert es == [es[0]] + es[1..];
      assert multiset(es) == multiset{es[0]} + multiset(es[1..]);
    }
  }

  lemma {:induction false} InsertDistinct(e: Entry, es: seq<Entry>)
    requires Distinct(es)
    requires forall i :: 0 <= i < |es| ==> es[i].name != e.name
    ensures Distinct(Insert(e, es))
    decreases |es|
  {
    if es != [] && !Below(e.name, es[0].name) {
      var rest := Insert(e, es[1..]);
      InsertDistinct(e, es[1..]);
      InsertPermutes(e, es[1..]);
      forall j | 0 <= j < |rest|
        ensures rest[j].name != es[0].name
      {
        assert rest[j] in rest;
        if rest[j] != e {
          var k :| 0 <= k < |es[1..]| && es[1..][k] == rest[j];
          assert es[k + 1] == rest[j];
        }
      }
      var r := Insert(e, es);
      forall i, j | 0 <= i < j < |r|
        ensures r[i].name != r[j].name
      {
        assert r[j] == rest[j - 1];
        if i > 0 {
          assert r[i] == rest[i - 1];
        }
      }
    }
  }

  /** Sorting entries with distinct names gives strictly ascending names. */
  lemma {:induction false} SortAscending(es: seq<Entry>)
    requires Distinct(es)
    ensures Ascending(KeyList(SortByName(es)))
    decreases |es|
  {
    SortDistinct(es);
    SortSorted(es);
  }

  lemma {:induction false} SortDistinct(es: seq<Entry>)
    requires Distinct(es)
    ensures Distinct(SortByName(es))
    decreases |es|
  {
    if es != [] {
      var s := SortByName(es[1..]);
      SortDistinct(es[1..]);
      SortSorted(es[1..]);
      SameElements(s, es[1..]);
      forall i | 0 <= i < |s|
        ensures s[i].name != es[0].name
      {
        assert s[i] in es[1..];
      }
      InsertDistinct(es[0], s);
    }
  }

  /** Two strictly ascending lists of the same names are the same list: the
      sorted output does not depend on the order the map enumerates. */
  lemma {:induction false} AscendingUnique(a: seq<seq<byte>>, b: seq<seq<byte>>)
    requires Ascending(a) && Ascending(b)
    requires forall k :: k in a <==> k in b
    ensures a == b
    decreases |a|
  {
    assert b != [] ==> b[0] in b;
    if a != [] {
      assert a[0] in a;
      assert b != [];
      assert b[0] in b;
      if a[0] != b[0] {
        assert Below(b[0], a[0]);
        assert Below(a[0], b[0]);
        BelowAntisymmetric(a[0], b[0]);
      }
      forall k
        ensures k in a[1..] <==> k in b[1..]
      {
        if k in a[1..] {
          assert k in a && k != a[0];
        }
        if k in b[1..] {
          assert k in b && k != b[0];
        }
      }
      AscendingUnique(a[1..], b[1..]);
      assert a == [a[0]] + a[1..] && b == [b[0]] + b[1..];
    }
  }

  /** A finite non-empty set of names has a least one. */
  lemma LeastExists(ks: set<seq<byte>>)
    requires ks != {}
    ensures exists k :: k in ks && forall j :: j in ks ==> Below(k, j)
  {
    var k := LeastOf(ks);
    assert k in ks;
  }

  lemma {:induction false} LeastOf(ks: set<seq<byte>>) returns (k: seq<byte>)
    requires ks != {}
    ensures k in ks && forall j :: j in ks ==> Below(k, j)
    decreases |ks|
  {
    var x :| x in ks;
    BelowReflexive(x);
    if ks == {x} {
      k := x;
    } else {
      var y := LeastOf(ks - {x});
      BelowTotal(x, y);
      if Below(x, y) {
        forall j | j in ks
          ensures Below(x, j)
        {
          if j != x {
            BelowTransitive(x, y, j);
          }
        }
        k := x;
      } else {
        k := y;
      }
    }
  }

  /** The names of `ks` in ascending order. */
  ghost function InOrder(ks: set<seq<byte>>): (r: seq<seq<byte>>)
    ensures Ascending(r)
    ensures forall k :: k in r <==> k in ks
    decreases |ks|
  {
    if ks == {} then []
    else
      LeastExists(ks);
      var k :| k in ks && forall j :: j in ks ==> Below(k, j);
      var rest := InOrder(ks - {k});
      assert forall j :: j in rest ==> Below(k, j) && j != k;
      [k] + rest
  }

  /** The entries of `m` in ascending name order. */
  ghost function Ordered(m: map<seq<byte>, Stats>): seq<Entry>
  {
    var ks := InOrder(m.Keys);
    seq(|ks|, i requires 0 <= i < |ks| => Entry(ks[i], m[ks[i]]))
  }

  /** `es` lists every entry of `m` once, in some order. */
  ghost predicate Enumerates(es: seq<Entry>, m: map<seq<byte>, Stats>)
  {
    && Distinct(es)
    && (forall i :: 0 <= i < |es| ==> es[i].name in m && es[i].stats == m[es[i].name])
    && (forall k :: k in m <==> k in KeyList(es))
  }

  /** Sorting any enumeration of `m` gives the entries of `m`, each once, in
      ascending name order. */
  lemma SortedIsOrdered(m: map<seq<byte>, Stats>, es: seq<Entry>)
    requires Enumerates(es, m)
    ensures SortByName(es) == Ordered(m)
  {
    var s := SortByName(es);
    SortSorted(es);
    SortAscending(es);
    SameElements(s, es);
    PermutedKeys(m, es, s);
    AscendingUnique(KeyList(s), InOrder(m.Keys));
    var o := Ordered(m);
    forall i | 0 <= i < |s|
      ensures s[i] == o[i]
    {
      assert KeyList(s)[i] == s[i].name;
      assert s[i] in es;
    }
  }

  lemma SameElements(a: seq<Entry>, b: seq<Entry>)
    requires multiset(a) == multiset(b)
    ensures forall x :: x in a <==> x in b
  {
    forall x
      ensures x in a <==> x in b
    {
      assert x in a <==> x in multiset(a);
      assert x in b <==> x in multiset(b);
    }
  }

  /** A list with the elements of an enumeration of `m` has the keys of `m`. */
  lemma PermutedKeys(m: map<seq<byte>, Stats>, es: seq<Entry>, s: seq<Entry>)
    requires Enumerates(es, m)
    requires forall x :: x in s <==> x in es
    ensures forall k :: k in KeyList(s) <==> k in m
  {
    forall k
      ensures k in KeyList(s) <==> k in m
    {
      if k in KeyList(s) {
        var i :| 0 <= i < |s| && KeyList(s)[i] == k;
        assert s[i] in es;
      }
      if k in m {
        var j :| 0 <= j < |es| && KeyList(es)[j] == k;
        assert es[j] in s;
        var i :| 0 <= i < |s| && s[i] == es[j];
        assert KeyList(s)[i] == k;
      }
    }
  }

  /** The entries of the report: each entry of `m` once, by ascending name. */
  lemma OrderedEntries(m: map<seq<byte>, Stats>)
    ensures Enumerates(Ordered(m), m)
    ensures Ascending(KeyList(Ordered(m)))
  {
    var ks, o := InOrder(m.Keys), Ordered(m);
    assert KeyList(o) == ks;
  }

  /** The entry set of `m` in the map's own iteration order, which the model
      leaves unspecified. */
  method EntrySet(m: map<seq<byte>, Stats>) returns (es: seq<Entry>)
    ensures Enumerates(es, m)
  {
    es := [];
    var rest := m.Keys;
    while rest != {}
      invariant rest <= m.Keys
      invariant Distinct(es)
      invariant forall i :: 0 <= i < |es| ==> es[i].name in m && es[i].name !in rest && es[i].stats == m[es[i].name]
      invariant forall k :: k in m <==> k in rest || k in KeyList(es)
      decreases |rest|
    {
      var k :| k in rest;
      assert KeyList(es + [Entry(k, m[k])]) == KeyList(es) + [k];
      es := es + [Entry(k, m[k])];
      rest := rest - {k};
    }
  }

  // ----------------------------------------------------------------------
  // Formatting one entry

  /** `%.1f` of a minimum or maximum. */
  function ExtText(x: Ext): seq<byte>
  {
    match x
    case Fin(t) => FormatTenths(t)
    case PosInf => INFINITY
    case NegInf => [MINUS] + INFINITY
  }

  /** `sum / count`, in tenths, rounded half away from zero as `%.1f` rounds. */
  function MeanTenths(sum: int, count: nat): int
    requires count >= 1
  {
    if sum >= 0 then (2 * sum + count) / (2 * count)
    else -((2 * -sum + count) / (2 * count))
  }

  /** The mean is within half a tenth of the exact quotient, and a tie goes
      away from zero. */
  lemma MeanRounds(sum: int, count: nat)
    requires count >= 1
    ensures var r := MeanTenths(sum, count);
            && -(count as int) <= 2 * (r * count - sum) <= count
            && (sum >= 0 ==> -(count as int) < 2 * (r * count - sum))
            && (sum < 0 ==> 2 * (r * count - sum) < count)
  {
    var a := if sum >= 0 then sum else -sum;
    var q, rem := (2 * a + count) / (2 * count), (2 * a + count) % (2 * count);
    assert 2 * a + count == 2 * count * q + rem && 0 <= rem < 2 * count;
    assert 2 * (q * count - a) == count - rem;
    if sum < 0 {
      assert MeanTenths(sum, count) == -q;
      assert (-q) * count - sum == -(q * count - a);
    }
  }

  lemma {:induction false} SumAtLeast(vs: seq<int>, lo: int)
    requires forall i :: 0 <= i < |vs| ==> lo <= vs[i]
    ensures |vs| * lo <= Sum(vs)
    decreases |vs|
  {
    if vs != [] {
      var init := DropLast(vs);
      SumAtLeast(init, lo);
      assert |vs| * lo == |init| * lo + lo;
    }
  }

  lemma {:induction false} SumAtMost(vs: seq<int>, hi: int)
    requires forall i :: 0 <= i < |vs| ==> vs[i] <= hi
    ensures Sum(vs) <= |vs| * hi
    decreases |vs|
  {
    if vs != [] {
      var init := DropLast(vs);
      SumAtMost(init, hi);
      assert |vs| * hi == |init| * hi + hi;
    }
  }

  lemma MulMonotone(n: nat, x: int, y: int)
    ensures x <= y ==> n * x <= n * y
  {
    assert n * y - n * x == n * (y - x);
  }

  /** The printed mean of an entry lies between its printed minimum and
      maximum. */
  lemma MeanBetween(st: Stats, vs: seq<int>)
    requires Summarises(st, vs)
    ensures Minimum(vs) <= MeanTenths(st.sum, st.count) <= Maximum(vs)
  {
    var c, r := st.count, MeanTenths(st.sum, st.count);
    MeanRounds(st.sum, c);
    ExtremesBound(vs);
    SumAtLeast(vs, Minimum(vs));
    SumAtMost(vs, Maximum(vs));
    RoundedBetween(c, r, st.sum, Minimum(vs), Maximum(vs));
  }

  /** A rounded quotient of a sum that lies between `c * lo` and `c * hi`
      lies between `lo` and `hi`. */
  lemma RoundedBetween(c: int, r: int, sum: int, lo: int, hi: int)
    requires c >= 1
    requires c * lo <= sum <= c * hi
    requires -c <= 2 * (r * c - sum) <= c
    ensures lo <= r <= hi
  {
    assert r * c == c * r;
    assert c * (lo - 1) == c * lo - c && c * (hi + 1) == c * hi + c;
    MulMonotone(c, r, lo - 1);
    MulMonotone(c, hi + 1, r);
  }

  /** `%.1f` of `sum / count`; `0.0 / 0` is NaN. */
  function MeanText(st: Stats): seq<byte>
  {
    if st.count == 0 then NAN else FormatTenths(MeanTenths(st.sum, st.count))
  }

  /** `String.format("%s=%.1f/%.1f/%.1f", name, min, mean, max)`. */
  function EntryLine(e: Entry): seq<byte>
  {
    e.name + [EQUALS] + ExtText(e.stats.min) + [SLASH] + MeanText(e.stats) + [SLASH] + ExtText(e.stats.max)
  }

  /** The three numbers of an entry's line read back as the entry's minimum,
      mean and maximum. */
  lemma EntryLineParses(e: Entry, vs: seq<int>)
    requires Summarises(e.stats, vs)
    ensures var mean := MeanTenths(e.stats.sum, e.stats.count);
            && EntryLine(e) == e.name + [EQUALS] + FormatTenths(Minimum(vs)) + [SLASH]
                               + FormatTenths(mean) + [SLASH] + FormatTenths(Maximum(vs))
            && ParseTenths(FormatTenths(Minimum(vs))) == Some(Minimum(vs))
            && ParseTenths(FormatTenths(mean)) == Some(mean)
            && ParseTenths(FormatTenths(Maximum(vs))) == Some(Maximum(vs))
            && Minimum(vs) <= mean <= Maximum(vs)
  {
    FormatParses(Minimum(vs));
    FormatParses(MeanTenths(e.stats.sum, e.stats.count));
    FormatParses(Maximum(vs));
    MeanBetween(e.stats, vs);
  }

  // ----------------------------------------------------------------------
  // The list text and the braces

  function EntryLines(es: seq<Entry>): seq<seq<byte>>
  {
    seq(|es|, i requires 0 <= i < |es| => EntryLine(es[i]))
  }

  /** The elements with `, ` between neighbours. */
  function CommaJoin(ls: seq<seq<byte>>): seq<byte>
  {
    if ls == [] then []
    else if |ls| == 1 then ls[0]
    else CommaJoin(DropLast(ls)) + [COMMA, SPACE] + Last(ls)
  }

  /** Joining two non-empty lists is joining each and putting `, ` between. */
  lemma {:induction false} JoinConcat(a: seq<seq<byte>>, b: seq<seq<byte>>)
    requires a != [] && b != []
    ensures CommaJoin(a + b) == CommaJoin(a) + [COMMA, SPACE] + CommaJoin(b)
    decreases |b|
  {
    assert DropLast(a + b) == a + DropLast(b) && Last(a + b) == Last(b);
    if |b| > 1 {
      JoinConcat(a, DropLast(b));
    } else {
      assert DropLast(b) == [];
      assert a + DropLast(b) == a;
    }
  }

  /** `results.toString()`: the list in brackets. */
  function ListText(ls: seq<seq<byte>>): seq<byte>
  {
    [LBRACKET] + CommaJoin(ls) + [RBRACKET]
  }

  /** The two `setCharAt` calls on the `StringBuffer`: the first and the last
      character become the braces. */
  method Brace(buf: array<byte>)
    requires buf.Length >= 1
    modifies buf
    ensures buf.Length >= 2 ==> buf[..] == [LBRACE] + old(buf[1..buf.Length - 1]) + [RBRACE]
    ensures buf.Length == 1 ==> buf[..] == [RBRACE]
  {
    buf[0] := LBRACE;
    buf[buf.Length - 1] := RBRACE;
  }

  /** The report for the entries `m`: `{`, the lines in ascending name order
      joined by `, `, `}`. */
  ghost function Report(m: map<seq<byte>, Stats>): seq<byte>
  {
    [LBRACE] + CommaJoin(EntryLines(Ordered(m))) + [RBRACE]
  }

  /** No entries print as `{}`. */
  lemma ReportEmpty()
    ensures Report(map[]) == [LBRACE, RBRACE]
  {
    assert Ordered(map[]) == [];
  }

  /** Entries print one line each, by ascending name, separated by `, `:
      the first line, and the last, are those of the least and the greatest name. */
  lemma ReportShape(m: map<seq<byte>, Stats>, k: seq<byte>)
    requires k in m
    ensures var o := Ordered(m);
            && |o| == |m| && o != []
            && Report(m) == [LBRACE] + CommaJoin(EntryLines(o)) + [RBRACE]
            && (forall i :: 0 <= i < |o| ==> EntryLines(o)[i] == EntryLine(Entry(o[i].name, m[o[i].name])))
            && Below(o[0].name, k) && Below(k, Last(o).name)
  {
    var o := Ordered(m);
    OrderedEntries(m);
    var ks := KeyList(o);
    assert k in ks;
    var j :| 0 <= j < |ks| && ks[j] == k;
    if j > 0 {
      assert Below(ks[0], ks[j]);
    } else {
      BelowReflexive(k);
    }
    if j < |o| - 1 {
      assert Below(ks[j], ks[|o| - 1]);
    } else {
      BelowReflexive(k);
    }
    DistinctCount(o, m);
  }

  /** An enumeration of `m` has one element per key. */
  lemma DistinctCount(es: seq<Entry>, m: map<seq<byte>, Stats>)
    requires Enumerates(es, m)
    ensures |es| == |m|
  {
    var ks := set i | 0 <= i < |es| :: es[i].name;
    assert ks == m.Keys by {
      forall k | k in m ensures k in ks {
        var i :| 0 <= i < |es| && KeyList(es)[i] == k;
      }
    }
    NamesCard(es);
  }

  lemma {:induction false} NamesCard(es: seq<Entry>)
    requires Distinct(es)
    ensures |set i | 0 <= i < |es| :: es[i].name| == |es|
    decreases |es|
  {
    if es != [] {
      var init := DropLast(es);
      NamesCard(init);
      var a := set i | 0 <= i < |init| :: init[i].name;
      var b := set i | 0 <= i < |es| :: es[i].name;
      assert b == a + {Last(es).name};
      assert Last(es).name !in a;
    }
  }

  /** The rendering of `main`: sort the entry set, format each entry, take the
      list's text and overwrite its brackets with braces. */
  method Render(m: map<seq<byte>, Stats>) returns (out: seq<byte>)
    ensures out == Report(m)
  {
    var es := EntrySet(m);
    var sorted := SortByName(es);
    var text := ListText(EntryLines(sorted));
    var buf := new byte[|text|](i requires 0 <= i < |text| => text[i]);
    assert buf[..] == text;
    Brace(buf);
    out := buf[..];
    SortedIsOrdered(m, es);
    assert text[1..|text| - 1] == CommaJoin(EntryLines(Ordered(m)));
  }
}
