/**
 * The shared key-to-statistics store (`measurements` and
 * `MeasurementAggregator`). Each entry keeps min, max, sum and count of the
 * values folded for its name; a ghost log of every fold lets the invariant
 * say what each entry is: the true minimum, maximum, sum and number of the
 * values logged under that name.
 */
module Aggregation {
  import opened Basics
  import opened Values

  /** A `double` that is either infinite or holds a number of tenths. */
  datatype Ext = NegInf | Fin(tenths: int) | PosInf

  predicate Le(a: Ext, b: Ext)
  {
    a.NegInf? || b.PosInf? || (a.Fin? && b.Fin? && a.tenths <= b.tenths)
  }

  /** `Math.min` on the two values. */
  function MinExt(a: Ext, b: Ext): (r: Ext)
    ensures Le(r, a) && Le(r, b) && (r == a || r == b)
  {
    if Le(a, b) then a else b
  }

  /** `Math.max` on the two values. */
  function MaxExt(a: Ext, b: Ext): (r: Ext)
    ensures Le(a, r) && Le(b, r) && (r == a || r == b)
  {
    if Le(a, b) then b else a
  }

  /** One `MeasurementAggregator`. */
  datatype Stats = Stats(min: Ext, max: Ext, sum: int, count: nat)

  /** A freshly created `MeasurementAggregator`. */
  const Initial: Stats := Stats(PosInf, NegInf, 0, 0)

  /** One fold: a name and its parsed value. */
  datatype Reading = Reading(name: seq<byte>, tenths: int)

  /** The field updates `addMeasurement` applies to an entry for value `v`. */
  function Update(st: Stats, v: int): Stats
  {
    Stats(MinExt(st.min, Fin(v)), MaxExt(st.max, Fin(v)), st.sum + v, st.count + 1)
  }

  function Sum(vs: seq<int>): int
  {
    if vs == [] then 0 else Sum(DropLast(vs)) + Last(vs)
  }

  function Minimum(vs: seq<int>): int
    requires |vs| >= 1
  {
    if |vs| == 1 then vs[0] else Min(Minimum(DropLast(vs)), Last(vs))
  }

  function Maximum(vs: seq<int>): int
    requires |vs| >= 1
  {
    if |vs| == 1 then vs[0] else Max(Maximum(DropLast(vs)), Last(vs))
  }

  /** `Minimum` and `Maximum` are a least and a greatest element of the list. */
  lemma {:induction false} ExtremesBound(vs: seq<int>)
    requires |vs| >= 1
    ensures Minimum(vs) in vs && Maximum(vs) in vs
    ensures forall i :: 0 <= i < |vs| ==> Minimum(vs) <= vs[i] <= Maximum(vs)
    decreases |vs|
  {
    if |vs| > 1 {
      assert vs == DropLast(vs) + [Last(vs)];
      ExtremesBound(DropLast(vs));
    }
  }

  /** The values logged under `name`, in log order: there are some exactly
      when the name occurs in the log. */
  function ValuesOf(log: seq<Reading>, name: seq<byte>): (vs: seq<int>)
    ensures vs == [] <==> name !in Names(log)
  {
    if log == [] then []
    else ValuesOf(DropLast(log), name) + (if Last(log).name == name then [Last(log).tenths] else [])
  }

  /** The names that occur in the log. */
  function Names(log: seq<Reading>): set<seq<byte>>
  {
    if log == [] then {} else Names(DropLast(log)) + {Last(log).name}
  }

  /** `st` is the summary of the non-empty value list `vs`. */
  predicate Summarises(st: Stats, vs: seq<int>)
  {
    && |vs| >= 1
    && st.count == |vs|
    && st.sum == Sum(vs)
    && st.min == Fin(Minimum(vs))
    && st.max == Fin(Maximum(vs))
  }

  /** A name absent from the log has no values. */
  lemma {:induction false} ValuesOfAbsent(log: seq<Reading>, name: seq<byte>)
    requires name !in Names(log)
    ensures ValuesOf(log, name) == []
    decreases |log|
  {
    if log != [] {
      assert log == DropLast(log) + [Last(log)];
      ValuesOfAbsent(DropLast(log), name);
    }
  }

  /** Folding `v` into the summary of `vs` (or into a fresh entry when `vs` is
      empty) summarises `vs + [v]`. */
  lemma UpdateSummarises(st: Stats, vs: seq<int>, v: int)
    requires Summarises(st, vs) || (vs == [] && st == Initial)
    ensures Summarises(Update(st, v), vs + [v])
  {
    var ws := vs + [v];
    assert DropLast(ws) == vs && Last(ws) == v;
    assert Sum(ws) == Sum(vs) + v;
    if vs == [] {
      assert ws == [v];
    } else {
      assert Minimum(ws) == Min(Minimum(vs), v);
      assert Maximum(ws) == Max(Maximum(vs), v);
    }
  }

  /** After any number of folds, an entry's min and max bound every value
      folded under its name, and min <= max. */
  lemma SummaryBounds(st: Stats, vs: seq<int>)
    requires Summarises(st, vs)
    ensures forall i :: 0 <= i < |vs| ==> Le(st.min, Fin(vs[i])) && Le(Fin(vs[i]), st.max)
    ensures Le(st.min, st.max)
  {
    ExtremesBound(vs);
  }

  /** The entry a fold of `name` starts from: the existing one or a fresh one. */
  function EntryFor(entries: map<seq<byte>, Stats>, name: seq<byte>): Stats
  {
    if name in entries then entries[name] else Initial
  }

  /** Every logged name has exactly one entry, and that entry summarises the
      values logged under its name. */
  ghost predicate Consistent(entries: map<seq<byte>, Stats>, log: seq<Reading>)
  {
    && entries.Keys == Names(log)
    && forall k :: k in entries ==> Summarises(entries[k], ValuesOf(log, k))
  }

  /** The summary of a value list; a fresh entry for no values. Its min and
      max are values of the list that bound all the others. The `Summarises`
      clause restates the definition in the form `Consistent` and its callers
      use. */
  function Summary(vs: seq<int>): (st: Stats)
    ensures vs == [] ==> st == Initial
    ensures vs != [] ==> Summarises(st, vs)
    ensures vs != [] ==> && st.count == |vs| && st.min.Fin? && st.max.Fin?
                         && st.min.tenths in vs && st.max.tenths in vs
                         && forall i :: 0 <= i < |vs| ==> st.min.tenths <= vs[i] <= st.max.tenths
  {
    if vs == [] then Initial
    else
      ExtremesBound(vs);
      Stats(Fin(Minimum(vs)), Fin(Maximum(vs)), Sum(vs), |vs|)
  }

  /** The entries a log determines: every logged name with the summary of
      the values logged under it. */
  ghost function Summaries(log: seq<Reading>): map<seq<byte>, Stats>
  {
    map k | k in Names(log) :: Summary(ValuesOf(log, k))
  }

  /** Consistency pins the entries down: they are the log's summaries, so the
      map after any run depends only on the folds performed. */
  lemma ConsistentIsSummaries(entries: map<seq<byte>, Stats>, log: seq<Reading>)
    requires Consistent(entries, log)
    ensures entries == Summaries(log)
  {
    forall k | k in entries
      ensures entries[k] == Summaries(log)[k]
    {
      assert ValuesOf(log, k) != [];
    }
  }

  lemma NamesSnoc(log: seq<Reading>, r: Reading)
    ensures Names(log + [r]) == Names(log) + {r.name}
  {
    assert DropLast(log + [r]) == log;
  }

  lemma ValuesOfSnoc(log: seq<Reading>, r: Reading, k: seq<byte>)
    ensures ValuesOf(log + [r], k) == ValuesOf(log, k) + (if r.name == k then [r.tenths] else [])
  {
    assert DropLast(log + [r]) == log;
  }

  /** One fold keeps the entries consistent with the log extended by that fold. */
  lemma FoldKeepsConsistent(entries: map<seq<byte>, Stats>, log: seq<Reading>, name: seq<byte>, v: int)
    requires Consistent(entries, log)
    ensures Consistent(entries[name := Update(EntryFor(entries, name), v)], log + [Reading(name, v)])
  {
    var r := Reading(name, v);
    var entries', log' := entries[name := Update(EntryFor(entries, name), v)], log + [r];
    NamesSnoc(log, r);
    if name !in entries {
      ValuesOfAbsent(log, name);
    }
    ValuesOfSnoc(log, r, name);
    UpdateSummarises(EntryFor(entries, name), ValuesOf(log, name), v);
    forall k | k in entries'
      ensures Summarises(entries'[k], ValuesOf(log', k))
    {
      if k != name {
        OtherValuesUnchanged(log, r, k);
      }
    }
  }

  lemma OtherValuesUnchanged(log: seq<Reading>, r: Reading, k: seq<byte>)
    requires k != r.name
    ensures ValuesOf(log + [r], k) == ValuesOf(log, k)
  {
    ValuesOfSnoc(log, r, k);
    assert ValuesOf(log, k) + [] == ValuesOf(log, k);
  }

  class Aggregator {
    /** The `measurements` map. */
    var entries: map<seq<byte>, Stats>
    /** Every fold so far, in order. */
    ghost var log: seq<Reading>

    ghost predicate Valid()
      reads this
    {
      Consistent(entries, log)
    }

    constructor ()
      ensures Valid() && entries == map[] && log == []
    {
      entries := map[];
      log := [];
    }

    /** `addMeasurement(name, value)`: parses `value`, then folds it under
        `name`. A value that does not parse stops the fold before the map is
        touched (`addMeasurement` throws). */
    method AddMeasurement(name: seq<byte>, value: seq<byte>) returns (ok: bool)
      requires Valid()
      modifies this
      ensures Valid()
      ensures ok == ParseTenths(value).Some?
      ensures ok ==> var v := ParseTenths(value).value;
                     && log == old(log) + [Reading(name, v)]
                     && entries == old(entries)[name := Update(EntryFor(old(entries), name), v)]
                     && Le(entries[name].min, Fin(v)) && Le(Fin(v), entries[name].max)
      ensures !ok ==> log == old(log) && entries == old(entries)
    {
      var parsed := ParseTenths(value);
      if parsed.None? {
        return false;
      }
      Fold(name, parsed.value);
      ok := true;
    }

    /** The update half of `addMeasurement`: creates the entry for an unseen
        name, then updates count, sum, max and min in place. */
    method Fold(name: seq<byte>, v: int)
      requires Valid()
      modifies this
      ensures Valid()
      ensures log == old(log) + [Reading(name, v)]
      ensures entries == old(entries)[name := Update(EntryFor(old(entries), name), v)]
      ensures Le(entries[name].min, Fin(v)) && Le(Fin(v), entries[name].max)
    {
      ghost var entries0, log0 := entries, log;
      // An unseen name gets a fresh entry; it is stored once updated.
      var agg := if name in entries then entries[name] else Initial;
      agg := agg.(count := agg.count + 1, sum := agg.sum + v,
                  max := MaxExt(agg.max, Fin(v)), min := MinExt(agg.min, Fin(v)));
      entries := entries[name := agg];
      log := log + [Reading(name, v)];
      assert agg == Update(EntryFor(entries0, name), v);
      assert entries == entries0[name := agg];
      FoldKeepsConsistent(entries0, log0, name, v);
    }
  }
}
