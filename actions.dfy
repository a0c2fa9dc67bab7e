/**
 * What the pipeline does with each complete line it meets, and the effect of
 * a list of such steps. A line is folded (its value parsed and added to the
 * aggregator), reported as malformed, or aborts the run (`main` throws).
 * A value that does not parse also aborts the run. After an abort nothing
 * else happens: the exception leaves `main` and no result is printed.
 */
module Actions {
  import opened Basics
  import opened Values
  import opened Aggregation

  datatype Action =
    | FoldRecord(name: seq<byte>, value: seq<byte>)  // `addMeasurement(name, value)`
    | Warn(line: seq<byte>)                          // the malformed-line diagnostic
    | Abort                                          // an exception other than a parse failure

  /** The effect of a list of actions: the folds applied, the diagnostics
      reported, and whether the run is still alive. */
  datatype Trace = Trace(folds: seq<Reading>, warnings: seq<seq<byte>>, ok: bool)

  /** An action that leaves the run alive. */
  predicate Succeeds(a: Action)
  {
    a.Warn? || (a.FoldRecord? && ParseTenths(a.value).Some?)
  }

  function Step(t: Trace, a: Action): Trace
  {
    match a
    case FoldRecord(n, v) =>
      (match ParseTenths(v)
       case Some(x) => t.(folds := t.folds + [Reading(n, x)])
       case None => t.(ok := false))
    case Warn(l) => t.(warnings := t.warnings + [l])
    case Abort => t.(ok := false)
  }

  /** Performs `acts` in order, stopping at the first one that fails. */
  function Run(acts: seq<Action>): Trace
  {
    if acts == [] then Trace([], [], true)
    else
      var t := Run(DropLast(acts));
      assert acts == DropLast(acts) + [Last(acts)];
      if t.ok then Step(t, Last(acts)) else t
  }

  lemma RunOne(a: Action)
    ensures Run([a]) == Step(Trace([], [], true), a)
  {
    assert DropLast([a]) == [];
  }

  /** A run survives exactly when every action succeeds; each action adds at
      most one fold or diagnostic, and each surviving one exactly one. */
  lemma {:induction false} RunOk(acts: seq<Action>)
    ensures Run(acts).ok <==> forall i :: 0 <= i < |acts| ==> Succeeds(acts[i])
    ensures |Run(acts).folds| + |Run(acts).warnings| <= |acts|
    ensures Run(acts).ok ==> |Run(acts).folds| + |Run(acts).warnings| == |acts|
    decreases |acts|
  {
    if acts != [] {
      var init := DropLast(acts);
      RunOk(init);
      assert forall i :: 0 <= i < |init| ==> init[i] == acts[i];
    }
  }

  /** `t1` followed by `t2`. */
  function Then(t1: Trace, t2: Trace): Trace
  {
    Trace(t1.folds + t2.folds, t1.warnings + t2.warnings, t2.ok)
  }

  lemma RunSnoc(acts: seq<Action>, a: Action)
    ensures Run(acts + [a]) == if Run(acts).ok then Step(Run(acts), a) else Run(acts)
  {
    assert DropLast(acts + [a]) == acts;
  }

  /** Running two lists one after the other: the second starts only if the
      first left the run alive. */
  lemma {:induction false} RunConcat(a: seq<Action>, b: seq<Action>)
    ensures Run(a + b) == if Run(a).ok then Then(Run(a), Run(b)) else Run(a)
    decreases |b|
  {
    if b == [] {
      assert a + b == a;
      var t := Run(a);
      if t.ok {
        assert t.folds + [] == t.folds && t.warnings + [] == t.warnings;
      }
    } else {
      var b', x := DropLast(b), Last(b);
      assert b == b' + [x];
      assert a + b == (a + b') + [x];
      RunConcat(a, b');
      RunSnoc(a + b', x);
      RunSnoc(b', x);
      if Run(a).ok && Run(b').ok {
        var t1, t2 := Run(a), Run(b');
        match x
        case FoldRecord(n, v) =>
          if ParseTenths(v).Some? {
            assert t1.folds + t2.folds + [Reading(n, ParseTenths(v).value)]
                == t1.folds + (t2.folds + [Reading(n, ParseTenths(v).value)]);
          }
        case Warn(l) =>
          assert t1.warnings + t2.warnings + [l] == t1.warnings + (t2.warnings + [l]);
        case Abort =>
      }
    }
  }
}
