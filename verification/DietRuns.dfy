/** Runs of operations on an interval tree, on the lists it stands for. */
module DietRuns {
  import opened Ivals

  datatype Op = Insert(n: nat, t: nat) | Remove(n: nat)

  /** What diet_insert and diet_remove do to the list. */
  ghost predicate Step(v: seq<Iv>, op: Op, v': seq<Iv>)
  {
    match op
    case Insert(n, t) => InsertStep(v, v', n, t)
    case Remove(n) => RemoveStep(v, v', n, n) && !Has(v', n)
  }

  ghost predicate Run(run: seq<seq<Iv>>, ops: seq<Op>)
  {
    && |run| == |ops| + 1 && run[0] == []
    && forall i :: 0 <= i < |ops| ==> Step(run[i], ops[i], run[i + 1])
  }

  /** The plain finite set the operations build. */
  function SetOf(ops: seq<Op>): (r: set<int>)
  {
    if ops == [] then {}
    else
      var s := SetOf(ops[..|ops| - 1]);
      match ops[|ops| - 1]
      case Insert(n, _) => s + {n}
      case Remove(n) => s - {n}
  }

  /** When each number was last inserted. */
  function LastInserted(ops: seq<Op>): (r: map<int, nat>)
  {
    if ops == [] then map[] else Noted(LastInserted(ops[..|ops| - 1]), ops[|ops| - 1])
  }

  function Noted(m: map<int, nat>, op: Op): (r: map<int, nat>)
  {
    match op
    case Insert(n, t) => m[n := t]
    case Remove(_) => m
  }

  /** Timestamps do not go back. */
  ghost predicate InTime(ops: seq<Op>)
  {
    forall i, j :: 0 <= i < j < |ops| && ops[i].Insert? && ops[j].Insert? ==> ops[i].t <= ops[j].t
  }

  /** Refinement: after every operation the list is canonical and has exactly the
      members of the set. */
  lemma {:induction false} RunRefinesSet(run: seq<seq<Iv>>, ops: seq<Op>, i: nat)
    requires Run(run, ops) && i < |run|
    ensures Canonical(run[i]) && forall m: int :: Has(run[i], m) <==> m in SetOf(ops[..i])
  {
    if i > 0 {
      RunRefinesSet(run, ops, i - 1);
      assert ops[..i][..i - 1] == ops[..i - 1];
      assert Step(run[i - 1], ops[i - 1], run[i]);
    }
  }

  lemma {:induction false} InsertedBefore(ops: seq<Op>, t: nat)
    requires forall i :: 0 <= i < |ops| && ops[i].Insert? ==> ops[i].t <= t
    ensures forall m: int :: m in LastInserted(ops) ==> LastInserted(ops)[m] <= t
  {
    if ops != [] { InsertedBefore(ops[..|ops| - 1], t); }
  }

  /** With timestamps that do not go back, the stamp of each interval is at least the
      time at which any of its members was last inserted. */
  lemma {:induction false} RunStamps(run: seq<seq<Iv>>, ops: seq<Op>, i: nat)
    requires Run(run, ops) && InTime(ops) && i < |run|
    ensures Stamped(run[i], LastInserted(ops[..i]))
  {
    if i > 0 {
      RunStamps(run, ops, i - 1);
      RunRefinesSet(run, ops, i - 1);
      var before := ops[..i - 1];
      assert ops[..i][..i - 1] == before;
      assert Step(run[i - 1], ops[i - 1], run[i]);
      if ops[i - 1].Insert? { InsertedBefore(before, ops[i - 1].t); }
      StepStamps(run[i - 1], ops[i - 1], run[i], LastInserted(before));
    }
  }

  lemma StepStamps(v: seq<Iv>, op: Op, v': seq<Iv>, when: map<int, nat>)
    requires Canonical(v) && Step(v, op, v') && Stamped(v, when)
    requires op.Insert? ==> forall m: int :: m in when ==> when[m] <= op.t
    ensures Stamped(v', Noted(when, op))
  {
    match op
    case Insert(n, t) => InsertStamps(v, v', n, t, when);
    case Remove(n) => RemoveStamps(v, v', n, n, when);
  }

  /** Two runs that build the same set end with the same intervals, whatever the order
      of operations and the shapes of the trees. */
  lemma SameSetSameIntervals(a: seq<seq<Iv>>, x: seq<Op>, b: seq<seq<Iv>>, y: seq<Op>)
    requires Run(a, x) && Run(b, y) && SetOf(x) == SetOf(y)
    ensures var v, w := a[|x|], b[|y|];
            |v| == |w| && forall i :: 0 <= i < |v| ==> v[i].lo == w[i].lo && v[i].hi == w[i].hi
  {
    RunRefinesSet(a, x, |x|);
    RunRefinesSet(b, y, |y|);
    assert x[..|x|] == x && y[..|y|] == y;
    CanonicalUnique(a[|x|], b[|y|]);
  }
}
