/** Whole runs of dictionary operations: the table answers as a plain map would. */
module Runs {
  import opened CStrings
  import opened KeyHash
  import opened SlotTable
  import opened TableSteps

  type Bindings = map<CString, Option<CString>>

  datatype Op =
    | DoSet(k: CString, v: Option<CString>)
    | DoUnset(k: CString)
    | DoGet(k: CString, def: Option<CString>)
    | DoClear

  // ---- Runs of the table ----

  function Step(t: Table, op: Op): (r: Table)
    requires Inv(t) && (op.DoClear? ==> WholePointers(t))
    ensures Inv(r)
    ensures Divisible(t) ==> Divisible(r)
  {
    match op
    case DoSet(k, v) => SetKeeps(t, k, v); SetKeepsDivisible(t, k, v); Set(t, k, v)
    case DoUnset(k) => UnsetKeeps(t, k); Unset(t, k)
    case DoGet(_, _) => t
    case DoClear => ClearKeeps(t); Clear(t)
  }

  predicate NoClear(ops: seq<Op>) {
    forall i :: 0 <= i < |ops| ==> !ops[i].DoClear?
  }

  /** No clear of the run leaves a pointer half zeroed. A run without clears is defined, and so is
      every run of a table whose size is a multiple of the width of a pointer. */
  predicate Defined(t: Table, ops: seq<Op>): (b: bool)
    requires Inv(t)
    ensures NoClear(ops) ==> b
    ensures Divisible(t) ==> b
    decreases |ops|
  {
    ops == [] || ((ops[0].DoClear? ==> WholePointers(t)) && Defined(Step(t, ops[0]), ops[1..]))
  }

  function Run(t: Table, ops: seq<Op>): (r: Table)
    requires Inv(t) && Defined(t, ops)
    ensures Inv(r)
    ensures Divisible(t) ==> Divisible(r)
    decreases |ops|
  {
    if ops == [] then t else Run(Step(t, ops[0]), ops[1..])
  }

  /** What an operation returns, if it is a get. */
  function Returned(t: Table, op: Op): seq<Option<CString>> {
    if op.DoGet? then [Get(t, op.k, op.def)] else []
  }

  /** What the gets of a run return. */
  function Outputs(t: Table, ops: seq<Op>): seq<Option<CString>>
    requires Inv(t) && Defined(t, ops)
    decreases |ops|
  {
    if ops == [] then []
    else Returned(t, ops[0]) + Outputs(Step(t, ops[0]), ops[1..])
  }

  lemma RunCons(t: Table, op: Op, ops: seq<Op>)
    requires Inv(t) && (op.DoClear? ==> WholePointers(t)) && Defined(Step(t, op), ops)
    ensures Defined(t, [op] + ops) && Run(t, [op] + ops) == Run(Step(t, op), ops)
  {
    assert ([op] + ops)[1..] == ops;
  }

  lemma ConsAppend(a: seq<Op>, b: seq<Op>)
    requires a != []
    ensures a + b == [a[0]] + (a[1..] + b) && a == [a[0]] + a[1..]
  {
  }

  lemma {:induction false} RunAppend(t: Table, a: seq<Op>, b: seq<Op>)
    requires Inv(t) && Defined(t, a) && Defined(Run(t, a), b)
    ensures Defined(t, a + b) && Run(t, a + b) == Run(Run(t, a), b)
    decreases |a|
  {
    if a == [] {
      assert a + b == b;
    } else {
      RunAppend(Step(t, a[0]), a[1..], b);
      RunCons(t, a[0], a[1..] + b);
      ConsAppend(a, b);
    }
  }

  lemma Associative(a: seq<Option<CString>>, b: seq<Option<CString>>, c: seq<Option<CString>>)
    ensures a + (b + c) == a + b + c
  {
  }

  lemma OutputsCons(t: Table, op: Op, ops: seq<Op>)
    requires Inv(t) && (op.DoClear? ==> WholePointers(t)) && Defined(Step(t, op), ops)
    ensures Defined(t, [op] + ops)
    ensures Outputs(t, [op] + ops) == Returned(t, op) + Outputs(Step(t, op), ops)
  {
    RunCons(t, op, ops);
    assert ([op] + ops)[1..] == ops;
  }

  lemma {:induction false} OutputsAppend(t: Table, a: seq<Op>, b: seq<Op>)
    requires Inv(t) && Defined(t, a) && Defined(Run(t, a), b)
    ensures Defined(t, a + b) && Outputs(t, a + b) == Outputs(t, a) + Outputs(Run(t, a), b)
    decreases |a|
  {
    if a == [] {
      assert a + b == b;
    } else {
      ghost var next, out := Step(t, a[0]), Returned(t, a[0]);
      RunAppend(next, a[1..], b);
      OutputsAppend(next, a[1..], b);
      OutputsCons(t, a[0], a[1..] + b);
      OutputsCons(t, a[0], a[1..]);
      RunCons(t, a[0], a[1..]);
      ConsAppend(a, b);
      Associative(out, Outputs(next, a[1..]), Outputs(Run(next, a[1..]), b));
    }
  }

  /** Each operation at the end of a run adds to the outputs what a get returns in the state the
      run has reached, if it is a get, and nothing otherwise. */
  lemma OutputOfLast(t: Table, ops: seq<Op>, op: Op)
    requires Inv(t) && Defined(t, ops) && (op.DoClear? ==> WholePointers(Run(t, ops)))
    ensures Defined(t, ops + [op])
    ensures Outputs(t, ops + [op])
         == Outputs(t, ops) + match op case DoGet(k, def) => [Get(Run(t, ops), k, def)] case _ => []
  {
    RunCons(Run(t, ops), op, []);
    assert [op] + [] == [op];
    OutputsAppend(t, ops, [op]);
  }

  // ---- Runs of a plain map, in which a clear empties the map ----

  function MapGet(m: Bindings, k: CString, def: Option<CString>): Option<CString> {
    if k in m then m[k] else def
  }

  function MapStep(m: Bindings, op: Op): Bindings {
    match op
    case DoSet(k, v) => m[k := v]
    case DoUnset(k) => m - {k}
    case DoGet(_, _) => m
    case DoClear => map[]
  }

  function MapRun(m: Bindings, ops: seq<Op>): Bindings
    decreases |ops|
  {
    if ops == [] then m else MapRun(MapStep(m, ops[0]), ops[1..])
  }

  function MapOutputs(m: Bindings, ops: seq<Op>): seq<Option<CString>>
    decreases |ops|
  {
    if ops == [] then []
    else (if ops[0].DoGet? then [MapGet(m, ops[0].k, ops[0].def)] else []) + MapOutputs(MapStep(m, ops[0]), ops[1..])
  }

  lemma GetIsMapGet(t: Table, k: CString, def: Option<CString>)
    ensures Get(t, k, def) == MapGet(Contents(t.slots), k, def)
  {
    LookupIsContents(t.slots, k);
  }

  /** To stand for a map is to answer every possible get as the map does. */
  lemma AnswersDecideMap(t: Table, m: Bindings)
    ensures Contents(t.slots) == m <==> forall k, def :: Get(t, k, def) == MapGet(m, k, def)
  {
    var c := Contents(t.slots);
    if forall k, def :: Get(t, k, def) == MapGet(m, k, def) {
      forall k: CString
        ensures k in c <==> k in m
        ensures k in m ==> c[k] == m[k]
      {
        GetIsMapGet(t, k, None);
        GetIsMapGet(t, k, Some([]));
        assert Get(t, k, None) == MapGet(m, k, None) && Get(t, k, Some([])) == MapGet(m, k, Some([]));
      }
    } else {
      var k, def :| Get(t, k, def) != MapGet(m, k, def);
      GetIsMapGet(t, k, def);
    }
  }

  // ---- When a run is one of the map ----

  /** The table stands for the map now and after every further operation. */
  predicate Tracks(t: Table, m: Bindings, ops: seq<Op>)
    requires Inv(t) && Defined(t, ops)
    decreases |ops|
  {
    Contents(t.slots) == m && (ops == [] || Tracks(Step(t, ops[0]), MapStep(m, ops[0]), ops[1..]))
  }

  /** Every clear of the run finds no live key that hashes to zero beyond the wiped prefix. A run
      without clears meets this, and so does one in which no key hashes to zero. */
  predicate ClearsLeaveNothing(t: Table, ops: seq<Op>): (b: bool)
    requires Inv(t) && Defined(t, ops)
    ensures NoClear(ops) ==> b
    decreases |ops|
  {
    ops == [] || ((ops[0].DoClear? ==> LeavesNothing(t)) && ClearsLeaveNothing(Step(t, ops[0]), ops[1..]))
  }

  lemma StepTracksIff(t: Table, op: Op)
    requires Inv(t) && (op.DoClear? ==> WholePointers(t))
    ensures Contents(Step(t, op).slots) == MapStep(Contents(t.slots), op) <==> (op.DoClear? ==> LeavesNothing(t))
    ensures Strict(t) && !op.DoClear? ==> Strict(Step(t, op))
  {
    match op
    case DoSet(k, v) => SetKeeps(t, k, v);
    case DoUnset(k) => UnsetKeeps(t, k);
    case DoGet(_, _) =>
    case DoClear => ClearEmptiesMapIff(t);
  }

  /** The exact condition: a run stands for that of the map at every point if and only if each of
      its clears leaves nothing behind. */
  lemma {:induction false} RunTracksMapIff(t: Table, ops: seq<Op>)
    requires Inv(t) && Defined(t, ops)
    ensures Tracks(t, Contents(t.slots), ops) <==> ClearsLeaveNothing(t, ops)
    decreases |ops|
  {
    if ops != [] {
      StepTracksIff(t, ops[0]);
      RunTracksMapIff(Step(t, ops[0]), ops[1..]);
    }
  }

  lemma {:induction false} TrackedRun(t: Table, m: Bindings, ops: seq<Op>)
    requires Inv(t) && Defined(t, ops) && Tracks(t, m, ops)
    ensures Outputs(t, ops) == MapOutputs(m, ops)
    ensures Contents(Run(t, ops).slots) == MapRun(m, ops)
    decreases |ops|
  {
    if ops != [] {
      if ops[0].DoGet? {
        GetIsMapGet(t, ops[0].k, ops[0].def);
      }
      TrackedRun(Step(t, ops[0]), MapStep(m, ops[0]), ops[1..]);
    }
  }

  /** Then every get of the run returns what the map would, and the table ends as the map does. */
  lemma RunRefinesMap(t: Table, ops: seq<Op>)
    requires Inv(t) && Defined(t, ops) && ClearsLeaveNothing(t, ops)
    ensures Outputs(t, ops) == MapOutputs(Contents(t.slots), ops)
    ensures Contents(Run(t, ops).slots) == MapRun(Contents(t.slots), ops)
  {
    RunTracksMapIff(t, ops);
    TrackedRun(t, Contents(t.slots), ops);
  }

  /** No key of the table, nor any set in the run, hashes to zero. */
  predicate NoZeroHash(t: Table, ops: seq<Op>) {
    && (forall k :: k in Contents(t.slots) ==> Hash(k) != 0)
    && (forall i :: 0 <= i < |ops| && ops[i].DoSet? ==> Hash(ops[i].k) != 0)
  }

  lemma NoZeroHashLeavesNothing(t: Table)
    requires Inv(t) && forall k :: k in Contents(t.slots) ==> Hash(k) != 0
    ensures LeavesNothing(t)
  {
    forall i | 0 <= i < |t.slots| && Live(t.slots[i])
      ensures t.slots[i].key.value in Contents(t.slots)
    {
      LookupIsContents(t.slots, t.slots[i].key.value);
      MatchDecides(t.slots, t.slots[i].key.value, i);
    }
  }

  /** A condition on the operations alone, under which clears do what they are meant to. */
  lemma {:induction false} NoZeroHashSuffices(t: Table, ops: seq<Op>)
    requires Inv(t) && Defined(t, ops) && NoZeroHash(t, ops)
    ensures ClearsLeaveNothing(t, ops)
    decreases |ops|
  {
    if ops != [] {
      NoZeroHashLeavesNothing(t);
      StepTracksIff(t, ops[0]);
      NoZeroHashSuffices(Step(t, ops[0]), ops[1..]);
    }
  }

  /** Without clears, the counter stays exact, every cached hash is that of its key, and no two
      occupied slots hold the same key. */
  lemma {:induction false} RunStaysStrict(t: Table, ops: seq<Op>)
    requires Strict(t) && NoClear(ops)
    ensures Strict(Run(t, ops))
    ensures var s := Run(t, ops).slots;
            forall i, j :: 0 <= i < j < |s| && Occupied(s[i]) && Occupied(s[j]) ==> s[i].key != s[j].key
    decreases |ops|
  {
    if ops != [] {
      StepTracksIff(t, ops[0]);
      RunStaysStrict(Step(t, ops[0]), ops[1..]);
    }
  }

  // ---- Runs with clears as they are written ----

  /** What an operation makes of the map: a clear keeps the bindings of exactly those keys that
      hash to zero and are found beyond the wiped prefix. */
  function ExactStep(t: Table, m: Bindings, op: Op): Bindings {
    if op.DoClear? then map k | k in m && Survives(t.slots, k) :: m[k] else MapStep(m, op)
  }

  function ExactRun(t: Table, m: Bindings, ops: seq<Op>): Bindings
    requires Inv(t) && Defined(t, ops)
    decreases |ops|
  {
    if ops == [] then m else ExactRun(Step(t, ops[0]), ExactStep(t, m, ops[0]), ops[1..])
  }

  function ExactOutputs(t: Table, m: Bindings, ops: seq<Op>): seq<Option<CString>>
    requires Inv(t) && Defined(t, ops)
    decreases |ops|
  {
    if ops == [] then []
    else
      (if ops[0].DoGet? then [MapGet(m, ops[0].k, ops[0].def)] else [])
      + ExactOutputs(Step(t, ops[0]), ExactStep(t, m, ops[0]), ops[1..])
  }

  lemma StepIsExact(t: Table, op: Op)
    requires Inv(t) && (op.DoClear? ==> WholePointers(t))
    ensures Contents(Step(t, op).slots) == ExactStep(t, Contents(t.slots), op)
  {
    match op
    case DoSet(k, v) => SetKeeps(t, k, v);
    case DoUnset(k) => UnsetKeeps(t, k);
    case DoGet(_, _) =>
    case DoClear => ClearKeeps(t);
  }

  /** Every run, with any clears, is a run of a map in which each clear keeps exactly the survivors:
      all gets answer by it, and nothing stale is ever returned. */
  lemma {:induction false} RunIsExact(t: Table, ops: seq<Op>)
    requires Inv(t) && Defined(t, ops)
    ensures Outputs(t, ops) == ExactOutputs(t, Contents(t.slots), ops)
    ensures Contents(Run(t, ops).slots) == ExactRun(t, Contents(t.slots), ops)
    decreases |ops|
  {
    if ops != [] {
      if ops[0].DoGet? {
        GetIsMapGet(t, ops[0].k, ops[0].def);
      }
      StepIsExact(t, ops[0]);
      RunIsExact(Step(t, ops[0]), ops[1..]);
    }
  }
}
