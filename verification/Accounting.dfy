/** What runs cost and count: slots copied by doubling, the entry counter, and what clears drop. */
module Accounting {
  import opened CStrings
  import opened SlotTable
  import opened TableSteps
  import opened Runs

  // ---- Counted along a run ----

  /** A set whose key is absent. */
  predicate IsInsertion(t: Table, op: Op) {
    op.DoSet? && op.k !in Contents(t.slots)
  }

  /** An insertion that finds the counter at the size has to double. */
  predicate IsGrowth(t: Table, op: Op) {
    IsInsertion(t, op) && t.n == |t.slots|
  }

  function Insertions(t: Table, ops: seq<Op>): nat
    requires Inv(t) && Defined(t, ops)
    decreases |ops|
  {
    if ops == [] then 0
    else (if IsInsertion(t, ops[0]) then 1 else 0) + Insertions(Step(t, ops[0]), ops[1..])
  }

  function Growths(t: Table, ops: seq<Op>): nat
    requires Inv(t) && Defined(t, ops)
    decreases |ops|
  {
    if ops == [] then 0
    else (if IsGrowth(t, ops[0]) then 1 else 0) + Growths(Step(t, ops[0]), ops[1..])
  }

  /** Slots copied, in each of the three arrays: a doubling copies all it has. */
  function Copied(t: Table, ops: seq<Op>): nat
    requires Inv(t) && Defined(t, ops)
    decreases |ops|
  {
    if ops == [] then 0
    else (if IsGrowth(t, ops[0]) then |t.slots| else 0) + Copied(Step(t, ops[0]), ops[1..])
  }

  function Max(a: nat, b: nat): nat { if a < b then b else a }

  /** The highest value of the counter. */
  function Peak(t: Table, ops: seq<Op>): (p: nat)
    requires Inv(t) && Defined(t, ops)
    ensures t.n <= p
    decreases |ops|
  {
    if ops == [] then t.n else Max(t.n, Peak(Step(t, ops[0]), ops[1..]))
  }

  /** Key slots zeroed by an operation, if it is a clear. */
  function WipedBy(t: Table, op: Op): nat {
    if op.DoClear? then Occ(t.slots[..WipedPrefix(|t.slots|)]) else 0
  }

  /** The values of a table that are not NULL. */
  function Vals(s: seq<Slot>): (c: nat)
    ensures c <= |s|
  {
    if s == [] then 0 else Vals(s[..|s| - 1]) + if s[|s| - 1].val.Some? then 1 else 0
  }

  /** Strings an operation loses track of without freeing them: those a clear wipes. */
  function LeakedBy(t: Table, op: Op): nat {
    if op.DoClear? then
      Occ(t.slots[..WipedPrefix(|t.slots|)]) + Vals(t.slots[..WipedPrefix(|t.slots|)])
    else 0
  }

  /** Bindings lost to an operation, if it is a clear. */
  function DroppedBy(t: Table, op: Op): int {
    if op.DoClear? then |Contents(t.slots)| - |Survivors(t.slots)| else 0
  }

  function Wiped(t: Table, ops: seq<Op>): nat
    requires Inv(t) && Defined(t, ops)
    decreases |ops|
  {
    if ops == [] then 0 else WipedBy(t, ops[0]) + Wiped(Step(t, ops[0]), ops[1..])
  }

  function Leaked(t: Table, ops: seq<Op>): nat
    requires Inv(t) && Defined(t, ops)
    decreases |ops|
  {
    if ops == [] then 0 else LeakedBy(t, ops[0]) + Leaked(Step(t, ops[0]), ops[1..])
  }

  function Dropped(t: Table, ops: seq<Op>): int
    requires Inv(t) && Defined(t, ops)
    decreases |ops|
  {
    if ops == [] then 0 else DroppedBy(t, ops[0]) + Dropped(Step(t, ops[0]), ops[1..])
  }

  /** `size` times the e-th power of two. */
  function Doubled(size: nat, e: nat): nat {
    if e == 0 then size else 2 * Doubled(size, e - 1)
  }

  // ---- Growth ----

  lemma StepSize(t: Table, op: Op)
    requires Inv(t) && (op.DoClear? ==> WholePointers(t))
    ensures |Step(t, op).slots| == |t.slots| + if IsGrowth(t, op) then |t.slots| else 0
    ensures Step(t, op).n <= t.n + if IsInsertion(t, op) then 1 else 0
    ensures IsGrowth(t, op) ==> Step(t, op).n == |t.slots| + 1
  {
    match op
    case DoSet(k, v) =>
      SetSize(t, k, v);
      SetKeeps(t, k, v);
    case DoUnset(k) => UnsetKeeps(t, k);
    case DoGet(_, _) =>
    case DoClear =>
  }

  /** The size is the initial one plus all that was copied. */
  lemma {:induction false} SizeIsInitialPlusCopied(t: Table, ops: seq<Op>)
    requires Inv(t) && Defined(t, ops)
    ensures |Run(t, ops).slots| == |t.slots| + Copied(t, ops)
    decreases |ops|
  {
    if ops != [] {
      StepSize(t, ops[0]);
      SizeIsInitialPlusCopied(Step(t, ops[0]), ops[1..]);
    }
  }

  lemma {:induction false} DoubledOnceMore(size: nat, e: nat)
    ensures Doubled(size + size, e) == Doubled(size, e + 1)
  {
    if e > 0 {
      DoubledOnceMore(size, e - 1);
    }
  }

  lemma GrowthDoubles(t: Table, op: Op, e: nat)
    requires Inv(t) && (op.DoClear? ==> WholePointers(t))
    ensures Doubled(|Step(t, op).slots|, e) == Doubled(|t.slots|, (if IsGrowth(t, op) then 1 else 0) + e)
  {
    StepSize(t, op);
    DoubledOnceMore(|t.slots|, e);
  }

  /** The size is the initial one doubled once per growth. */
  lemma {:induction false} SizeIsInitialDoubled(t: Table, ops: seq<Op>)
    requires Inv(t) && Defined(t, ops)
    ensures |Run(t, ops).slots| == Doubled(|t.slots|, Growths(t, ops))
    decreases |ops|
  {
    if ops != [] {
      SizeIsInitialDoubled(Step(t, ops[0]), ops[1..]);
      GrowthDoubles(t, ops[0], Growths(Step(t, ops[0]), ops[1..]));
    }
  }

  /** The size is never more than twice what the counter needed at its peak. */
  lemma {:induction false} SizeIsBoundedByPeak(t: Table, ops: seq<Op>, peak: nat)
    requires Inv(t) && Defined(t, ops) && Peak(t, ops) <= peak
    ensures |Run(t, ops).slots| <= |t.slots| || |Run(t, ops).slots| <= 2 * (peak - 1)
    decreases |ops|
  {
    if ops != [] {
      StepSize(t, ops[0]);
      SizeIsBoundedByPeak(Step(t, ops[0]), ops[1..], peak);
    }
  }

  lemma {:induction false} PeakIsBoundedByInsertions(t: Table, ops: seq<Op>)
    requires Inv(t) && Defined(t, ops)
    ensures Peak(t, ops) <= t.n + Insertions(t, ops)
    decreases |ops|
  {
    if ops != [] {
      StepSize(t, ops[0]);
      PeakIsBoundedByInsertions(Step(t, ops[0]), ops[1..]);
    }
  }

  /** Doubling is amortised: over any run of a new dictionary that grows at all, each array has
      had fewer slots copied than twice the number of insertions. */
  lemma GrowthIsAmortised(size: int, ops: seq<Op>)
    requires Defined(New(size), ops)
    ensures var t := New(size);
            && (Copied(t, ops) > 0 ==> Copied(t, ops) < 2 * Insertions(t, ops))
            && |Run(t, ops).slots| == Doubled(|t.slots|, Growths(t, ops))
            && (|Run(t, ops).slots| == |t.slots| || |Run(t, ops).slots| <= 2 * (Peak(t, ops) - 1))
  {
    SizeIsInitialPlusCopied(New(size), ops);
    SizeIsInitialDoubled(New(size), ops);
    SizeIsBoundedByPeak(New(size), ops, Peak(New(size), ops));
    PeakIsBoundedByInsertions(New(size), ops);
  }

  predicate NoUnset(ops: seq<Op>) {
    forall i :: 0 <= i < |ops| ==> !ops[i].DoUnset?
  }

  lemma StepInserts(t: Table, op: Op)
    requires Inv(t) && (op.DoClear? ==> WholePointers(t)) && !op.DoUnset?
    ensures Step(t, op).n == t.n + if IsInsertion(t, op) then 1 else 0
  {
    if op.DoSet? {
      SetKeeps(t, op.k, op.v);
    }
  }

  /** Without unsets the counter is the number of insertions, and its peak where it ends. */
  lemma {:induction false} InsertionsAreCounted(t: Table, ops: seq<Op>)
    requires Inv(t) && Defined(t, ops) && NoUnset(ops)
    ensures Run(t, ops).n == t.n + Insertions(t, ops) == Peak(t, ops)
    decreases |ops|
  {
    if ops != [] {
      StepInserts(t, ops[0]);
      InsertionsAreCounted(Step(t, ops[0]), ops[1..]);
    }
  }

  /** Without unsets the counter never falls, so the size is bounded by where it ends. */
  lemma {:induction false} SizeWithoutUnset(t: Table, ops: seq<Op>)
    requires Inv(t) && Defined(t, ops) && NoUnset(ops)
    ensures t.n <= Run(t, ops).n
    ensures |t.slots| <= |Run(t, ops).slots|
    ensures |Run(t, ops).slots| == |t.slots| || |Run(t, ops).slots| <= 2 * (Run(t, ops).n - 1)
    decreases |ops|
  {
    if ops != [] {
      StepSize(t, ops[0]);
      StepInserts(t, ops[0]);
      SizeWithoutUnset(Step(t, ops[0]), ops[1..]);
    }
  }

  // ---- The counter ----

  lemma SizeWithout(m: Bindings, k: CString)
    ensures |m - {k}| == |m| - if k in m then 1 else 0
  {
    assert (m - {k}).Keys == m.Keys - {k};
    assert |m - {k}| == |(m - {k}).Keys| && |m| == |m.Keys|;
  }

  lemma StepCounts(t: Table, op: Op)
    requires Inv(t) && (op.DoClear? ==> WholePointers(t))
    ensures Step(t, op).n - Occ(Step(t, op).slots) == t.n - Occ(t.slots) + WipedBy(t, op)
    ensures Step(t, op).n - |Contents(Step(t, op).slots)| == t.n - |Contents(t.slots)| + DroppedBy(t, op)
  {
    match op
    case DoSet(k, v) => SetKeeps(t, k, v);
    case DoUnset(k) =>
      UnsetKeeps(t, k);
      SizeWithout(Contents(t.slots), k);
    case DoGet(_, _) =>
    case DoClear => ClearKeeps(t);
  }

  /** In every run, the counter exceeds the occupied slots by what the clears have wiped. */
  lemma {:induction false} CounterCountsWiped(t: Table, ops: seq<Op>)
    requires Inv(t) && Defined(t, ops)
    ensures Run(t, ops).n - Occ(Run(t, ops).slots) == t.n - Occ(t.slots) + Wiped(t, ops)
    decreases |ops|
  {
    if ops != [] {
      StepCounts(t, ops[0]);
      CounterCountsWiped(Step(t, ops[0]), ops[1..]);
    }
  }

  /** In every run, the counter exceeds the live bindings by what the clears have dropped. */
  lemma {:induction false} CounterCountsDropped(t: Table, ops: seq<Op>)
    requires Inv(t) && Defined(t, ops)
    ensures Run(t, ops).n - |Contents(Run(t, ops).slots)| == t.n - |Contents(t.slots)| + Dropped(t, ops)
    decreases |ops|
  {
    if ops != [] {
      StepCounts(t, ops[0]);
      CounterCountsDropped(Step(t, ops[0]), ops[1..]);
    }
  }
}
