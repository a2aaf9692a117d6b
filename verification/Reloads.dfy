/** What `iniparser_reload` does to a dictionary: a clear, then the same sets again. */
module Reloads {
  import opened CStrings
  import opened KeyHash
  import opened SlotTable
  import opened TableSteps
  import opened Runs
  import opened Accounting
  import opened Laws

  function Reload(kvs: seq<Pair>): seq<Op> {
    [DoClear] + Sets(kvs)
  }

  /** A first load and a number of reloads of the same entries. */
  function Loads(kvs: seq<Pair>, times: nat): seq<Op> {
    if times == 0 then Sets(kvs) else Loads(kvs, times - 1) + Reload(kvs)
  }

  // ---- One reload ----

  lemma SizeOfUnion(a: set<CString>, b: set<CString>)
    ensures |a + b| == |a| + |b - a|
  {
    assert a + b == a + (b - a) && a !! b - a;
  }

  lemma KeptCount(a: set<CString>, b: set<CString>)
    ensures |a - b| == 0 <==> a <= b
  {
    if a - b == {} {
      forall x | x in a
        ensures x in b
      {
        assert x !in a - b;
      }
    }
  }

  lemma StepClear(t: Table)
    requires Inv(t) && WholePointers(t)
    ensures Step(t, DoClear).n == t.n && Contents(Step(t, DoClear).slots) == Survivors(t.slots)
  {
    ClearKeeps(t);
  }

  lemma SetsCount(t: Table, kvs: seq<Pair>)
    requires Inv(t)
    ensures Run(t, Sets(kvs)).n == t.n + |KeysOf(kvs) - Contents(t.slots).Keys|
    ensures Contents(Run(t, Sets(kvs)).slots) == MapRun(Contents(t.slots), Sets(kvs))
  {
    var m, ops := Contents(t.slots), Sets(kvs);
    CounterCountsDropped(t, ops);
    NothingDropped(t, ops);
    RunRefinesMap(t, ops);
    MapOfSets(m, kvs, [], None);
    SizeOfUnion(m.Keys, KeysOf(kvs));
    assert |MapRun(m, ops)| == |MapRun(m, ops).Keys| && |m| == |m.Keys|;
  }

  lemma ReloadRun(t: Table, kvs: seq<Pair>)
    requires Inv(t) && WholePointers(t)
    ensures Defined(t, Reload(kvs)) && Run(t, Reload(kvs)) == Run(Step(t, DoClear), Sets(kvs))
  {
    RunCons(t, DoClear, Sets(kvs));
  }

  /** A reload adds to the counter one for each key that did not survive the clear, as if the old
      entries were still there. It leaves the counter alone exactly when all survived. */
  lemma ReloadCounts(t: Table, kvs: seq<Pair>)
    requires Inv(t) && WholePointers(t)
    ensures Defined(t, Reload(kvs))
    ensures Run(t, Reload(kvs)).n == t.n + |KeysOf(kvs) - Survivors(t.slots).Keys|
    ensures Run(t, Reload(kvs)).n == t.n <==> KeysOf(kvs) <= Survivors(t.slots).Keys
    ensures Contents(Run(t, Reload(kvs)).slots) == MapRun(Survivors(t.slots), Sets(kvs))
  {
    ReloadRun(t, kvs);
    StepClear(t);
    SetsCount(Step(t, DoClear), kvs);
    KeptCount(KeysOf(kvs), Survivors(t.slots).Keys);
  }

  /** When no key of the table hashes to zero, a reload counts every key again. */
  lemma ReloadCountsAll(t: Table, kvs: seq<Pair>)
    requires Inv(t) && WholePointers(t) && forall k :: k in Contents(t.slots) ==> Hash(k) != 0
    ensures Defined(t, Reload(kvs))
    ensures Run(t, Reload(kvs)).n == t.n + |KeysOf(kvs)|
    ensures Contents(Run(t, Reload(kvs)).slots) == MapRun(map[], Sets(kvs))
  {
    ReloadCounts(t, kvs);
    assert Survivors(t.slots) == map[];
    assert KeysOf(kvs) - Survivors(t.slots).Keys == KeysOf(kvs);
  }

  // ---- Any number of reloads ----

  lemma FirstLoad(size: int, kvs: seq<Pair>)
    ensures var r := Run(New(size), Sets(kvs));
            r.n == |KeysOf(kvs)| && Contents(r.slots) == MapRun(map[], Sets(kvs))
  {
    NewIsEmpty(size);
    SetsCount(New(size), kvs);
    assert KeysOf(kvs) - Contents(New(size).slots).Keys == KeysOf(kvs);
  }

  lemma LoadedKeys(kvs: seq<Pair>, m: Bindings)
    requires m == MapRun(map[], Sets(kvs)) && forall k :: k in KeysOf(kvs) ==> Hash(k) != 0
    ensures forall k :: k in m ==> Hash(k) != 0
  {
    MapOfSets(map[], kvs, [], None);
    assert m.Keys == KeysOf(kvs);
  }

  /** The table after a first load and that many reloads. */
  function Loaded(size: int, kvs: seq<Pair>, times: nat): (r: Table)
    requires Divisible(New(size))
    ensures Inv(r) && Divisible(r)
    decreases times
  {
    if times == 0 then Run(New(size), Sets(kvs)) else Run(Loaded(size, kvs, times - 1), Reload(kvs))
  }

  lemma RunOn(t: Table, a: seq<Op>, b: seq<Op>, r: Table)
    requires Inv(t) && Defined(t, a) && r == Run(t, a) && Defined(r, b)
    ensures Defined(t, a + b) && Run(t, a + b) == Run(r, b)
  {
    RunAppend(t, a, b);
  }

  lemma {:induction false} LoadedIsRun(size: int, kvs: seq<Pair>, times: nat)
    requires Divisible(New(size))
    ensures Loaded(size, kvs, times) == Run(New(size), Loads(kvs, times))
    decreases times
  {
    if times > 0 {
      LoadedIsRun(size, kvs, times - 1);
      RunOn(New(size), Loads(kvs, times - 1), Reload(kvs), Loaded(size, kvs, times - 1));
    }
  }

  /** c added up `times` times. */
  function Sum(c: nat, times: nat): nat {
    if times == 0 then 0 else Sum(c, times - 1) + c
  }

  lemma {:induction false} SumIsProduct(c: nat, times: nat)
    ensures Sum(c, times) == times * c
  {
    if times > 0 {
      SumIsProduct(c, times - 1);
      assert times * c == (times - 1) * c + c;
    }
  }

  lemma ReloadLoaded(t: Table, kvs: seq<Pair>)
    requires Inv(t) && WholePointers(t) && Contents(t.slots) == MapRun(map[], Sets(kvs))
    requires forall k :: k in KeysOf(kvs) ==> Hash(k) != 0
    ensures Defined(t, Reload(kvs))
    ensures Run(t, Reload(kvs)).n == t.n + |KeysOf(kvs)|
    ensures Contents(Run(t, Reload(kvs)).slots) == MapRun(map[], Sets(kvs))
  {
    LoadedKeys(kvs, Contents(t.slots));
    ReloadCountsAll(t, kvs);
  }

  lemma {:induction false} LoadsAddUp(size: int, kvs: seq<Pair>, times: nat)
    requires Divisible(New(size)) && forall k :: k in KeysOf(kvs) ==> Hash(k) != 0
    ensures var r := Loaded(size, kvs, times);
            r.n == Sum(|KeysOf(kvs)|, times + 1) && Contents(r.slots) == MapRun(map[], Sets(kvs))
    decreases times
  {
    if times == 0 {
      FirstLoad(size, kvs);
    } else {
      LoadsAddUp(size, kvs, times - 1);
      ReloadLoaded(Loaded(size, kvs, times - 1), kvs);
    }
  }

  lemma {:induction false} LoadsHaveNoUnset(kvs: seq<Pair>, times: nat)
    ensures NoUnset(Loads(kvs, times))
  {
    if times > 0 {
      LoadsHaveNoUnset(kvs, times - 1);
    }
  }

  /** A dictionary filled once and reloaded from the same unchanging source, none of whose keys
      hashes to zero, keeps the same map, but its counter grows by the number of keys with every
      reload. The size has to hold the counter, and once it has grown is below twice the counter. */
  lemma ReloadsGrow(size: int, kvs: seq<Pair>, times: nat)
    requires Divisible(New(size)) && forall k :: k in KeysOf(kvs) ==> Hash(k) != 0
    ensures var r := Run(New(size), Loads(kvs, times));
            && Contents(r.slots) == MapRun(map[], Sets(kvs))
            && r.n == (times + 1) * |KeysOf(kvs)|
            && r.n <= |r.slots|
            && (|r.slots| == |New(size).slots| || |r.slots| <= 2 * (r.n - 1))
  {
    LoadsAddUp(size, kvs, times);
    LoadedIsRun(size, kvs, times);
    SumIsProduct(|KeysOf(kvs)|, times + 1);
    LoadsHaveNoUnset(kvs, times);
    SizeWithoutUnset(New(size), Loads(kvs, times));
  }

  // ---- What reloads leak ----

  function Min(a: nat, b: nat): nat { if a < b then a else b }

  /** Without unsets the occupied slots are a band below the counter: those before `lo` have been
      wiped, those from the counter on have not been reached. */
  predicate Banded(t: Table, lo: nat) {
    && lo <= t.n <= |t.slots|
    && forall i :: 0 <= i < |t.slots| ==> (Occupied(t.slots[i]) <==> lo <= i < t.n)
  }

  /** Where the band begins after an operation. */
  function BandAfter(t: Table, lo: nat, op: Op): nat {
    if op.DoClear? then Max(lo, Min(WipedPrefix(|t.slots|), t.n)) else lo
  }

  lemma BandedSet(t: Table, lo: nat, k: CString, v: Option<CString>)
    requires Inv(t) && Banded(t, lo)
    ensures Banded(Set(t, k, v), lo)
  {
    SetWritesOneSlot(t, k, v);
    if k !in Contents(t.slots) {
      GrowKeeps(t);
      assert forall i :: |t.slots| <= i < |Grow(t).slots| ==> Grow(t).slots[i] == EMPTY;
      assert !Occupied(Grow(t).slots[t.n]);
    } else {
      LookupIsContents(t.slots, k);
    }
  }

  lemma BandedStep(t: Table, lo: nat, op: Op)
    requires Inv(t) && Banded(t, lo) && !op.DoUnset? && (op.DoClear? ==> WholePointers(t))
    ensures Banded(Step(t, op), BandAfter(t, lo, op))
  {
    match op
    case DoSet(k, v) => BandedSet(t, lo, k, v);
    case DoGet(_, _) =>
    case DoClear =>
  }

  lemma {:induction false} BandedRunOfSets(t: Table, lo: nat, ops: seq<Op>)
    requires Inv(t) && Banded(t, lo) && OnlySetsAndGets(ops)
    ensures Banded(Run(t, ops), lo)
    decreases |ops|
  {
    if ops != [] {
      BandedStep(t, lo, ops[0]);
      BandedRunOfSets(Step(t, ops[0]), lo, ops[1..]);
    }
  }

  lemma {:induction false} BandOccupies(s: seq<Slot>, lo: nat, hi: nat)
    requires lo <= hi <= |s| && forall i :: 0 <= i < |s| ==> (Occupied(s[i]) <==> lo <= i < hi)
    ensures Occ(s) == hi - lo
    decreases |s|
  {
    if s != [] {
      var last := |s| - 1;
      if hi < |s| {
        BandOccupies(s[..last], lo, hi);
      } else if lo < hi {
        BandOccupies(s[..last], lo, hi - 1);
      } else {
        OccNone(s);
      }
    }
  }

  /** Where the band begins when the table is cleared next. */
  function Cleared(t: Table): nat {
    Min(WipedPrefix(|t.slots|), t.n)
  }

  /** Where it begins after the reloads: the last clear decides. */
  function LoadedBand(size: int, kvs: seq<Pair>, times: nat): nat
    requires Divisible(New(size))
  {
    if times == 0 then 0 else Cleared(Loaded(size, kvs, times - 1))
  }

  lemma QuotientsKeepOrder(a: nat, b: nat, w: nat)
    requires w >= 1 && a <= b
    ensures a / w <= b / w
  {
    var p: int, q: int := a / w, b / w;
    assert a == w * p + a % w && b == w * q + b % w;
    assert b - a == w * (q - p) + (b % w - a % w);
    MulBounds(w, q - p);
  }

  lemma PrefixGrows(a: nat, b: nat)
    requires a <= b
    ensures WipedPrefix(a) <= WipedPrefix(b)
  {
    QuotientsKeepOrder(a, b, PTR_WIDTH);
  }

  lemma BandedReload(t: Table, lo: nat, kvs: seq<Pair>)
    requires Inv(t) && WholePointers(t) && Banded(t, lo) && lo <= Cleared(t)
    ensures Defined(t, Reload(kvs)) && Banded(Run(t, Reload(kvs)), Cleared(t))
  {
    BandedStep(t, lo, DoClear);
    ReloadRun(t, kvs);
    BandedRunOfSets(Step(t, DoClear), Cleared(t), Sets(kvs));
  }

  lemma ReloadRaises(t: Table, kvs: seq<Pair>)
    requires Inv(t) && Divisible(t)
    ensures Cleared(t) <= Cleared(Run(t, Reload(kvs)))
  {
    SizeWithoutUnset(t, Reload(kvs));
    PrefixGrows(|t.slots|, |Run(t, Reload(kvs)).slots|);
  }

  lemma {:induction false} LoadsAreBanded(size: int, kvs: seq<Pair>, times: nat)
    requires Divisible(New(size))
    ensures LoadedBand(size, kvs, times) <= Cleared(Loaded(size, kvs, times))
    ensures Banded(Loaded(size, kvs, times), LoadedBand(size, kvs, times))
    decreases times
  {
    if times == 0 {
      BandedRunOfSets(New(size), 0, Sets(kvs));
    } else {
      LoadsAreBanded(size, kvs, times - 1);
      BandedReload(Loaded(size, kvs, times - 1), LoadedBand(size, kvs, times - 1), kvs);
      ReloadRaises(Loaded(size, kvs, times - 1), kvs);
    }
  }

  predicate AllValued(s: seq<Slot>) {
    forall i :: 0 <= i < |s| && Occupied(s[i]) ==> s[i].val.Some?
  }

  lemma {:induction false} ValuesPerKey(s: seq<Slot>)
    requires Zeroed(s)
    ensures Vals(s) <= Occ(s)
    ensures AllValued(s) ==> Vals(s) == Occ(s)
  {
    if s != [] {
      ValuesPerKey(s[..|s| - 1]);
    }
  }

  /** Each wiped key leaks one block, and its value another unless it is NULL. */
  lemma {:induction false} LeakedPerWiped(t: Table, ops: seq<Op>)
    requires Inv(t) && Defined(t, ops)
    ensures Wiped(t, ops) <= Leaked(t, ops) <= 2 * Wiped(t, ops)
    decreases |ops|
  {
    if ops != [] {
      if ops[0].DoClear? {
        ValuesPerKey(t.slots[..WipedPrefix(|t.slots|)]);
      }
      LeakedPerWiped(Step(t, ops[0]), ops[1..]);
    }
  }

  lemma StepStaysValued(t: Table, op: Op)
    requires Inv(t) && AllValued(t.slots) && (op.DoClear? ==> WholePointers(t)) && (op.DoSet? ==> op.v.Some?)
    ensures AllValued(Step(t, op).slots)
  {
    if op.DoSet? {
      SetWritesOneSlot(t, op.k, op.v);
      if op.k !in Contents(t.slots) {
        assert forall i :: |t.slots| <= i < |Grow(t).slots| ==> Grow(t).slots[i] == EMPTY;
      }
    }
  }

  lemma {:induction false} LeakedTwicePerWiped(t: Table, ops: seq<Op>)
    requires Inv(t) && Defined(t, ops) && AllValued(t.slots)
    requires forall i :: 0 <= i < |ops| && ops[i].DoSet? ==> ops[i].v.Some?
    ensures Leaked(t, ops) == 2 * Wiped(t, ops)
    decreases |ops|
  {
    if ops != [] {
      if ops[0].DoClear? {
        ValuesPerKey(t.slots[..WipedPrefix(|t.slots|)]);
      }
      StepStaysValued(t, ops[0]);
      LeakedTwicePerWiped(Step(t, ops[0]), ops[1..]);
    }
  }

  /** No value of the list is NULL. */
  predicate AllGiven(kvs: seq<Pair>) {
    forall i :: 0 <= i < |kvs| ==> kvs[i].1.Some?
  }

  lemma {:induction false} LoadsAreValued(kvs: seq<Pair>, times: nat)
    requires AllGiven(kvs)
    ensures forall i :: 0 <= i < |Loads(kvs, times)| && Loads(kvs, times)[i].DoSet? ==> Loads(kvs, times)[i].v.Some?
  {
    if times > 0 {
      LoadsAreValued(kvs, times - 1);
    }
  }

  lemma WipedBelowBand(t: Table, ops: seq<Op>, lo: nat)
    requires Inv(t) && Defined(t, ops) && t.n == 0 && Banded(Run(t, ops), lo)
    ensures Wiped(t, ops) == lo
  {
    CounterCountsWiped(t, ops);
    BandOccupies(Run(t, ops).slots, lo, Run(t, ops).n);
    OccNone(t.slots);
  }

  lemma LoadsEndBanded(size: int, kvs: seq<Pair>, times: nat)
    requires Divisible(New(size))
    ensures Banded(Run(New(size), Loads(kvs, times)), LoadedBand(size, kvs, times))
  {
    LoadsAreBanded(size, kvs, times);
    LoadedIsRun(size, kvs, times);
  }

  lemma LoadsWipe(size: int, kvs: seq<Pair>, times: nat)
    requires Divisible(New(size))
    ensures Wiped(New(size), Loads(kvs, times)) == LoadedBand(size, kvs, times)
  {
    LoadsEndBanded(size, kvs, times);
    WipedBelowBand(New(size), Loads(kvs, times), LoadedBand(size, kvs, times));
  }

  lemma BandOfLastClear(size: int, kvs: seq<Pair>, times: nat)
    requires Divisible(New(size)) && times > 0
    ensures LoadedBand(size, kvs, times) == Cleared(Run(New(size), Loads(kvs, times - 1)))
  {
    LoadedIsRun(size, kvs, times - 1);
  }

  lemma LoadsLeak(size: int, kvs: seq<Pair>, times: nat)
    requires Divisible(New(size))
    ensures var wiped, leaked := Wiped(New(size), Loads(kvs, times)), Leaked(New(size), Loads(kvs, times));
            wiped <= leaked <= 2 * wiped && (AllGiven(kvs) ==> leaked == 2 * wiped)
  {
    LeakedPerWiped(New(size), Loads(kvs, times));
    if AllGiven(kvs) {
      LoadsAreValued(kvs, times);
      LeakedTwicePerWiped(New(size), Loads(kvs, times));
    }
  }

  /** The reloads leak exactly the keys in the prefix that the last clear wiped, up to its counter,
      and with each key its value unless that is NULL. The other stale strings stay in the table. */
  lemma ReloadsLeak(size: int, kvs: seq<Pair>, times: nat)
    requires Divisible(New(size)) && times > 0
    ensures var before := Run(New(size), Loads(kvs, times - 1));
            var wiped, leaked := Wiped(New(size), Loads(kvs, times)), Leaked(New(size), Loads(kvs, times));
            && wiped == Min(|before.slots| / PTR_WIDTH, before.n)
            && wiped <= leaked <= 2 * wiped
            && (AllGiven(kvs) ==> leaked == 2 * wiped)
  {
    LoadsWipe(size, kvs, times);
    BandOfLastClear(size, kvs, times);
    LoadsLeak(size, kvs, times);
  }
}
