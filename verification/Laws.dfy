/** Laws of the operations, slot for slot, and what a run of sets leaves in the table. */
module Laws {
  import opened CStrings
  import opened KeyHash
  import opened SlotTable
  import opened TableSteps
  import opened Dumps
  import opened Runs
  import opened Accounting

  // ---- Undoing and repeating a set ----

  /** The slots a set of k writes into, and the index it writes at, whatever the value. */
  function Base(t: Table, k: CString): seq<Slot> {
    if k in Contents(t.slots) then t.slots else Grow(t).slots
  }

  function Place(t: Table, k: CString): nat
    requires Inv(t)
  {
    if k in Contents(t.slots) then Find(t.slots, k) else GrowKeeps(t); Probe(Grow(t).slots, t.n)
  }

  /** A set writes one slot, which is empty or held the key, and a search finds it there. */
  lemma SetWritesOneSlot(t: Table, k: CString, v: Option<CString>)
    requires Inv(t)
    ensures var i, s := Place(t, k), Base(t, k);
            && i < |s|
            && (k !in Contents(t.slots) ==> s[i] == EMPTY)
            && Set(t, k, v) == Table(t.n + (if k in Contents(t.slots) then 0 else 1), s[i := Slot(Some(k), v, Hash(k))])
            && Find(s[i := Slot(Some(k), v, Hash(k))], k) == i
  {
    SetKeeps(t, k, v);
    SearchIsNotMissed(t, k);
    LookupIsContents(t.slots, k);
    if k !in Contents(t.slots) {
      GrowKeeps(t);
      InsertionSlot(Grow(t));
    }
    MatchDecides(Set(t, k, v).slots, k, Place(t, k));
  }

  /** Setting an absent key and unsetting it restores the table slot for slot and the counter; if
      the set doubled the table, the old one is its lower half and the upper half is all zero. */
  lemma UnsetUndoesSet(t: Table, k: CString, v: Option<CString>)
    requires Inv(t) && k !in Contents(t.slots)
    ensures Step(Step(t, DoSet(k, v)), DoUnset(k))
         == if t.n == |t.slots| then Table(t.n, t.slots + Empties(|t.slots|)) else t
  {
    SetWritesOneSlot(t, k, v);
  }

  /** The last of two sets of one key decides the whole table. */
  lemma LastSetWins(t: Table, k: CString, v: Option<CString>, w: Option<CString>)
    requires Inv(t)
    ensures Step(Step(t, DoSet(k, v)), DoSet(k, w)) == Step(t, DoSet(k, w))
  {
    SetKeeps(t, k, v);
    SetWritesOneSlot(t, k, v);
    SetWritesOneSlot(t, k, w);
    var r := Set(t, k, v);
    assert k in Contents(r.slots);
    SetWritesOneSlot(r, k, w);
    var s, i, x, y := Base(t, k), Place(t, k), Slot(Some(k), v, Hash(k)), Slot(Some(k), w, Hash(k));
    assert Set(r, k, w) == Table(r.n, s[i := x][i := y]);
    assert s[i := x][i := y] == s[i := y];
  }

  /** Setting a key to NULL is not unsetting it, whatever the header says of the two: the binding
      stays and is counted, and a get tells them apart exactly when its default is not NULL. */
  lemma SetNullIsNotUnset(t: Table, k: CString, def: Option<CString>)
    requires Inv(t)
    ensures var s, u := Step(t, DoSet(k, None)), Step(t, DoUnset(k));
            && s.n == u.n + 1
            && (Get(s, k, def) == Get(u, k, def) <==> def == None)
  {
    SetKeeps(t, k, None);
    UnsetKeeps(t, k);
    GetIsMapGet(Set(t, k, None), k, def);
    GetIsMapGet(Unset(t, k), k, def);
  }

  // ---- The generalised self-test ----

  /** In every state reached from a new dictionary without a clear, the counter is the number of
      bindings, and when it is zero every slot is zero. */
  lemma CounterIsExact(size: int, ops: seq<Op>)
    requires NoClear(ops)
    ensures var r := Run(New(size), ops);
            && r.n == |MapRun(map[], ops)|
            && (r.n == 0 <==> forall i :: 0 <= i < |r.slots| ==> r.slots[i] == EMPTY)
  {
    var t := New(size);
    NewIsEmpty(size);
    RunRefinesMap(t, ops);
    CounterCountsDropped(t, ops);
    NothingDropped(t, ops);
    RunStaysStrict(t, ops);
    OccNone(Run(t, ops).slots);
  }

  lemma {:induction false} NothingDropped(t: Table, ops: seq<Op>)
    requires Inv(t) && NoClear(ops)
    ensures Dropped(t, ops) == 0
    decreases |ops|
  {
    if ops != [] {
      NothingDropped(Step(t, ops[0]), ops[1..]);
    }
  }

  type Pair = (CString, Option<CString>)

  function Sets(kvs: seq<Pair>): (ops: seq<Op>)
    ensures |ops| == |kvs| && forall i :: 0 <= i < |kvs| ==> ops[i] == DoSet(kvs[i].0, kvs[i].1)
  {
    seq(|kvs|, i requires 0 <= i < |kvs| => DoSet(kvs[i].0, kvs[i].1))
  }

  function Unsets(ks: seq<CString>): (ops: seq<Op>)
    ensures |ops| == |ks| && forall i :: 0 <= i < |ks| ==> ops[i] == DoUnset(ks[i])
  {
    seq(|ks|, i requires 0 <= i < |ks| => DoUnset(ks[i]))
  }

  function KeysOf(kvs: seq<Pair>): set<CString> {
    set i | 0 <= i < |kvs| :: kvs[i].0
  }

  /** The value that was given to k last, or the default. */
  function LastValue(kvs: seq<Pair>, k: CString, def: Option<CString>): Option<CString> {
    if kvs == [] then def
    else if kvs[|kvs| - 1].0 == k then kvs[|kvs| - 1].1
    else LastValue(kvs[..|kvs| - 1], k, def)
  }

  lemma {:induction false} MapRunAppend(m: Bindings, a: seq<Op>, b: seq<Op>)
    ensures MapRun(m, a + b) == MapRun(MapRun(m, a), b)
    decreases |a|
  {
    if a == [] {
      assert a + b == b;
    } else {
      assert (a + b)[1..] == a[1..] + b;
      MapRunAppend(MapStep(m, a[0]), a[1..], b);
    }
  }

  lemma {:induction false} MapOfSets(m: Bindings, kvs: seq<Pair>, k: CString, def: Option<CString>)
    ensures MapRun(m, Sets(kvs)).Keys == m.Keys + KeysOf(kvs)
    ensures MapGet(MapRun(m, Sets(kvs)), k, def) == LastValue(kvs, k, MapGet(m, k, def))
    decreases |kvs|
  {
    if kvs != [] {
      var init, last := kvs[..|kvs| - 1], kvs[|kvs| - 1];
      var op := DoSet(last.0, last.1);
      assert Sets(kvs) == Sets(init) + [op];
      MapRunAppend(m, Sets(init), [op]);
      var before := MapRun(m, Sets(init));
      assert MapRun(before, [op]) == before[last.0 := last.1];
      MapOfSets(m, init, k, def);
      assert KeysOf(kvs) == KeysOf(init) + {last.0};
    }
  }

  lemma {:induction false} MapOfUnsets(m: Bindings, ks: seq<CString>)
    ensures MapRun(m, Unsets(ks)) == m - (set i | 0 <= i < |ks| :: ks[i])
    decreases |ks|
  {
    if ks != [] {
      assert Unsets(ks)[1..] == Unsets(ks[1..]);
      MapOfUnsets(m - {ks[0]}, ks[1..]);
      assert (set i | 0 <= i < |ks| :: ks[i]) == {ks[0]} + (set i | 0 <= i < |ks[1..]| :: ks[1..][i]);
    }
  }

  lemma UnsettingAllKeys(m: Bindings, ks: seq<CString>)
    requires forall k :: k in m ==> k in ks
    ensures MapRun(m, Unsets(ks)) == map[]
  {
    MapOfUnsets(m, ks);
  }

  /** After setting any list of keys, with repeats and any number of growths, the counter is the
      number of distinct keys and a get returns the value set last. */
  lemma SetsThenGet(size: int, kvs: seq<Pair>, k: CString, def: Option<CString>)
    ensures var r := Run(New(size), Sets(kvs));
            r.n == |KeysOf(kvs)| && Get(r, k, def) == LastValue(kvs, k, def)
  {
    var ops := Sets(kvs);
    CounterIsExact(size, ops);
    MapOfSets(map[], kvs, k, def);
    assert |MapRun(map[], ops)| == |MapRun(map[], ops).Keys|;
    NewIsEmpty(size);
    RunRefinesMap(New(size), ops);
    GetIsMapGet(Run(New(size), ops), k, def);
  }

  lemma SetsThenUnsetsMap(kvs: seq<Pair>, ks: seq<CString>)
    requires forall k :: k in KeysOf(kvs) ==> k in ks
    ensures MapRun(map[], Sets(kvs) + Unsets(ks)) == map[]
  {
    MapRunAppend(map[], Sets(kvs), Unsets(ks));
    MapOfSets(map[], kvs, [], None);
    UnsettingAllKeys(MapRun(map[], Sets(kvs)), ks);
  }

  /** Unsetting them all, in any order, leaves the counter at zero and every slot zero. */
  lemma SetsThenUnsets(size: int, kvs: seq<Pair>, ks: seq<CString>)
    requires forall k :: k in KeysOf(kvs) ==> k in ks
    ensures var r := Run(New(size), Sets(kvs) + Unsets(ks));
            r.n == 0 && forall i :: 0 <= i < |r.slots| ==> r.slots[i] == EMPTY
  {
    CounterIsExact(size, Sets(kvs) + Unsets(ks));
    SetsThenUnsetsMap(kvs, ks);
  }

  // ---- The last write decides ----

  /** The operations that decide what a get of k finds from then on. */
  predicate Writes(op: Op, k: CString) {
    op.DoClear? || ((op.DoSet? || op.DoUnset?) && op.k == k)
  }

  lemma {:induction false} MapUnwritten(m: Bindings, ops: seq<Op>, k: CString)
    requires forall i :: 0 <= i < |ops| ==> !Writes(ops[i], k)
    ensures k in MapRun(m, ops) <==> k in m
    ensures k in m ==> MapRun(m, ops)[k] == m[k]
    decreases |ops|
  {
    if ops != [] {
      assert !Writes(ops[0], k);
      MapUnwritten(MapStep(m, ops[0]), ops[1..], k);
    }
  }

  lemma MapLastWrite(m: Bindings, ops: seq<Op>, i: nat, k: CString, def: Option<CString>)
    requires i < |ops| && Writes(ops[i], k) && forall j :: i < j < |ops| ==> !Writes(ops[j], k)
    ensures MapGet(MapRun(m, ops), k, def) == match ops[i] case DoSet(_, v) => v case _ => def
  {
    var before, after := ops[..i], ops[i + 1..];
    assert ops == before + ([ops[i]] + after);
    MapRunAppend(m, before, [ops[i]] + after);
    assert ([ops[i]] + after)[1..] == after;
    MapUnwritten(MapStep(MapRun(m, before), ops[i]), after, k);
  }

  /** After any run from any reachable state, whose clears leave nothing, a get returns the value of
      the last set of its key, or the default if an unset of the key or a clear came last. */
  lemma GetSeesLastWrite(t: Table, ops: seq<Op>, i: nat, k: CString, def: Option<CString>)
    requires Inv(t) && Defined(t, ops) && ClearsLeaveNothing(t, ops)
    requires i < |ops| && Writes(ops[i], k) && forall j :: i < j < |ops| ==> !Writes(ops[j], k)
    ensures Get(Run(t, ops), k, def) == match ops[i] case DoSet(_, v) => v case _ => def
  {
    RunRefinesMap(t, ops);
    MapLastWrite(Contents(t.slots), ops, i, k, def);
    GetIsMapGet(Run(t, ops), k, def);
  }

  /** A run that never writes the key leaves what a get of it returns. */
  lemma GetUnwritten(t: Table, ops: seq<Op>, k: CString, def: Option<CString>)
    requires Inv(t) && forall i :: 0 <= i < |ops| ==> !Writes(ops[i], k)
    ensures NoClear(ops) && Get(Run(t, ops), k, def) == Get(t, k, def)
  {
    assert forall i :: 0 <= i < |ops| ==> !Writes(ops[i], k) ==> !ops[i].DoClear?;
    RunRefinesMap(t, ops);
    MapUnwritten(Contents(t.slots), ops, k);
    GetIsMapGet(Run(t, ops), k, def);
    GetIsMapGet(t, k, def);
  }

  // ---- Insertion order ----

  predicate OnlySetsAndGets(ops: seq<Op>) {
    forall i :: 0 <= i < |ops| ==> ops[i].DoSet? || ops[i].DoGet?
  }

  /** The keys in the order of their first insertion, after those in `ks`. */
  function FirstKeys(ks: seq<CString>, ops: seq<Op>): seq<CString>
    decreases |ops|
  {
    if ops == [] then ks
    else FirstKeys(if ops[0].DoSet? && ops[0].k !in ks then ks + [ops[0].k] else ks, ops[1..])
  }

  /** The occupied slots are the first n, and hold these keys in this order. */
  predicate Packed(t: Table, ks: seq<CString>) {
    && t.n == |ks| <= |t.slots|
    && (forall i :: 0 <= i < |ks| ==> Matches(t.slots[i], ks[i]))
    && (forall i :: |ks| <= i < |t.slots| ==> !Occupied(t.slots[i]))
  }

  lemma PackedContents(t: Table, ks: seq<CString>, k: CString)
    requires Inv(t) && Packed(t, ks)
    ensures k in Contents(t.slots) <==> k in ks
    ensures k in ks ==> Find(t.slots, k) < |ks| && ks[Find(t.slots, k)] == k
  {
    LookupIsContents(t.slots, k);
    if k in ks {
      var i :| 0 <= i < |ks| && ks[i] == k;
      MatchDecides(t.slots, k, i);
    }
  }

  /** On a packed table the probe takes no step, even when the set grows the table first. */
  lemma PackedProbe(t: Table, ks: seq<CString>)
    requires Inv(t) && Packed(t, ks)
    ensures Packed(Grow(t), ks) && Probe(Grow(t).slots, t.n) == t.n
  {
    GrowKeeps(t);
    var g := Grow(t);
    assert forall i :: |t.slots| <= i < |g.slots| ==> g.slots[i] == EMPTY;
  }

  lemma PackedSet(t: Table, ks: seq<CString>, k: CString, v: Option<CString>)
    requires Inv(t) && Packed(t, ks)
    ensures Packed(Set(t, k, v), if k in ks then ks else ks + [k])
  {
    PackedContents(t, ks, k);
    SetWritesOneSlot(t, k, v);
    if k !in ks {
      PackedProbe(t, ks);
    }
  }

  lemma {:induction false} PackedRun(t: Table, ks: seq<CString>, ops: seq<Op>)
    requires Inv(t) && Packed(t, ks) && OnlySetsAndGets(ops)
    ensures Packed(Run(t, ops), FirstKeys(ks, ops))
    decreases |ops|
  {
    if ops != [] {
      var op := ops[0];
      if op.DoSet? {
        PackedSet(t, ks, op.k, op.v);
        PackedRun(Step(t, op), if op.k in ks then ks else ks + [op.k], ops[1..]);
      } else {
        PackedRun(t, ks, ops[1..]);
      }
    }
  }

  lemma {:induction false} FirstKeysAreDistinct(ks: seq<CString>, ops: seq<Op>)
    requires forall i, j :: 0 <= i < j < |ks| ==> ks[i] != ks[j]
    ensures forall i, j :: 0 <= i < j < |FirstKeys(ks, ops)| ==> FirstKeys(ks, ops)[i] != FirstKeys(ks, ops)[j]
    decreases |ops|
  {
    if ops != [] {
      FirstKeysAreDistinct(if ops[0].DoSet? && ops[0].k !in ks then ks + [ops[0].k] else ks, ops[1..]);
    }
  }

  lemma PackedDump(t: Table, ks: seq<CString>)
    requires Inv(t) && Packed(t, ks)
    ensures |Entries(t.slots)| == |ks|
    ensures forall i :: 0 <= i < |ks| ==>
              ks[i] in Contents(t.slots) && Entries(t.slots)[i] == Entry(ks[i], Shown(Contents(t.slots)[ks[i]]))
  {
    EntriesOfPrefix(t.slots, ks);
    forall i | 0 <= i < |ks|
      ensures ks[i] in Contents(t.slots) && t.slots[i].val == Contents(t.slots)[ks[i]]
    {
      MatchDecides(t.slots, ks[i], i);
      LookupIsContents(t.slots, ks[i]);
    }
  }

  lemma DumpOfPacked(t: Table, ks: seq<CString>, m: Bindings)
    requires Inv(t) && Packed(t, ks) && Contents(t.slots) == m
    ensures forall k :: k in ks <==> k in m
    ensures ks == [] ==> DumpOf(t) == [NothingToShow]
    ensures ks != [] ==> |DumpOf(t)| == |ks|
    ensures ks != [] ==> forall i :: 0 <= i < |ks| ==>
              DumpOf(t)[i] == Entry(ks[i], if m[ks[i]].Some? then m[ks[i]].value else [0x55, 0x4E, 0x44, 0x45, 0x46])
  {
    PackedDump(t, ks);
    forall k: CString
      ensures k in ks <==> k in m
    {
      PackedContents(t, ks, k);
    }
  }

  /** A dump after a run of sets and gets has a line for each key once, in the order of first
      insertion, with its latest value, whatever growths there were. */
  lemma DumpIsInInsertionOrder(size: int, ops: seq<Op>)
    requires OnlySetsAndGets(ops)
    ensures var ks, m, out := FirstKeys([], ops), MapRun(map[], ops), DumpOf(Run(New(size), ops));
            && (forall i, j :: 0 <= i < j < |ks| ==> ks[i] != ks[j])
            && (forall k :: k in ks <==> k in m)
            && (ks == [] ==> out == [NothingToShow])
            && (ks != [] ==> |out| == |ks|)
            && (ks != [] ==> forall i :: 0 <= i < |ks| ==>
                  out[i] == Entry(ks[i], if m[ks[i]].Some? then m[ks[i]].value else [0x55, 0x4E, 0x44, 0x45, 0x46]))
  {
    NewIsEmpty(size);
    PackedRun(New(size), [], ops);
    FirstKeysAreDistinct([], ops);
    RunRefinesMap(New(size), ops);
    DumpOfPacked(Run(New(size), ops), FirstKeys([], ops), MapRun(map[], ops));
  }
}
