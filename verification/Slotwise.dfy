/** The operations slot for slot: the fields of every slot afterwards, from those before. */
module Slotwise {
  import opened CStrings
  import opened KeyHash
  import opened SlotTable
  import opened TableSteps
  import opened Dumps
  import opened Runs
  import opened Accounting
  import opened Laws

  // ---- One operation ----

  /** A new table has as many slots as were asked for, but 128 at least, and all are zero. */
  lemma NewSlots(size: int)
    ensures New(size).n == 0 && |New(size).slots| == if size < 128 then 128 else size
    ensures forall i :: 0 <= i < |New(size).slots| ==> New(size).slots[i] == Slot(None, None, 0)
  {
  }

  /** A get returns the value of the first slot with that key and its hash, else the default. */
  lemma GetSlots(t: Table, k: CString, def: Option<CString>, i: nat)
    requires i <= |t.slots|
    requires forall j :: 0 <= j < i ==> t.slots[j].key != Some(k) || t.slots[j].hash != Hash(k)
    requires i < |t.slots| ==> t.slots[i].key == Some(k) && t.slots[i].hash == Hash(k)
    ensures Get(t, k, def) == if i < |t.slots| then t.slots[i].val else def
  {
  }

  /** A set of a key that is found writes the value of that slot, and nothing else. */
  lemma SetFoundSlots(t: Table, k: CString, v: Option<CString>, i: nat)
    requires Inv(t) && i < |t.slots| && t.slots[i].key == Some(k) && t.slots[i].hash == Hash(k)
    ensures Set(t, k, v).n == t.n && |Set(t, k, v).slots| == |t.slots|
    ensures forall j :: 0 <= j < |t.slots| ==>
              Set(t, k, v).slots[j] == if j == i then Slot(Some(k), v, Hash(k)) else t.slots[j]
  {
    SearchIsNotMissed(t, k);
    MatchDecides(t.slots, k, i);
  }

  lemma NotFound(t: Table, k: CString)
    requires forall i :: 0 <= i < |t.slots| ==> t.slots[i].key != Some(k) || t.slots[i].hash != Hash(k)
    ensures k !in Contents(t.slots)
  {
    LookupIsContents(t.slots, k);
  }

  lemma GrownSlots(t: Table)
    requires Inv(t)
    ensures |Grow(t).slots| == if t.n < |t.slots| then |t.slots| else 2 * |t.slots|
    ensures forall j :: 0 <= j < |t.slots| ==> Grow(t).slots[j] == t.slots[j]
    ensures forall j :: |t.slots| <= j < |Grow(t).slots| ==> Grow(t).slots[j] == Slot(None, None, 0)
  {
  }

  lemma AbsentPlace(t: Table, k: CString, v: Option<CString>) returns (p: nat)
    requires Inv(t) && k !in Contents(t.slots)
    ensures p < |Grow(t).slots| && Grow(t).slots[p] == EMPTY
    ensures forall j :: 0 <= j < |Grow(t).slots| && MetBefore(t.n, j, p) ==> Occupied(Grow(t).slots[j])
    ensures Set(t, k, v) == Table(t.n + 1, Grow(t).slots[p := Slot(Some(k), v, Hash(k))])
  {
    GrowKeeps(t);
    InsertionSlot(Grow(t));
    SetWritesOneSlot(t, k, v);
    p := Probe(Grow(t).slots, t.n);
  }

  /** A set of a key that is not found doubles a table whose counter is at the size. It then fills
      slot p, the first one without a key in cyclic order from the counter, and nothing else. */
  lemma SetAbsentSlots(t: Table, k: CString, v: Option<CString>) returns (p: nat)
    requires Inv(t)
    requires forall i :: 0 <= i < |t.slots| ==> t.slots[i].key != Some(k) || t.slots[i].hash != Hash(k)
    ensures Set(t, k, v).n == t.n + 1
    ensures |Set(t, k, v).slots| == if t.n < |t.slots| then |t.slots| else 2 * |t.slots|
    ensures p < |Set(t, k, v).slots| && Set(t, k, v).slots[p] == Slot(Some(k), v, Hash(k))
    ensures forall j :: 0 <= j < |t.slots| && j != p ==> Set(t, k, v).slots[j] == t.slots[j]
    ensures forall j :: |t.slots| <= j < |Set(t, k, v).slots| && j != p ==> Set(t, k, v).slots[j] == Slot(None, None, 0)
    ensures t.n == |t.slots| ==> p == t.n
    ensures t.n < |t.slots| ==> p < |t.slots| && t.slots[p] == Slot(None, None, 0)
    ensures t.n < |t.slots| && t.n <= p ==> forall j :: t.n <= j < p ==> t.slots[j].key.Some?
    ensures p < t.n ==> forall j :: 0 <= j < p || t.n <= j < |t.slots| ==> t.slots[j].key.Some?
  {
    NotFound(t, k);
    GrownSlots(t);
    p := AbsentPlace(t, k, v);
    assert t.n == |t.slots| && p != t.n ==> MetBefore(t.n, t.n, p);
    forall j | 0 <= j < |t.slots| && MetBefore(t.n, j, p)
      ensures t.slots[j].key.Some?
    {
      assert Occupied(Grow(t).slots[j]);
    }
  }

  /** An unset zeroes the slot with that key and its hash, if there is one, and nothing else. */
  lemma UnsetSlots(t: Table, k: CString)
    requires Inv(t)
    ensures |Unset(t, k).slots| == |t.slots|
    ensures forall i :: 0 <= i < |t.slots| ==>
              Unset(t, k).slots[i]
              == if t.slots[i].key == Some(k) && t.slots[i].hash == Hash(k) then Slot(None, None, 0) else t.slots[i]
    ensures Unset(t, k).n
         == t.n - if exists i :: 0 <= i < |t.slots| && t.slots[i].key == Some(k) && t.slots[i].hash == Hash(k) then 1 else 0
  {
    var f := Find(t.slots, k);
    if f < |t.slots| {
      OccupiedCounts(t.slots, f);
      forall i | 0 <= i < |t.slots| && t.slots[i].key == Some(k) && t.slots[i].hash == Hash(k)
        ensures i == f
      {
        MatchDecides(t.slots, k, i);
      }
    }
  }

  /** A clear zeroes the key and the value of the slots whose pointers lie in the first `size`
      characters, and every hash. The other keys and values, the size and the counter stay. */
  lemma ClearSlots(t: Table)
    requires WholePointers(t)
    ensures Clear(t).n == t.n && |Clear(t).slots| == |t.slots|
    ensures forall i :: 0 <= i < |t.slots| ==>
              Clear(t).slots[i]
              == if (i + 1) * PTR_WIDTH <= |t.slots| then Slot(None, None, 0) else Slot(t.slots[i].key, t.slots[i].val, 0)
  {
    forall i | 0 <= i < |t.slots|
      ensures Clear(t).slots[i]
           == if (i + 1) * PTR_WIDTH <= |t.slots| then Slot(None, None, 0) else Slot(t.slots[i].key, t.slots[i].val, 0)
    {
      InPrefix(|t.slots|, i);
    }
  }

  lemma OneSet(k: CString, v: CString)
    ensures var r := Run(New(0), [DoSet(k, Some(v))]);
            r.n == 1 && |r.slots| == 128 && r.slots[0] == Slot(Some(k), Some(v), Hash(k))
            && forall i :: 1 <= i < 128 ==> r.slots[i] == Slot(None, None, 0)
  {
    NewSlots(0);
    var p := SetAbsentSlots(New(0), k, Some(v));
    RunCons(New(0), DoSet(k, Some(v)), []);
    assert [DoSet(k, Some(v))] + [] == [DoSet(k, Some(v))];
  }

  lemma {:induction false} FirstOnly(s: seq<Slot>)
    requires s != [] && s[0].key.Some? && s[0].val.Some?
    requires forall i :: 1 <= i < |s| ==> s[i] == EMPTY
    ensures Occ(s) == 1 && Vals(s) == 1
    ensures Entries(s) == [Entry(s[0].key.value, s[0].val.value)]
    decreases |s|
  {
    if |s| > 1 {
      FirstOnly(s[..|s| - 1]);
    } else {
      assert s[..0] == [];
    }
  }

  lemma OneCleared(t: Table)
    requires WholePointers(t) && t.n == 1 && |t.slots| == 128 && PTR_WIDTH <= 128
    requires t.slots[0].key.Some? && t.slots[0].val.Some? && forall i :: 1 <= i < 128 ==> t.slots[i] == EMPTY
    ensures DumpOf(Clear(t)) == [] && LeakedBy(t, DoClear) == 2
  {
    InPrefix(128, 0);
    FirstOnly(t.slots[..WipedPrefix(128)]);
    EntriesAreOccupied(Clear(t).slots, [], []);
    OccNone(Clear(t).slots);
  }

  /** An instance: one set, a clear and a dump of a default dictionary. The counter being 1, it is
      not reported as empty, but the line is gone, and both strings have leaked. */
  lemma OneSetClearedDumped(k: CString, v: CString)
    requires Divisible(New(0)) && PTR_WIDTH <= 128
    ensures var r := Run(New(0), [DoSet(k, Some(v))]);
            && DumpOf(r) == [Entry(k, v)]
            && DumpOf(Step(r, DoClear)) == []
            && LeakedBy(r, DoClear) == 2
  {
    var r := Run(New(0), [DoSet(k, Some(v))]);
    OneSet(k, v);
    FirstOnly(r.slots);
    OneCleared(r);
  }

  // ---- Runs of unsets ----

  /** Unsets in a row zero the slots with any of the keys and its hash, and nothing else. */
  lemma {:induction false} UnsetsSlots(t: Table, ks: seq<CString>)
    requires Inv(t)
    ensures |Run(t, Unsets(ks)).slots| == |t.slots|
    ensures forall i :: 0 <= i < |t.slots| ==>
              Run(t, Unsets(ks)).slots[i]
              == if Live(t.slots[i]) && t.slots[i].key.value in ks then Slot(None, None, 0) else t.slots[i]
    decreases |ks|
  {
    if ks != [] {
      assert Unsets(ks)[1..] == Unsets(ks[1..]);
      UnsetSlots(t, ks[0]);
      UnsetKeeps(t, ks[0]);
      UnsetsSlots(Unset(t, ks[0]), ks[1..]);
    }
  }

  lemma OccupiedBefore(s: seq<Slot>, i: nat, j: nat)
    requires i < j <= |s| && s[i].key.Some?
    ensures Occ(s[..i]) < Occ(s[..j])
  {
    assert s[..j][..i] == s[..i];
    EntryOfSlot(s[..j], i);
  }

  /** The slot still holds its key and value after unsets of these keys. */
  predicate Outlasts(x: Slot, ks: seq<CString>) {
    x.key.Some? && !(x.hash == Hash(x.key.value) && x.key.value in ks)
  }

  /** The lines of the remaining slots, stale ones included, stay as they were after any unsets in
      a row, and in the same order. */
  lemma UnsetsKeepOrder(t: Table, ks: seq<CString>, i: nat, j: nat)
    requires Inv(t) && i < j < |t.slots| && Outlasts(t.slots[i], ks) && Outlasts(t.slots[j], ks)
    ensures var r := Run(t, Unsets(ks));
            && |r.slots| == |t.slots|
            && Occ(r.slots[..i]) < Occ(r.slots[..j]) < |DumpOf(r)|
            && Occ(t.slots[..i]) < Occ(t.slots[..j]) < |DumpOf(t)|
            && DumpOf(r)[Occ(r.slots[..i])] == DumpOf(t)[Occ(t.slots[..i])]
            && DumpOf(r)[Occ(r.slots[..j])] == DumpOf(t)[Occ(t.slots[..j])]
  {
    var r := Run(t, Unsets(ks));
    UnsetsSlots(t, ks);
    OccNone(t.slots);
    OccNone(r.slots);
    OccupiedBefore(t.slots, i, j);
    OccupiedBefore(r.slots, i, j);
    assert r.slots[i] == t.slots[i] && r.slots[j] == t.slots[j];
    LineOfSlot(t, i);
    LineOfSlot(t, j);
    LineOfSlot(r, i);
    LineOfSlot(r, j);
  }

  /** The lines without those of the given keys. */
  function Without(lines: seq<Line>, ks: seq<CString>): seq<Line> {
    if lines == [] then []
    else
      var last := lines[|lines| - 1];
      Without(lines[..|lines| - 1], ks) + if last.Entry? && last.key in ks then [] else [last]
  }

  lemma WithoutNext(lines: seq<Line>, x: seq<Line>, ks: seq<CString>)
    requires |x| <= 1
    ensures Without(lines + x, ks) == Without(lines, ks) + Without(x, ks)
  {
    if x == [] {
      assert lines + x == lines;
    } else {
      assert (lines + x)[..|lines|] == lines;
      assert x[..0] == [];
    }
  }

  lemma {:induction false} EntriesWithout(s: seq<Slot>, r: seq<Slot>, ks: seq<CString>)
    requires |r| == |s|
    requires forall i :: 0 <= i < |s| ==> r[i] == if s[i].key.Some? && s[i].key.value in ks then EMPTY else s[i]
    ensures Entries(r) == Without(Entries(s), ks)
    decreases |s|
  {
    if s != [] {
      var m := |s| - 1;
      EntriesWithout(s[..m], r[..m], ks);
      WithoutNext(Entries(s[..m]), Entries(s)[|Entries(s[..m])|..], ks);
    }
  }

  /** In every state reached without a clear, unsets in a row take exactly the lines of their keys
      out of the dump, and leave the others as and where they are. */
  lemma UnsetsFilterDump(t: Table, ks: seq<CString>)
    requires Strict(t) && t.n > 0
    ensures var rest := Without(DumpOf(t), ks);
            DumpOf(Run(t, Unsets(ks))) == if rest == [] then [NothingToShow] else rest
  {
    var r := Run(t, Unsets(ks));
    UnsetsSlots(t, ks);
    EntriesWithout(t.slots, r.slots, ks);
    RunStaysStrict(t, Unsets(ks));
    EntriesAreOccupied(r.slots, [], []);
  }
}
