/** What a clear does instead of emptying the dictionary. */
module Clears {
  import opened CStrings
  import opened KeyHash
  import opened SlotTable
  import opened TableSteps
  import opened Dumps
  import opened Runs
  import opened Accounting
  import opened Laws

  /** A clear is meant to leave an empty dictionary. It does so exactly when it was empty before. */
  lemma ClearEmptiesOnlyTheEmpty(t: Table)
    requires Inv(t) && WholePointers(t)
    ensures Clear(t) == Table(0, Empties(|t.slots|)) <==> t.n == 0
    ensures DumpOf(Clear(t)) == [NothingToShow] <==> t.n == 0
  {
    OccNone(t.slots);
    if t.n == 0 {
      assert Clear(t).slots == Empties(|t.slots|);
    } else {
      var lines := Entries(Clear(t).slots);
      EntriesAreOccupied(Clear(t).slots, [], []);
      assert |lines| == 1 ==> lines[0] in lines;
    }
  }

  /** Its slots are all zero exactly when none beyond the wiped prefix was occupied. */
  lemma ClearZeroesSlotsIff(t: Table)
    requires Inv(t) && WholePointers(t)
    ensures (forall i :: 0 <= i < |t.slots| ==> Clear(t).slots[i] == EMPTY)
       <==> (forall i :: WipedPrefix(|t.slots|) <= i < |t.slots| ==> !Occupied(t.slots[i]))
  {
    var w, c := WipedPrefix(|t.slots|), Clear(t).slots;
    if forall i :: 0 <= i < |c| ==> c[i] == EMPTY {
      forall i | w <= i < |c|
        ensures !Occupied(t.slots[i])
      {
        assert c[i] == EMPTY;
      }
    }
  }

  /** One set and a clear are enough to see that the counter is not reset. */
  lemma ClearKeepsTheCounter(size: int, k: CString, v: Option<CString>)
    requires Divisible(New(size))
    ensures Run(New(size), [DoSet(k, v)] + [DoClear]).n == 1
  {
    NewIsEmpty(size);
    SetKeeps(New(size), k, v);
    RunOfTwo(New(size), DoSet(k, v), DoClear);
  }

  lemma RunOfTwo(t: Table, a: Op, b: Op)
    requires Inv(t) && Divisible(t)
    ensures Run(t, [a] + [b]) == Step(Step(t, a), b)
  {
    RunCons(t, a, [b]);
    RunCons(Step(t, a), b, []);
    assert [b] + [] == [b];
  }

  // ---- A key that survives ----

  /** On a packed table of as many keys as the wiped prefix has slots, a new key is set beyond the
      prefix; if it hashes to zero, as the empty key does, it survives a clear. */
  lemma ZeroHashOutlivesClear(t: Table, ks: seq<CString>, k: CString, v: Option<CString>, def: Option<CString>)
    requires Inv(t) && Divisible(t) && Packed(t, ks) && k !in ks && Hash(k) == 0
    requires |ks| >= WipedPrefix(|Grow(t).slots|)
    ensures Get(Step(Step(t, DoSet(k, v)), DoClear), k, def) == v
  {
    var r := Step(t, DoSet(k, v));
    PackedContents(t, ks, k);
    SetWritesOneSlot(t, k, v);
    PackedProbe(t, ks);
    ClearUnique(r);
    ClearLookup(r, k);
  }

  /** Such a table is reached by setting enough other keys first. */
  lemma ZeroHashSurvives(size: int, kvs: seq<Pair>, k: CString, v: Option<CString>, def: Option<CString>)
    requires Divisible(New(size)) && k !in FirstKeys([], Sets(kvs)) && Hash(k) == 0
    requires |FirstKeys([], Sets(kvs))| >= WipedPrefix(|Grow(Run(New(size), Sets(kvs))).slots|)
    ensures Get(Run(New(size), Sets(kvs) + ([DoSet(k, v)] + [DoClear])), k, def) == v
  {
    var t := Run(New(size), Sets(kvs));
    RunAppend(New(size), Sets(kvs), [DoSet(k, v)] + [DoClear]);
    RunOfTwo(t, DoSet(k, v), DoClear);
    PackedRun(New(size), [], Sets(kvs));
    ZeroHashOutlivesClear(t, FirstKeys([], Sets(kvs)), k, v, def);
  }

  /** m keys of the lengths 1 to m. */
  function Rising(m: nat): (kvs: seq<Pair>)
    ensures |kvs| == m
    ensures forall i :: 0 <= i < m ==> |kvs[i].0| == i + 1
  {
    seq(m, i requires 0 <= i < m => (seq(i + 1, _ => 0x61 as CByte), None))
  }

  lemma {:induction false} RisingKeys(m: nat)
    ensures |FirstKeys([], Sets(Rising(m)))| == m
    ensures forall i :: 0 <= i < m ==> |FirstKeys([], Sets(Rising(m)))[i]| == i + 1
  {
    RisingKeysFrom([], Sets(Rising(m)), 0);
  }

  lemma {:induction false} RisingKeysFrom(ks: seq<CString>, ops: seq<Op>, done: nat)
    requires |ks| == done && forall i :: 0 <= i < done ==> |ks[i]| == i + 1
    requires forall i :: 0 <= i < |ops| ==> ops[i].DoSet? && |ops[i].k| == done + i + 1
    ensures |FirstKeys(ks, ops)| == done + |ops|
    ensures forall i :: 0 <= i < done + |ops| ==> |FirstKeys(ks, ops)[i]| == i + 1
    decreases |ops|
  {
    if ops != [] {
      RisingKeysFrom(ks + [ops[0].k], ops[1..], done + 1);
    }
  }

  lemma RisingTable(m: nat)
    requires 2 * m <= 128
    ensures var t := Run(New(0), Sets(Rising(m)));
            |t.slots| == 128 && t.n == m && Packed(t, FirstKeys([], Sets(Rising(m))))
  {
    RisingKeys(m);
    PackedRun(New(0), [], Sets(Rising(m)));
    SizeWithoutUnset(New(0), Sets(Rising(m)));
  }

  lemma DefaultPrefix()
    ensures 2 * WipedPrefix(128) <= 128
  {
    WipedPrefixIs(128);
    assert (PTR_WIDTH - 2) * WipedPrefix(128) >= 0;
  }

  lemma RisingLeavesRoom(w: nat)
    requires 2 * w <= 128
    ensures |Grow(Run(New(0), Sets(Rising(w)))).slots| == 128
  {
    RisingTable(w);
  }

  /** An instance: in a default dictionary, after as many other keys as the prefix has slots, the
      empty key outlives a clear. */
  lemma EmptyKeySurvives(v: Option<CString>, def: Option<CString>)
    requires Divisible(New(0))
    ensures PTR_WIDTH == 8 ==> WipedPrefix(128) == 16
    ensures var others := Rising(WipedPrefix(128));
            Get(Run(New(0), Sets(others) + ([DoSet([], v)] + [DoClear])), [], def) == v
  {
    WipedPrefixIs(128);
    DefaultPrefix();
    RisingKeys(WipedPrefix(128));
    RisingLeavesRoom(WipedPrefix(128));
    ZeroHash([]);
    ZeroHashSurvives(0, Rising(WipedPrefix(128)), [], v, def);
  }
}
