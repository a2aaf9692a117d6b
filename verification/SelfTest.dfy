/** The dictionary's own test program, on any list of keys. */
module SelfTest {
  import opened CStrings
  import opened SlotTable
  import opened Dictionaries
  import T = TableSteps
  import Accounting
  import opened Runs
  import opened Laws

  /** Each of the keys, paired with one value. */
  function Each(keys: seq<CString>, v: CString): (kvs: seq<Pair>)
    ensures |kvs| == |keys| && forall i :: 0 <= i < |keys| ==> kvs[i] == (keys[i], Some(v))
  {
    seq(|keys|, i requires 0 <= i < |keys| => (keys[i], Some(v)))
  }

  lemma NextSet(m: Bindings, keys: seq<CString>, i: nat, v: CString)
    requires i < |keys|
    ensures MapRun(m, Sets(Each(keys[..i + 1], v))) == MapRun(m, Sets(Each(keys[..i], v)))[keys[i] := Some(v)]
  {
    var before, op := Sets(Each(keys[..i], v)), DoSet(keys[i], Some(v));
    assert Sets(Each(keys[..i + 1], v)) == before + [op];
    MapRunAppend(m, before, [op]);
    assert MapRun(MapRun(m, before), [op]) == MapStep(MapRun(m, before), op);
  }

  lemma NextUnset(m: Bindings, keys: seq<CString>, i: nat)
    requires i < |keys|
    ensures MapRun(m, Unsets(keys[..i + 1])) == MapRun(m, Unsets(keys[..i])) - {keys[i]}
  {
    var before, op := Unsets(keys[..i]), DoUnset(keys[i]);
    assert Unsets(keys[..i + 1]) == before + [op];
    MapRunAppend(m, before, [op]);
    assert MapRun(MapRun(m, before), [op]) == MapStep(MapRun(m, before), op);
  }

  lemma EveryKeySetAndUnset(keys: seq<CString>, v: CString)
    ensures var m := MapRun(map[], Sets(Each(keys, v)));
            (forall i :: 0 <= i < |keys| ==> keys[i] in m) && MapRun(m, Unsets(keys)) == map[]
  {
    var kvs := Each(keys, v);
    MapOfSets(map[], kvs, [], None);
    forall i | 0 <= i < |keys|
      ensures keys[i] in KeysOf(kvs)
    {
      assert kvs[i].0 == keys[i];
    }
    UnsettingAllKeys(MapRun(map[], Sets(kvs)), keys);
  }

  /** The dictionary stands for a map of the counted size, and the rest of the heap is as it was. */
  ghost predicate Sound(d: Dictionary, heap: Heap, others: set<object>)
    reads d, d.key, d.val, d.hash, d.heap, heap
  {
    && d.heap == heap
    && d.Valid()
    && d.n == |Contents(d.Slots())|
    && heap.live - d.Footprint() == others
  }

  method SetOne(d: Dictionary, heap: Heap, ghost others: set<object>, k: CString, v: CString)
    requires Sound(d, heap, others)
    modifies d, d.key, d.val, d.hash, heap
    ensures Sound(d, heap, others)
    ensures Contents(d.Slots()) == old(Contents(d.Slots()))[k := Some(v)]
    ensures (d.val == old(d.val) && d.key == old(d.key) && d.hash == old(d.hash))
         || (fresh(d.val) && fresh(d.key) && fresh(d.hash))
  {
    T.SetKeeps(d.Abs(), k, Some(v));
    var rc := d.Set(Some(k), Some(v));
  }

  method UnsetOne(d: Dictionary, heap: Heap, ghost others: set<object>, k: CString)
    requires Sound(d, heap, others)
    modifies d`n, d.key, d.val, d.hash, heap
    ensures Sound(d, heap, others)
    ensures Contents(d.Slots()) == old(Contents(d.Slots())) - {k}
  {
    ghost var t, m := d.Abs(), Contents(d.Slots());
    d.Unset(Some(k));
    assert d.n == t.n - if k in m then 1 else 0 by {
      T.UnsetKeeps(t, k);
    }
    assert |m - {k}| == |m| - if k in m then 1 else 0 by {
      Accounting.SizeWithout(m, k);
    }
  }

  method SetAll(d: Dictionary, heap: Heap, ghost others: set<object>, keys: seq<CString>, v: CString)
    requires Sound(d, heap, others)
    modifies d, d.key, d.val, d.hash, heap
    ensures Sound(d, heap, others)
    ensures Contents(d.Slots()) == MapRun(old(Contents(d.Slots())), Sets(Each(keys, v)))
    ensures (d.val == old(d.val) && d.key == old(d.key) && d.hash == old(d.hash))
         || (fresh(d.val) && fresh(d.key) && fresh(d.hash))
  {
    ghost var m := Contents(d.Slots());
    var i := 0;
    while i < |keys|
      invariant 0 <= i <= |keys|
      invariant (d.val == old(d.val) && d.key == old(d.key) && d.hash == old(d.hash))
             || (fresh(d.val) && fresh(d.key) && fresh(d.hash))
      invariant Sound(d, heap, others)
      invariant Contents(d.Slots()) == MapRun(m, Sets(Each(keys[..i], v)))
    {
      NextSet(m, keys, i, v);
      SetOne(d, heap, others, keys[i], v);
      i := i + 1;
    }
    assert keys[..i] == keys;
  }

  method CreateAndSetAll(heap: Heap, keys: seq<CString>, v: CString) returns (d: Dictionary)
    modifies heap
    ensures fresh(d) && fresh(d.val) && fresh(d.key) && fresh(d.hash)
    ensures Sound(d, heap, old(heap.live))
    ensures Contents(d.Slots()) == MapRun(map[], Sets(Each(keys, v)))
  {
    d := new Dictionary(heap, 0);
    T.NewIsEmpty(0);
    SetAll(d, heap, old(heap.live), keys, v);
  }

  /** Counts the keys for which a get returns its default. */
  method CountMissing(d: Dictionary, keys: seq<CString>) returns (missing: int)
    requires d.Valid() && forall i :: 0 <= i < |keys| ==> keys[i] in Contents(d.Slots())
    ensures missing == 0
  {
    missing := 0;
    var invalid := new Str([]);
    var i := 0;
    while i < |keys|
      invariant 0 <= i <= |keys| && missing == 0
      invariant d.Valid() && forall j :: 0 <= j < |keys| ==> keys[j] in Contents(d.Slots())
      invariant invalid !in d.heap.live
    {
      var got := d.Get(keys[i], invalid);
      if got == invalid {
        missing := missing + 1;
      }
      i := i + 1;
    }
  }

  method UnsetAll(d: Dictionary, heap: Heap, ghost others: set<object>, keys: seq<CString>)
    requires Sound(d, heap, others)
    modifies d`n, d.key, d.val, d.hash, heap
    ensures Sound(d, heap, others)
    ensures Contents(d.Slots()) == MapRun(old(Contents(d.Slots())), Unsets(keys))
  {
    ghost var m := Contents(d.Slots());
    var i := 0;
    while i < |keys|
      invariant 0 <= i <= |keys|
      invariant Sound(d, heap, others)
      invariant Contents(d.Slots()) == MapRun(m, Unsets(keys[..i]))
    {
      NextUnset(m, keys, i);
      UnsetOne(d, heap, others, keys[i]);
      i := i + 1;
    }
    assert keys[..i] == keys;
  }

  /** Get every key, unset every key, look for what is left over. */
  method CheckAndUnset(d: Dictionary, heap: Heap, ghost others: set<object>, keys: seq<CString>, v: CString)
    returns (missing: int, leftOver: bool)
    requires Sound(d, heap, others) && Contents(d.Slots()) == MapRun(map[], Sets(Each(keys, v)))
    modifies d`n, d.key, d.val, d.hash, heap
    ensures Sound(d, heap, others) && missing == 0 && !leftOver
  {
    EveryKeySetAndUnset(keys, v);
    missing := CountMissing(d, keys);
    UnsetAll(d, heap, others, keys);
    leftOver := d.n != 0;
  }

  /** Set, check and delete: nothing is ever reported, and the heap ends exactly as it began. */
  method Run(heap: Heap, keys: seq<CString>, v: CString) returns (missing: int, leftOver: bool)
    modifies heap
    ensures missing == 0 && !leftOver
    ensures heap.live == old(heap.live)
  {
    var d := CreateAndSetAll(heap, keys, v);
    missing, leftOver := CheckAndUnset(d, heap, old(heap.live), keys, v);
    d.Del();
  }
}
