/** Lists of operations performed on the object itself, heap included. */
module Driver {
  import opened CStrings
  import opened SlotTable
  import opened TableSteps
  import opened Runs
  import opened Accounting
  import opened Dictionaries

  // ---- How many blocks a clear leaks ----

  lemma {:induction false} BlocksCounted(ks: seq<Str?>, vs: seq<Str?>, hs: seq<bv32>)
    requires |ks| == |vs| == |hs| && Distinct(ks, vs)
    ensures |Blocks(ks)| == Occ(Zip(ks, vs, hs))
    ensures |Blocks(vs)| == Vals(Zip(ks, vs, hs))
    decreases |ks|
  {
    if ks != [] {
      var m := |ks| - 1;
      BlocksCounted(ks[..m], vs[..m], hs[..m]);
      assert Zip(ks, vs, hs)[..m] == Zip(ks[..m], vs[..m], hs[..m]);
      LastBlock(ks);
      LastBlock(vs);
    }
  }

  lemma LastBlock(a: seq<Str?>)
    requires a != [] && forall i, j :: 0 <= i < j < |a| && a[i] != null ==> a[i] != a[j]
    ensures |Blocks(a)| == |Blocks(a[..|a| - 1])| + if a[|a| - 1] == null then 0 else 1
  {
    var init, last := a[..|a| - 1], a[|a| - 1];
    assert a == init + [last];
    BlocksAppend(init, [last]);
    assert Blocks([last]) == Block(last);
    assert last != null ==> last !in Blocks(init);
  }

  lemma DisjointSizes(a: set<object>, b: set<object>, c: set<object>)
    requires a !! b && a !! c && b !! c
    ensures |a + b + c| == |a| + |b| + |c|
  {
  }

  lemma WipedBlocks(base: set<object>, ks: seq<Str?>, vs: seq<Str?>, hs: seq<bv32>, live: set<object>, w: nat)
    requires |ks| == |vs| == |hs| && w <= |ks| && Holds(base, ks, vs, live)
    ensures |Others(base, ks, vs, live) + Blocks(ks[..w]) + Blocks(vs[..w])|
         == |Others(base, ks, vs, live)| + Occ(Zip(ks, vs, hs)[..w]) + Vals(Zip(ks, vs, hs)[..w])
  {
    BlocksCounted(ks[..w], vs[..w], hs[..w]);
    assert Zip(ks, vs, hs)[..w] == Zip(ks[..w], vs[..w], hs[..w]);
    assert ks == ks[..w] + ks[w..] && vs == vs[..w] + vs[w..];
    BlocksAppend(ks[..w], ks[w..]);
    BlocksAppend(vs[..w], vs[w..]);
    DisjointSizes(Others(base, ks, vs, live), Blocks(ks[..w]), Blocks(vs[..w]));
  }

  // ---- One operation, then any list of them ----

  method ClearOne(d: Dictionary, heap: Heap)
    requires d.Valid() && d.heap == heap && WholePointers(d.Abs())
    modifies d.key, d.val, d.hash
    ensures d.Valid() && d.Abs() == Step(old(d.Abs()), DoClear)
    ensures old(heap.live - d.Footprint()) <= heap.live - d.Footprint()
    ensures |heap.live - d.Footprint()| == old(|heap.live - d.Footprint()|) + LeakedBy(old(d.Abs()), DoClear)
  {
    WipedBlocks({d, d.key, d.val, d.hash}, d.key[..], d.val[..], d.hash[..], heap.live, WipedPrefix(d.size));
    d.Clear();
  }

  method GetOne(d: Dictionary, k: CString, def: Option<CString>) returns (r: Option<CString>)
    requires d.Valid()
    ensures r == Get(d.Abs(), k, def)
  {
    var fallback: Str? := null;
    if def.Some? {
      fallback := new Str(def.value);
    }
    var got := d.Get(k, fallback);
    r := Text(got);
  }

  method PerformOne(d: Dictionary, heap: Heap, op: Op) returns (out: seq<Option<CString>>)
    requires d.Valid() && d.heap == heap && (op.DoClear? ==> WholePointers(d.Abs()))
    modifies d, d.key, d.val, d.hash, heap
    ensures d.Valid() && d.Abs() == Step(old(d.Abs()), op)
    ensures out == Returned(old(d.Abs()), op)
    ensures old(heap.live - d.Footprint()) <= heap.live - d.Footprint()
    ensures |heap.live - d.Footprint()| == old(|heap.live - d.Footprint()|) + LeakedBy(old(d.Abs()), op)
    ensures (d.val == old(d.val) && d.key == old(d.key) && d.hash == old(d.hash))
         || (fresh(d.val) && fresh(d.key) && fresh(d.hash))
  {
    out := [];
    match op
    case DoSet(k, v) => var rc := d.Set(Some(k), v);
    case DoUnset(k) => d.Unset(Some(k));
    case DoGet(k, def) =>
      var r := GetOne(d, k, def);
      out := [r];
    case DoClear => ClearOne(d, heap);
  }

  lemma RunNext(t: Table, ops: seq<Op>)
    requires Inv(t) && Defined(t, ops) && ops != []
    ensures (ops[0].DoClear? ==> WholePointers(t)) && Defined(Step(t, ops[0]), ops[1..])
    ensures Run(t, ops) == Run(Step(t, ops[0]), ops[1..])
    ensures Outputs(t, ops) == Returned(t, ops[0]) + Outputs(Step(t, ops[0]), ops[1..])
    ensures Leaked(t, ops) == LeakedBy(t, ops[0]) + Leaked(Step(t, ops[0]), ops[1..])
  {
  }

  /** Any list of operations leaves the table, returns the values and leaks the number of blocks
      that its run has on values; what the rest of the heap held is never freed. */
  method Perform(d: Dictionary, heap: Heap, ops: seq<Op>) returns (outs: seq<Option<CString>>)
    requires d.Valid() && d.heap == heap && Defined(d.Abs(), ops)
    modifies d, d.key, d.val, d.hash, heap
    ensures d.Valid() && d.Abs() == Run(old(d.Abs()), ops)
    ensures outs == Outputs(old(d.Abs()), ops)
    ensures old(heap.live - d.Footprint()) <= heap.live - d.Footprint()
    ensures |heap.live - d.Footprint()| == old(|heap.live - d.Footprint()|) + Leaked(old(d.Abs()), ops)
    decreases |ops|
  {
    if ops == [] {
      return [];
    }
    RunNext(d.Abs(), ops);
    var out := PerformOne(d, heap, ops[0]);
    var rest := Perform(d, heap, ops[1..]);
    return out + rest;
  }
}
