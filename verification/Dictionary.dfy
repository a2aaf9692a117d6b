/** The dictionary object: three parallel arrays changed in place, over a heap whose live blocks
    are tracked so that leaks, double frees and uses after free cannot go unseen. */
module Dictionaries {
  import opened CStrings
  import opened KeyHash
  import opened SlotTable
  import opened Dumps
  import T = TableSteps

  /** A heap block that holds a C string. */
  class Str {
    const text: CString

    constructor (text: CString)
      ensures this.text == text
    {
      this.text := text;
    }
  }

  /** The C heap: the blocks handed out and not yet freed. */
  class Heap {
    ghost var live: set<object>

    constructor ()
      ensures live == {}
    {
      live := {};
    }

    method Calloc<A>(m: nat, zero: A) returns (a: array<A>)
      modifies this
      ensures fresh(a) && a.Length == m && forall i :: 0 <= i < m ==> a[i] == zero
      ensures live == old(live) + {a}
    {
      a := new A[m](_ => zero);
      live := live + {a};
    }

    /** A block can be freed once only, and only if it was allocated. */
    method Free(ghost p: object)
      requires p in live
      modifies this
      ensures live == old(live) - {p}
    {
      live := live - {p};
    }

    method FreeUnlessNull(p: Str?)
      requires Block(p) <= live
      modifies this
      ensures live == old(live) - Block(p)
    {
      if p != null {
        Free(p);
      }
    }

    /** Copies into a zeroed block of twice the size, and frees the old block. */
    method MemDouble<A>(a: array<A>, zero: A) returns (b: array<A>)
      requires a in live
      modifies this
      ensures fresh(b) && b.Length == 2 * a.Length
      ensures forall i :: 0 <= i < b.Length ==> b[i] == if i < a.Length then a[i] else zero
      ensures live == old(live) - {a} + {b}
    {
      b := Calloc(2 * a.Length, zero);
      forall i | 0 <= i < a.Length {
        b[i] := a[i];
      }
      Free(a);
    }

    /** The three zeroed arrays of a new table. */
    method CallocTable(m: nat) returns (vals: array<Str?>, keys: array<Str?>, hashes: array<bv32>)
      modifies this
      ensures fresh(vals) && fresh(keys) && fresh(hashes)
      ensures vals != keys && hashes as object != vals && hashes as object != keys
      ensures vals.Length == keys.Length == hashes.Length == m
      ensures forall i :: 0 <= i < m ==> vals[i] == keys[i] == null && hashes[i] == 0
      ensures live == old(live) + {vals, keys, hashes}
    {
      vals := Calloc(m, null);
      keys := Calloc(m, null);
      hashes := Calloc(m, 0);
    }

    method DoubleTable(val: array<Str?>, key: array<Str?>, hash: array<bv32>)
      returns (vals: array<Str?>, keys: array<Str?>, hashes: array<bv32>)
      requires {val, key, hash} <= live
      requires key != val && hash as object != key && hash as object != val
      modifies this
      ensures fresh(vals) && fresh(keys) && fresh(hashes)
      ensures vals != keys && hashes as object != vals && hashes as object != keys
      ensures vals[..] == val[..] + Nulls(val.Length) && keys[..] == key[..] + Nulls(key.Length)
      ensures hashes[..] == hash[..] + seq(hash.Length, _ => 0)
      ensures live == old(live) - {val, key, hash} + {vals, keys, hashes}
    {
      vals := MemDouble(val, null);
      keys := MemDouble(key, null);
      hashes := MemDouble(hash, 0);
    }

    method XStrDup(s: Option<CString>) returns (p: Str?)
      modifies this
      ensures Text(p) == s
      ensures p != null ==> fresh(p)
      ensures live == old(live) + if p == null then {} else {p}
    {
      if s == None {
        return null;
      }
      p := new Str(s.value);
      live := live + {p};
    }

    /** Reading a string needs its block to be live still. */
    method Read(p: Str) returns (text: CString)
      requires p in live
      ensures text == p.text
    {
      text := p.text;
    }

    method StrEqual(s: CString, p: Str) returns (same: bool)
      requires p in live
      ensures same <==> s == p.text
    {
      same := s == p.text;
    }
  }

  /** What a pointer points to, or NULL. */
  function Text(p: Str?): Option<CString> {
    if p == null then None else Some(p.text)
  }

  function Zip(ks: seq<Str?>, vs: seq<Str?>, hs: seq<bv32>): (s: seq<Slot>)
    requires |ks| == |vs| == |hs|
    ensures |s| == |ks|
    ensures forall i :: 0 <= i < |s| ==> s[i] == Slot(Text(ks[i]), Text(vs[i]), hs[i])
  {
    seq(|ks|, i requires 0 <= i < |ks| => Slot(Text(ks[i]), Text(vs[i]), hs[i]))
  }

  /** The blocks that an array of pointers points to. */
  ghost function Blocks(a: seq<Str?>): set<object> {
    set i | 0 <= i < |a| && a[i] != null :: a[i]
  }

  lemma NoBlocks(a: seq<Str?>)
    requires forall i :: 0 <= i < |a| ==> a[i] == null
    ensures Blocks(a) == {}
  {
  }

  /** No block is pointed to twice. */
  ghost predicate Distinct(ks: seq<Str?>, vs: seq<Str?>) {
    && (forall i, j :: 0 <= i < j < |ks| && ks[i] != null ==> ks[i] != ks[j])
    && (forall i, j :: 0 <= i < j < |vs| && vs[i] != null ==> vs[i] != vs[j])
    && (forall i, j :: 0 <= i < |ks| && 0 <= j < |vs| && ks[i] != null ==> ks[i] != vs[j])
  }

  /** Overwrites the first m elements. */
  method MemSet<A>(a: array<A>, zero: A, m: nat)
    requires m <= a.Length
    modifies a
    ensures forall i :: 0 <= i < a.Length ==> a[i] == if i < m then zero else old(a[i])
  {
    forall i | 0 <= i < m {
      a[i] := zero;
    }
  }

  ghost function Block(p: Str?): set<object> {
    if p == null then {} else {p}
  }

  /** Storing a pointer into slot i gives up the block it replaces and owns the new one. */
  lemma StoreBlock(a: seq<Str?>, i: nat, p: Str?)
    requires i < |a|
    requires forall j :: 0 <= j < |a| && j != i && a[i] != null ==> a[j] != a[i]
    requires p != null ==> p !in Blocks(a)
    ensures Blocks(a[i := p]) == Blocks(a) - Block(a[i]) + Block(p)
  {
    var b := a[i := p];
    forall q | q in Blocks(a) - Block(a[i])
      ensures q in Blocks(b)
    {
      var j :| 0 <= j < |a| && a[j] != null && a[j] == q;
      assert b[j] == q;
    }
    assert b[i] == p;
    forall q | q in Blocks(b)
      ensures q in Blocks(a) - Block(a[i]) + Block(p)
    {
      var j :| 0 <= j < |b| && b[j] != null && b[j] == q;
      assert j != i ==> b[j] == a[j];
    }
  }

  /** Ownership on values: the blocks of both arrays and of `base` are live, each held once. */
  ghost predicate Holds(base: set<object>, ks: seq<Str?>, vs: seq<Str?>, live: set<object>) {
    && base + Blocks(ks) + Blocks(vs) <= live
    && base !! Blocks(ks) + Blocks(vs)
    && Distinct(ks, vs)
  }

  ghost function Others(base: set<object>, ks: seq<Str?>, vs: seq<Str?>, live: set<object>): set<object> {
    live - (base + Blocks(ks) + Blocks(vs))
  }

  /** Freeing what slot i holds and storing a new block there neither leaks nor touches any
      other block of the heap. */
  lemma StoreHolds(base: set<object>, ks: seq<Str?>, vs: seq<Str?>, live: set<object>, i: nat, p: Str?)
    requires Holds(base, ks, vs, live) && i < |vs|
    requires p != null ==> p !in live
    ensures var after := live - Block(vs[i]) + Block(p);
            && Holds(base, ks, vs[i := p], after)
            && Others(base, ks, vs[i := p], after) == Others(base, ks, vs, live)
  {
    assert forall j :: 0 <= j < |ks| && ks[j] != null ==> ks[j] in Blocks(ks);
    assert forall j :: 0 <= j < |vs| && vs[j] != null ==> vs[j] in Blocks(vs);
    StoreBlock(vs, i, p);
  }

  lemma HoldsSwapped(base: set<object>, ks: seq<Str?>, vs: seq<Str?>, live: set<object>)
    requires Holds(base, ks, vs, live)
    ensures Holds(base, vs, ks, live) && Others(base, ks, vs, live) == Others(base, vs, ks, live)
  {
  }

  /** The same for both arrays at once. */
  lemma StoreBothHolds(base: set<object>, ks: seq<Str?>, vs: seq<Str?>, live: set<object>, i: nat, p: Str?, q: Str?)
    requires Holds(base, ks, vs, live) && i < |ks| == |vs|
    requires Block(p) + Block(q) !! live && (p != null ==> p != q)
    ensures var after := live - Block(ks[i]) - Block(vs[i]) + Block(p) + Block(q);
            && Holds(base, ks[i := p], vs[i := q], after)
            && Others(base, ks[i := p], vs[i := q], after) == Others(base, ks, vs, live)
  {
    HoldsSwapped(base, ks, vs, live);
    StoreHolds(base, vs, ks, live, i, p);
    var middle := live - Block(ks[i]) + Block(p);
    HoldsSwapped(base, vs, ks[i := p], middle);
    StoreHolds(base, ks[i := p], vs, middle, i, q);
    assert vs[i] != null ==> vs[i] in Blocks(vs);
    assert middle - Block(vs[i]) + Block(q) == live - Block(ks[i]) - Block(vs[i]) + Block(p) + Block(q);
  }

  /** Two pointers and a hash stored at index i are a slot stored at index i. */
  lemma ZipStore(ks: seq<Str?>, vs: seq<Str?>, hs: seq<bv32>, i: nat, p: Str?, q: Str?, h: bv32)
    requires i < |ks| == |vs| == |hs|
    ensures Zip(ks[i := p], vs[i := q], hs[i := h]) == Zip(ks, vs, hs)[i := Slot(Text(p), Text(q), h)]
  {
  }

  lemma BlocksAppend(a: seq<Str?>, b: seq<Str?>)
    ensures Blocks(a + b) == Blocks(a) + Blocks(b)
  {
    var c := a + b;
    forall q | q in Blocks(a) + Blocks(b)
      ensures q in Blocks(c)
    {
      if q in Blocks(a) {
        var j :| 0 <= j < |a| && a[j] != null && a[j] == q;
        assert c[j] == q;
      } else {
        var j :| 0 <= j < |b| && b[j] != null && b[j] == q;
        assert c[|a| + j] == q;
      }
    }
  }

  function Nulls(m: nat): (a: seq<Str?>)
    ensures |a| == m && forall i :: 0 <= i < m ==> a[i] == null
  {
    seq(m, _ => null)
  }

  lemma NullsBlocks(a: seq<Str?>, m: nat)
    ensures Blocks(a + Nulls(m)) == Blocks(a)
  {
    var b := a + Nulls(m);
    assert forall i :: 0 <= i < |a| ==> b[i] == a[i];
    assert forall i :: |a| <= i < |b| ==> b[i] == null;
  }

  /** Moving to other arrays padded with NULLs, the old arrays freed and the new ones allocated. */
  lemma MoveHolds(base: set<object>, gone: set<object>, come: set<object>,
                  ks: seq<Str?>, vs: seq<Str?>, live: set<object>, m: nat)
    requires Holds(base + gone, ks, vs, live)
    requires come !! live && base !! gone
    ensures var after := live - gone + come;
            && Holds(base + come, ks + Nulls(m), vs + Nulls(m), after)
            && Others(base + come, ks + Nulls(m), vs + Nulls(m), after) == Others(base + gone, ks, vs, live)
  {
    NullsBlocks(ks, m);
    NullsBlocks(vs, m);
  }

  /** The strings of slot i are still to be freed when those before it are gone. */
  lemma FreeNext(base: set<object>, ks: seq<Str?>, vs: seq<Str?>, live: set<object>, i: nat)
    requires Holds(base, ks, vs, live) && i < |ks| == |vs|
    ensures Block(ks[i]) + Block(vs[i]) <= live - Blocks(ks[..i]) - Blocks(vs[..i])
    ensures Block(ks[i]) !! Block(vs[i])
    ensures Blocks(ks[..i + 1]) == Blocks(ks[..i]) + Block(ks[i])
    ensures Blocks(vs[..i + 1]) == Blocks(vs[..i]) + Block(vs[i])
  {
    assert ks[..i + 1] == ks[..i] + [ks[i]] && vs[..i + 1] == vs[..i] + [vs[i]];
    BlocksAppend(ks[..i], [ks[i]]);
    BlocksAppend(vs[..i], [vs[i]]);
    assert Blocks([ks[i]]) == Block(ks[i]) && Blocks([vs[i]]) == Block(vs[i]);
    assert ks[i] != null ==> ks[i] in Blocks(ks);
    assert vs[i] != null ==> vs[i] in Blocks(vs);
  }

  lemma WipeBlocks(a: seq<Str?>, b: seq<Str?>, w: nat)
    requires w <= |a| == |b|
    requires forall i :: 0 <= i < |a| ==> b[i] == if i < w then null else a[i]
    requires forall i, j :: 0 <= i < j < |a| && a[i] != null ==> a[i] != a[j]
    ensures Blocks(b) == Blocks(a) - Blocks(a[..w])
  {
    assert a == a[..w] + a[w..] && b == b[..w] + a[w..];
    BlocksAppend(a[..w], a[w..]);
    BlocksAppend(b[..w], a[w..]);
    NoBlocks(b[..w]);
    assert Blocks(a[..w]) !! Blocks(a[w..]);
  }

  /** Overwriting the first w pointers of both arrays with NULL loses just what they pointed to. */
  lemma WipeHolds(base: set<object>, ks: seq<Str?>, vs: seq<Str?>, live: set<object>, w: nat, ks': seq<Str?>, vs': seq<Str?>)
    requires Holds(base, ks, vs, live) && w <= |ks| == |vs| == |ks'| == |vs'|
    requires forall i :: 0 <= i < |ks| ==> ks'[i] == if i < w then null else ks[i]
    requires forall i :: 0 <= i < |vs| ==> vs'[i] == if i < w then null else vs[i]
    ensures Holds(base, ks', vs', live)
    ensures Others(base, ks', vs', live) == Others(base, ks, vs, live) + Blocks(ks[..w]) + Blocks(vs[..w])
  {
    WipeBlocks(ks, ks', w);
    WipeBlocks(vs, vs', w);
    BlocksAppend(ks[..w], ks[w..]);
    BlocksAppend(vs[..w], vs[w..]);
    assert ks == ks[..w] + ks[w..] && vs == vs[..w] + vs[w..];
    assert Blocks(ks) !! Blocks(vs);
  }

  class Dictionary {
    const heap: Heap
    var n: nat
    var size: nat
    var val: array<Str?>
    var key: array<Str?>
    var hash: array<bv32>

    ghost predicate Shape()
      reads this
    {
      && key.Length == val.Length == hash.Length == size
      && key != val && hash as object != key && hash as object != val
    }

    ghost function Slots(): (s: seq<Slot>)
      requires Shape()
      reads this, key, val, hash
      ensures |s| == size
      ensures forall i :: 0 <= i < size ==> s[i] == Slot(Text(key[i]), Text(val[i]), hash[i])
    {
      Zip(key[..], val[..], hash[..])
    }

    /** The dictionary as a value. */
    ghost function Abs(): T.Table
      requires Shape()
      reads this, key, val, hash
    {
      T.Table(n, Slots())
    }

    /** Every heap block this dictionary owns. */
    ghost function Footprint(): set<object>
      reads this, key, val
    {
      {this, key, val, hash} + Blocks(key[..]) + Blocks(val[..])
    }

    /** Every block is live, and the strings are owned once each. */
    ghost predicate Owned()
      reads this, key, val, hash, heap
    {
      Shape() && Holds({this, key, val, hash}, key[..], val[..], heap.live)
    }

    ghost predicate Valid()
      reads this, key, val, hash, heap
    {
      Owned() && T.Inv(Abs())
    }

    constructor (heap: Heap, size: int)
      modifies heap
      ensures Valid() && this.heap == heap && Abs() == T.New(size)
      ensures n == 0 && this.size == if size < 128 then 128 else size
      ensures forall i :: 0 <= i < this.size ==> key[i] == null && val[i] == null && hash[i] == 0
      ensures heap.live == old(heap.live) + Footprint() && fresh(Footprint())
    {
      var m := size;
      if m < T.DICTMINSZ {
        m := T.DICTMINSZ;
      }
      var vals, keys, hashes := heap.CallocTable(m);
      this.heap, this.n, this.size := heap, 0, m;
      this.val, this.key, this.hash := vals, keys, hashes;
      new;
      heap.live := heap.live + {this};
      assert Abs() == T.New(size) by {
        assert Slots() == Empties(m);
      }
      T.NewIsEmpty(size);
      NoBlocks(key[..]);
      NoBlocks(val[..]);
      assert Footprint() == {this, key, val, hash};
    }

    /** The search loop that a get, a set and an unset all begin with. */
    method Locate(k: CString, h: bv32) returns (i: nat)
      requires Shape() && Blocks(key[..]) <= heap.live && h == Hash(k)
      ensures i == Find(Slots(), k)
    {
      ghost var s, ks := Slots(), key[..];
      i := 0;
      while i < size
        invariant 0 <= i <= size
        invariant forall j :: 0 <= j < i ==> !Matches(s[j], k)
      {
        if key[i] != null {
          if h == hash[i] {
            assert ks[i] in Blocks(ks);
            var same := heap.StrEqual(k, key[i]);
            if same {
              return;
            }
          }
        }
        i := i + 1;
      }
    }

    /** The pointer kept in the table is returned, not a copy. */
    method Get(k: CString, def: Str?) returns (r: Str?)
      requires Valid()
      ensures Text(r) == T.Get(Abs(), k, Text(def))
      ensures if k in Contents(Slots()) then r == val[Find(Slots(), k)] && (r != null ==> r in heap.live) else r == def
      ensures k in Contents(Slots()) ==> Text(r) == Contents(Slots())[k]
    {
      LookupIsContents(Slots(), k);
      var h := ComputeHash(k);
      var i := Locate(k, h);
      if i < size {
        assert val[i] != null ==> val[i] in Blocks(val[..]);
        return val[i];
      }
      return def;
    }

    /** The found branch of a set: the old value is freed, a copy of the new one stored. */
    method Overwrite(i: nat, v: Option<CString>)
      requires Owned() && i < size
      modifies val, heap
      ensures Owned()
      ensures Slots() == old(Slots())[i := old(Slots()[i].(val := v))]
      ensures heap.live - Footprint() == old(heap.live - Footprint())
    {
      ghost var ks, vs, hs, live := key[..], val[..], hash[..], heap.live;
      assert vs[i] != null ==> vs[i] in Blocks(vs);
      heap.FreeUnlessNull(val[i]);
      var p := heap.XStrDup(v);
      val[i] := p;
      StoreHolds({this, key, val, hash}, ks, vs, live, i, p);
      assert key[..] == ks && val[..] == vs[i := p] && hash[..] == hs;
      assert Zip(ks, vs[i := p], hs) == Zip(ks, vs, hs)[i := Zip(ks, vs, hs)[i].(val := v)];
    }

    /** Doubling of the three arrays; the strings stay where they are. */
    method Double()
      requires Owned()
      modifies this, heap
      ensures Owned()
      ensures n == old(n) && size == 2 * old(size)
      ensures Slots() == old(Slots()) + Empties(old(size))
      ensures heap.live - Footprint() == old(heap.live - Footprint())
      ensures fresh(val) && fresh(key) && fresh(hash)
    {
      ghost var ks, vs, hs, live := key[..], val[..], hash[..], heap.live;
      ghost var gone: set<object> := {val, key, hash};
      assert {this} + gone == {this, key, val, hash};
      val, key, hash := heap.DoubleTable(val, key, hash);
      ghost var come: set<object> := {val, key, hash};
      assert {this} + come == {this, key, val, hash};
      MoveHolds({this}, gone, come, ks, vs, live, size);
      assert Zip(key[..], val[..], hash[..]) == Zip(ks, vs, hs) + Empties(size);
      size := size * 2;
    }

    /** The probe of an insertion, wrapping at the end. It ends because fewer slots are occupied
        than there are, and it ends at the first empty slot in cyclic order from n. */
    method FindRoom() returns (i: nat)
      requires Shape() && n < size && Occ(Slots()) < size
      ensures i == Probe(Slots(), n)
    {
      ghost var s := Slots();
      ghost var p := Probe(s, n);
      ProbeStops(s, n);
      i := n;
      while key[i] != null
        invariant i < size
        invariant i == p || MetBefore(n, i, p)
        decreases StepsTo(i, p, size)
      {
        assert Occupied(s[i]);
        i := i + 1;
        if i == size {
          i := 0;
        }
      }
      assert !Occupied(s[i]);
    }

    /** The last lines of a set: copies of the key and the value go into an empty slot. */
    method Fill(i: nat, k: CString, v: Option<CString>, h: bv32)
      requires Owned() && i < size && Slots()[i] == EMPTY && h == Hash(k)
      modifies this`n, key, val, hash, heap
      ensures Owned()
      ensures n == old(n) + 1
      ensures Slots() == old(Slots())[i := Slot(Some(k), v, h)]
      ensures heap.live - Footprint() == old(heap.live - Footprint())
    {
      ghost var ks, vs, hs, live := key[..], val[..], hash[..], heap.live;
      var p := heap.XStrDup(Some(k));
      var q := heap.XStrDup(v);
      key[i] := p;
      val[i] := q;
      hash[i] := h;
      n := n + 1;
      assert ks[i] == null && vs[i] == null;
      StoreBothHolds({this, key, val, hash}, ks, vs, live, i, p, q);
      ZipStore(ks, vs, hs, i, p, q, h);
      assert key[..] == ks[i := p] && val[..] == vs[i := q] && hash[..] == hs[i := h];
    }

    /** Grow if full, then probe for a slot. */
    method MakeRoom() returns (i: nat)
      requires Owned()
      requires var g := T.Grow(Abs()); g.n < |g.slots| && Occ(g.slots) < |g.slots|
      modifies this, heap
      ensures Owned()
      ensures Abs() == T.Grow(old(Abs())) && i == Probe(Slots(), n)
      ensures heap.live - Footprint() == old(heap.live - Footprint())
      ensures if old(n == size) then fresh(val) && fresh(key) && fresh(hash)
              else val == old(val) && key == old(key) && hash == old(hash)
    {
      if n == size {
        Double();
      }
      assert Abs() == T.Grow(old(Abs()));
      i := FindRoom();
    }

    /** The new-key branch of a set. */
    method Add(k: CString, v: Option<CString>, h: bv32)
      requires Owned() && h == Hash(k)
      requires var g := T.Grow(Abs()); g.n < |g.slots| && Occ(g.slots) < |g.slots| && T.Zeroed(g.slots)
      modifies this, key, val, hash, heap
      ensures Owned()
      ensures Abs() == T.Insert(T.Grow(old(Abs())), k, v)
      ensures heap.live - Footprint() == old(heap.live - Footprint())
      ensures if old(n == size) then fresh(val) && fresh(key) && fresh(hash)
              else val == old(val) && key == old(key) && hash == old(hash)
    {
      var i := MakeRoom();
      ProbeStops(Slots(), n);
      Fill(i, k, v, h);
    }

    /** A set past its NULL check. */
    method Put(k: CString, v: Option<CString>)
      requires Valid()
      modifies this, key, val, hash, heap
      ensures Owned()
      ensures Abs() == T.Set(old(Abs()), k, v)
      ensures heap.live - Footprint() == old(heap.live - Footprint())
      ensures (val == old(val) && key == old(key) && hash == old(hash)) || (fresh(val) && fresh(key) && fresh(hash))
    {
      var h := ComputeHash(k);
      T.SearchIsNotMissed(Abs(), k);
      T.GrowKeeps(Abs());
      var i := size;
      if n > 0 {
        i := Locate(k, h);
      }
      if i < size {
        Overwrite(i, v);
      } else {
        Add(k, v, h);
      }
    }

    method Set(k: Option<CString>, v: Option<CString>) returns (rc: int)
      requires Valid()
      modifies this, key, val, hash, heap
      ensures Valid()
      ensures rc == if k == None then -1 else 0
      ensures Abs() == if k == None then old(Abs()) else T.Set(old(Abs()), k.value, v)
      ensures k != None ==> Contents(Slots()) == old(Contents(Slots()))[k.value := v]
      ensures heap.live - Footprint() == old(heap.live - Footprint())
      ensures (val == old(val) && key == old(key) && hash == old(hash)) || (fresh(val) && fresh(key) && fresh(hash))
    {
      if k == None {
        return -1;
      }
      T.SetKeeps(Abs(), k.value, v);
      Put(k.value, v);
      return 0;
    }

    /** The last lines of an unset: both strings are freed and the slot is zeroed. */
    method Erase(i: nat)
      requires Owned() && i < size && key[i] != null && n > 0
      modifies this`n, key, val, hash, heap
      ensures Owned()
      ensures n == old(n) - 1
      ensures Slots() == old(Slots())[i := EMPTY]
      ensures heap.live - Footprint() == old(heap.live - Footprint())
    {
      ghost var ks, vs, hs, live := key[..], val[..], hash[..], heap.live;
      assert ks[i] in Blocks(ks) && (vs[i] != null ==> vs[i] in Blocks(vs)) && ks[i] != vs[i];
      heap.Free(key[i]);
      heap.FreeUnlessNull(val[i]);
      key[i], val[i], hash[i] := null, null, 0;
      n := n - 1;
      StoreBothHolds({this, key, val, hash}, ks, vs, live, i, null, null);
      ZipStore(ks, vs, hs, i, null, null, 0);
      assert key[..] == ks[i := null] && val[..] == vs[i := null] && hash[..] == hs[i := 0];
    }

    /** An unset past its NULL check. */
    method Remove(k: CString)
      requires Valid()
      modifies this`n, key, val, hash, heap
      ensures Owned()
      ensures Abs() == T.Unset(old(Abs()), k)
      ensures heap.live - Footprint() == old(heap.live - Footprint())
    {
      var h := ComputeHash(k);
      var i := Locate(k, h);
      if i >= size {
        return;
      }
      T.OccupiedCounts(Slots(), i);
      Erase(i);
    }

    method Unset(k: Option<CString>)
      requires Valid()
      modifies this`n, key, val, hash, heap
      ensures Valid()
      ensures Abs() == if k == None then old(Abs()) else T.Unset(old(Abs()), k.value)
      ensures k != None ==> Contents(Slots()) == old(Contents(Slots())) - {k.value}
      ensures heap.live - Footprint() == old(heap.live - Footprint())
    {
      if k == None {
        return;
      }
      T.UnsetKeeps(Abs(), k.value);
      Remove(k.value);
    }

    /** The three memory fills of a clear. */
    method Wipe(w: nat)
      requires Owned() && w <= size
      modifies key, val, hash
      ensures Owned()
      ensures Slots() == T.Wipe(old(Slots()), w)
      ensures heap.live - Footprint() == old(heap.live - Footprint()) + old(Blocks(key[..w])) + old(Blocks(val[..w]))
    {
      ghost var ks, vs := key[..], val[..];
      MemSet(val, null, w);
      MemSet(key, null, w);
      MemSet(hash, 0, size);
      WipeHolds({this, key, val, hash}, ks, vs, heap.live, w, key[..], val[..]);
    }

    /** As written: the two pointer arrays are zeroed over `size` characters, not `size` pointers,
        and the counter stays. No string is freed, so those in the wiped prefix leak. Where the
        characters end inside a pointer, the code is followed only if that pointer is NULL. */
    method Clear()
      requires Valid() && T.WholePointers(Abs())
      modifies key, val, hash
      ensures Valid()
      ensures Abs() == T.Clear(old(Abs()))
      ensures Contents(Slots()) == T.Survivors(old(Slots()))
      ensures var w := T.WipedPrefix(size);
              heap.live - Footprint() == old(heap.live - Footprint()) + old(Blocks(key[..w])) + old(Blocks(val[..w]))
      ensures forall i :: 0 <= i < size ==>
                && Text(key[i]) == (if (i + 1) * T.PTR_WIDTH <= size then None else old(Text(key[i])))
                && Text(val[i]) == (if (i + 1) * T.PTR_WIDTH <= size then None else old(Text(val[i])))
                && hash[i] == 0
    {
      ghost var t := Abs();
      T.ClearKeeps(t);
      Wipe(size / T.PTR_WIDTH);
      forall i | 0 <= i < size
        ensures Slots()[i] == if (i + 1) * T.PTR_WIDTH <= size then EMPTY else t.slots[i].(hash := 0)
      {
        T.InPrefix(size, i);
      }
    }

    /** Frees every string, the arrays and the dictionary itself, each exactly once. */
    method Del()
      requires Valid()
      modifies heap
      ensures heap.live == old(heap.live - Footprint())
      ensures val !in heap.live && key !in heap.live && hash !in heap.live && this !in heap.live
      ensures forall i :: 0 <= i < size ==> Block(key[i]) !! heap.live && Block(val[i]) !! heap.live
    {
      ghost var ks, vs, live := key[..], val[..], heap.live;
      var i := 0;
      while i < size
        invariant 0 <= i <= size
        invariant heap.live == live - Blocks(ks[..i]) - Blocks(vs[..i])
      {
        FreeNext({this, key, val, hash}, ks, vs, live, i);
        heap.FreeUnlessNull(key[i]);
        heap.FreeUnlessNull(val[i]);
        i := i + 1;
      }
      assert ks[..i] == ks && vs[..i] == vs;
      heap.Free(val);
      heap.Free(key);
      heap.Free(hash);
      heap.Free(this);
      forall i | 0 <= i < size
        ensures Block(key[i]) !! heap.live && Block(val[i]) !! heap.live
      {
        assert ks[i] != null ==> ks[i] in Blocks(ks);
        assert vs[i] != null ==> vs[i] in Blocks(vs);
      }
    }

    /** The lines a dump prints, in order. */
    method Dump() returns (out: seq<Line>)
      requires Valid()
      ensures out == DumpOf(Abs())
    {
      if n < 1 {
        return [NothingToShow];
      }
      ghost var s, ks, vs := Slots(), key[..], val[..];
      out := [];
      var i := 0;
      while i < size
        invariant 0 <= i <= size
        invariant out == Entries(s[..i])
      {
        assert s[..i + 1][..i] == s[..i];
        if key[i] != null {
          assert ks[i] in Blocks(ks) && (vs[i] != null ==> vs[i] in Blocks(vs));
          var name := heap.Read(key[i]);
          var shown := UNDEF;
          if val[i] != null {
            shown := heap.Read(val[i]);
          }
          out := out + [Entry(name, shown)];
        }
        i := i + 1;
      }
      assert s[..i] == s;
    }
  }
}
