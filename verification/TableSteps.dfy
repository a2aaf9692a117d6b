/** What each dictionary operation does to the table, and what every one of them keeps. */
module TableSteps {
  import opened CStrings
  import opened KeyHash
  import opened SlotTable

  /** The dictionary as a value: its entry counter and its slots (as many as its size). */
  datatype Table = Table(n: nat, slots: seq<Slot>)

  const DICTMINSZ: nat := 128

  /** The width of a pointer in characters, whatever it is on the host. */
  type PtrWidth = w: nat | 2 <= w witness 8

  const PTR_WIDTH: PtrWidth

  // ---- The operations ----

  function New(size: int): (t: Table)
    ensures Strict(t) && |t.slots| >= DICTMINSZ && |t.slots| >= size
  {
    var s := Empties(if size < DICTMINSZ then DICTMINSZ else size);
    OccNone(s);
    Table(0, s)
  }

  function Get(t: Table, k: CString, def: Option<CString>): Option<CString> {
    var i := Find(t.slots, k);
    if i < |t.slots| then t.slots[i].val else def
  }

  /** Doubling, when the counter has reached the size. */
  function Grow(t: Table): Table {
    if t.n == |t.slots| then t.(slots := t.slots + Empties(|t.slots|)) else t
  }

  /** Filling the slot where the probe from the counter ends. */
  function Insert(t: Table, k: CString, v: Option<CString>): Table
    requires t.n < |t.slots| && Occ(t.slots) < |t.slots|
  {
    ProbeStops(t.slots, t.n);
    Table(t.n + 1, t.slots[Probe(t.slots, t.n) := Slot(Some(k), v, Hash(k))])
  }

  /** Setting a key: its value is overwritten where a search finds it, else it is inserted. */
  function Set(t: Table, k: CString, v: Option<CString>): Table
    requires Inv(t)
  {
    var i := if t.n > 0 then Find(t.slots, k) else |t.slots|;
    if i < |t.slots| then t.(slots := t.slots[i := t.slots[i].(val := v)])
    else GrowKeeps(t); Insert(Grow(t), k, v)
  }

  function Unset(t: Table, k: CString): Table
    requires Inv(t)
  {
    var i := Find(t.slots, k);
    if i == |t.slots| then t
    else OccupiedCounts(t.slots, i); Table(t.n - 1, t.slots[i := EMPTY])
  }

  lemma MulBounds(w: nat, d: int)
    requires w >= 1
    ensures d >= 1 ==> w * d >= w && w * d >= d
    ensures d <= -1 ==> w * d + w <= 0
  {
    if d >= 1 {
      assert (w - 1) * (d - 1) >= 0;
    }
    if d <= -1 {
      assert w * (-d - 1) >= 0;
    }
  }

  lemma QuotientBound(x: nat, w: nat)
    requires w >= 1
    ensures x / w <= x
    ensures x % w != 0 ==> x / w < x
  {
    MulBounds(w, x / w);
    assert x == w * (x / w) + x % w;
  }

  lemma DoubledMultiple(x: nat, w: nat)
    requires w >= 1 && x % w == 0
    ensures (x + x) % w == 0
  {
    var q, p := x / w, (x + x) / w;
    assert x == w * q && x + x == w * p + (x + x) % w;
    assert w * (q + q - p) == (x + x) % w;
    MulBounds(w, q + q - p);
  }

  /** The number of whole pointers covered by `size` characters. */
  function WipedPrefix(size: nat): (w: nat)
    ensures w <= size
    ensures size % PTR_WIDTH != 0 ==> w < size
  {
    QuotientBound(size, PTR_WIDTH);
    size / PTR_WIDTH
  }

  lemma QuotientIs(size: nat, w: nat, i: nat)
    requires w >= 1
    ensures w * (size / w) <= size < w * (size / w + 1)
    ensures i < size / w <==> (i + 1) * w <= size
  {
    var q := size / w;
    var d: int := q - (i + 1);
    assert size == w * q + size % w;
    assert w * (q + 1) == w * q + w;
    MulBounds(w, d);
    assert w * d == w * q - (i + 1) * w;
  }

  /** The prefix is as long as the characters reach, and no longer. */
  lemma WipedPrefixIs(size: nat)
    ensures PTR_WIDTH * WipedPrefix(size) <= size < PTR_WIDTH * (WipedPrefix(size) + 1)
    ensures PTR_WIDTH == 8 ==> WipedPrefix(128) == 16
    ensures PTR_WIDTH == 4 ==> WipedPrefix(128) == 32
  {
    QuotientIs(size, PTR_WIDTH, 0);
  }

  /** Pointer i lies in the prefix exactly when all its characters do. */
  lemma InPrefix(size: nat, i: nat)
    ensures i < WipedPrefix(size) <==> (i + 1) * PTR_WIDTH <= size
  {
    QuotientIs(size, PTR_WIDTH, i);
  }

  /** The first w slots zeroed; of the others, the cached hash only. */
  function Wipe(s: seq<Slot>, w: nat): (r: seq<Slot>)
    ensures |r| == |s|
    ensures forall i :: 0 <= i < |s| ==> r[i] == if i < w then EMPTY else s[i].(hash := 0)
  {
    seq(|s|, i requires 0 <= i < |s| => if i < w then EMPTY else s[i].(hash := 0))
  }

  /** `size` characters are whole pointers, as they always are when the initial size is a multiple
      of the width of one. */
  predicate Divisible(t: Table) {
    |t.slots| % PTR_WIDTH == 0
  }

  /** A clear of the table leaves no pointer half zeroed: the characters it zeroes are whole
      pointers, or the one they end in is NULL. */
  predicate WholePointers(t: Table) {
    Divisible(t) || t.slots[WipedPrefix(|t.slots|)] == EMPTY
  }

  /** A clear as the code performs it: keys and values are zeroed over `size` characters only, the
      cached hashes over their whole length, and the counter not at all. */
  function Clear(t: Table): (r: Table)
    requires WholePointers(t)
    ensures r.n == t.n && |r.slots| == |t.slots|
  {
    t.(slots := Wipe(t.slots, WipedPrefix(|t.slots|)))
  }

  // ---- The invariants ----

  /** An empty slot is all zero: no value is left beside a NULL key, and no hash. */
  predicate Zeroed(s: seq<Slot>) {
    forall i :: 0 <= i < |s| && !Occupied(s[i]) ==> s[i] == EMPTY
  }

  /** The cached hash of an occupied slot is that of its key, or was zeroed by a clear. */
  predicate Stamped(s: seq<Slot>) {
    forall i :: 0 <= i < |s| && Occupied(s[i]) ==> Live(s[i]) || s[i].hash == 0
  }

  /** Holds in every reachable state. */
  predicate Inv(t: Table) {
    && 0 < |t.slots|
    && Zeroed(t.slots)
    && Stamped(t.slots)
    && UniqueKeys(t.slots)
    && Occ(t.slots) <= t.n <= |t.slots|
  }

  /** Holds in every state reached without a clear: the counter is exact and no slot is stale. */
  predicate Strict(t: Table) {
    && Inv(t)
    && t.n == Occ(t.slots)
    && forall i :: 0 <= i < |t.slots| && Occupied(t.slots[i]) ==> Live(t.slots[i])
  }

  lemma OccupiedCounts(s: seq<Slot>, i: nat)
    requires i < |s| && Occupied(s[i])
    ensures Occ(s) > 0
  {
    OccNone(s);
  }

  // ---- Creating ----

  lemma NewIsEmpty(size: int)
    ensures Contents(New(size).slots) == map[]
  {
  }

  // ---- Growing ----

  lemma GrowFind(s: seq<Slot>, m: nat, k: CString)
    ensures Find(s + Empties(m), k) == if Find(s, k) < |s| then Find(s, k) else |s| + m
  {
    var g := s + Empties(m);
    assert forall j :: 0 <= j < |s| ==> g[j] == s[j];
    assert forall j :: |s| <= j < |g| ==> g[j] == EMPTY;
  }

  lemma GrowContents(s: seq<Slot>, m: nat)
    ensures Contents(s + Empties(m)) == Contents(s)
  {
    var g := s + Empties(m);
    forall k: CString
      ensures Lookup(g, k) == if k in Contents(s) then Some(Contents(s)[k]) else None
    {
      GrowFind(s, m, k);
      LookupIsContents(s, k);
    }
    ContentsAre(g, Contents(s));
  }

  /** Doubling keeps every invariant and the map, and leaves room. */
  lemma GrowKeeps(t: Table)
    requires Inv(t)
    ensures Inv(Grow(t)) && Grow(t).n == t.n < |Grow(t).slots|
    ensures Strict(t) ==> Strict(Grow(t))
    ensures Contents(Grow(t).slots) == Contents(t.slots)
    ensures Occ(Grow(t).slots) == Occ(t.slots)
  {
    if t.n == |t.slots| {
      var m := |t.slots|;
      var g := t.slots + Empties(m);
      assert forall j :: m <= j < |g| ==> g[j] == EMPTY;
      GrowContents(t.slots, m);
      OccAppend(t.slots, Empties(m));
      OccNone(Empties(m));
    }
  }

  // ---- Writing one slot ----

  lemma WriteLookup(s: seq<Slot>, i: nat, x: Slot, k: CString)
    requires i < |s| && !Matches(s[i], k) && !Matches(x, k)
    ensures Find(s[i := x], k) == Find(s, k)
    ensures Lookup(s[i := x], k) == Lookup(s, k)
  {
    var t := s[i := x];
    assert forall j :: 0 <= j < |s| ==> (Matches(t[j], k) <==> Matches(s[j], k));
  }

  lemma WriteUnique(s: seq<Slot>, i: nat, x: Slot)
    requires UniqueKeys(s) && i < |s|
    requires Live(x) ==> forall j :: 0 <= j < |s| && j != i ==> !Matches(s[j], x.key.value)
    ensures UniqueKeys(s[i := x])
  {
    var t := s[i := x];
    forall a, b | 0 <= a < b < |t| && Live(t[a]) && Live(t[b])
      ensures t[a].key != t[b].key
    {
      if a == i {
        assert !Matches(s[b], x.key.value);
      } else if b == i {
        assert !Matches(s[a], x.key.value);
      }
    }
  }

  /** Writing a slot that is empty, or that holds k already, makes exactly the binding of k. */
  lemma WriteBinds(s: seq<Slot>, i: nat, k: CString, v: Option<CString>)
    requires UniqueKeys(s) && i < |s|
    requires if Find(s, k) < |s| then i == Find(s, k) else !Occupied(s[i])
    ensures UniqueKeys(s[i := Slot(Some(k), v, Hash(k))])
    ensures Contents(s[i := Slot(Some(k), v, Hash(k))]) == Contents(s)[k := v]
  {
    var x := Slot(Some(k), v, Hash(k));
    var t := s[i := x];
    forall j | 0 <= j < |s| && j != i
      ensures !Matches(s[j], k)
    {
      if Matches(s[j], k) {
        MatchDecides(s, k, j);
      }
    }
    WriteUnique(s, i, x);
    assert Matches(t[i], k);
    MatchDecides(t, k, i);
    var m := Contents(s)[k := v];
    forall k'
      ensures Lookup(t, k') == if k' in m then Some(m[k']) else None
    {
      if k' != k {
        WriteLookup(s, i, x, k');
        LookupIsContents(s, k');
      }
    }
    ContentsAre(t, m);
  }

  /** Emptying the slot that holds k removes exactly the binding of k. */
  lemma EraseUnbinds(s: seq<Slot>, i: nat, k: CString)
    requires UniqueKeys(s) && i < |s| && Matches(s[i], k)
    ensures UniqueKeys(s[i := EMPTY])
    ensures Contents(s[i := EMPTY]) == Contents(s) - {k}
  {
    var u := s[i := EMPTY];
    WriteUnique(s, i, EMPTY);
    var f := Find(u, k);
    if f < |u| {
      OnlyMatch(s, k, i, f);
    }
    var m := Contents(s) - {k};
    forall k'
      ensures Lookup(u, k') == if k' in m then Some(m[k']) else None
    {
      if k' != k {
        WriteLookup(s, i, EMPTY, k');
        LookupIsContents(s, k');
      }
    }
    ContentsAre(u, m);
  }

  // ---- Setting ----

  /** The probe of an insertion always ends at an empty slot, met first in cyclic order. */
  lemma InsertionSlot(t: Table)
    requires Inv(t) && t.n < |t.slots|
    ensures var p := Probe(t.slots, t.n);
            && p < |t.slots|
            && t.slots[p] == EMPTY
            && forall j :: 0 <= j < |t.slots| && MetBefore(t.n, j, p) ==> Occupied(t.slots[j])
  {
    ProbeStops(t.slots, t.n);
  }

  /** Skipping the search when the counter is zero never misses a binding. */
  lemma SearchIsNotMissed(t: Table, k: CString)
    requires Inv(t)
    ensures t.n == 0 ==> Find(t.slots, k) == |t.slots|
  {
    OccNone(t.slots);
  }

  lemma OverwriteKeeps(t: Table, k: CString, v: Option<CString>)
    requires Inv(t) && Find(t.slots, k) < |t.slots|
    ensures var i := Find(t.slots, k);
            var u := t.(slots := t.slots[i := t.slots[i].(val := v)]);
            && Inv(u)
            && (Strict(t) ==> Strict(u))
            && Contents(u.slots) == Contents(t.slots)[k := v]
            && Occ(u.slots) == Occ(t.slots)
  {
    var i := Find(t.slots, k);
    var x := Slot(Some(k), v, Hash(k));
    assert t.slots[i].(val := v) == x;
    WriteBinds(t.slots, i, k, v);
    OccUpdate(t.slots, i, x);
  }

  lemma InsertKeeps(t: Table, k: CString, v: Option<CString>)
    requires Inv(t) && t.n < |t.slots| && Find(t.slots, k) == |t.slots|
    ensures Inv(Insert(t, k, v))
    ensures Strict(t) ==> Strict(Insert(t, k, v))
    ensures Contents(Insert(t, k, v).slots) == Contents(t.slots)[k := v]
    ensures Occ(Insert(t, k, v).slots) == Occ(t.slots) + 1
    ensures Insert(t, k, v).n == t.n + 1
  {
    InsertionSlot(t);
    var p := Probe(t.slots, t.n);
    WriteBinds(t.slots, p, k, v);
    OccUpdate(t.slots, p, Slot(Some(k), v, Hash(k)));
  }

  /** Setting a key updates exactly its binding in the map, whatever clears came before. */
  lemma SetKeeps(t: Table, k: CString, v: Option<CString>)
    requires Inv(t)
    ensures Inv(Set(t, k, v))
    ensures Strict(t) ==> Strict(Set(t, k, v))
    ensures Contents(Set(t, k, v).slots) == Contents(t.slots)[k := v]
    ensures Set(t, k, v).n - Occ(Set(t, k, v).slots) == t.n - Occ(t.slots)
    ensures Set(t, k, v).n == t.n + if k in Contents(t.slots) then 0 else 1
  {
    SearchIsNotMissed(t, k);
    LookupIsContents(t.slots, k);
    if Find(t.slots, k) < |t.slots| {
      OverwriteKeeps(t, k, v);
    } else {
      GrowKeeps(t);
      GrowFind(t.slots, |t.slots|, k);
      InsertKeeps(Grow(t), k, v);
    }
  }

  /** A set doubles the table exactly when its key is absent and the counter is at the size. */
  lemma SetSize(t: Table, k: CString, v: Option<CString>)
    requires Inv(t)
    ensures |Set(t, k, v).slots| == |t.slots| + if k !in Contents(t.slots) && t.n == |t.slots| then |t.slots| else 0
  {
    SearchIsNotMissed(t, k);
    LookupIsContents(t.slots, k);
    var i := if t.n > 0 then Find(t.slots, k) else |t.slots|;
    if i == |t.slots| {
      GrowKeeps(t);
      InsertionSlot(Grow(t));
    }
  }

  lemma SetKeepsDivisible(t: Table, k: CString, v: Option<CString>)
    requires Inv(t)
    ensures Divisible(t) ==> Divisible(Set(t, k, v))
  {
    SetSize(t, k, v);
    if Divisible(t) {
      DoubledMultiple(|t.slots|, PTR_WIDTH);
    }
  }

  // ---- Unsetting ----

  lemma EraseKeeps(t: Table, k: CString)
    requires Inv(t) && Find(t.slots, k) < |t.slots|
    ensures t.n > 0
    ensures var u := Table(t.n - 1, t.slots[Find(t.slots, k) := EMPTY]);
            && Inv(u)
            && (Strict(t) ==> Strict(u))
            && Contents(u.slots) == Contents(t.slots) - {k}
            && Occ(u.slots) == Occ(t.slots) - 1
  {
    var i := Find(t.slots, k);
    EraseUnbinds(t.slots, i, k);
    OccupiedCounts(t.slots, i);
    OccUpdate(t.slots, i, EMPTY);
  }

  /** Unsetting a key removes exactly its binding. */
  lemma UnsetKeeps(t: Table, k: CString)
    requires Inv(t)
    ensures Inv(Unset(t, k))
    ensures Strict(t) ==> Strict(Unset(t, k))
    ensures Contents(Unset(t, k).slots) == Contents(t.slots) - {k}
    ensures Unset(t, k).n - Occ(Unset(t, k).slots) == t.n - Occ(t.slots)
    ensures Unset(t, k).n == t.n - if k in Contents(t.slots) then 1 else 0
  {
    LookupIsContents(t.slots, k);
    if Find(t.slots, k) < |t.slots| {
      EraseKeeps(t, k);
    }
  }

  // ---- Clearing ----

  /** Exactly which keys outlive a clear: those that hash to zero and sit beyond the wiped prefix. */
  predicate Survives(s: seq<Slot>, k: CString) {
    Hash(k) == 0 && WipedPrefix(|s|) <= Find(s, k) < |s|
  }

  /** What is left of the map after a clear. */
  function Survivors(s: seq<Slot>): map<CString, Option<CString>> {
    map k | k in Contents(s) && Survives(s, k) :: Contents(s)[k]
  }

  /** A slot that is live after a clear was live before it, with a key that hashes to zero. */
  lemma ClearedLive(t: Table, i: nat)
    requires Inv(t) && WholePointers(t) && i < |t.slots| && Live(Clear(t).slots[i])
    ensures WipedPrefix(|t.slots|) <= i && t.slots[i] == Clear(t).slots[i] && t.slots[i].hash == 0
  {
  }

  lemma ClearLookup(t: Table, k: CString)
    requires Inv(t) && WholePointers(t) && UniqueKeys(Clear(t).slots)
    ensures Lookup(Clear(t).slots, k) == if Survives(t.slots, k) then Lookup(t.slots, k) else None
  {
    var s, c := t.slots, Clear(t).slots;
    var f := Find(c, k);
    if f < |c| {
      ClearedLive(t, f);
      MatchDecides(s, k, f);
      assert Survives(s, k);
    }
    if Survives(s, k) {
      MatchDecides(c, k, Find(s, k));
    }
  }

  lemma ClearUnique(t: Table)
    requires Inv(t) && WholePointers(t)
    ensures UniqueKeys(Clear(t).slots)
  {
    var c := Clear(t).slots;
    forall i, j | 0 <= i < j < |c| && Live(c[i]) && Live(c[j])
      ensures c[i].key != c[j].key
    {
      ClearedLive(t, i);
      ClearedLive(t, j);
    }
  }

  /** A clear keeps the invariant, and lowers the number of occupied slots, but not the counter,
      by the number of occupied slots in the wiped prefix. */
  lemma ClearKeeps(t: Table)
    requires Inv(t) && WholePointers(t)
    ensures Inv(Clear(t))
    ensures Contents(Clear(t).slots) == Survivors(t.slots)
    ensures Occ(t.slots) - Occ(Clear(t).slots) == Occ(t.slots[..WipedPrefix(|t.slots|)])
  {
    ClearCounts(t.slots, Clear(t).slots, WipedPrefix(|t.slots|));
    ClearUnique(t);
    var m := Survivors(t.slots);
    forall k: CString
      ensures Lookup(Clear(t).slots, k) == if k in m then Some(m[k]) else None
    {
      ClearLookup(t, k);
      LookupIsContents(t.slots, k);
    }
    ContentsAre(Clear(t).slots, m);
  }

  /** No live key beyond the wiped prefix hashes to zero: a caller can check this before a clear. */
  predicate LeavesNothing(t: Table) {
    forall i :: WipedPrefix(|t.slots|) <= i < |t.slots| && Live(t.slots[i]) ==> Hash(t.slots[i].key.value) != 0
  }

  /** To every later get a cleared dictionary looks empty exactly under that condition. */
  lemma ClearEmptiesMapIff(t: Table)
    requires Inv(t) && WholePointers(t)
    ensures Contents(Clear(t).slots) == map[] <==> LeavesNothing(t)
  {
    var s, w := t.slots, WipedPrefix(|t.slots|);
    ClearKeeps(t);
    if i :| w <= i < |s| && Live(s[i]) && Hash(s[i].key.value) == 0 {
      var k := s[i].key.value;
      MatchDecides(s, k, i);
      LookupIsContents(s, k);
      assert k in Survivors(s);
    }
    if k :| k in Survivors(s) {
      assert Live(s[Find(s, k)]);
    }
  }

  lemma ClearCounts(s: seq<Slot>, c: seq<Slot>, w: nat)
    requires w <= |s| == |c|
    requires forall i :: 0 <= i < w ==> c[i] == EMPTY
    requires forall i :: w <= i < |s| ==> c[i].key == s[i].key
    ensures Occ(s) - Occ(c) == Occ(s[..w])
  {
    assert s == s[..w] + s[w..] && c == c[..w] + c[w..];
    OccAppend(s[..w], s[w..]);
    OccAppend(c[..w], c[w..]);
    OccNone(c[..w]);
    SameKeysSameCount(s[w..], c[w..]);
  }

  lemma {:induction false} SameKeysSameCount(s: seq<Slot>, c: seq<Slot>)
    requires |s| == |c|
    requires forall i :: 0 <= i < |s| ==> c[i].key == s[i].key
    ensures Occ(s) == Occ(c)
  {
    if s != [] {
      SameKeysSameCount(s[..|s| - 1], c[..|c| - 1]);
    }
  }
}
