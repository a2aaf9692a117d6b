/** The slot table on values: what one slot holds, how slots are searched and counted, and the
    finite map a table stands for. */
module SlotTable {
  import opened CStrings
  import opened KeyHash

  /** Entry i of the three parallel arrays. A NULL key marks the slot as empty; a NULL value
      beside a key is a binding to NULL, not an absence. */
  datatype Slot = Slot(key: Option<CString>, val: Option<CString>, hash: bv32)

  const EMPTY := Slot(None, None, 0)

  predicate Occupied(s: Slot) { s.key.Some? }

  /** The test of every search: cached hash first, then the string. */
  predicate Matches(s: Slot, k: CString) { s.hash == Hash(k) && s.key == Some(k) }

  /** A slot that some search can find. After a clear, slots may be occupied and not live. */
  predicate Live(s: Slot) { s.key.Some? && s.hash == Hash(s.key.value) }

  function Empties(m: nat): (s: seq<Slot>)
    ensures |s| == m && forall i :: 0 <= i < m ==> s[i] == EMPTY
  {
    seq(m, _ => EMPTY)
  }

  // ---- Searching ----

  /** The first match at or after `from`, or the size of the table. */
  function FindFrom(s: seq<Slot>, k: CString, from: nat): (r: nat)
    requires from <= |s|
    ensures from <= r <= |s|
    ensures forall j :: from <= j < r ==> !Matches(s[j], k)
    ensures r < |s| ==> Matches(s[r], k)
    decreases |s| - from
  {
    if from == |s| || Matches(s[from], k) then from else FindFrom(s, k, from + 1)
  }

  function Find(s: seq<Slot>, k: CString): (r: nat)
    ensures r <= |s|
    ensures forall j :: 0 <= j < r ==> !Matches(s[j], k)
    ensures r < |s| ==> Matches(s[r], k)
  {
    FindFrom(s, k, 0)
  }

  /** The first empty slot at or after `from`, or the size of the table. */
  function EmptyFrom(s: seq<Slot>, from: nat): (r: nat)
    requires from <= |s|
    ensures from <= r <= |s|
    ensures forall j :: from <= j < r ==> Occupied(s[j])
    ensures r < |s| ==> !Occupied(s[r])
    decreases |s| - from
  {
    if from == |s| || !Occupied(s[from]) then from else EmptyFrom(s, from + 1)
  }

  /** Where the insertion probe ends: the first empty slot in cyclic order from `start`. */
  function Probe(s: seq<Slot>, start: nat): (r: nat)
    requires start <= |s|
    ensures r <= |s|
  {
    var r := EmptyFrom(s, start);
    if r < |s| then r else EmptyFrom(s, 0)
  }

  // ---- Counting ----

  function Occ(s: seq<Slot>): (c: nat)
    ensures c <= |s|
  {
    if s == [] then 0 else Occ(s[..|s| - 1]) + if Occupied(s[|s| - 1]) then 1 else 0
  }

  lemma {:induction false} OccAppend(a: seq<Slot>, b: seq<Slot>)
    ensures Occ(a + b) == Occ(a) + Occ(b)
    decreases |b|
  {
    if b == [] {
      assert a + b == a;
    } else {
      assert (a + b)[..|a + b| - 1] == a + b[..|b| - 1];
      OccAppend(a, b[..|b| - 1]);
    }
  }

  lemma OccUpdate(s: seq<Slot>, i: nat, x: Slot)
    requires i < |s|
    ensures Occ(s[i := x]) == Occ(s) - (if Occupied(s[i]) then 1 else 0) + if Occupied(x) then 1 else 0
  {
    var t := s[i := x];
    assert s == s[..i] + [s[i]] + s[i + 1..] && t == s[..i] + [x] + s[i + 1..];
    OccAppend(s[..i] + [s[i]], s[i + 1..]);
    OccAppend(s[..i], [s[i]]);
    OccAppend(s[..i] + [x], s[i + 1..]);
    OccAppend(s[..i], [x]);
    assert Occ([s[i]]) == (if Occupied(s[i]) then 1 else 0) && Occ([x]) == if Occupied(x) then 1 else 0;
  }

  lemma {:induction false} OccNone(s: seq<Slot>)
    ensures Occ(s) == 0 <==> forall i :: 0 <= i < |s| ==> !Occupied(s[i])
  {
    if s != [] {
      OccNone(s[..|s| - 1]);
      assert forall i :: 0 <= i < |s| ==> i < |s| - 1 || s[i] == s[|s| - 1];
    }
  }

  /** The pigeonhole: a table is full exactly when every slot is occupied. */
  lemma {:induction false} OccFull(s: seq<Slot>)
    ensures Occ(s) == |s| <==> forall i :: 0 <= i < |s| ==> Occupied(s[i])
  {
    if s != [] {
      OccFull(s[..|s| - 1]);
      assert forall i :: 0 <= i < |s| ==> i < |s| - 1 || s[i] == s[|s| - 1];
    }
  }

  /** Slot j is met before slot p by a walk that starts at `start` and wraps at the end. */
  predicate MetBefore(start: nat, j: nat, p: nat) {
    if start <= p then start <= j < p else start <= j || j < p
  }

  /** How many steps such a walk takes from slot i to slot p in a table of `size` slots. */
  function StepsTo(i: nat, p: nat, size: nat): (d: nat)
    requires i < size && p < size
    ensures d < size
    ensures d == 0 <==> i == p
  {
    if i <= p then p - i else p + size - i
  }

  /** The probe finds an empty slot exactly when occupied slots are fewer than slots, and it stops
      at the first one in cyclic order: everything met before it is occupied. */
  lemma ProbeStops(s: seq<Slot>, start: nat)
    requires start < |s|
    ensures Probe(s, start) < |s| <==> Occ(s) < |s|
    ensures Probe(s, start) < |s| ==> !Occupied(s[Probe(s, start)])
    ensures forall j :: 0 <= j < |s| && MetBefore(start, j, Probe(s, start)) ==> Occupied(s[j])
  {
    OccFull(s);
  }

  // ---- The map a table stands for ----

  /** What a search returns: the value beside the first match, if there is one. */
  function Lookup(s: seq<Slot>, k: CString): (r: Option<Option<CString>>)
  {
    var i := Find(s, k);
    if i < |s| then Some(s[i].val) else None
  }

  function Keys(s: seq<Slot>): set<CString> {
    set i | 0 <= i < |s| && Live(s[i]) :: s[i].key.value
  }

  lemma KeysAreFound(s: seq<Slot>, k: CString)
    ensures k in Keys(s) <==> Lookup(s, k).Some?
  {
    if k in Keys(s) {
      var i :| 0 <= i < |s| && Live(s[i]) && s[i].key.value == k;
      assert Matches(s[i], k);
    }
    if Find(s, k) < |s| {
      assert Live(s[Find(s, k)]);
    }
  }

  /** What the table means: the keys of its live slots, each bound to what a search returns. */
  function Contents(s: seq<Slot>): map<CString, Option<CString>> {
    map k | k in Keys(s) :: KeysAreFound(s, k); Lookup(s, k).value
  }

  /** Searching the slots is looking up the map. */
  lemma LookupIsContents(s: seq<Slot>, k: CString)
    ensures Lookup(s, k) == if k in Contents(s) then Some(Contents(s)[k]) else None
  {
    KeysAreFound(s, k);
  }

  /** A map that answers every lookup as the table does is the table's map. */
  lemma ContentsAre(s: seq<Slot>, m: map<CString, Option<CString>>)
    requires forall k :: Lookup(s, k) == if k in m then Some(m[k]) else None
    ensures Contents(s) == m
  {
    forall k: CString
      ensures k in Contents(s) <==> k in m
      ensures k in m ==> Contents(s)[k] == m[k]
    {
      LookupIsContents(s, k);
    }
  }

  /** No two live slots hold the same key. */
  predicate UniqueKeys(s: seq<Slot>) {
    forall i, j :: 0 <= i < j < |s| && Live(s[i]) && Live(s[j]) ==> s[i].key != s[j].key
  }

  lemma OnlyMatch(s: seq<Slot>, k: CString, i: nat, j: nat)
    requires UniqueKeys(s) && i < |s| && j < |s| && Matches(s[i], k) && Matches(s[j], k)
    ensures i == j
  {
    assert Live(s[i]) && Live(s[j]);
  }

  /** Under unique keys, any matching slot decides the search. */
  lemma MatchDecides(s: seq<Slot>, k: CString, i: nat)
    requires UniqueKeys(s) && i < |s| && Matches(s[i], k)
    ensures Find(s, k) == i
  {
    OnlyMatch(s, k, i, Find(s, k));
  }
}
