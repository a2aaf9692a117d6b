/** What a dump lists. */
module Dumps {
  import opened CStrings
  import opened SlotTable
  import opened TableSteps

  /** One line of a dump. */
  datatype Line = NothingToShow | Entry(key: CString, shown: CString)

  const UNDEF: CString := [0x55, 0x4E, 0x44, 0x45, 0x46]

  function Shown(v: Option<CString>): CString {
    if v.Some? then v.value else UNDEF
  }

  /** The entries of a table in slot order. */
  function Entries(s: seq<Slot>): seq<Line> {
    if s == [] then []
    else
      var last := s[|s| - 1];
      Entries(s[..|s| - 1]) + if last.key.Some? then [Entry(last.key.value, Shown(last.val))] else []
  }

  function DumpOf(t: Table): seq<Line> {
    if t.n < 1 then [NothingToShow] else Entries(t.slots)
  }

  /** The entries are the occupied slots, one line each. */
  lemma {:induction false} EntriesAreOccupied(s: seq<Slot>, k: CString, shown: CString)
    ensures |Entries(s)| == Occ(s)
    ensures NothingToShow !in Entries(s)
    ensures Entry(k, shown) in Entries(s)
       <==> exists i :: 0 <= i < |s| && s[i].key == Some(k)
              && (s[i].val == Some(shown) || (s[i].val == None && shown == [0x55, 0x4E, 0x44, 0x45, 0x46]))
    decreases |s|
  {
    if s != [] {
      var init, last := s[..|s| - 1], s[|s| - 1];
      EntriesAreOccupied(init, k, shown);
      if last.key == Some(k) && Shown(last.val) == shown {
        assert s[|s| - 1] == last;
      }
      if i :| 0 <= i < |init| && init[i].key == Some(k) && Shown(init[i].val) == shown {
        assert s[i] == init[i];
      }
      if i :| 0 <= i < |s| && s[i].key == Some(k) && Shown(s[i].val) == shown {
        assert i < |init| ==> init[i] == s[i];
      }
    }
  }

  lemma {:induction false} EntryOfSlot(s: seq<Slot>, i: nat)
    requires i < |s| && s[i].key.Some?
    ensures Occ(s[..i]) < Occ(s) == |Entries(s)|
    ensures Entries(s)[Occ(s[..i])]
         == Entry(s[i].key.value, if s[i].val.Some? then s[i].val.value else [0x55, 0x4E, 0x44, 0x45, 0x46])
    decreases |s|
  {
    var m := |s| - 1;
    EntriesAreOccupied(s[..m], [], []);
    if i < m {
      assert s[..m][..i] == s[..i];
      EntryOfSlot(s[..m], i);
    }
  }

  /** The line of an occupied slot, stale or not, comes after those of the occupied slots before it.
      It shows the value of the slot, or the text "UNDEF" where that is NULL. */
  lemma LineOfSlot(t: Table, i: nat)
    requires t.n > 0 && i < |t.slots| && t.slots[i].key.Some?
    ensures |DumpOf(t)| == Occ(t.slots) > Occ(t.slots[..i])
    ensures DumpOf(t)[Occ(t.slots[..i])]
         == match t.slots[i].val
            case Some(v) => Entry(t.slots[i].key.value, v)
            case None => Entry(t.slots[i].key.value, [0x55, 0x4E, 0x44, 0x45, 0x46])
  {
    EntryOfSlot(t.slots, i);
  }

  /** Without clears, a dump has one line per binding, and a line for exactly the bindings there
      are, a NULL value being shown as UNDEF. */
  lemma DumpListsTheMap(t: Table, k: CString, shown: CString)
    requires Strict(t)
    ensures t.n == 0 ==> DumpOf(t) == [NothingToShow]
    ensures t.n > 0 ==> |DumpOf(t)| == t.n
    ensures t.n > 0 && Entry(k, shown) in DumpOf(t) ==> k in Contents(t.slots)
    ensures t.n > 0 && k in Contents(t.slots) ==>
              (Entry(k, shown) in DumpOf(t)
               <==> shown == match Contents(t.slots)[k] case Some(v) => v case None => [0x55, 0x4E, 0x44, 0x45, 0x46])
  {
    var s := t.slots;
    EntriesAreOccupied(s, k, shown);
    LookupIsContents(s, k);
    if i :| 0 <= i < |s| && s[i].key == Some(k) && Shown(s[i].val) == shown {
      assert Live(s[i]);
      MatchDecides(s, k, i);
    }
  }

  /** The entries of a table whose occupied slots come first are those slots in order. */
  lemma {:induction false} EntriesOfPrefix(s: seq<Slot>, ks: seq<CString>)
    requires |ks| <= |s|
    requires forall i :: 0 <= i < |ks| ==> s[i].key == Some(ks[i])
    requires forall i :: |ks| <= i < |s| ==> !Occupied(s[i])
    ensures |Entries(s)| == |ks|
    ensures forall i :: 0 <= i < |ks| ==> Entries(s)[i] == Entry(ks[i], Shown(s[i].val))
    decreases |s|
  {
    if s != [] {
      EntriesOfPrefix(s[..|s| - 1], if |ks| == |s| then ks[..|ks| - 1] else ks);
    }
  }
}
