# LiteNet: the string dictionary and the binary serializer

This project models two parts of LiteNet and proves what they do.

**The dictionary** (`src/conf/dictionary.cpp`) keeps string keys and optional string values in three
parallel arrays with holes, an entry counter `n`, a probe that wraps around, growth by doubling, and a
cached hash per slot that filters string comparison. It is modelled twice:

- `Dictionaries.Dictionary` is the object as the code has it: arrays changed in place by methods with
  the code's loops, over a `Heap` whose live blocks are tracked. Freeing needs a live block, and so
  does every read of a stored string (`Heap.StrEqual`, `Heap.Read`), so a double free or a use after
  free would not verify. `Driver` performs whole lists of operations on the object.
- `TableSteps` says what each operation does to the slot table as a value. Every method is proved to do
  exactly that (`Abs()`), and to leave the rest of the heap alone
  (`heap.live - Footprint()` does not change). The laws are then proved about the values, over whole runs.

`Slotwise` fixes each operation by itself: every field of every slot afterwards, and the counter and
the size, from those before, with the constants of the code and without the functions the operations
are written with. `KeyHash.HashIsTheAssignments` does so for the hash, and `Dumps.LineOfSlot` for a dump.

What the table stands for is a finite map (`SlotTable.Contents`). A NULL value is a binding, not an
absence. `TableSteps.Inv` holds in every reachable state; `TableSteps.Strict` holds in every state
reached without `dictionary_clear`: the counter is the number of occupied slots and every cached hash
is that of its key.

A clear zeroes `size` characters of each pointer array. Statements about clears ask that this leaves
no pointer half zeroed: the size is a multiple of the width of a pointer, or the slot in which the
characters end is empty (`TableSteps.WholePointers`; over a run, `Runs.Defined`). Every operation
keeps a size that is such a multiple, so it is enough that the initial size, 128 by default, is one.
The width itself is left open, but for being two characters at least.

**The serializer** (`src/comm/Serializer.cpp`) is modelled with a byte array, an offset for each
pointer into it, and a `Host` that says two separate things: the byte order of the machine, and
whether the name `BIG_ENDIAN` is defined, since `src/comm/LiteType.h:93-99` selects the 64-bit
conversions by that name alone. Results are stated for all four combinations, and for a writer and a
reader on different hosts.

| file | contents |
|---|---|
| Strings.dfy, Hash.dfy | C strings; the key hash and its algebra |
| SlotTable.dfy, TableSteps.dfy | slots, search, probe, counting, the map; the operations and their invariants |
| Dictionary.dfy, Dump.dfy | the object and its heap; what a dump lists |
| Slotwise.dfy | each operation and runs of unsets, slot for slot |
| Runs.dfy, Accounting.dfy | runs against a plain map; copies, sizes, counters and leaks over runs |
| Laws.dfy, Clears.dfy, Reloads.dfy | undo and order laws; what a clear does; what reloading through it costs |
| Driver.dfy, SelfTest.dfy | lists of operations performed on the object; the test program |
| ByteOrder.dfy, Serializer.dfy, Messages.dfy | words and bytes; put and get; whole messages |

## Where code and documentation part

The model follows the code.

- `dictionary_clear` reads as if it emptied the dictionary. It zeroes `size` characters of each pointer
  array instead of `size` pointers and never resets `n`. `Clears` proves exactly when each intended
  effect holds, `Runs.RunTracksMapIff` when a whole run is not affected, and `Reloads` what
  `iniparser_reload` (`src/conf/iniparser.cpp:827-896`), which clears and sets again, costs because of it.
- `src/conf/dictionary.h:125-130` calls setting a key to NULL equivalent to deleting it.
  `Laws.SetNullIsNotUnset` says how the two differ.
- `Serializer_SetDDWord` computes the converted word and then copies the unconverted one. Where
  `BIG_ENDIAN` is defined on a little-endian host, a round trip still works, but the bytes are not in
  network order (Appendix B of RFC 791). `Messages.OneGoesWrong` shows both failures on the value 1.

## Model

| member | source | states |
|---|---|---|
| KeyHash.ComputeHash | src/conf/dictionary.cpp:90-106 | the assignments of the loop and the three after it compute the hash that the lemmas below are about, for every key and either signedness of `char` |
| KeyHash.HashIsTheAssignments | src/conf/dictionary.cpp:97-105 | for every key, states that start at 0 and follow the three assignments of the loop, with the character widened by value, end after the three closing assignments in its hash |
| KeyHash.HashVectors | src/conf/dictionary.cpp:90-106 | the hashes of "", "a" (0xCA2E9442), "aqaa" and of one character above 0x7F, for either signedness |
| KeyHash.RoundKeepsStatesApart | src/conf/dictionary.cpp:97-101 | for a fixed character a round never merges two 32-bit states |
| KeyHash.RoundTellsCharactersApart | src/conf/dictionary.cpp:97-101 | from a fixed state a round never merges two characters |
| KeyHash.FinaliseInjective | src/conf/dictionary.cpp:102-104 | the finaliser is one-to-one on 32 bits |
| KeyHash.SuffixKeepsCollisions | src/conf/dictionary.cpp:97-105 | appending one suffix to two keys neither creates nor removes a collision |
| KeyHash.OneCharacterApart | src/conf/dictionary.cpp:90-106 | keys of equal length that differ in exactly one character never collide |
| KeyHash.ZeroHash | src/conf/dictionary.cpp:97-105 | exactly which keys hash to zero |
| KeyHash.HashesCollide | src/conf/dictionary.cpp:84-87 | collisions exist, two keys being given, with any common suffix: the string comparison is needed |
| KeyHash.NonEmptyZeroHash | src/conf/dictionary.cpp:90-106 | a given non-empty key hashes to zero |
| SlotTable.ProbeStops | src/conf/dictionary.cpp:267-272 | the probe finds an empty slot iff fewer slots are occupied than there are, and it is the first in cyclic order |
| SlotTable.OccFull | src/conf/dictionary.cpp:267-272 | the pigeonhole behind it: the count equals the size iff every slot is occupied |
| SlotTable.LookupIsContents | src/conf/dictionary.cpp:183-195 | searching by hash then string is looking up the finite map |
| SlotTable.MatchDecides | src/conf/dictionary.cpp:187-192 | with unique keys any matching slot is the one a search returns |
| TableSteps.NewIsEmpty | src/conf/dictionary.cpp:119-135 | a new dictionary of any requested size is the empty map |
| TableSteps.SearchIsNotMissed | src/conf/dictionary.cpp:234 | skipping the search when `n` is zero never misses a binding |
| TableSteps.InsertionSlot | src/conf/dictionary.cpp:267-272 | in every reachable state with `n` below the size, the probe ends at an all-zero slot, having passed occupied ones only |
| TableSteps.GrowKeeps | src/conf/dictionary.cpp:252-265 | doubling keeps the map, the counter and both invariants, and leaves room |
| TableSteps.SetKeeps | src/conf/dictionary.cpp:224-279 | a set changes exactly its binding in the map, after any clears, keeps both invariants, and raises the counter iff the key was absent |
| TableSteps.SetSize | src/conf/dictionary.cpp:250-265 | a set doubles the table iff its key is absent and `n` is at the size |
| TableSteps.SetKeepsDivisible | src/conf/dictionary.cpp:250-265 | a set keeps the size a multiple of the width of a pointer |
| TableSteps.UnsetKeeps | src/conf/dictionary.cpp:292-327 | an unset removes exactly its binding, keeps both invariants, and lowers the counter iff the key was present |
| TableSteps.WipedPrefixIs | src/conf/dictionary.cpp:365-367 | the wiped prefix is as many pointers as `size` characters hold and not one more; 16 of the default 128 slots for 8-byte pointers |
| TableSteps.InPrefix | src/conf/dictionary.cpp:365-367 | pointer i is in it iff its (i + 1) times the width characters are among the `size` |
| TableSteps.ClearKeeps | src/conf/dictionary.cpp:360-369 | where no pointer is left half zeroed, a clear keeps the weak invariant, keeps exactly the bindings whose key hashes to zero beyond the wiped prefix, and lowers the occupied count, not the counter, by the occupied slots of the prefix |
| TableSteps.ClearedLive | src/conf/dictionary.cpp:365-368 | a slot that can be found after a clear was there unchanged before, beyond the prefix, with hash zero |
| TableSteps.ClearEmptiesMapIff | src/conf/dictionary.cpp:365-368 | no later get finds anything iff no live key beyond the prefix hashes to zero |
| Dictionaries.Heap.MemDouble | src/conf/dictionary.cpp:38-51 | the copy is twice as long, old content then zeros; the old block is freed |
| Dictionaries.Heap.XStrDup | src/conf/dictionary.cpp:63-73 | NULL for NULL, else one new live block with the same text |
| Dictionaries.Heap.Read | src/conf/dictionary.cpp:350-356 | reading a stored string needs its block to be live still |
| Dictionaries.StoreBothHolds | src/conf/dictionary.cpp:270-277 | replacing both strings of a slot by fresh ones, freeing what was there, keeps every block owned once and the rest of the heap untouched |
| Dictionaries.MoveHolds | src/conf/dictionary.cpp:255-264 | moving to doubled arrays keeps every string owned once |
| Dictionaries.WipeHolds | src/conf/dictionary.cpp:365-367 | zeroing pointers without freeing leaks exactly what the wiped prefix pointed to |
| Dictionaries.FreeNext | src/conf/dictionary.cpp:151-156 | the strings of a slot are still live, and different, when those of all earlier slots have been freed |
| Dictionaries.Dictionary.constructor | src/conf/dictionary.cpp:119-135 | as many zeroed slots as asked for, but 128 at least, a counter of zero, and exactly the new blocks added to the heap |
| Dictionaries.Dictionary.Locate | src/conf/dictionary.cpp:183-194 | the search loop returns the first slot whose cached hash and string match, else the size, and reads live blocks only |
| Dictionaries.Dictionary.Get | src/conf/dictionary.cpp:178-196 | returns the stored pointer, NULL included, of a key in the map, else the default |
| Dictionaries.Dictionary.Overwrite | src/conf/dictionary.cpp:240-245 | only the value of the slot changes; the old string is freed once, the new one owned |
| Dictionaries.Dictionary.Double | src/conf/dictionary.cpp:255-264 | old slots then empty ones; strings stay, the three old arrays are freed |
| Dictionaries.Dictionary.FindRoom | src/conf/dictionary.cpp:267-272 | the wrapping probe terminates, at the first empty slot in cyclic order from `n` |
| Dictionaries.Dictionary.Fill | src/conf/dictionary.cpp:273-277 | one empty slot receives copies of key and value and the hash |
| Dictionaries.Dictionary.Set | src/conf/dictionary.cpp:224-279 | -1 and no change for a NULL key; else 0, the map updated at the key, the table as specified, no leak and nothing else freed |
| Dictionaries.Dictionary.Unset | src/conf/dictionary.cpp:292-327 | no change for a NULL key; else the key removed from the map, its two strings freed, nothing else |
| Dictionaries.Dictionary.Erase | src/conf/dictionary.cpp:318-325 | the slot becomes all zero and its strings are freed once each |
| Dictionaries.Dictionary.Clear | src/conf/dictionary.cpp:360-369 | where no pointer is left half zeroed: key and value i are NULL if they lie in the first `size` characters and unchanged otherwise, and every hash is 0; the bindings that survive, and exactly the blocks that leak |
| Dictionaries.Dictionary.Del | src/conf/dictionary.cpp:146-162 | every string, array and the dictionary is freed exactly once and nothing else; none of them is live afterwards |
| Dictionaries.Dictionary.Dump | src/conf/dictionary.cpp:341-358 | prints the lines the lemmas about dumps describe, and reads live blocks only |
| Dumps.EntriesAreOccupied | src/conf/dictionary.cpp:350-356 | a dump has one line per occupied slot, stale or not, with its value, or "UNDEF" for NULL |
| Dumps.LineOfSlot | src/conf/dictionary.cpp:350-356 | the line of each occupied slot, stale or not, stands after as many lines as slots are occupied before it, and shows its value, or "UNDEF" for NULL |
| Dumps.DumpListsTheMap | src/conf/dictionary.cpp:341-358 | without clears a dump has `n` lines, for exactly the bindings of the map, with their values, or "UNDEF" for NULL |
| Slotwise.NewSlots | src/conf/dictionary.cpp:119-135 | a new table has max(size, 128) slots, all zero, and a counter of zero |
| Slotwise.GetSlots | src/conf/dictionary.cpp:178-196 | a get returns the value of the first slot with that key and its hash, else the default |
| Slotwise.SetFoundSlots | src/conf/dictionary.cpp:232-249 | a set of a key that is found changes the value of that slot, no other slot, and neither counter nor size |
| Slotwise.SetAbsentSlots | src/conf/dictionary.cpp:250-278 | a set of any other key doubles the table iff the counter is at the size, fills the first empty slot in cyclic order from the counter, changes no other, and counts one |
| Slotwise.UnsetSlots | src/conf/dictionary.cpp:292-327 | an unset zeroes the slot with that key and its hash, changes no other slot and not the size, and counts one less iff there is one |
| Slotwise.ClearSlots | src/conf/dictionary.cpp:360-369 | a clear zeroes keys and values whose pointers lie in the first `size` characters and all hashes; the rest, size and counter stay |
| Slotwise.OneSetClearedDumped | src/conf/dictionary.cpp:341-369 | an instance: one set, a clear and a dump print nothing, not even that the dictionary is empty, and both strings leak |
| Slotwise.UnsetsSlots | src/conf/dictionary.cpp:292-327 | any unsets in a row zero exactly the slots with one of the keys and its hash |
| Slotwise.UnsetsKeepOrder | src/conf/dictionary.cpp:292-358 | in every reachable state, the lines of the remaining slots stay as they were after unsets, in the same order |
| Slotwise.UnsetsFilterDump | src/conf/dictionary.cpp:292-358 | without clears, a dump after unsets is the dump before without the lines of those keys |
| Runs.RunRefinesMap | src/conf/dictionary.cpp:178-369 | over any run from any reachable state, gets return what a plain map would, and the table ends as it does, if no clear leaves a binding; runs without clears are the special case |
| Runs.RunTracksMapIff | src/conf/dictionary.cpp:178-369 | the table stands for the plain map after every operation of a run iff each clear of it finds no live key that hashes to zero beyond the wiped prefix |
| Runs.AnswersDecideMap | src/conf/dictionary.cpp:178-196 | a table stands for a map iff it answers every possible get as the map does |
| Runs.OutputOfLast | src/conf/dictionary.cpp:178-196 | each get of a run adds to its outputs what a get returns in the state reached; no other operation does |
| Runs.NoZeroHashSuffices | src/conf/dictionary.cpp:178-369 | that condition holds if no key of the table or of the run hashes to zero |
| Runs.RunStaysStrict | src/conf/dictionary.cpp:224-327 | in every state reached without clear, `n` is the occupied count, cached hashes agree, and keys are unique |
| Runs.RunIsExact | src/conf/dictionary.cpp:178-369 | any run with any clears is the run of a map in which each clear keeps exactly the bindings whose key hashes to zero and is found beyond the wiped prefix |
| Accounting.SizeIsInitialPlusCopied | src/conf/dictionary.cpp:250-265 | the size is the initial size plus all slots copied by doubling |
| Accounting.SizeIsInitialDoubled | src/conf/dictionary.cpp:250-265 | the size is the initial size times a power of two |
| Accounting.SizeIsBoundedByPeak | src/conf/dictionary.cpp:250-265 | a run that grows ends with a size of at most 2 * (peak of `n` - 1) |
| Accounting.SizeWithoutUnset | src/conf/dictionary.cpp:250-277 | without unsets, `n` and the size never fall, and the size is the initial one or at most 2 * (final `n` - 1) |
| Accounting.InsertionsAreCounted | src/conf/dictionary.cpp:277 | without unsets the counter rises by exactly the number of insertions, and its peak is where it ends |
| Accounting.GrowthIsAmortised | src/conf/dictionary.cpp:224-279 | over any run of a new dictionary that grows, fewer slots are copied per array than twice the insertions |
| Accounting.CounterCountsWiped | src/conf/dictionary.cpp:277-369 | over any run, `n` exceeds the occupied slots by exactly the key slots wiped by clears |
| Accounting.CounterCountsDropped | src/conf/dictionary.cpp:277-369 | over any run, `n` exceeds the live bindings by exactly those lost to clears |
| Laws.SetWritesOneSlot | src/conf/dictionary.cpp:224-279 | a set writes one slot, which was empty or held the key, and a search finds it there |
| Laws.UnsetUndoesSet | src/conf/dictionary.cpp:252-325 | setting an absent key and unsetting it restores every slot and `n`; after growth the old table is the lower half and the upper half is zero |
| Laws.LastSetWins | src/conf/dictionary.cpp:224-279 | two sets of one key leave the same table, slot for slot, as the second alone |
| Laws.SetNullIsNotUnset | src/conf/dictionary.cpp:214-219 | a set to NULL keeps the binding and its count, and a get tells it from an unset iff the default is not NULL |
| Laws.CounterIsExact | src/conf/dictionary.cpp:404-406 | without clear `n` is the number of bindings, and it is zero iff every slot is zero |
| Laws.GetSeesLastWrite | src/conf/dictionary.cpp:178-369 | after any run whose clears leave nothing, a get returns the value of the last set of its key, or the default if an unset of it or a clear came later |
| Laws.GetUnwritten | src/conf/dictionary.cpp:178-327 | operations on other keys do not change what a get returns |
| Laws.SetsThenGet | src/conf/dictionary.cpp:386-399 | after any list of sets `n` is the number of distinct keys and a get returns the value set last |
| Laws.SetsThenUnsets | src/conf/dictionary.cpp:386-406 | unsetting all of them in any order ends with `n` zero and every slot zero |
| Laws.PackedProbe | src/conf/dictionary.cpp:267-272 | while the occupied slots are the first `n`, the probe takes no step, growth or not |
| Laws.PackedRun | src/conf/dictionary.cpp:224-279 | in any run of sets and gets, the occupied slots are the first `n`, in order of first insertion |
| Laws.DumpIsInInsertionOrder | src/conf/dictionary.cpp:341-358 | a dump after such a run lists each key once, in that order, with its latest value |
| Clears.ClearEmptiesOnlyTheEmpty | src/conf/dictionary.cpp:360-369 | a clear leaves an empty dictionary, by content or by dump, iff it was empty before |
| Clears.ClearZeroesSlotsIff | src/conf/dictionary.cpp:365-368 | it zeroes all slots iff none beyond the wiped prefix was occupied |
| Clears.ClearKeepsTheCounter | src/conf/dictionary.cpp:360-369 | one set and a clear leave `n` at one |
| Clears.ZeroHashSurvives | src/conf/dictionary.cpp:365-368 | a key that hashes to zero, set after enough others, is still returned after a clear |
| Clears.EmptyKeySurvives | src/conf/dictionary.cpp:360-369 | an instance: in a default dictionary, the empty key set after as many other keys as the prefix has slots (16 for 8-byte pointers) is still returned after a clear |
| Reloads.ReloadCounts | src/conf/dictionary.cpp:224-369 | a clear and a list of sets raise `n` by the keys that did not survive the clear, and leave it iff all survived |
| Reloads.ReloadsGrow | src/conf/dictionary.cpp:224-369 | when no key hashes to zero, reloading the same entries any number of times keeps the map, but `n` is the number of keys times the number of loads; the size is at least that, and the initial one or at most 2 * (`n` - 1) |
| Reloads.ReloadsLeak | src/conf/dictionary.cpp:224-369 | over all the reloads, as many keys are wiped as the counter before the last clear, or the size before it divided by the width of a pointer, whichever is less; that many blocks at least are leaked, at most twice as many, and exactly twice if no value is NULL |
| Driver.Perform | src/conf/dictionary.cpp:178-369 | any list of operations on the object leaves the table and returns the values of its run on values, frees nothing it does not own, and leaks exactly the counted number of blocks, by clears alone |
| SelfTest.Run | src/conf/dictionary.cpp:374-410 | the test program on any list of keys reports no missing key and nothing left over, and returns the heap as it found it |
| SelfTest.CountMissing | src/conf/dictionary.cpp:391-398 | no key of the map is answered by the invalid-key default |
| ByteOrder.SwapDDWordReverses | src/comm/Serializer.cpp:32 | the mask-and-shift swap behind the 64-bit conversions (`src/comm/LiteType.h:81-91`) is the reversal of the eight bytes |
| ByteOrder.BytesOf16 | src/comm/Serializer.cpp:46-47 | the two bytes of a word in network order, by value |
| ByteOrder.BytesOf32 | src/comm/Serializer.cpp:54-55 | the four bytes of a double word in network order, by value |
| ByteOrder.BytesOf64 | src/comm/Serializer.cpp:62-63 | the eight bytes of a 64-bit value in network order, by value |
| ByteOrder.StoreConverted | src/comm/Serializer.cpp:46-47 | converting and copying leaves network order in memory on either kind of host |
| ByteOrder.LoadConverted | src/comm/Serializer.cpp:15-16 | loading and converting reads network order on either kind of host |
| ByteOrder.LoadConverted64 | src/comm/Serializer.cpp:31-32 | loading and converting 64 bits reads network order where host order and `BIG_ENDIAN` agree, else the opposite order |
| Serializer.GetByte | src/comm/Serializer.cpp:6-10 | the byte at the cursor, and a cursor one further |
| Serializer.GetWord | src/comm/Serializer.cpp:13-18 | the two bytes at the cursor as a network-order number, on any host |
| Serializer.GetDWord | src/comm/Serializer.cpp:21-26 | the four bytes at the cursor as a network-order number, on any host |
| Serializer.GetDDWord | src/comm/Serializer.cpp:29-34 | the eight bytes as a network-order number iff host order and `BIG_ENDIAN` agree, else in the opposite order |
| Serializer.SetByte | src/comm/Serializer.cpp:37-41 | one byte written, all others untouched |
| Serializer.SetWord | src/comm/Serializer.cpp:44-49 | two bytes in network order on any host, all others untouched |
| Serializer.SetDWord | src/comm/Serializer.cpp:52-57 | four bytes in network order on any host, all others untouched |
| Serializer.SetDDWord | src/comm/Serializer.cpp:60-64 | eight bytes in host order, as the unconverted word is copied, all others untouched |
| Messages.PutField | src/comm/Serializer.cpp:37-64 | each put function is the put of its kind in the results on messages |
| Messages.GetField | src/comm/Serializer.cpp:6-34 | each get function is the get of its kind in the results on messages |
| Messages.PutMessage | src/comm/Serializer.cpp:37-64 | a chain of puts on the buffer, each at the cursor the last returned, is the chain of the results on messages |
| Messages.GetMessage | src/comm/Serializer.cpp:6-34 | so is the matching chain of gets |
| Messages.DDWordArrives | src/comm/Serializer.cpp:29-64 | between any two hosts a 64-bit value arrives unchanged iff an even number of byte reversals happen or it is its own reversal; else reversed |
| Messages.DDWordRoundTrip | src/comm/Serializer.cpp:29-64 | on one host the round trip is the identity iff `BIG_ENDIAN` is defined (iff the host is big-endian, where the two agree) or the value is its own reversal; two trips always restore it |
| Messages.OneGoesWrong | src/comm/Serializer.cpp:29-64 | an instance on little-endian hosts: with `BIG_ENDIAN` defined the value 1 is not in network order on the wire; without, it comes back as 2^56 |
| Messages.PutAllWrites | src/comm/Serializer.cpp:37-64 | chained puts write the bytes of the fields in a row and touch no other byte |
| Messages.FieldStands | src/comm/Serializer.cpp:37-64 | the bytes of each field stand after those of the fields before it, at the sum of their widths |
| Messages.Layout | src/comm/Serializer.cpp:37-64 | the 15 bytes of a message of one field of each kind, one by one, on either kind of host |
| Messages.MessageRoundTrip | src/comm/Serializer.cpp:6-64 | chained gets read back every field as received, and both cursors end at the sum of the widths |
| Messages.MessageArrivesIff | src/comm/Serializer.cpp:6-64 | a message arrives unchanged iff each 64-bit field of it meets the condition above |
| Messages.NarrowMessageRoundTrip | src/comm/Serializer.cpp:6-57 | a message of bytes, words and double words always arrives unchanged, between any two hosts |
| Messages.WireIsNetworkOrder | src/comm/Serializer.cpp:37-64 | a put leaves network order for all but a 64-bit value that is not its own reversal, on a little-endian host |
| Messages.WireIsHostIndependent | src/comm/Serializer.cpp:37-57 | the bytes of such a narrow message are the same from any host, each host converting and storing in its own order |
| Messages.WireOrder | src/comm/Serializer.cpp:37-57 | comparing encoded messages of one shape byte by byte is comparing their fields in order |
| Messages.WireInjective | src/comm/Serializer.cpp:37-57 | different messages of one shape have different bytes |

## Left out

- Failed allocations: `dictionary_new`, `mem_double` and `xstrdup` always succeed here, so the -1 after a failed doubling, which leaves some arrays replaced and others lost, does not occur.
- Overflow of the C `int` in `n`, `size` and the byte counts: both are unbounded here, which is faithful up to about 2^27 slots.
- A NULL dictionary: `dictionary_del`, `dictionary_set`, `dictionary_dump` and `dictionary_clear` return at once for it; a receiver here is never null. The same goes for a NULL output stream.
- Dictionaries.Dictionary.Clear: a size that is no multiple of the width of a pointer, whatever that width is, is covered only while the slot in which the zeroed characters end is empty; otherwise the code overwrites part of a live pointer, which has no value here. Runs with clears are covered as far as no clear does that (`Runs.Defined`).
- Dictionaries.Dictionary.Dump: gives the entries of a dump, not its padding or its stream.
- Aliasing of a lookup key with a string the dictionary owns: keys and values are passed in as values.
- Dictionaries.Heap: follows which blocks are live, not their addresses or sizes; strings in blocks are never changed in place, as in the code.
- Serializer: the unaligned and type-punned loads through cast pointers read plain bytes here.
- The 64-bit conversions when neither `BIG_ENDIAN` nor `LITTLE_ENDIAN` is defined: the code does not compile unless the system supplies them.
- The rest of the ini parser: of `iniparser_reload` only the clear followed by sets is modelled, not reading or parsing the file, nor its error paths.
- The socket server, timers, shared-memory channels, logger and md5 code of the repository.
