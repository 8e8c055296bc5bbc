# AMX Mod X: a verified model

A Dafny model of the parts of AMX Mod X whose correctness is an argument rather
than a glance: the double-array trie behind the trie natives, the loader and the
abstract machine that plugins run on, the MD5 digest, the task scheduler with its
forward registry, and four smaller cores. `dafny verify dfyconfig.toml` checks
all of it.

Code that the source writes as objects updated in place is written that way
here: classes, arrays and loops, proved against functions on values. Pointers
are indices, and a node of a list is a position in a sequence.

* **Trie** (`TrieTree`, `TrieArray`, `TrieOrder`, `TrieLookup`, `TrieFouled`,
  `KTrie`, `TrieHistory`, `TrieByteOne`, `TrieDormant`, `TrieNatives`). `TrieTree` is the trie as
  a mathematical object, `TrieArray` how it lies in the node array, also while
  siblings are being moved. `KTrie` is the class. `Insert` refines the update of a
  finite map through free slots, growth, collisions and the splitting of
  terminators; `TrieFouled` says what is left when it has overwritten the root.
  `TrieNatives` puts owned buffers on top and counts them.
* **Loader and machine** (`Compact`, `CompactWriter`, `AmxOpcodes`, `AmxLoader`,
  `AmxOptimizer`, `AmxMachine`, `AmxSimulation`, `AmxExec`, `AmxPlugin`,
  `AmxHost`, `AmxCalls`, `AmxPublic`, `PackedStrings`). The image is expanded in place and relocated, and
  calls of float natives are patched. `AmxMachine` says what each instruction
  does; `AmxExec` is the flat switch over opcode numbers. The main theorem is
  `RelocationPreservesMeaning`: the relocated image with absolute addresses
  simulates the original one read relative to the code, wherever it is loaded.
* **MD5** (`Md5Spec`, `Md5`): RFC 1321, sections 3.1 to 3.5, and the class that
  is fed in chunks.
* **Scheduler** (`Forwards`, `TaskBooks`, `TaskRules`, `TaskFrames`, `TaskEnds`,
  `Tasks`). A
  callback is any tree of native calls, run in the middle of the scheduler's own
  operations. The ghost ledger in `TaskBooks` remembers every registration there
  has been, its turns, and which of them were runs. `TaskRules` is what happens,
  as functions of the state, `TaskFrames` who takes a turn in a frame, and `Tasks`
  the class, which does the same in place.
* **Smaller cores**: `Commands` (sorted lists and the query cursor), `Sorting`
  (rows behind self-relative offsets), `Sqroot`.

Some behaviour is not what its callers may expect; it is kept and stated exactly:
key byte 1 can lead an insertion onto the root (`Fouls`), which loses keys unless
`InsertOverRoot`'s condition holds; a task whose plugin is paused is used up
without having run (`DoneExactly`, `PausedOnce`); `Replace` loses a value written
to a key that has a node but is not set, be it removed or never set
(`AfterRemoval`, `AfterSplit`); an unpacked text whose first byte is 0x80 or more
is read as a packed one (`SeenExactly`, `ReadsAnother`); a frame can be kept going
by its callbacks (`FrameEnds`, `GoesOn`); `Clear` leaves the empty key; `floatround` modes other
than 0 to 2 are patched although the opcode has three modes only (`ModesExact`);
an unbound float native makes native -1 patchable (`UnboundIsPatched`, `BindsNothing`); a forward
run inside itself can be freed while it runs (`UnregisterFrees`, `ReturnFrees`);
the command cursor can be stale after a registration (`CursorAfter`); comparing cells by
their difference goes wrong on overflow (`DifferenceOrders`, `LowestIsGreater`).

## Model

| member | source | states |
|---|---|---|
| KTrieModule.KTrie.Insert | amxmodx/sm_trie_tpl.h:140-650 | An unset key is added with its value and nothing else changes, a set key gives false and changes nothing, the counter follows; the trie stays one exactly if the insertion does not foul the root, and if it does, it is said what the arrays hold then |
| KTrieModule.KTrie.InsertVacant | amxmodx/sm_trie_tpl.h:185-214 | A key that stops at a free slot, or one past the array after a single growth, is added and every other key keeps its value |
| KTrieModule.KTrie.Collide | amxmodx/sm_trie_tpl.h:215-415 | Whichever family of siblings is moved out of the way, the map afterwards is the old one plus the new key; only if the contested slot is the root's own and the root's children are moved, the new node is written over the root |
| KTrieModule.KTrie.OverwriteRoot | amxmodx/sm_trie_tpl.h:285-413 | The root's children go to the first base with room for them, and the root's slot holds the new node; with its old root back, the trie would be sound for the old map |
| KTrieModule.KTrie.MoveSiblings | amxmodx/sm_trie_tpl.h:291-396 | After all listed siblings have moved to the new base, the array holds the same tree: same keys, same values, all parent links right |
| KTrieModule.KTrie.MoveNode | amxmodx/sm_trie_tpl.h:308-334 | One node is copied to its new slot, its children are pointed at it and its old slot is cleared; no other slot changes |
| KTrieModule.KTrie.SplitTerm | amxmodx/sm_trie_tpl.h:438-621 | Splitting a terminator, for any two different suffixes, keeps the old key with its value and adds the new key with its |
| KTrieModule.KTrie.Deepen | amxmodx/sm_trie_tpl.h:451-479 | A common byte of both suffixes becomes one more arc; the map is unchanged and the released characters stay unused |
| KTrieModule.KTrie.Check | amxmodx/sm_trie_tpl.h:941-956 | The base that is found selects an unused slot inside the array, which has grown at most once |
| KTrieModule.KTrie.Check2 | amxmodx/sm_trie_tpl.h:957-974 | The base that is found selects unused slots for both bytes; one growth at most |
| KTrieModule.KTrie.CheckMulti | amxmodx/sm_trie_tpl.h:975-1015 | The base that is found is the first one that selects free slots, or slots past the array, for all listed bytes; one growth at most |
| KTrieModule.KTrie.Grow | amxmodx/sm_trie_tpl.h:864-894 | The array is doubled, keeps its nodes, and its new half is cleared |
| KTrieModule.KTrie.AddString | amxmodx/sm_trie_tpl.h:922-940 | A suffix is put behind the used part of the table, terminated, with all live suffixes as they were |
| KTrieModule.KTrie.InternalRetrieve | amxmodx/sm_trie_tpl.h:820-863 | The walk gives the node that the arrays lead to, sound or not; in a trie that is the node that stands for the key, and there is none only if the tree has none |
| KTrieModule.KTrie.Retrieve | amxmodx/sm_trie_tpl.h:97-105 | What the arrays answer; in a trie the value in the map, if the key is set |
| KTrieModule.KTrie.Remove | amxmodx/sm_trie_tpl.h:75-89 | Exactly the given key leaves the map, its node stays without a value; false if it was not set |
| KTrieModule.KTrie.Replace | amxmodx/sm_trie_tpl.h:114-130 | The map is updated, except that a key with a node that has no value stays unset and its new value is lost; a new key that fouls the root does what its insertion does |
| KTrieModule.KTrie.CommonPrefixDormant | amxmodx/sm_trie_tpl.h:438-621 | A key that is not set, but lies on the way that two set keys have in common, has such a node, be it that it never was set |
| TrieDormant.AfterRemoval | amxmodx/sm_trie_tpl.h:75-130 | Run: a key is removed and then replaced; the replacement reports success and the key is not found |
| TrieDormant.AfterSplit | amxmodx/sm_trie_tpl.h:114-130 | Run: after the insertion of BAX and BAY the key B is replaced, with the same outcome |
| KTrieModule.KTrie.Clear | amxmodx/sm_trie_tpl.h:63-67 | Every key goes but the empty one, which is kept; the counter is right afterwards exactly when the empty key was not set |
| KTrieModule.KTrie.RunDestructor | amxmodx/sm_trie_tpl.h:786-796 | Each value of a non-empty key is handed over exactly once, and none stays set |
| KTrieModule.KTrie.BadIterator | amxmodx/sm_trie_tpl.h:670-676 | The calls are the set non-empty keys with their values, each once, in strictly ascending byte order, exactly if each of these keys is shorter than the buffer; a buffer of two places or more is never left |
| KTrieModule.KTrie.BadIteratorR | amxmodx/sm_trie_tpl.h:679-760 | Below a node: if all set keys fit, its set descendants, once each, in order, however far nodes without a value run past the buffer; the bytes in front of the last two places stay |
| KTrieModule.KTrie.NoByteOneIsSafe | amxmodx/sm_trie_tpl.h:174-214 | A key without byte 1 can never be led onto the slot of the root |
| TrieLookup.FindSound | amxmodx/sm_trie_tpl.h:820-863 | From any node of a trie, a walk over the arrays answers what the map says of that path and the rest |
| TrieFouled.NeverSound | amxmodx/sm_trie_tpl.h:398-413 | When the root has been overwritten, the arrays are no trie of any map: the root does not point back at itself |
| TrieFouled.ReadShifted | amxmodx/sm_trie_tpl.h:833-860 | When a terminator has been written over the root, every key is looked up with its first byte shifted by the difference of the suffix's offset to the root's old base |
| TrieFouled.BelowArc | amxmodx/sm_trie_tpl.h:833-860 | When an arc has been written over the root, a lookup that comes past the new key starts again behind it |
| TrieFouled.KeptExactly | amxmodx/sm_trie_tpl.h:285-413 | Every old key and the new one are still found exactly if nothing was left of the new key, or its suffix lies at the root's base |
| TrieFouled.AnswersExactly | amxmodx/sm_trie_tpl.h:285-413 | The arrays answer for the map and for nothing else exactly in the second of these cases |
| TrieByteOne.InsertOverRoot | amxmodx/sm_trie_tpl.h:174-413 | The insertion of a key that fouls the root keeps all keys exactly if the fouling byte is its last one, or the string table ends at the first base with room for the root's children |
| TrieByteOne.LosesA | amxmodx/sm_trie_tpl.h:174-413 | Run: after the insertion of A and A\\1X, the key A is not found any more |
| TrieByteOne.FindsMore | amxmodx/sm_trie_tpl.h:174-413 | Run: after the insertion of A and A\\1, both are found, and A\\1A too, which was never inserted |
| TrieArray.MoveOne | amxmodx/sm_trie_tpl.h:308-334 | Moving one sibling keeps every path of the tree where its links lead, whatever else has moved already |
| TrieArray.StepSlot | amxmodx/sm_trie_tpl.h:833-860 | Following a byte from a node lands on that child, or on a slot that is free, outside or somebody else's |
| TrieArray.AttachSound | amxmodx/sm_trie_tpl.h:198-213 | A node written into a free slot under its parent adds its own key and nothing else |
| TrieArray.DisbandSound | amxmodx/sm_trie_tpl.h:451-484 | A terminator turned into an arc takes exactly its own key out of the map |
| TrieTree.FullInjective | amxmodx/sm_trie_tpl.h:820-863 | No two nodes stand for the same key |
| TrieOrder.LessTotal | amxmodx/sm_trie_tpl.h:679-760 | The walking order is a strict total order, so the ascending list of the keys is unique |
| TrieHistory.Run | amxmodx/sm_trie_tpl.h:92-150 | Any history of insertions, removals and lookups on a fresh trie, with key bytes 2 to 255, gets the replies of a finite map and reports its size |
| TrieNatives.CellTrie.SetCell | amxmodx/trie_natives.cpp:42-74 | The key holds the cell, its former buffer is freed, and every other key reads as it did, the contents of its buffer included |
| TrieNatives.CellTrie.SetBuffer | amxmodx/trie_natives.h:34-100 | The key's buffer starts with the given cells, and goes on with what it held when it was longer; every other key reads as it did |
| TrieNatives.CellTrie.SetArray | amxmodx/trie_natives.cpp:109-141 | An array is stored; an empty one sets a new key without a value and changes no old one; every other key reads as it did |
| TrieNatives.CellTrie.DeleteKey | amxmodx/trie_natives.cpp:241-261 | The key goes and its buffer is freed; every other key reads as it did |
| TrieNatives.CellTrie.TrieClear | amxmodx/trie_natives.cpp:28-40 | All keys go with their buffers but the empty one, which reads as it did |
| TrieNatives.CellTrie.TrieDestroy | amxmodx/trie_natives.cpp:263-281 | A destroyed trie leaves a buffer allocated exactly when the empty key held one |
| TrieNatives.BuffersAreHolders | amxmodx/trie_natives.h:26-100 | Under unique ownership there are as many buffers as keys that hold a string or an array |
| TrieNatives.CellTrie.GetBuffer | amxmodx/trie_natives.h:111-128 | A string or an array is copied out as far as it and the room go, if the key holds one of that kind |
| TrieNatives.Run | amxmodx/trie_natives.cpp:17-290 | Any history of the natives, with key bytes 2 to 255, gets the replies of a finite map of values and leaves that map; allocations minus frees is the number of its keys that hold a string or an array |
| Compact.Expand | amxmodx/amx.cpp:788-840 | The in-place backward loop with its ring of waiting cells leaves the cells that a forward decoder reads, in order, for every image of complete groups whose waiting cells fit the ring |
| Compact.DecodeGroups | amxmodx/amx.cpp:788-840 | The forward decoder reads the image group by group |
| Compact.GroupDecodes | amxmodx/amx.cpp:801-819 | Collecting the bits of a group from its end and expanding the sign gives the cell that reading from the front gives |
| Compact.RoomIsExact | amxmodx/amx.cpp:820-836 | The ring overflows exactly when a group starts too far behind the place of its cell |
| Compact.SweepEnds | amxmodx/amx.cpp:788-840 | When the sweep is over the ring is empty and the memory holds all cells |
| CompactWriter.Encode | compiler/libpc300/sc6.c:193-235 | A cell is written as the group for the fewest pieces that its sign allows, which decodes to it |
| CompactWriter.GroupIsShortest | compiler/libpc300/sc6.c:193-235 | No group that decodes to the cell is shorter |
| CompactWriter.WriteEncoded | compiler/libpc300/sc6.c:193-242 | The output is the groups of the cells, which decode to them and fit the loader's ring; the writer gives up exactly when the output of some of the first cells has run too far ahead of them |
| CompactWriter.SaveAndLoad | compiler/libpc300/sc6.c:193-242 | An image written in compact form and expanded is the original image, for every image that the writer does not give up |
| AmxLoader.BrowseRelocate | amxmodx/amx.cpp:507-785 | A segment that the sweep can follow becomes its relocated image; at an unknown opcode the loader stops with an error, everything before it done and nothing after it touched |
| AmxLoader.SweepOne | amxmodx/amx.cpp:562-774 | One turn rewrites exactly the words of its instruction that need it and moves on by its length |
| AmxLoader.RelocateCases | amxmodx/amx.cpp:757-768 | Every address of a case table is moved once, every value is kept |
| AmxLoader.OnBrowseRelocate | amxmodx/optimizer.cpp:27-69 | A call of a bound float native becomes its opcode and a NOP, any other call stays |
| AmxLoader.ReachedNext | amxmodx/amx.cpp:562-774 | Each turn of the sweep arrives at the next start, and the words it passed belong to one instruction |
| AmxSimulation.TablesAgree | amxmodx/amx.cpp:562-774 | The sweep and the interpreter agree, for every opcode number, on whether it exists and on its operands |
| AmxSimulation.LengthsAgree | amxmodx/amx.cpp:2821-3649 | For every instruction that runs, the interpreter goes on where the sweep does |
| AmxSimulation.TiledFrom | amxmodx/amx.cpp:562-774 | The instructions of a segment tile it: every word belongs to exactly one |
| AmxSimulation.RelocatedAt | amxmodx/amx.cpp:490-501 | Each word of each instruction has been rewritten once, as its instruction asks |
| AmxSimulation.CaseWords | amxmodx/amx.cpp:757-768 | In the image, the addresses of a case table are absolute and its values are the old ones |
| AmxSimulation.FetchAgrees | amxmodx/amx.cpp:493-501 | An unpatched instruction fetched from the image with absolute addresses is the one fetched from the original relative to the code |
| AmxSimulation.StepAgrees | amxmodx/amx.cpp:2821-3649 | An unpatched instruction does the same in both images |
| AmxSimulation.FloatsAgree | amxmodx/float.cpp:57-241 | A float opcode computes what its native does, floatround in modes 0 to 2 |
| AmxSimulation.ModesExact | amxmodx/float.cpp:188-217 | For every other mode of floatround some float unit tells opcode and native apart |
| AmxSimulation.PatchAgrees | amxmodx/optimizer.cpp:46-63 | A patched call takes two turns and leaves the state the call would have left |
| AmxSimulation.TurnLands | amxmodx/amx.cpp:2821-3649 | A turn at an instruction that the sweep has found goes on at another one, or outside the code, unless it computes its address: RET, RETN, CALL.pri, JUMP.pri or SCTRL 6 |
| AmxSimulation.RelocationPreservesMeaning | amxmodx/amx.cpp:507-785 | For every well-formed segment, load address, number of turns and starting state: the relocated and patched image reaches the same state or the same end, in one turn more per patched call, if the addresses that the run computes are those of instructions |
| AmxOptimizer.FindNative | amxmodx/amx.cpp:1176-1200 | The first entry with the name, if there is one |
| AmxOptimizer.Setup | amxmodx/optimizer.cpp:71-117 | A float native is bound exactly when its bit of the level is set, the processor allows it and the plugin has the name |
| AmxOptimizer.PatchedByName | amxmodx/optimizer.cpp:27-117 | A native is patched as a float native exactly when it is the first with that name and enabled |
| AmxOptimizer.UnboundIsPatched | amxmodx/optimizer.cpp:35-42 | A call of native -1 would be patched exactly when some float native is not bound |
| AmxOptimizer.BindsNothing | amxmodx/optimizer.cpp:71-117 | Run: at level 0 a call of native -1 would be patched as the first float native |
| AmxOptimizer.BindingIsBound | amxmodx/optimizer.cpp:71-117 | Binding by name patches calls of float natives only, as the simulation needs |
| AmxPlugin.LoadAndRun | amxmodx/amx.cpp:507-785 | Bound, relocated and run by the interpreter, a plugin does what its original code says, turn for turn |
| AmxExec.Amx.Exec | amxmodx/amx.cpp:2821-3649 | The interpreter loop on registers and data updated in place does what the instruction set says, for any number of turns |
| AmxExec.Amx.FindCase | amxmodx/amx.cpp:3538-3551 | Walking a case table finds the first matching value, else the fallback |
| AmxHost.Host.Push | amxmodx/amx.cpp:1562-1576 | A parameter is pushed unless the heap is too close; the level under the parameters stays |
| AmxHost.Host.Exec | amxmodx/amx.cpp:2768-2780 | When a run ends in an abort, as a HALT does, the stack is back above all pushed parameters and the heap where it was |
| AmxCalls.TurnKeepsLinks | amxmodx/amx.cpp:3094-3120 | Every turn of a balanced body keeps the linkage of all active functions |
| AmxCalls.FrameReturns | amxmodx/amx.cpp:3094-3120 | At any depth, the function that brings the frames back returns to its own caller, frame and stack |
| AmxCalls.CallReturns | amxmodx/amx.cpp:3094-3120 | A call comes back behind itself with the caller's frame pointer and all arguments popped |
| AmxCalls.EntryReturns | amxmodx/amx.cpp:2768-2780 | A public function returns to offset 0 with the parameters of the host popped |
| AmxPublic.CallPublic | amxmodx/amx.cpp:2755-2785 | A balanced public function that the host enters over its parameters comes back to the HALT at the start of the code with the parameters popped; the call ends with its value, stack and heap as they were |
| AmxPublic.ExamplePublic | amxmodx/amx.cpp:2755-2785 | Run: a host calls a public function and these conditions are met |
| AmxCalls.ExampleCall | amxmodx/amx.cpp:3094-3120 | The conditions of a returning call can be met: a worked call comes back behind itself |
| PackedStrings.SetPacked | amxmodx/amx.cpp:3788-3824 | The cells hold the characters, first one in the high byte, and zeros to the end of the last cell; a limit cuts the text |
| PackedStrings.SetUnpacked | amxmodx/amx.cpp:3826-3842 | A character to a cell, negative from byte 0x80 on, and a zero cell; a limit cuts the text |
| PackedStrings.AmxStrLen | amxmodx/amx.cpp:3751-3784 | The length of the text that the memory is taken for: by its first cell, characters in bytes, for every remainder modulo the cell size, or characters in cells |
| PackedStrings.GetString | amxmodx/amx.cpp:3847-3893 | The text that the memory is taken for, cut to the room there is, and terminated |
| PackedStrings.UnpackedSeen | amxmodx/amx.cpp:3826-3893 | An unpacked text is taken for itself, or, if it begins with a byte from 0x80 on, its leading such cells for packed ones |
| PackedStrings.SeenExactly | amxmodx/amx.cpp:3751-3893 | When such a text gets its length right, when it reads right, and that it never does both |
| PackedStrings.RoundTrip | amxmodx/amx.cpp:3751-3893 | A text without NUL that is written and read back with enough room is the same text with its length: always if packed, and if not packed exactly when it is empty or its first byte is below 0x80 |
| PackedStrings.ReadsAnother | amxmodx/amx.cpp:3751-3893 | Run: the byte 0xC3, not packed, has length 4 and is read back as 0xFF |
| Md5.MD5.Transform | amxmodx/md5.cpp:273-361 | The unrolled transformation is the standard's compression of the block |
| Md5.OpIsOperation | amxmodx/md5.cpp:421-474 | FF, GG, HH and II compute the operations of RFC 1321, section 3.4 |
| Md5.MD5.Update | amxmodx/md5.cpp:61-102 | After a chunk of any size the state is the fold over the complete blocks of everything so far, the buffer the rest, the count the bits modulo 2^64 |
| Md5.GuardExact | amxmodx/md5.cpp:89-92 | The 32-bit loop test of an update is right at every index it is made exactly when it cannot wrap at the last one |
| Md5.CountAdds | amxmodx/md5.cpp:74-78 | The two-word counter adds modulo 2^64 |
| Md5.MD5.Finalize | amxmodx/md5.cpp:126-160 | The digest is that of the whole message, padded as the standard says |
| Md5.Hash | amxmodx/md5.cpp:61-160 | However a message is cut into chunks, the digest is that of RFC 1321 for the message |
| Forwards.CForwardMngr.RegisterSPForward | amxmodx/CForward.cpp:385-454 | An id is handed out that nobody holds: the top of the free stack or a new slot; a name that is no function gives -1 and takes nobody's id |
| Forwards.CForwardMngr.UnregisterSPForward | amxmodx/CForward.cpp:542-559 | A held id is freed at once, or, while its function runs, when that returns |
| Forwards.CForwardMngr.Begin | amxmodx/CForward.cpp:245-262 | The function is called unless the slot is free, has none, waits to be deleted or its plugin is paused |
| Forwards.CForwardMngr.End | amxmodx/CForward.cpp:461-480 | A deletion that was put off frees the id once; the registry stays sound |
| Forwards.AtRest | amxmodx/CForward.cpp:385-480 | When nothing runs, every id is either held or on the free stack, never both |
| Forwards.GiveBack | amxmodx/CForward.cpp:542-559 | Giving an id back keeps free ids unique and disjoint from the held ones |
| Forwards.Leave | amxmodx/CForward.cpp:461-480 | Returning from an execution keeps them so |
| Forwards.UnregisterFrees | amxmodx/CForward.cpp:542-559 | Giving an id back frees it while it runs exactly when it runs and is not marked as running |
| Forwards.ReturnFrees | amxmodx/CForward.cpp:461-480 | A return frees an id that still runs exactly when its deletion was put off and it runs further out as well |
| Forwards.RegisterFrees | amxmodx/CForward.cpp:385-454 | A registration frees nothing, and takes at most the id it hands out |
| Forwards.CallFrees | amxmodx/CForward.cpp:245-262 | Nor does a call free anything |
| Forwards.RunsOnceApart | amxmodx/CForward.cpp:245-480 | While no function runs twice, and those that run are marked, no running id is free |
| Forwards.RunsOnceCall | amxmodx/CForward.cpp:245-262 | A call keeps that exactly if its function is not running already |
| Forwards.RunsOnceRegister | amxmodx/CForward.cpp:385-454 | A registration keeps it |
| Forwards.RunsOnceUnregister | amxmodx/CForward.cpp:542-559 | Giving an id back keeps it |
| Forwards.RunsOnceReturn | amxmodx/CForward.cpp:461-480 | A return keeps it |
| Forwards.ReentrantRun | amxmodx/CForward.cpp:245-368 | Run: a function run again from within itself and then unregistered is free while its outer run goes on |
| TaskBooks.NoSharedIds | amxmodx/CTask.cpp:37-102 | No two live tasks share a forward id |
| TaskBooks.DoneExactly | amxmodx/CTask.cpp:119-174 | A task that is done has run as often as planned exactly when its plugin could be called at every one of its turns |
| TaskRules.DoLeads | amxmodx/CTask.cpp:37-287 | Whatever a plugin does, inside callbacks to any depth or outside, every invariant holds afterwards, no task has taken a turn, and a task that is still there has changed its time only |
| TaskRules.SchedulesOne | amxmodx/CTask.cpp:219-238 | A task is registered with the plan of its flags, an interval of at least 0.1 and the next free registration; every other task is as it was |
| TaskRules.RemovesDescribed | amxmodx/CTask.cpp:240-254 | Exactly the tasks that match are cleared, and exactly their registrations end as removed |
| TaskRules.RebasesDescribed | amxmodx/CTask.cpp:256-271 | Exactly the tasks that match get the new interval, counted from now |
| TaskFrames.TurnTaken | amxmodx/CTask.cpp:119-174 | Whatever its callback does, the task whose turn it is takes one turn and no other task does; it is done exactly when its plan is used up, unless it was removed meanwhile |
| TaskFrames.FrameTurn | amxmodx/CTask.cpp:278-287 | Each registration that is there when its slot is reached takes exactly one turn if it is due then and none if not, a run exactly if its plugin can be called; else a callback has removed it before |
| TaskFrames.FrameOnce | amxmodx/CTask.cpp:278-287 | In a frame nothing takes two turns, be it registered before or meanwhile, and what is done or removed stays as it was |
| TaskFrames.QuietFrame | amxmodx/CTask.cpp:278-287 | When the called functions do nothing, exactly the tasks that are due at the start of the frame take a turn, and the state after it is said slot by slot |
| TaskEnds.FrameEnds | amxmodx/CTask.cpp:278-287 | If no callback sets a task that is due by its base, nor a non-positive interval, the frame takes at most as many turns as it had slots, and what is registered in it takes no turn in it |
| TaskEnds.GoesOn | amxmodx/CTask.cpp:278-287 | Callbacks that set such a task keep the frame going: it takes one more turn for each of them, however many there are |
| TaskFrames.AlwaysOnPlan | amxmodx/CTask.cpp:37-287 | After any history a done task has taken exactly as many turns as planned, and has run as often exactly if its plugin could be called at each; a removed one took no more, a live one has turns left; no forward id is lost |
| TaskFrames.PausedOnce | amxmodx/CPlugin.h:103 | A task that is to run once and is due while its plugin is paused is done and has never run |
| Tasks.CTaskMngr.SetTask | amxmodx/amxmodx.cpp:737-769 | The native does to the manager's slots and forwards what the rule for it says |
| Tasks.CTaskMngr.RegisterTask | amxmodx/CTask.cpp:219-238 | The first slot that is free and not running is reused, else a new one is made |
| Tasks.CTaskMngr.RemoveTasks | amxmodx/CTask.cpp:240-254 | The tasks that match are cleared one after the other, and counted |
| Tasks.CTaskMngr.ChangeTasks | amxmodx/CTask.cpp:256-271 | The tasks that match are changed one after the other, and counted |
| Tasks.CTaskMngr.TaskExists | amxmodx/CTask.cpp:273-276 | Whether some live task matches |
| Tasks.CTaskMngr.ExecuteForwards | amxmodx/CForward.cpp:461-480 | The function runs exactly if the forward can be called, its acts are done in the midst of the manager's own work, and a deletion asked for meanwhile happens on return |
| Tasks.CTaskMngr.ExecuteIfRequired | amxmodx/CTask.cpp:119-174 | A task that is due takes its turn, any other is left alone |
| Tasks.CTaskMngr.StartFrame | amxmodx/CTask.cpp:278-287 | The frame is the sweep over the slots, callbacks included, and serves every live registration as `FrameTurn` says |
| Tasks.Run | amxmodx/CTask.cpp:37-287 | For any history of frames and native calls, the manager is in the state that the history leads to, with every registration on its plan and no forward id lost |
| Commands.CmdMngr.GetCmd | amxmodx/CCmd.cpp:86-129 | A query that starts over is answered by a scan from the start, however stale the cursor was, and leaves it right; one that goes on from the cursor is answered so when the cursor was right, and else by counting on from it |
| Commands.CmdMngr.GetCmdNum | amxmodx/CCmd.cpp:131-149 | The number of commands that queries by number can give |
| Commands.CmdMngr.SetCmdLink | amxmodx/CCmd.cpp:151-176 | A command goes behind those it does not precede, and the list stays sorted by command and argument; a right cursor stays right exactly if it cannot have seen the new command |
| Commands.CursorAfter | amxmodx/CCmd.cpp:102-126 | The cursor is right after an insertion exactly when the command goes behind it, is not shown, or the query had run off the end short of its number |
| Commands.AnswerResumes | amxmodx/CCmd.cpp:102-126 | Counting on from where a query ended is counting from the start |
| Commands.InsertSorted | amxmodx/CCmd.cpp:151-176 | Insertion before the first greater command keeps the order |
| Commands.StaleAfterRegistration | amxmodx/CCmd.cpp:102-126 | Run: after a registration the cursor gives a command that is not the one with the number asked for |
| Sorting.SortRows | amxmodx/sorting.cpp:289-342 | After the fix-up entry i leads to the row the sort put at i, and the rows are the same ones; that the sort puts them in order is assumed of it |
| Sorting.FixUp | amxmodx/sorting.cpp:325-333 | Each index becomes the offset from its new place to the address its row had |
| Sorting.PickedSame | amxmodx/sorting.cpp:289-342 | Picking rows by two orders with the same indices gives the same rows |
| Sorting.CompareStrings | amxmodx/sorting.cpp:131-148 | Equal exactly for equal strings, else the difference at the first place where they differ |
| Sorting.DifferenceOrders | amxmodx/sorting.cpp:56-64 | A difference of cells has the sign of the order exactly when it does not overflow |
| Sorting.LowestIsGreater | amxmodx/sorting.cpp:56-64 | The lowest integer is put behind 1 |
| Sqroot.Root | amxmodx/power.cpp:29-42 | For 0 <= n < 2^31 - 1 the result r has r * r <= n < (r + 1) * (r + 1), and no sum overflows |
| Sqroot.MeanIsAbove | amxmodx/power.cpp:36-39 | Each step of the iteration is smaller and never falls below the root |

## Left out

- KTrieModule.KTrie.Insert: after the root has been overwritten only lookups are modelled, no further insertion.
- KTrieModule.KTrie.BadIterator: the buffer has at least one place. Where the source would write outside a buffer of one place, the walk ends and says so; of the calls made for keys that do not fit it is only said that they are short.
- KTrieModule.KTrie.Replace: allocation and destructor calls are not modelled.
- KTrieModule.KTrie.Grow: allocation always succeeds, and indices do not wrap at 2^32.
- KTrieModule.KTrie.SplitTerm: the terminator is taken out of the map before the search for a free slot, where the source clears it afterwards; the search does not look at it.
- TrieNatives.Run: keys are made of bytes 2 to 255, where the natives only exclude keys that foul the root; handles and the reuse of handle slots are not modelled.
- Compact.Expand: groups are complete and at most five bytes long; the image is the code and data without its header.
- AmxLoader.BrowseRelocate: requires that the sweep does not run over the end of the segment inside an instruction; the source reads and writes on there. The text of FILE and SYMBOL takes whole cells.
- AmxSimulation.RelocationPreservesMeaning: assumes that jump operands and case tables lead to instructions or out of the code, that the addresses a run computes do so too, and that patched `floatround` calls use modes 0 to 2. The native last used, the error field and the stack pointer that the host sees are not part of the state.
- AmxSimulation.FloatsAgree: floats are uninterpreted operations shared by opcodes and natives; rounding and NaN are not modelled beyond that.
- AmxExec.Amx.Exec: runs at most a given number of turns, since a plugin need not end. Data is addressed in whole cells and an access elsewhere ends the run as undefined.
- AmxExec.Amx.Others: shifts, multiplication, division, bit operations, byte access, alignment and block operations, and direct system requests, are arbitrary functions of the machine's state; natives are too, and may keep state of their own.
- AmxHost.Host.Exec: starts at a given offset; the index checks, sleeping and resuming are not modelled. After a failed stack check the stack pointer is what the source saved last, which is not modelled.
- AmxCalls.CallReturns: assumes a body that leaves the linkage words alone and its stack balanced, which the machine does not enforce.
- PackedStrings.GetString: characters are bytes, and `char` is signed, as on the x86 targets; UTF-8 and wide characters are compiled out of the source.
- Md5.MD5.Update: a chunk for which the 32-bit loop test would wrap is excluded by the exact condition of `GuardExact`. Hashing a file and printing are left out.
- Forwards.CForwardMngr.RegisterSPForward: parameter types, prepared arrays and the copying of strings are left out; so are forwards to all plugins.
- Tasks.CTaskMngr.StartFrame: times are reals; the callbacks of one frame are any finite list, so a frame that its callbacks keep going is cut off where the list ends (`FrameEnds` says when that cannot be).
- Tasks.CTaskMngr.Do: clients unregister only ids they hold; task objects are records in the manager's list, and the links of the list are not modelled.
- Commands.CmdMngr.GetCmd: the list is a sequence and the cursor a position in it; prefixes and unsorted lists are left out.
- Sorting.SortRows: the sort itself is taken to give a permutation in comparator order.
- The JIT and assembler paths, the threaded interpreter, debugger hooks and the loading of plugins and modules.
- Files, sockets, console, engine calls and logging.
