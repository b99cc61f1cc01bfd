# A model of ADAM's incremental analysis

ADAM is an abstract interpreter for Dalvik bytecode. This project models the machinery that makes its
fixpoint analysis incremental and proves what that machinery is meant to do.

- `Values`, `Words`, `HashChains`: addresses and abstract values, 32-bit hash words, chained hash tables.
- `Diffs`, `DiffBuffers`, `Logging`, `Factors`: diffs as sorted sections, their composition by an N-way
  merge, buffers that are sorted and collapsed, replay and undo, factoring over a join. The simple form is a
  map that is updated record by record; every fast form is proved equal to it.
- `Stores`, `Collector`, `Patches`, `Frames`, `FrameDiffs`, `FrameRuns`: the reference-counted store with its
  cascades, collection, the logged operations of a frame, applying a diff to a frame, and runs.
- `SegmentTrees`, `StaticTables`, `StaticRuns`: the persistent static-field table. The heap of nodes is explicit, so that
  sharing, freeing and dangling pointers are part of the statement. A frame's static fields in `Frames` are the
  view of one such table.
- `BlockGraphs`, `EdgeSlots`, `Worklists`: cutting a method into basic blocks, the input slots of the blocks,
  and the circular worklist.
- `Allocation`, `Relocation`: the probing allocator, the allocation table and the relocation table, and what
  relocated addresses name in a store.
- `AddressSets`, `SetRuns`, `StringPools`, `SignDomain`: copy-on-write address sets, string interning, the sign
  domain.

Integers are unbounded except where a width matters (hash words, the sign masks, the address ranges, the ring
of 1024 entries, the 32 path entries of the tree search). Hash functions of tag sets and the lookup of a field
in an object are parameters. Allocation of memory succeeds and may return any address that is not in use.

## Where the code and its description differ

- A diff that is passed twice to the composition counts only at its first position, because the merge cursor
  lives in the diff (`src/cesk/cesk_diff.c:923-966`); `Diffs.ComposeWithRepeats` gives the exact condition.
- Factoring does not join the default of a static field that a frame has not initialised
  (`src/cesk/cesk_diff.c:1126-1131`); `Factors.RegisterLaw` gives the exact condition.
- Factoring never advances past a store record whose cell holds an object without built-in part
  (`src/cesk/cesk_diff.c:1169-1173`), hence the precondition that written cells hold sets.
- IF_NE sets none of the comparison flags (`src/dalvik/dalvik_block.c:433-443`); see `BlockGraphs.GuardMeans`.
  A sparse switch compares its constants with the branch table operand instead of the register
  (`src/dalvik/dalvik_block.c:516`).
- Moving a register onto itself reads a set handle that has just been freed
  (`src/cesk/cesk_frame.c:1342-1349`), hence the precondition of `Frames.Frame.Move`.
- Attaching a value drops the references of the old value while the cell is empty, so references of a cell to
  itself stay counted (`src/cesk/cesk_store.c:111-139`, `src/cesk/cesk_store.c:813-817`); exactness of the counters
  is stated for the other cells. A failing diff application leaves counters raised.
- A relocation table of 0xffff00 entries or more still grows when the address is refused
  (`src/cesk/cesk_reloc.c:149-171`).

## Model

| member | source | states |
|---|---|---|
| Diffs.NextAddress | src/cesk/cesk_diff.c:934-940 | the smallest address under any cursor of the section, and no cursor is past it; NULL_ADDR when every section is used up |
| Diffs.MergeAddress | src/cesk/cesk_diff.c:941-962 | of all diffs with a record at an address the last one's argument is kept, and every cursor that stood there has moved past |
| Diffs.MergeSection | src/cesk/cesk_diff.c:931-980 | the merged section holds exactly one record for each address some diff writes, strictly sorted, and fits the space the sizing pass reserved |
| Diffs.CountSection | src/cesk/cesk_diff.c:878-894 | the sizing pass counts exactly the distinct addresses of a section over all diffs |
| Diffs.ResultSize | src/cesk/cesk_diff.c:869-908 | the buffer size is the sum of those counts over all sections |
| Diffs.Compose | src/cesk/cesk_diff.c:909-981 | every section of the composed diff is strictly sorted, holds exactly the merged records, and the reserved buffer is filled exactly |
| Diffs.ReplayIsOverlay | src/cesk/cesk_diff.c:909-981 | replaying a section is overlaying the map of its last writes |
| Diffs.ComposeActs | src/cesk/cesk_diff.c:909-981 | replaying the composed section equals replaying, in order, the sections of the first occurrence of each argument |
| Diffs.ComposeIsAction | src/cesk/cesk_diff.c:909-981 | for distinct diffs composition is an action: replaying the result is replaying d1, ..., dN in order |
| Diffs.ComposeWithRepeats | src/cesk/cesk_diff.c:909-981 | with a diff passed more than once (its cursor is shared) the action law holds for all states exactly if no repeated diff would overwrite a later one with something else |
| Diffs.RepeatCounterexample | src/cesk/cesk_diff.c:923-966 | [d, e, d] with conflicting records violates that condition |
| DiffBuffers.Buffer.Append | src/cesk/cesk_diff.c:132-160 | a record is appended with its (signed) time, or refused when it needs a value and has none |
| DiffBuffers.Sort | src/cesk/cesk_diff.c:187-199 | sorting by type, address and time yields a sorted permutation |
| DiffBuffers.CountGroups | src/cesk/cesk_diff.c:636-648 | the number of (type, address) groups is the number of records the collapse writes |
| DiffBuffers.CollapseSection | src/cesk/cesk_diff.c:666-831 | one section of the sorted buffer collapses to one record per address, written from the section's offset on |
| DiffBuffers.Buffer.ToDiff | src/cesk/cesk_diff.c:619-837 | the buffer is sorted once and each section of the diff is the collapse of the records of its type; the sizing scan reserved exactly the records written |
| DiffBuffers.CollapseIsReplay | src/cesk/cesk_diff.c:632-832 | sort plus last-wins equals replaying the log in the order of time, and for a reverse buffer in the opposite order |
| DiffBuffers.CollapseIsJoin | src/cesk/cesk_diff.c:705-807 | in a merging buffer the record for a register or set cell is the join of everything logged for its address, whatever the order and whatever other addresses hold |
| DiffBuffers.CollapseIsAny | src/cesk/cesk_diff.c:705-710 | in a merging buffer an address is to be reused exactly if some REUSE record logged for it says so; a record without a value says no |
| DiffBuffers.CollapseMergesTags | src/cesk/cesk_diff.c:733-806 | in a merging buffer the record for an object has the members of the earliest record logged for its address and the tags of all of them |
| DiffBuffers.CollapseIsLatest | src/cesk/cesk_diff.c:695-701 | an ALLOC record is the latest one logged, in a merging buffer too, and so is any record of a buffer that does not merge |
| DiffBuffers.CollapseFolds | src/cesk/cesk_diff.c:666-831 | the collapsed section combines exactly the records of each address, in sorted order |
| Stores.Store.Decref | src/cesk/cesk_store.c:798-833 | one reference is dropped: the counter of the slot the address names goes down, a cell with none left is emptied, an address of no live cell changes nothing; counters that covered (or equalled) the references still do, a live cell never keeps a zero counter, every cell that dies is unreferenced and its counter zero, and entity counters follow; the cascade terminates |
| Stores.Store.Swipe | src/cesk/cesk_store.c:111-139 | an emptied cell's references are dropped; everything else that dies is unreferenced |
| Stores.Store.FreeSet | src/cesk/cesk_store.c:37-55 | dropping all references of an address set |
| Stores.Store.FreeObject | src/cesk/cesk_store.c:59-107 | dropping all references of an object's members |
| Stores.Store.Incref | src/cesk/cesk_store.c:774-794 | exactly the counter of the slot that the object address or the relocated address names goes up by one; a constant changes nothing; fails exactly for an address that is neither a constant nor names a live cell |
| Stores.Store.Attach | src/cesk/cesk_store.c:699-750 | the cell gets the value; given that the new value was counted beforehand the counters still cover all references, stay exact for every other cell, and only unreferenced cells die |
| Stores.Store.Compact | src/cesk/cesk_store.c:988-1009 | only empty trailing blocks are released and the last block left is not empty |
| Stores.ResolveNames | src/cesk/cesk_store.c:405-424 | an object address stands for the slot of that number, a relocated address for the one the allocation table gives, any other address for none |
| Stores.CountNames | src/cesk/cesk_store.c:37-107 | references are counted once per address of a set and once per member of an object that names the slot |
| Collector.ReachableReaches | src/cesk/cesk_frame.c:364-442 | reachable slots are those that a chain of object or relocated addresses leads to, starting in a root |
| Collector.Mark | src/cesk/cesk_frame.c:364-442 | the depth-first search marks only reachable slots, leaves everything a marked slot refers to marked, and terminates on cyclic stores |
| Collector.Sweep | src/cesk/cesk_frame.c:507-515 | exactly the unmarked live cells are emptied and their counters cleared, the others keep their values and their counters cover all references |
| Collector.Collect | src/cesk/cesk_frame.c:471-523 | the cells left are exactly those that were live and that a chain of addresses from the roots leads to, with their values; in particular a cell whose object or relocated address a root holds; the counters of the others are zero; only empty trailing blocks are released |
| FrameRuns.Gc | src/cesk/cesk_frame.c:443-523 | the same for a frame: reachable from its registers and static fields; uninitialised fields hold no references |
| Logging.TracksWrite | src/cesk/cesk_frame.c:1198-1204 | logging the new value forward and the old one in reverse keeps replay and undo right |
| Logging.RunTracks | src/cesk/cesk_frame.c:1205-1646 | after any run the forward log leads from the first state to the last and the reverse log, last first, leads back |
| Logging.ReplayAndUndo | src/cesk/cesk_diff.c:619-837 | the same for the sorted and collapsed diffs of both buffers |
| Logging.ChangedTracks | src/cesk/cesk_frame.c:788-900 | logging only the records that change something replays and undoes the whole section |
| Logging.ChangedCounts | src/cesk/cesk_frame.c:788-900 | the number of logged records is the number of cells that differ afterwards |
| Frames.Frame.constructor | src/cesk/cesk_frame.c:42-105 | a new frame has empty registers and every static field reads as its default |
| Frames.Frame.ReadField | src/cesk/cesk_static.c:574-603 | lazy initialisation of a static field does not change what any register or field reads |
| Frames.Frame.Move | src/cesk/cesk_frame.c:1320-1359 | the register gets the other's value, the write is logged both ways, counters and entity counts are kept |
| Frames.Frame.Clear | src/cesk/cesk_frame.c:1360-1395 | a register with addresses becomes the empty set; an empty one is left alone and not logged |
| Frames.Frame.Push | src/cesk/cesk_frame.c:1399-1432 | the address is added and counted once; a no-op if it is there, refused for NULL after the old value was logged |
| Frames.Frame.Load | src/cesk/cesk_frame.c:1436-1477 | the register holds just the address, which may be any constant but NULL or name a live cell; fails for a dead cell after the old value was logged, with nothing changed |
| Frames.Frame.AppendFromStore | src/cesk/cesk_frame.c:1478-1536 | the contents and tags of the set cell that the address names are joined into the register; fails otherwise with nothing changed |
| Frames.Frame.LoadFromObject | src/cesk/cesk_frame.c:1537-1646 | the register holds exactly the addresses and tags in the set cells of a field, over all objects it names that have the field; an empty register keeps its tags; the old value is dropped last |
| Frames.Frame.StaticLoadFromRegister | src/cesk/cesk_frame.c:1205-1270 | the static field gets the register's value; fails exactly for an unknown field or register |
| Frames.Frame.RegisterLoadFromStatic | src/cesk/cesk_frame.c:1271-1319 | the register gets what the field reads, its default included |
| FrameRuns.NothingLost | src/cesk/cesk_frame.c:1205-1646 | after any such operation every cell reachable from the new roots is still there with its value |
| FrameRuns.Perform | src/cesk/cesk_frame.c:1205-1646 | each operation yields exactly the roots its semantics prescribes |
| FrameRuns.Run | src/cesk/cesk_frame.c:1205-1646 | for every run of operations: every step follows its semantics and loses no reachable cell, the collapsed forward diff turns the old registers and fields into the new ones, the collapsed reverse diff turns them back, and exact counters stay exact |
| FrameDiffs.CountRegs | src/cesk/cesk_frame.c:723-777 | all new register values are counted before anything is dropped; fails exactly if a field cannot be read, and then nothing but counters has changed |
| FrameDiffs.CountCells | src/cesk/cesk_frame.c:909-987 | the same for the store section; fails exactly on a type mismatch |
| FrameDiffs.TypesFitMeans | src/cesk/cesk_frame.c:909-987 | a store record fits exactly if its address names a live cell and both values are sets or both are objects |
| FrameDiffs.ApplyRegSection | src/cesk/cesk_frame.c:788-900 | every record is written, exactly the changing ones are logged and counted, and every cell the patched frame can reach stays alive |
| FrameDiffs.ApplyStoreSection | src/cesk/cesk_frame.c:998-1045 | the same for the store records |
| FrameDiffs.ApplyDiff | src/cesk/cesk_frame.c:1112-1197 | for diffs with register and store records: fails exactly if a record does not fit and then leaves roots, cells and logs as they were; otherwise roots and live cells are those of the patched frame, nothing reachable is swiped, counters still cover all references, the result is the number of registers, fields and cells that changed, and the logs replay and undo the change |
| Patches.ApplyRegsReplays | src/cesk/cesk_frame.c:788-900 | applying a register section to the roots is replaying it on their cells |
| Patches.StaysAlive | src/cesk/cesk_frame.c:1152-1186 | if only unreferenced cells die and everything the patched frame refers to is held, no cell it can reach dies |
| Patches.RegStep | src/cesk/cesk_frame.c:788-900 | one register record keeps the invariant between two records |
| Patches.StoreStep | src/cesk/cesk_frame.c:998-1045 | one store record keeps it |
| FrameDiffs.ComposedOnFrame | src/cesk/cesk_frame.c:788-900 | applying a composed diff to the registers and static fields of a frame is applying the diffs one by one |
| Factors.JoinRegister | src/cesk/cesk_diff.c:1112-1133 | the join of a register or initialised static field over all current frames |
| Factors.JoinCell | src/cesk/cesk_diff.c:1139-1165 | the join of a set cell over the frames that have it, none if no frame does |
| Factors.FactorSection | src/cesk/cesk_diff.c:1062-1249 | a factored section holds exactly one record, in order, for each written address (dropped if no frame has the cell), with the join as value |
| Factors.Factorize | src/cesk/cesk_diff.c:1032-1253 | this for every section of the result |
| Factors.FactorLaw | include/cesk/cesk_diff.h:137-145 | D*(S1+...+Sn) = D1*S1+...+Dn*Sn on one section, exactly if reading the current frames gives their join at every written address |
| Factors.StoreLaw | include/cesk/cesk_diff.h:137-145 | the law for set cells, without further condition |
| Factors.RegisterLaw | src/cesk/cesk_diff.c:1112-1135 | the law for registers and static fields, exactly if at every written field all frames have it initialised, or one that has holds the default, or it has no default |
| Factors.MissedDefault | src/cesk/cesk_diff.c:1126-1131 | two frames for which the default of the uninitialised side is missed |
| SegmentTrees.Forest.Decref | src/cesk/cesk_static.c:84-101 | dropping a reference frees exactly the nodes nobody refers to; the bodies of the others stay, counters stay exact, the recursion terminates |
| SegmentTrees.Forest.Duplicate | src/cesk/cesk_static.c:128-153 | a copy with the same value or children, whose children are counted once more |
| SegmentTrees.Forest.PrepareNode | src/cesk/cesk_static.c:179-195 | a shared node is replaced by a copy at one pointer; no table reads anything different |
| SegmentTrees.Forest.PrepareToWrite | src/cesk/cesk_static.c:204-238 | afterwards only this table can reach the nodes on the path to the field, and no table reads anything different |
| SegmentTrees.Forest.Insert | src/cesk/cesk_static.c:248-329 | the table gains exactly the new field, all other tables read what they read before |
| SegmentTrees.PathChange | src/cesk/cesk_static.c:204-238 | a change at the end of an unshared path changes one field of one table and nothing else |
| SegmentTrees.NoLeak | src/cesk/cesk_static.c:84-101 | with no table left no node is left |
| StaticTables.Tables.NewTable | src/cesk/cesk_static.c:546-558 | a new table with no field initialised |
| StaticTables.Tables.Fork | src/cesk/cesk_static.c:546-567 | the fork reads what its origin reads, with the same hash; all others are unchanged |
| StaticTables.Tables.Free | src/cesk/cesk_static.c:568-573 | the other tables are unchanged; nothing leaks |
| StaticTables.Tables.FindNode | src/cesk/cesk_static.c:161-172 | the walk finds the leaf of a field exactly if it is initialised |
| StaticTables.Tables.GetRo | src/cesk/cesk_static.c:574-604 | the field's value, its default if asked to initialise it; other tables and other fields are unchanged and so is every hash |
| StaticTables.Tables.GetRw | src/cesk/cesk_static.c:605-640 | the leaf handed out is reachable from this table only; the stored hash leaves the field out until it is released |
| StaticTables.Tables.SetSlot | src/cesk/cesk_frame.c:861-884 | a write through that leaf changes one field of one table |
| StaticTables.Tables.ReleaseRw | src/cesk/cesk_static.c:641-651 | the stored hash is right again |
| StaticTables.Tables.Write | src/cesk/cesk_static.c:605-651 | a paired get, assignment and release: only this table sees it, only in this field, and every stored hash is right |
| StaticTables.Tables.ComputeHash | src/cesk/cesk_static.c:771-781 | the hash recomputed from the tree is the stored one |
| StaticTables.SeenAlikeHashAlike | src/cesk/cesk_static.c:361-366 | tables that read alike hash alike, whatever defaults have been materialised |
| StaticTables.OneFieldHash | src/cesk/cesk_static.c:361-366 | what one field that does not hold just its default contributes to the hash |
| StaticTables.Tables.Next | src/cesk/cesk_static.c:385-421 | the least initialised index that is not below the start, for every start; the 32 path entries suffice |
| StaticTables.Tables.Traverse | src/cesk/cesk_static.c:713-729 | the iterator returns exactly the initialised fields, strictly increasing, each once, with its value |
| StaticRuns.PlainSame | src/cesk/cesk_static.c:337-354 | materialising a default does not show to any reader |
| StaticRuns.Perform | src/cesk/cesk_static.c:546-651 | each request is answered as by independent plain arrays, with exactly one array or one element changed |
| StaticRuns.Run | src/cesk/cesk_static.c:546-651 | for every run of creating, forking, freeing, reading and writing tables, every answer is the one that independent arrays filled with the defaults would give, and tables that read alike end with equal hashes |
| BlockGraphs.KeyList | src/dalvik/dalvik_block.c:200-333 | the key list is strictly increasing and holds exactly what the scan pushes; 0 if the pushes exceed the buffer |
| BlockGraphs.DedupKeys | src/dalvik/dalvik_block.c:318-327 | in-place removal of repetitions keeps the elements |
| BlockGraphs.FindBlock | src/dalvik/dalvik_block.c:355-367 | binary search: the block whose key is the first not before the instruction; -1 exactly after the last key |
| BlockGraphs.SetupBranches | src/dalvik/dalvik_block.c:376-593 | the branches of a block are those of its key instruction, each with its guard and the block of its target; of a switch, one per case: unconditional for a default, else conditional on the constant of the case |
| BlockGraphs.BuildBlocks | src/dalvik/dalvik_block.c:602-661 | one block per key with its range and branches |
| BlockGraphs.BlocksPartition | src/dalvik/dalvik_block.c:602-661 | every instruction lies in exactly one block |
| BlockGraphs.SuccessorStarts | src/dalvik/dalvik_block.c:223-282 | every jump target and fall-through of a key instruction starts a block |
| BlockGraphs.InsideBlock | src/dalvik/dalvik_block.c:227-306 | an instruction that is no key is plain and control goes on to the next one |
| BlockGraphs.AloneInBlock | src/dalvik/dalvik_block.c:283-288 | invokes and returns are alone in their block |
| BlockGraphs.ReturnBlockEmpty | src/dalvik/dalvik_block.c:628-631 | the range of a return's block is empty |
| BlockGraphs.RangesRight | src/dalvik/dalvik_block.c:611-653 | all block ranges end right after their instructions exactly if the method does not fall off its end |
| BlockGraphs.RangeCovers | src/dalvik/dalvik_block.c:611-653 | the range of a block holds exactly those of its instructions that are no goto, if, switch or return |
| BlockGraphs.GuardMeans | src/dalvik/dalvik_block.c:433-443 | the comparison flags of an IF branch say what the instruction means, except for IF_NE, whose branch is never taken |
| BlockGraphs.CaseMeans | src/dalvik/dalvik_block.c:498-518 | the guard of a switch branch lets through exactly the constant of its case, that of a default everything |
| BlockGraphs.PathIsTrace | src/dalvik/dalvik_block.c:602-661 | every path of the block graph, expanded, is a run of the instructions with the same guards |
| BlockGraphs.TraceHasPath | src/dalvik/dalvik_block.c:602-661 | every run of the instructions is a path of the block graph, up to the middle of its last block |
| BlockGraphs.Link | src/dalvik/dalvik_block.c:727-743 | every enabled branch that is no return is linked to the block it names, which exists |
| BlockGraphs.Visit | src/dalvik/dalvik_block.c:668-677 | the search marks only reachable blocks and everything they lead to |
| BlockGraphs.FromMethod | src/dalvik/dalvik_block.c:678-793 | the whole construction: the graph of the method, and a block is kept exactly if it can be reached |
| EdgeSlots.Explorer.Explore | src/cesk/cesk_method.c:206-230 | every new block is reachable, and exactly the branches of the new blocks have been counted at their targets |
| EdgeSlots.Assign | src/cesk/cesk_method.c:327-427 | the linear pass fills exactly the counted slots and never writes past them |
| EdgeSlots.AssignSlots | src/cesk/cesk_method.c:274-430 | slots are a bijection: each enabled branch of a reachable block has its own slot below the input count of its target, and each slot names the branch that has it |
| Worklists.Enqueue | src/cesk/cesk_method.c:819-827 | an enqueued block takes a ring slot no live entry uses, and is queued once |
| Worklists.Dequeue | src/cesk/cesk_method.c:705-708 | the block at the front leaves the queue, and no other |
| Worklists.Worklist.ComputeInput | src/cesk/cesk_method.c:455-506 | an input is skipped exactly by the timestamp test, and then its source has not run since this block last ran |
| Worklists.Worklist.Step | src/cesk/cesk_method.c:701-833 | one round keeps the queue invariant; a branch is executed exactly if its input changed or it was never executed, its target is queued afterwards, and no input executed since the block's last run is skipped; the visited flags are set for exactly the executed branches |
| Worklists.Worklist.NothingLost | src/cesk/cesk_method.c:701-833 | when the queue is empty every execution has been followed by a run of its target, and every reachable block has run |
| Worklists.Worklist.Run | src/cesk/cesk_method.c:694-834 | this for every run of rounds; a run has at most one round more than there are branches and reported changes, so without changes the queue is empty after as many rounds as there are branches and one |
| HashChains.Table.Find | src/cesk/cesk_alloctab.c:127-136 | a chained lookup finds exactly the entries of the map |
| HashChains.Table.Insert | src/cesk/cesk_alloctab.c:89-125 | an entry at the front of its chain extends the map |
| HashChains.Table.Delete | src/cesk/cesk_reloc.c:96-114 | unlinking an entry removes exactly that key |
| Allocation.Arena.Scan | src/cesk/cesk_store.c:617-635 | one offset in all blocks: the slot of the parameter if it is there, and the first free slot seen so far, none only if there is none |
| Allocation.Arena.Allocate | src/cesk/cesk_store.c:601-698 | a parameter that has a slot keeps it; a new one gets the first free slot on its probe sequence, and a new block exactly if there is none; no two parameters share a slot |
| Allocation.OneSlot | src/cesk/cesk_store.c:601-698 | no two slots in use hold the same parameter |
| Allocation.Relocator.MapAddr | src/cesk/cesk_alloctab.c:137-166 | a relocated and an object address are mapped to each other |
| Allocation.Relocator.Append | src/cesk/cesk_reloc.c:139-172 | the next relocated address; a table that is too long grows all the same before the address is refused |
| Allocation.Relocator.Allocate | src/cesk/cesk_reloc.c:173-243 | the table stays a partial bijection, the address returned is the parameter's, and it is mapped to the parameter's slot; a parameter that has a relocated address gets that one, even if its cell has a value |
| Allocation.Relocator.AddrInit | src/cesk/cesk_reloc.c:244-297 | the relocated address is mapped to its parameter's slot, unless that slot is mapped already |
| Allocation.Relocator.QueryTwice | src/cesk/cesk_alloctab.c:127-136 | querying with what a query returned gives the start address |
| Allocation.Relocator.SettledOnce | src/cesk/cesk_reloc.c:173-243 | a parameter has one address, and different parameters have different ones |
| Allocation.Run | src/cesk/cesk_reloc.c:173-297 | over every run of allocations and initialisations, all allocations of a parameter from the first that succeeds on return the same address, and those of other parameters other addresses |
| Relocation.PairNamesOneSlot | src/cesk/cesk_store.c:405-424 | with the relocation map taken from the allocation table, a relocated address and the object address paired with it name one slot: that of the parameter |
| Relocation.RelocInjective | src/cesk/cesk_alloctab.c:137-166 | different relocated addresses name different slots |
| AddressSets.SetPool.constructor | src/cesk/cesk_set.c:230-247 | one empty set, held by a handle that is never freed |
| AddressSets.SetPool.Fork | src/cesk/cesk_set.c:267-284 | a new handle with the same contents; no other handle changes |
| AddressSets.SetPool.Duplicate | src/cesk/cesk_set.c:390-464 | the handle of a shared set moves to a copy with equal size, hash and counters; no handle's contents change |
| AddressSets.SetPool.Push | src/cesk/cesk_set.c:552-585 | only this handle gains the address; NULL is refused |
| AddressSets.SetPool.MergeTags | src/cesk/cesk_set.c:627-647 | only this handle's tags grow |
| AddressSets.SetPool.Merge | src/cesk/cesk_set.c:681-716 | only this handle changes, to the join of both |
| AddressSets.SetPool.Free | src/cesk/cesk_set.c:305-354 | no other handle changes; with the last handle the set and all its entries leave the hash table |
| AddressSets.SetPool.Contains | src/cesk/cesk_set.c:717-722 | decides membership through the global hash table |
| AddressSets.SetPool.Equal | src/cesk/cesk_set.c:723-753 | decides equality of contents, tags included |
| AddressSets.SetPool.ComputeHash | src/cesk/cesk_set.c:761-780 | the hash recomputed from the members is the incrementally kept one |
| AddressSets.HashOfSet | src/cesk/cesk_set.c:761-780 | the hash does not depend on the order of the members |
| AddressSets.OneMemberHash | src/cesk/cesk_set.c:761-780 | what one member contributes to the hash |
| AddressSets.SetPool.EqualHashes | src/cesk/cesk_set.c:754-780 | handles with equal contents have equal hashes |
| AddressSets.SetPool.Size | src/cesk/cesk_set.c:298-304 | the number of addresses in the set |
| AddressSets.SetPool.RelocCount | src/cesk/cesk_set.c:781-786 | the number of relocated addresses in the set |
| SetRuns.ServesKeepsEmpty | src/cesk/cesk_set.c:286-296 | no request changes the shared empty set |
| SetRuns.Run | src/cesk/cesk_set.c:267-786 | for every interleaving of empty, fork, push, merge, merge_tags, free and queries for members, equality, size and relocated addresses, every answer is the one that plain values would give, and the empty set is never modified |
| StringPools.BatchHash | src/stringpool.c:17-77 | the four hash words as a function of the string alone, and its length |
| StringPools.Accumulator.Next | include/stringpool.h:65-91 | the streaming state after one more character is that of the longer string |
| StringPools.Accumulator.Close | src/stringpool.c:79-107 | the finished streaming hash equals the batch hash, whatever the uninitialised word held |
| StringPools.HeldIsTail | src/stringpool.c:79-97 | the bytes masked out of the last word are the tail of the string |
| StringPools.KnownDigests | src/stringpool.c:17-77 | the hash words of the empty string and of a string of two words, a tail and an ELF carry |
| StringPools.Pool.QueryWith | src/stringpool.c:114-169 | the pooled string of these contents and of no others, added if missing |
| StringPools.Pool.QueryAll | src/stringpool.c:170-245 | over any mix of batch and streaming queries two results are equal exactly if the contents are |
| SignDomain.NegateExact | include/cesk/cesk_arithmetic.h:20-37 | exactly the signs of -x |
| SignDomain.AddExact | include/cesk/cesk_arithmetic.h:43-96 | exactly the signs of x+y |
| SignDomain.SubtractExact | include/cesk/cesk_arithmetic.h:102-106 | exactly the signs of x-y |
| SignDomain.MultiplyExact | include/cesk/cesk_arithmetic.h:112-157 | exactly the signs of x*y |
| SignDomain.KnownConstants | include/cesk/cesk_store.h:69-91 | the operations on the addresses of the signs |

## Left out

- ALLOC, REUSE and DEALLOC records when a diff is applied, factored or garbage collected, and the elimination of
  ALLOC/DEALLOC pairs after composition: they need the allocation tables inside the replay.
- Diffs.Compose: models the merge and its sizing, not the passes over the finished result at lines 982-1028.
- `cesk_diff_sub`, `cesk_diff_identity` and `cesk_diff_correct_modified_object_number`, and so termination of the
  fixpoint.
- Reuse flags, writable store pointers, the store hash and the sharing of store blocks between stores.
- Stores.Store.Attach: compares the old and the new value instead of their pointers in its early exit.
- Built-in classes: an object is the list of the addresses its members hold.
- Frames.Frame.LoadFromObject: requires that the cells a register names hold objects, and leaves out fields of
  built-in classes.
- Frames.Frame.Push: models the counting form; a push that leaves the counting to its caller is left out.
- Collector.Collect: takes the flag buffer as large enough; its resizing between collections is left out.
- StaticTables.Tables.GetRw: models the initialising form; relocation flags of the nodes, the table comparison
  and the duplicate insertion that no caller makes are left out.
- StaticRuns.Run: its reads ask for initialisation; a read that does not can tell which defaults have been
  materialised, as `StaticTables.Tables.GetRo` states.
- Exception handlers and packed switches in the block graph, and the cache of block graphs.
- BlockGraphs.SetupBranches: records the guard of a branch without its operands.
- Worklists.Worklist.Step: takes from a parameter whether the input of a branch has changed; computing the frames
  and diffs of the branches is left out.
- Allocation.Relocator.Allocate: requires a store smaller than the range of object addresses, and a store that
  does not share its blocks and detaches no value.
- `cesk_set_modify` and `cesk_set_assign_tags`; tag sets are sets of resolution bits.
- Division, comparison and bitwise operators of the sign domain.
- Parsing, loading, logging output, string rendering and the command line.
