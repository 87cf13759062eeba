# A verified model of Spike's hard parts

This Dafny project models the parts of the repository whose correctness is not visible from one function,
and proves what each of them is for. The modules follow the program's own files.

- **Flattened device tree** (`FdtFormat`, `FdtBlob`, `FdtCheck`, `FdtWriter`, `FdtNodes`, `FdtEdit`, `FdtTree`,
  `FdtPath`, `FdtPhandles`, `FdtOverlay`, `FdtLaws`). A blob is a byte buffer with the header fields the library keeps.
  `FdtFormat` says which bytes spell which records and decodes them to the events a reader sees; the byte layout is
  chapter 5 of the Devicetree Specification (section 5.4 for the structure block, section 5.5 for the strings block).
  The sequential writer, the walker, `fdt_check_full`, the splice-based editor, NOP-ing, path lookup and the
  phandle shift of overlays are methods on the buffer, proved against the decoded tree; `FdtLaws` says what the edits of
  that tree mean for the properties and nodes of a reader.
- **Thread handoff** (`Context`). The pthread variant of `context_t` as program-counter steps of any number of
  threads over flags, mutexes and condition variables, spurious wakeups included.
- **Register dependencies** (`Slice`). Last-writer edges and the dependency tree as a backward slice.
- **Caches** (`LruSpec`, `LruSet`, `CacheSpec`, `CacheModel`, `CacheHierarchy`). Counters with renormalisation against
  an ideal LRU stack, whole caches, and the two-level hierarchy.
- **Cache simulator** (`CacheSim`, `CacheChain`, `ChainLaws`). Packed tags, the traffic between chained levels, and what a
  level holds over whole runs, whichever victims it picks.
- **Physical memory protection** (`Words`, `Pmp`, `PmpLock`). Matching on 64-bit words and the lock rules over all runs
  of register writes; section 3.7 of the RISC-V Privileged Architecture (version 20211203) and the Smepmp extension.
- **Debug module** (`DebugProgram`, `DebugHart`, `DebugModule`, `DebugDevice`, `DebugLaws`). Abstract commands compiled to
  instruction words with the meaning of those words, the handshake with the hart, and both in numbers; section 3.6 of RISC-V External Debug Support,
  version 0.13.2.
- **Chunked memory and wide arithmetic** (`Memif`, `WideArith`). Byte access over aligned chunks, and the high product
  and saturating sums from narrow operations.

`Bytes`, `Division`, `Sets` and `Wrappers` hold what several modules need.

Code that changes things step by step is a method, most often of a class with the source's fields, and its contract
ties the new state to a specification function or to the decoded meaning of the bytes; the lemmas are about those
functions, over every input, every run or every reachable state. Ghost parameters such as the records of a block
say which abstract thing an offset stands for.

Properties that the code does not have without a condition are stated with the exact one: `FdtBlob.NextTagProgress`
(the walk stands still on one property length), `FdtWriter.RoomTest` (the unsigned room test wraps),
`LruSet.WrapLosesOrder` (the access counter wraps), `Pmp.SubsetMatchExact` (empty regions), `PmpLock.RlbExact`,
`DebugHart.WritingScratchClobbers`, `FdtPath.PathInverse`. `FdtBlob.NextTagStuck`, `FdtWriter.RoomTestWraps`, `LruSet.WrapReached`
and `Pmp.EmptyRegionSplits` show inputs on which the condition fails.

Where the code and the standards disagree the model follows the code: a write to the program buffer while a command
is busy is dropped without setting `cmderr` (riscv/debug_module.cc:842-852), and `cache_create` divides by the 32-bit
product before it checks for zero (riscv/cache_model.cc:25-35), and `fdt_check_full` asks of the nodes only that they are balanced, not that there is one root (`FdtFormat.RootsNotCounted`).

## Model

| member | source | states |
|---|---|---|
| `FdtFormat.ParseIsBlock` | fdt/fdt.c:131-182 | Bytes parse to a list of records exactly when they spell those records followed by the END tag: printer and parser of the structure block are inverse, padding aside. |
| `FdtFormat.ParseOpenIsRecords` | fdt/fdt.c:131-182 | The same for an unfinished block without its END tag, as the sequential writer keeps it. |
| `FdtFormat.BeginBytes` | fdt/fdt.c:147-154 | The bytes of a node record, in numbers: the tag 1, the name with its NUL and the padding. |
| `FdtFormat.PropertyBytes` | fdt/fdt.c:156-181 | The bytes of a property record, in numbers: the tag 3, length and name offset as big-endian words, the value and the padding. |
| `FdtFormat.TagBytes` | fdt/fdt.c:168-182 | The records that are a single word, 2 and 4, and the word 9 that ends a block. |
| `FdtFormat.StringAtExact` | fdt/fdt_ro.c:34-87 | A string is read at an offset exactly when its bytes stand there with the first NUL right behind them. |
| `FdtFormat.BalancedExact` | fdt/fdt_ro.c:859-897 | Events are balanced exactly when as many nodes end as begin and no prefix ends more than it begins. |
| `FdtFormat.BlockSplice` | fdt/fdt_rw.c:80-92 | Replacing the bytes of records i to j by bytes that spell other records replaces just those records. |
| `FdtFormat.ResolveSplice` | fdt/fdt_rw.c:80-92 | The same for the events a reader sees, with names resolved through the strings block and NOPs gone. |
| `FdtFormat.NamesKeptBehind` | fdt/fdt_rw.c:102-139 | Strings added behind a table change no name already in it. |
| `FdtBlob.Blob.OffsetPtrInBlock` | fdt/fdt.c:114-129 | The checks of fdt_offset_ptr, with their 32-bit sums, accept a range exactly when it lies in the structure block. |
| `FdtBlob.FindString` | fdt/fdt.c:270-280 | The first occurrence of the string with its NUL, or none when it does not occur; any tail of an entry counts. |
| `FdtBlob.OccursString` | fdt/fdt.c:270-280 | A string found that way is read back from that offset as the same string. |
| `FdtBlob.NextTag` | fdt/fdt.c:131-182 | The walker computes the tag and the next offset of its specification, 32-bit sums included. |
| `FdtBlob.NextTagProgress` | fdt/fdt.c:156-166 | A successful step of the walk goes forward exactly when the tag is not a property of length 2^32 - 12. |
| `FdtBlob.NextTagStuck` | fdt/fdt.c:161-164 | Eight concrete bytes on which the walk stands still. |
| `FdtBlob.NextTagIsHead` | fdt/fdt.c:131-182 | Where no length wraps, a step finds END, or the first record of an independent parser with its size, or BADSTRUCTURE. |
| `FdtBlob.NextTagInBlock` | fdt/fdt.c:131-182 | In a block that spells records the walk visits exactly those records, in order, then END. |
| `FdtCheck.NumMemRsv` | fdt/fdt_ro.c:175-185 | The number of reserve entries before the first of size zero that a signed 32-bit offset reaches, or TRUNCATED exactly when there is no such entry. |
| `FdtCheck.CheckHeaderExact` | fdt/fdt.c:59-112 | A header is valid exactly when magic and versions are right and every block begins behind the 28, 32, 36 or 40 bytes of its version and ends in the blob. |
| `FdtCheck.GetString` | fdt/fdt_ro.c:34-87 | A string is returned exactly when the readable part of the strings block has one, NUL included, at that offset; otherwise the exact error. |
| `FdtCheck.BlockWalks` | fdt/fdt_ro.c:859-897 | No record of a well-formed block has a wrapping length, so the precondition of fdt_check_full holds of every one. |
| `FdtCheck.AcceptsGood` | fdt/fdt_ro.c:859-897 | The loop of fdt_check_full accepts exactly the blocks that decode with balanced events: the depth never falls below zero and ends there. |
| `FdtCheck.CheckTag` | fdt/fdt_ro.c:859-897 | One turn of that loop: it ends with the right verdict, or goes forward and keeps the verdict open. |
| `FdtCheck.CheckFull` | fdt/fdt_ro.c:837-898 | fdt_check_full returns 0 exactly for sound blobs: header and reserve map in order, structure block decodable, events balanced. |
| `FdtFormat.RootsNotCounted` | fdt/fdt_ro.c:859-897 | Balanced events need no single root: nothing at all, two nodes side by side and a property outside any node are balanced, and so accepted. |
| `FdtWriter.ProbesByState` | fdt/fdt_sw.c:13-88 | What belongs to one state of the writer is answered with BADSTATE in the other, and both are in a finished blob; anything else with BADMAGIC. |
| `FdtWriter.Create` | fdt/fdt_sw.c:105-137 | The exact error for a small buffer or unknown flags; otherwise a blob ready for reserve entries. |
| `FdtWriter.AddReservemapEntry` | fdt/fdt_sw.c:180-198 | One entry appended after everything before it, or the exact error with nothing changed. |
| `FdtWriter.FinishReservemap` | fdt/fdt_sw.c:200-209 | The terminating entry, and a structure block with no events; on error the state stays. |
| `FdtWriter.GrabSpace` | fdt/fdt_sw.c:90-103 | Space is granted exactly when the structure block still stays below the strings at the top of the buffer. |
| `FdtWriter.BeginNode` | fdt/fdt_sw.c:211-226 | The events written so far grow by just this one, or NOSPACE exactly when the record does not fit, with nothing changed. |
| `FdtWriter.EndNode` | fdt/fdt_sw.c:228-240 | The same for the end of a node. |
| `FdtWriter.RoomTest` | fdt/fdt_sw.c:242-257 | The unsigned room test of fdt_add_string_ means what it says exactly when the table and the string fit the buffer at all. |
| `FdtWriter.RoomTestWraps` | fdt/fdt_sw.c:242-257 | Sizes that a blob can have for which the wrapping test finds room that is not there. |
| `FdtWriter.AddString` | fdt/fdt_sw.c:242-257 | The string goes in front of the table growing down from the top, or nothing changes, exactly when it does not fit. |
| `FdtWriter.FindAddString` | fdt/fdt_sw.c:268-283 | The name is added exactly when it does not already occur in the table, NOSPACE exactly when a new one does not fit; its offset reads back as the name and no event changes. |
| `FdtWriter.DelLastString` | fdt/fdt_sw.c:260-266 | Exactly the string just added is taken back. |
| `FdtWriter.NamesKept` | fdt/fdt_sw.c:242-283 | Strings put in front of the table change no name already referred to, as offsets count from its end. |
| `FdtWriter.PropertyPlaceholder` | fdt/fdt_sw.c:285-315 | NOSPACE exactly when record and name do not both fit; on success the record is in place with its name, on failure events and table are as before, rollback of the string included. |
| `FdtWriter.Property` | fdt/fdt_sw.c:317-327 | The events written so far grow by just this property and the table by its name unless it is shared, or NOSPACE with both unchanged, exactly when they do not fit. |
| `FdtWriter.ResolveRelocated` | fdt/fdt_sw.c:351-366 | Rewriting every name offset by the size of the table keeps every name when the table is read from its start. |
| `FdtWriter.RelocateNames` | fdt/fdt_sw.c:351-366 | The loop over tags of fdt_finish, on the bytes: every property gets its relocated name offset and nothing else changes. |
| `FdtWriter.MoveTable` | fdt/fdt_sw.c:345-349 | The strings are moved, byte for byte, to just behind the structure block. |
| `FdtWriter.Finish` | fdt/fdt_sw.c:329-376 | After fdt_finish the blob decodes to exactly the events written, is packed, and keeps what stands before the structure block. |
| `FdtWriter.FinishedIsSound` | fdt/fdt_ro.c:837-898 | A finished blob is sound exactly when the events written are balanced. |
| `FdtWriter.WriteAll` | fdt/fdt_sw.c:211-327 | A run of begin, property and end calls up to the first error: the events of the calls that succeeded, in order, and all succeed exactly when the records and the de-duplicated names fit. |
| `FdtWriter.FitsBefore` | fdt/fdt_sw.c:90-103 | What fits the buffer fits it up to any call, so the first failure is where it ceases to fit. |
| `FdtWriter.ShortNamesFit` | fdt/fdt_sw.c:242-257 | With names shorter than 64 bytes the room test never wraps. |
| `FdtWriter.Build` | fdt/fdt_sw.c:105-376 | The round trip: creating, writing and finishing succeeds exactly when header, reserve map, records, END tag and de-duplicated names fit; the blob then has exactly that size, decodes to exactly the events written, and fdt_check_full accepts it exactly when they are balanced. |
| `FdtWriter.BuildAndCheck` | fdt/fdt_sw.c:105-376 | A blob built from nothing is accepted by fdt_check_full exactly when everything fits and the events written are balanced. |
| `FdtNodes.CheckNodeOffset` | fdt/fdt.c:184-191 | For any offset, negative and misaligned ones included: the offset behind the tag when the walker finds BEGIN_NODE there, BADOFFSET otherwise. |
| `FdtNodes.NodeCheckAt` | fdt/fdt.c:184-191 | Among the offsets at which records begin exactly those of nodes pass, with the offset of the next record. |
| `FdtNodes.NextNode` | fdt/fdt.c:202-240 | The next node with its depth, or the end of the starting node, or NOTFOUND, as a scan of the records has it. |
| `FdtNodes.NodeEndOffset` | fdt/fdt_wip.c:73-81 | The offset behind the END_NODE that closes the node, however deep its subtree. |
| `FdtNodes.NodeName` | fdt/fdt_ro.c:286-322 | The name in the record, found by its NUL. |
| `FdtNodes.SubnodeOffset` | fdt/fdt_ro.c:211-228 | The first direct child called by the name or, unless the name holds an at sign, by the name with a unit address; NOTFOUND exactly when no direct child is called so. |
| `FdtNodes.NameEqExact` | fdt/fdt_ro.c:13-32 | A node name matches exactly when it is the name asked for, or that name, free of at signs, with a unit address behind it. |
| `FdtNodes.FindSubExact` | fdt/fdt_ro.c:211-228 | The scan over a subtree finds the first direct child called so, and none exactly when no direct child is, children being those nodes whose chain of open nodes ends in the parent. |
| `FdtNodes.GetProperty` | fdt/fdt_ro.c:379-433 | The first property of the node with that name, or the error that the walk ends with. |
| `FdtEdit.RwProbe` | fdt/fdt_rw.c:13-38 | For any blob, the exact error of the probe of a reader, of an old version or of misordered blocks with their 32-bit sums; on success the version becomes 17 and no block changes. |
| `FdtEdit.RwErrorExact` | fdt/fdt_rw.c:13-38 | Of the blobs whose header is valid exactly those can be edited that have version 17 or later, blocks in order and a size below 2^31 - 1; every other one gets its exact error. |
| `FdtEdit.Splice` | fdt/fdt_rw.c:52-65 | Exactly the tail of the data moves by the difference in length, or NOSPACE or BADOFFSET with nothing changed. |
| `FdtEdit.SpliceStruct` | fdt/fdt_rw.c:80-92 | The structure block with one stretch replaced; what stands before it and the strings block keep their bytes though they move. |
| `FdtEdit.FindAddString` | fdt/fdt_rw.c:115-139 | The name is added exactly when it occurs nowhere in the table, NOSPACE exactly when a new one does not fit; its offset reads back as the name and the tree stays. |
| `FdtEdit.EditTree` | fdt/fdt_rw.c:80-92 | Replacing the bytes of records replaces their events in the decoded tree and leaves all others. |
| `FdtEdit.FindIsIndex` | fdt/fdt_ro.c:379-406 | The property found by the walk is the first of its name in the node of the decoded tree. |
| `FdtEdit.ResizeProperty` | fdt/fdt_rw.c:170-186 | Room for the new length at the property, name kept; the exact condition for NOSPACE; on error the block is unchanged. |
| `FdtEdit.AddProperty` | fdt/fdt_rw.c:188-218 | NOSPACE exactly when head, value and, unless it is shared, the name do not fit; on success the record comes first in its node, on failure structure and strings are as before, rollback of the name included. |
| `FdtEdit.SetPropPlaceholder` | fdt/fdt_rw.c:243-259 | The exact outcome: BADOFFSET off a node, BADSTRUCTURE where the properties do not end, NOSPACE exactly when the changed length or the new record with its name does not fit; otherwise whatever value is stored gives the tree with just that property set. |
| `FdtEdit.SetProp` | fdt/fdt_rw.c:261-274 | The exact outcome, NOSPACE exactly when the changed length or the new record with its name does not fit; on success the same tree with just that property set, reserve map kept, on any error the same tree; a blob that the probe rejects is left alone with its exact error. |
| `FdtEdit.DelProp` | fdt/fdt_rw.c:303-316 | The same tree without just that property, succeeding exactly when the node has it. |
| `FdtEdit.CutTree` | fdt/fdt_rw.c:80-92 | Cutting the bytes of records cuts their events. |
| `FdtTree.DelNode` | fdt/fdt_rw.c:364-376 | The same tree without the node and all below it, and exactly its bytes are cut; an unclosed node gives NOTFOUND. |
| `FdtTree.NopRegion` | fdt/fdt_wip.c:51-57 | Whole NOP words over the region, and no other byte of the blob, in whatever order its blocks lie. |
| `FdtTree.NopTree` | fdt/fdt_wip.c:51-94 | NOPs over records leave the tree that cutting those records leaves. |
| `FdtTree.NopProperty` | fdt/fdt_wip.c:59-71 | The tree that deleting the property leaves, with only the bytes of its record changed. |
| `FdtTree.NopNode` | fdt/fdt_wip.c:83-94 | The tree that deleting the node leaves, with only the bytes of its records changed. |
| `FdtTree.AddSubnode` | fdt/fdt_rw.c:318-357 | The exact error, or the tree with an empty node behind the properties of its parent, at the offset returned. |
| `FdtTree.AddThenDelNode` | fdt/fdt_rw.c:318-376 | The node is added exactly when the parent is a node, no child answers to the name and the new records fit; deleting at the offset returned then succeeds and restores the structure and strings blocks byte for byte. |
| `FdtTree.DelAdded` | fdt/fdt_rw.c:363-376 | Deleting the node that was put before a record of a block gives back that block. |
| `FdtTree.CloseIsEvent` | fdt/fdt_wip.c:73-81 | The end of a node in the records is its end in the decoded tree. |
| `FdtLaws.PropIndexExact` | fdt/fdt_ro.c:379-406 | The search for a property finds the first of that name with nothing but properties before it. |
| `FdtLaws.SetThenGet` | fdt/fdt_rw.c:243-274 | After a property of a node has been set, reading it gives the value. |
| `FdtLaws.SetOthers` | fdt/fdt_rw.c:243-274 | Setting a property leaves every other property of every node with the value it had. |
| `FdtLaws.DeleteOthers` | fdt/fdt_rw.c:303-316 | Deleting a property leaves those of another name in its node with the values they had. |
| `FdtLaws.WithoutPutBack` | fdt/fdt_rw.c:303-316 | Putting a deleted property back where it stood gives the old tree. |
| `FdtLaws.CloseEventExact` | fdt/fdt_wip.c:73-81 | A node is closed by the end behind a balanced stretch of events, and by no other. |
| `FdtLaws.WithoutNodeExact` | fdt/fdt_rw.c:364-376 | What goes with a node is its beginning, a balanced stretch and its end. |
| `FdtLaws.WithNodeExact` | fdt/fdt_rw.c:318-357 | A node is added behind all properties of its parent and before anything else in it. |
| `FdtLaws.PhandleInTree` | fdt/fdt_ro.c:487-502 | The phandle of a node is the big-endian word in its first property of that name, or else in linux,phandle, or 0. |
| `FdtPath.PathOffset` | fdt/fdt_ro.c:236-279 | The node that a walk down the segments finds, repeated slashes skipped, or NOTFOUND. |
| `FdtPath.WalkName` | fdt/fdt_ro.c:262-276 | A single name leads to the first child called so, with or without unit address. |
| `FdtPath.WalkJoined` | fdt/fdt_ro.c:256-276 | Looking up a path in two parts is looking up the second from where the first leads. |
| `FdtPath.PopName` | fdt/fdt_ro.c:535-540 | Taking characters off up to a slash takes exactly the last name off the buffer. |
| `FdtPath.GetPath` | fdt/fdt_ro.c:521-571 | The path of the node with its NUL, or NOSPACE exactly when the names on its way with their slashes do not fit. |
| `FdtPath.FindChild` | fdt/fdt_ro.c:211-228 | A node that no earlier sibling shadows is found from its parent by its own name. |
| `FdtPath.ShadowedChild` | fdt/fdt_ro.c:211-228 | A node with an earlier sibling that answers to its name is not found by it: a sibling is. |
| `FdtPath.PathInverse` | fdt/fdt_ro.c:236-279 | With a nameless root and names on the way that are non-empty and hold no slash, looking up the path of a node gives the node back, at any depth, exactly when no node on the way has an earlier sibling that answers to its name. |
| `FdtOverlay.SetPropInplace` | fdt/fdt_wip.c:33-49 | Just the value of the first property of that name changes, or the exact error with nothing changed. |
| `FdtOverlay.GetPhandle` | fdt/fdt_ro.c:487-502 | The value of phandle, or else of linux,phandle, when one word long, and otherwise 0. |
| `FdtOverlay.FindMaxPhandle` | fdt/fdt_ro.c:103-129 | The largest phandle of any node, or 0 when there is none. |
| `FdtOverlay.PhandleAddOffset` | fdt/fdt_overlay.c:116-139 | The property shifted, or the exact error for a missing or misshapen one or for a sum that wraps or is all ones. |
| `FdtOverlay.NextSubnode` | fdt/fdt.c:253-268 | The next sibling, over the whole subtree of the node, or NOTFOUND. |
| `FdtOverlay.AdjustOwn` | fdt/fdt_overlay.c:156-170 | The two phandle properties of one node: success exactly when both can be shifted, and then just those change. |
| `FdtOverlay.AdjustNode` | fdt/fdt_overlay.c:156-177 | Success exactly when every phandle of the node and below is one word and does not reach 2^32 - 1 when shifted; then all of them are shifted and nothing else changes, and on failure only phandle values may have changed. |
| `FdtOverlay.Freshen` | fdt/fdt_overlay.c:829-843 | Success exactly when every phandle of the overlay can be shifted by the largest of the base; then each nonzero phandle p has become p + delta below 2^32 - 1 and exceeds every phandle of the base. |
| `FdtPhandles.ShiftFurther` | fdt/fdt_overlay.c:156-177 | Shifting one stretch of records and then the next is shifting both. |
| `FdtPhandles.FreshPhandles` | fdt/fdt_overlay.c:156-199 | Shifted by the largest phandle of the base, phandles exceed all of the base, do not wrap, and are equal exactly when they were equal. |
| `Context.DoInv` | fesvr/context.cc:32-100 | Every step of every thread keeps the invariant: one right to run, each thread where its flag allows it, mutexes held by those who locked them, no wakeup lost. |
| `Context.RunInv` | fesvr/context.cc:32-100 | So does every interleaving, of any number of contexts. |
| `Context.MutualExclusion` | fesvr/context.cc:81-100 | In every reachable state at most one context runs user code. |
| `Context.WakeupComes` | fesvr/context.cc:92-98 | A thread waiting with its flag set always has another thread still to signal it. |
| `Context.DoWakes` | fesvr/context.cc:90-98 | The race between testing a flag and setting it loses no wakeup, as the tester keeps its mutex until it is blocked. |
| `Context.StuckOnlyWithoutThread` | fesvr/context.cc:43-100 | When nothing can move, the right to run is with a context that has no thread to run: never initialised, or returned. |
| `Context.StepDescends` | fesvr/context.cc:43-100 | Every step inside the library lowers a rank, so the library cannot loop by itself. |
| `Context.HandoffEnds` | fesvr/context.cc:43-100 | A run of library steps has at most rank many steps. |
| `Context.NextToRun` | fesvr/context.cc:81-100 | A switch is followed by user code of its target, and of no other context before. |
| `Context.SwitchArrives` | fesvr/context.cc:81-100 | Whatever the interleaving, when the library comes to rest after switch_to, the target runs user code. |
| `Context.UserActions` | fesvr/context.cc:43-100 | What user code may do is possible in every state: construct a context, call init on one without a thread, switch, return; and a waiting thread may be woken spuriously. |
| `Context.InitRuns` | fesvr/context.cc:32-74 | From any reachable state with one running context and one without a thread, init can run to its end: the creator runs again and the new thread waits. |
| `Context.SwitchRuns` | fesvr/context.cc:81-100 | From any reachable state with one running context and one waiting, switch_to can run to its end: the other runs and the first waits. |
| `Context.CrowdReachable` | fesvr/context.cc:32-100 | So any number of contexts can have threads, and each of them can be the one that runs. |
| `Slice.ImmediateDeps` | nvr/disasm_reader.py:301-321 | The loop with its dictionary of writers finds, for every instruction, exactly the last writers of its source registers, each once; x0 and empty names count as none. |
| `Slice.DepsExact` | nvr/disasm_reader.py:306-321 | An instruction depends on d exactly when d writes one of its sources and no instruction between the two writes that register, each d once. |
| `Slice.BuildTree` | nvr/disasm_reader.py:330-346 | The recursion ends for any dictionary of dependencies, cyclic ones included, and builds the specified tree. |
| `Slice.Analyze` | nvr/disasm_reader.py:301-328 | The tree of every instruction: its kids are exactly its last writers, and the subtree of each is the tree of that instruction. |
| `Slice.FullChain` | nvr/disasm_reader.py:348-372 | The chain is ascending and holds exactly the keys of the dependency tree. |
| `Slice.VisitedUnused` | nvr/disasm_reader.py:332-335 | On last-writer edges the cycle guard never cuts anything, as every edge goes to an earlier instruction. |
| `Slice.KeysClosed` | nvr/disasm_reader.py:330-346 | The keys of the tree hold the dependencies of the instruction and of every key. |
| `Slice.KeysLeast` | nvr/disasm_reader.py:330-346 | And they are the least such set. |
| `Slice.SliceSound` | nvr/disasm_reader.py:301-346 | For any meaning of the instructions, executing only the keys of the tree gives every source of the instruction the value of the full run. |
| `Slice.HeldValue` | nvr/disasm_reader.py:301-346 | What executing some of the instructions leaves in a register: what the last of them to write it computes from the values its sources held then. |
| `LruSet.CacheSet.FindLruWay` | riscv/cache_model.cc:93-105 | The first way with the smallest counter. |
| `LruSet.CacheSet.Renormalise` | riscv/cache_model.cc:115-128 | Every counter lowered by the smallest, which none falls below. |
| `LruSet.CacheSet.UpdateLru` | riscv/cache_model.cc:108-129 | The touched way gets the next counter value, and large counters are renormalised, 32-bit increment included. |
| `LruSet.LoweredOrder` | riscv/cache_model.cc:115-128 | Renormalisation keeps the order of the ways. |
| `LruSet.UpdatedOrder` | riscv/cache_model.cc:108-129 | The touched way moves to the front of the order, the others keep theirs, and the next counter grows by at most one. |
| `LruSet.WrapLosesOrder` | riscv/cache_model.cc:108-129 | The order survives the increment exactly when the 32-bit counter does not wrap. |
| `LruSet.WrapReached` | riscv/cache_model.cc:108-129 | A concrete set whose counter wraps and then evicts the most recently used line, where the stack loses the least recently used one. |
| `LruSet.NeverLowered` | riscv/cache_model.cc:108-129 | While a way was never filled, renormalisation lowers no counter and the next counter grows with every access. |
| `LruSet.CacheSet.FindVictim` | riscv/cache_model.cc:184-198 | The first invalid way, or in a full set a way with the smallest counter. |
| `LruSet.CacheSet.Access` | riscv/cache_model.cc:150-224 | The counters refine an ideal stack: hit, victim, dirty write-back and new contents are those of moving the line to the top. |
| `LruSpec.TouchAbove` | riscv/cache_model.cc:132-224 | One access keeps a smaller set the top of a larger one, and what hits in it hits in the larger. |
| `LruSpec.Inclusion` | riscv/cache_model.cc:132-224 | After any trace on one set, what is held with fewer ways is the most recent part of what is held with more. |
| `LruSpec.HeldExact` | riscv/cache_model.cc:132-224 | A set holds a line exactly when it was accessed and fewer others than the set has ways have been accessed since. |
| `CacheModel.Log2` | riscv/cache_model.cc:8-12 | The position of the highest bit set: the power of two at or below the value, and 0 for 0. |
| `CacheModel.CacheCreate` | riscv/cache_model.cc:15-77 | No cache exactly when the size is below the 32-bit product of ways and line size; otherwise an empty one with the stated geometry. |
| `CacheModel.Cache.Access` | riscv/cache_model.cc:132-224 | The whole cache does what its stacks do, the line address of a dirty victim included; hits, misses, reads, writes and writebacks are counted. |
| `CacheModel.Cache.AccessAll` | riscv/cache_model.cc:132-224 | Over a whole trace of as many accesses as the counters have room for, the cache hits exactly where its stacks do and ends as they do. |
| `CacheSpec.CacheInclusion` | riscv/cache_model.cc:132-224 | Over any trace on two whole caches that differ only in their ways, every hit in the smaller is a hit in the larger. |
| `CacheSpec.EmptyAbove` | riscv/cache_model.cc:15-77 | Two new caches that differ only in their ways meet the hypothesis of inclusion. |
| `CacheSpec.RebuildIsLine` | riscv/cache_model.cc:205-211 | The address rebuilt from tag and index is where the installed line begins. |
| `CacheSpec.SameLine` | riscv/cache_model.cc:143-146 | Two addresses have the same tag and index exactly when they lie in the same line. |
| `CacheSpec.AccessDirty` | riscv/cache_model.cc:132-224 | A dirty line stays dirty or is the one written back; just a write to a write-back cache makes its line dirty, and no other line becomes so. |
| `CacheSpec.WritebackWasDirty` | riscv/cache_model.cc:205-211 | What is written back is a line of the same set that was dirty and no longer is. |
| `CacheSpec.WrittenBackWasWritten` | riscv/cache_model.cc:200-222 | Over a whole trace from an empty cache, every address written back is the line base of an earlier write of the trace; what was only read is never written back. |
| `CacheSpec.HitsExact` | riscv/cache_model.cc:132-224 | After any trace on an empty cache an access hits exactly when its line was accessed before and fewer other lines of its set than there are ways have been accessed since. |
| `CacheSpec.NextSet` | riscv/cache_model.cc:143-146 | The next line lies in the next set, the sets taken round, and all addresses of a line in one set. |
| `CacheSpec.NothingLost` | riscv/cache_hierarchy.cc:147-200 | Over every trace, a line dirty in the L1 data cache stays dirty there, or is dirty in L2, or has been written to memory; and the same for L2. |
| `CacheSpec.HierFactors` | riscv/cache_hierarchy.cc:147-200 | Over every trace the hierarchy is its three caches, each by itself: L1 under the accesses of their kind, L2 under what those miss, as it came, and then the lines they write back, and memory gets what L2 writes back. |
| `CacheSpec.MemoryWrites` | riscv/cache_hierarchy.cc:147-200 | Whatever an empty hierarchy writes to memory over a trace is the line of the address of a write of the trace, or of the L1 line of one. |
| `CacheHierarchy.Hierarchy.Access` | riscv/cache_hierarchy.cc:147-200 | Both levels do what the specification says, with hit, misses, latency and cycles as the levels answered. |
| `CacheSim.TagCompares` | riscv/cachesim.cc:100-110 | The packed comparison finds exactly the valid tags of the line, dirty or not. |
| `CacheSim.RebuildExact` | riscv/cachesim.cc:142-146 | The address rebuilt from a packed tag is where the line begins for whose address the tag was packed. |
| `CacheSim.CheckTag` | riscv/cachesim.cc:100-110 | The place of the line, or none exactly when it is not present, in the set-associative and the fully associative form. |
| `CacheSim.VictimizedOk` | riscv/cachesim.cc:112-119 | Whatever the victim, no set holds a line twice, every line is in its own set, and the new line is there. |
| `CacheChain.HandedLine` | riscv/cachesim.cc:142-153 | A dirty victim whose line was asked for by a store is handed on as exactly the line of that store, before the missing line is asked for. |
| `CacheChain.VictimCame` | riscv/cachesim.cc:121-157 | Under the invariant of the simulator every valid victim was installed for a request to its level, and a dirty one for a store. |
| `CacheChain.Simulator.Bring` | riscv/cachesim.cc:129-156 | The miss: any way is the victim, the new line is installed, the victim written back at the address of a line that the level was asked to store to, and the missing line asked for; a read counts as a read miss and a store as a write miss. |
| `CacheChain.BalanceUpdated` | riscv/cachesim.cc:121-157 | How counting at one level changes what any level has been asked beyond what was handed to it. |
| `CacheChain.Simulator.Access` | riscv/cachesim.cc:121-157 | A hit or a miss with its effect on the level, every counter in numbers, and its requests to the next level in order, each writeback at the exact line address of an earlier store; a hit touches no other level, and over all levels only this one was asked more than was handed on. |
| `ChainLaws.ServesOut` | riscv/cachesim.cc:121-153 | A request that finds its line hands nothing on; any other hands the missing line on as a read, and before that at most the dirty line that made room, as a store. |
| `ChainLaws.ServesLines` | riscv/cachesim.cc:121-157 | After a request its line is held, and dirty exactly if it was or the request is a store; any other line stays as it was or leaves, handed on if dirty. |
| `ChainLaws.OneLeaves` | riscv/cachesim.cc:112-119 | At most one line leaves at a request, and none at a hit. |
| `ChainLaws.DirtyExact` | riscv/cachesim.cc:121-157 | Over every run of one level from empty, whichever victims were picked, a line is dirty exactly when it has been stored to and has not been written back since. |
| `ChainLaws.BackIsBase` | riscv/cachesim.cc:142-146 | The address written back is that of the store with the bits below the line size cleared. |
| `ChainLaws.SameSet` | riscv/cachesim.cc:102-103 | Two lines share a set exactly when their numbers differ by a multiple of the number of sets. |
| `ChainLaws.VictimFromFull` | riscv/cachesim.cc:195-207 | The fully associative form gives up a line only when it is full. |
| `CacheChain.Simulator.Trace` | riscv/cachesim.cc:121-157 | Over any run and any acyclic chain, read accesses are direct reads plus the misses handed on, write accesses direct writes plus writebacks, and every request to a level is direct or the line of a request to a level that feeds it, of a store if it is a store. |
| `Words.Transitive` | riscv/csrs.cc:161-176 | Unsigned comparison of 64-bit words is transitive, by induction over their bits. |
| `Words.BelowBound` | riscv/csrs.cc:170-174 | A naturally aligned block that starts in a lower block than a bound lies below the bound. |
| `Pmp.MaskShape` | riscv/csrs.cc:147-151 | The mask of a region is minus a power of two, or nothing. |
| `Pmp.SubsetMatchExact` | riscv/csrs.cc:161-181 | subset_match answers true exactly when two addresses of the block differ in whether the entry matches them, or when an empty top-of-range region, which matches nothing, has both its bounds inside. |
| `Pmp.EmptyRegionSplits` | riscv/csrs.cc:161-181 | A concrete empty region that subset_match says splits a block though no address matches. |
| `Pmp.PmpOk` | riscv/mmu.cc:371-401 | The first entry that matches any 4-byte sector decides: it grants the access exactly when it matches all sectors and the table of its L, R, W and X bits does; without one the defaults of mseccfg hold. |
| `Pmp.PermissionTable` | riscv/csrs.cc:183-215 | The permissions in numbers: with MML clear bit 0 grants loads, bit 1 stores, bit 2 fetches and unlocked entries do not bind machine mode; with MML set the sixteen encodings of Smepmp, for both modes and every access type. |
| `Pmp.TableDecides` | riscv/mmu.cc:371-401 | The first entry that matches any sector decides an access: it is granted exactly when that entry matches all of it and the table grants it. |
| `Pmp.RangeRegion` | riscv/csrs.cc:153-156 | An entry that is off matches nothing, and a top-of-range one exactly the addresses from its base up to its top. |
| `Pmp.NapotRegion` | riscv/csrs.cc:147-159 | An address register that ends in a zero and k ones, with those of the granularity, matches exactly the naturally aligned block of 2^(k+3) bytes that the bits above them name. |
| `Pmp.FourByteRegion` | riscv/csrs.cc:147-159 | With the finest granularity a four-byte region matches exactly its four bytes. |
| `Pmp.PmpHomogeneous` | riscv/mmu.cc:403-416 | True exactly when no entry splits the block. |
| `Pmp.HomogeneousDecides` | riscv/mmu.cc:339-416 | When a page is homogeneous every access inside it gets the same answer, so the TLB may keep one. |
| `PmpLock.Registers.WriteAddr` | riscv/csrs.cc:109-136 | The address register takes the written value, or nothing changes, exactly as the lock rules say, the next entry included. |
| `PmpLock.Registers.WriteCfg` | riscv/csrs.cc:239-279 | Every configuration byte the register holds becomes what the rules make of it, and no other does. |
| `PmpLock.Registers.WriteSec` | riscv/csrs.cc:315-353 | mseccfg after the write, field by field. |
| `PmpLock.ByteOrder` | riscv/csrs.cc:246-250 | Configuration byte k of the written word is bits 8k to 8k + 7. |
| `PmpLock.AskedExact` | riscv/csrs.cc:250-258 | A configuration is taken as written but for two unused bits, W without R when MML is clear, and four-byte regions below the granularity. |
| `PmpLock.ConfigTaken` | riscv/csrs.cc:239-279 | Which entries a write of pmpcfg reaches and what each becomes: an unlocked one, or any with RLB, takes its byte, unless with MML set and RLB clear that would let machine mode execute. |
| `PmpLock.AddressTaken` | riscv/csrs.cc:109-136 | An address register takes 62 bits exactly when its entry exists, is not locked and the next is not a locked range; RLB lifts both locks. |
| `PmpLock.SecLocks` | riscv/csrs.cc:319-332 | MML and MMWP are set afterwards exactly when written or set before; RLB is as written unless it is clear and an entry is locked. |
| `PmpLock.SecOthers` | riscv/csrs.cc:334-352 | The fields of the extensions that are there are as written, the reserved masking mode as zero; all other bits stay. |
| `PmpLock.StepKeepsLock` | riscv/csrs.cc:109-136 | One write keeps a locked entry, its address and, for a top-of-range entry, its base. |
| `PmpLock.LockHolds` | riscv/csrs.cc:109-353 | Once an entry is locked with RLB clear, over every run of writes RLB stays clear and the entry keeps its configuration and the addresses it matches. |
| `PmpLock.LockedPrefixDecides` | riscv/mmu.cc:371-401 | With MML set, when the entries up to the deciding one are locked, no run of writes changes the answer of pmp_ok. |
| `PmpLock.RlbExact` | riscv/csrs.cc:320-329 | RLB can be set again exactly when no entry is locked. |
| `PmpLock.RunSticky` | riscv/csrs.cc:331-332 | MML and MMWP, once set, stay set over every run. |
| `PmpLock.ExecutableGrants` | riscv/csrs.cc:183-215 | With MML set, the configurations that grant M-mode execution are exactly those that a write may not add. |
| `PmpLock.ExecutionFixed` | riscv/csrs.cc:109-353 | With MML set, RLB clear and any entry locked, no run of writes changes which entries let M-mode execute at which addresses. |
| `DebugProgram.DecodeEncode` | riscv/opcodes.h:16-191 | Every word emitted is read back as the instruction meant. |
| `DebugLaws.EncodingExact` | riscv/opcodes.h:16-191 | The words emitted, in numbers, for every instruction but lui and jal. |
| `DebugLaws.LuiWord` | riscv/opcodes.h:16-191 | The upper immediate lies in the upper twenty bits. |
| `DebugLaws.JalWord` | riscv/opcodes.h:16-191 | The word of a jump forward, in numbers. |
| `DebugHart.SaveFpuMeans` | riscv/debug_module.cc:662-672 | S0 and mstatus are saved and the floating-point unit is on. |
| `DebugHart.RestoreFpuMeans` | riscv/debug_module.cc:792-798 | mstatus and S0 come back from their scratch registers. |
| `DebugHart.TransferCsrIs` | riscv/debug_module.cc:674-710 | The whole effect of a control and status register transfer on the hart. |
| `DebugHart.TransferMeans` | riscv/debug_module.cc:660-799 | Executing the emitted instructions moves the selected register to or from the data words and leaves every other register, mstatus included, as it was, but for dscratch0, and for dscratch1 where the floating-point unit is turned on. |
| `DebugHart.WritingScratchClobbers` | riscv/debug_module.cc:674-710 | Writing dscratch0 itself leaves S0 as it was exactly when the value written is that of S0. |
| `DebugHart.WriteReadBack` | riscv/debug_module.cc:674-799 | The data words that a write took come back from a read of the same size. |
| `DebugHart.ReadWriteBack` | riscv/debug_module.cc:674-799 | A register moved out to the data words in full and back keeps its value. |
| `DebugModule.ProgramFits` | riscv/debug_module.cc:660-807 | The program fits the twelve words, and with postexec its last word jumps exactly to the program buffer. |
| `DebugModule.EmittedMeans` | riscv/debug_module.cc:660-807 | The emitted words are read as that program, and executing it up to its last instruction has that effect. |
| `DebugLaws.CommandFields` | riscv/debug_defines.h:2907-3003 | A command word put together from register number, write, transfer and postexec bits and size has exactly those fields. |
| `DebugLaws.DataWords` | riscv/debug_module.cc:674-799 | data0 is the lower word; a word is loaded with its sign, a single-precision value with ones above it, and a word stored leaves data1. |
| `DebugLaws.GeneralMeans` | riscv/debug_module.cc:711-741 | A command given by its fields, on a general register: with write 1 the data words stay and go into the register, with write 0 the register stays and goes into the data words; no other register changes. |
| `DebugLaws.CsrMeans` | riscv/debug_module.cc:660-710 | The same for a control and status register other than the scratch registers. |
| `DebugLaws.FloatMeans` | riscv/debug_module.cc:743-771 | The same for a floating-point register, the floating-point unit being turned on for it and mstatus restored. |
| `DebugLaws.StartsExactly` | riscv/debug_module.cc:635-818 | A command starts exactly when there is no error, none is busy, its hart is there and halted, and it is an access-register command without a transfer or with a supported one. |
| `DebugLaws.RefusedBecause` | riscv/debug_module.cc:635-818 | The error of a refused command: 1 when busy, 4 when the hart is not there or not halted, 2 when not supported; an earlier error stays. |
| `DebugLaws.StartedIs` | riscv/debug_module.cc:809-813 | A command that starts tells its hart, and only that, to go, and marks the module busy for the configured time. |
| `DebugLaws.CustomReadBack` | riscv/debug_module.cc:773-785 | A value written to a custom register is read from any other with the difference of their numbers. |
| `DebugModule.BusyKeepsBuffers` | riscv/debug_module.cc:820-852 | While a command is busy no event but a store of the hart changes the data words or the program buffer. |
| `DebugModule.BuffersKept` | riscv/debug_module.cc:820-852 | Over every run during which the module is busy, the data words and the program buffer stay unless the hart stores to them. |
| `DebugModule.ErrorStays` | riscv/debug_module.cc:635-642 | A command error stays until it is written away or the module is activated, and no command starts under it. |
| `DebugModule.ErrorKept` | riscv/debug_module.cc:635-642 | Over every run that does not clear it a command error stays, an idle module stays idle and no hart is told to go. |
| `DebugModule.ErrorCleared` | riscv/debug_module.cc:925-927 | Writing ones to cmderr clears just those bits. |
| `DebugModule.CommandGoesOn` | riscv/debug_module.cc:601-608 | One event of a command keeps the account of what has been seen, or the command ends rightly. |
| `DebugModule.BusyFalls` | riscv/debug_module.cc:166-237 | Over every run without a write of dmcontrol, a command is over only in an idle cycle, after the selected hart stored to GOING and then to HALTED and the configured idle cycles have passed. |
| `DebugDevice.Device.EmitTransfer` | riscv/debug_module.cc:660-799 | The instructions of a supported transfer are emitted in full, or the command ends at once with its exact error or custom effect. |
| `DebugDevice.Device.PerformAbstractCommand` | riscv/debug_module.cc:635-818 | The checks in their order, and a command that starts has its program in the buffer, its hart told to go and the module busy. |
| `DebugDevice.Device.DmiWrite` | riscv/debug_module.cc:820-1017 | Every register that concerns commands changes as specified, automatic execution included. |
| `DebugLaws.WritesAt` | riscv/debug_module.cc:820-1017 | The registers of the interface by their addresses, for an idle module. |
| `DebugLaws.AutoExecutes` | riscv/debug_module.cc:384-412 | An access to a word whose bit for automatic execution is set starts the command, a write after the word has been stored. |
| `DebugLaws.BusyAccess` | riscv/debug_module.cc:820-852 | Under a command an access to a data word sets the busy error unless there is one, and one to the program buffer does nothing. |
| `DebugLaws.SelectsHart` | riscv/debug_module.cc:871-874 | The hart that a write of dmcontrol selects: the upper ten bits of the index lie below the lower ten, and one too large selects the last hart. |
| `DebugLaws.Activated` | riscv/debug_module.cc:857-861 | Activating the module resets it but for its buffers, and an inactive one that stays so ignores the rest. |
| `DebugDevice.Device.DmiRead` | riscv/debug_module.cc:384-417 | Reads of data words and program buffer answer with ones while busy, and may start a command. |
| `DebugDevice.Device.RunTestIdle` | riscv/debug_module.cc:601-608 | The idle cycle that may end a command. |
| `DebugDevice.Device.StoreFromHart` | riscv/debug_module.cc:166-250 | The mailbox, data and program buffer stores of a hart. |
| `DebugLaws.Mailboxes` | riscv/debug_module.cc:202-245 | The stores of a hart to its mailboxes: going, halted, resuming and exception. |
| `Memif.Chunks.ClearChunk` | fesvr/htif.cc:237-244 | Exactly the range becomes zero, through aligned chunks of at most the maximal size. |
| `Memif.Memif.Write` | fesvr/memif.cc:42-84 | Exactly the bytes at [addr, addr + len) change, and to what was given; every chunk call is aligned, in range and no larger than allowed. |
| `Memif.Memif.Read` | fesvr/memif.cc:9-40 | Exactly the bytes at [addr, addr + len), from aligned chunk calls only, and the memory stays as it is. |
| `Memif.StoreInUnit` | fesvr/memif.cc:45-55 | Storing into a unit and the unit back into memory is storing into memory. |
| `WideArith.Mulhu` | riscv/arith.h:12-30 | The floor of a * b / 2^64, with no partial sum overflowing. |
| `WideArith.Mulh` | riscv/arith.h:32-37 | The floor of the signed product over 2^64, for all operands, the most negative included. |
| `WideArith.Mulhsu` | riscv/arith.h:39-44 | The floor of the mixed product over 2^64, for all operands. |
| `WideArith.SatAdd` | riscv/arith.h:47-66 | The clamp of the exact sum, with sat exactly when the sum is out of range, at any width. |
| `WideArith.SatAdd3` | riscv/arith.h:68-87 | The same for three operands, though only two are ever added at once. |
| `WideArith.SatSub` | riscv/arith.h:89-108 | The clamp of the exact difference, with sat exactly when it is out of range. |

## Left out

- FdtWriter.Build: runs in which the room test of `fdt_add_string_` wraps are excluded by `NamesFit`, which asks of every name no more than that it is shared or fits a buffer holding nothing but the table; names below 64 bytes always do (the Devicetree Specification allows 31).
- FdtWriter.Property: requires that the name is shared or that table and name fit the buffer, for the same reason; `FdtWriter.RoomTest` has the exact condition.
- FdtCheck.CheckFull: does not cover structure blocks in which the walk meets a property whose length wraps; `FdtBlob.NextTagProgress` and `FdtBlob.NextTagStuck` say what the walk does there.
- FdtPath.GetPath: only for nodes of the tree, and where no name holds a slash, because a slash inside a name misleads the loop that takes names off.
- FdtPath.PathOffset: paths that begin with an alias are not covered.
- FdtEdit.SetProp: value lengths stay below the largest positive 32-bit integer less 16, as the lengths of the source are signed; a blob that passes the probe must decode, and the node offset begin a record, because the source walks whatever bytes lie at an offset inside a value.
- LruSet.CacheSet.Access: requires the set's counter not to reach 2^32, which a set with a never-filled way does after that many accesses; `LruSet.WrapLosesOrder` has the exact condition.
- CacheModel.CacheCreate: requires the 32-bit product of ways and line size not to be zero, because the source divides by it.
- CacheModel.Cache.Access: random replacement is not modelled, and statistics and latencies are unbounded integers.
- Memif.Memif.Read: addresses do not wrap at 2^64; the device is a byte sequence whose size is a multiple of the alignment.
- DebugHart.TransferMeans: harts are RV64, control and status registers are plain storage (fflags, frm and fcsr do not alias), and an access is not refused for privilege.
- DebugDevice.Device.DmiWrite: a write of dmcontrol selects and activates only; halt, resume and reset requests, hart arrays and halt groups, authentication and the system bus are not modelled.
- Pmp.SubsetMatchExact: the quotient by the block length is modelled as the comparison it amounts to.
- Pmp.PmpOk: the length is a mathematical integer of at most 2^64, and hypervisor access modes enter only as the hlvx flag.
- WideArith.Mulh: the negation of the most negative operand, which C leaves undefined, gives its magnitude.
- FdtWriter.AddString: requires that table and name fit the buffer, for the same reason.
- FdtNodes.NextNode: starts at a record or its end; `FdtNodes.CheckNodeOffset` has the answer for any other offset.
- Context.MutualExclusion: one native thread is there at the start; a second one that calls `current()` would get a context of its own with the flag set (fesvr/context.cc:102-115) and run beside the first.
- Device tree headers are the decoded fields; their big-endian storage, `fdt_move`, `fdt_open_into`, `fdt_pack`, `fdt_resize` and versions before 17 are not modelled.
- Overlay fragments beyond the phandle shift: references, fixups, merging and symbols.
- The ucontext variant of `context_t`, and what user functions do between switches.
- Parsing of disassembly, HTML output and the run scripts of nvr; instructions have registers only, without memory or control flow.
- Cache configuration files, statistics printing and allocation failures; clean and invalidate of the cache simulator, whose fully associative form ignores validity.
- The chain of cache simulators is a list of levels with handler indices that go up, where the source has object pointers.
- The tag array of the cache simulator is one row a set instead of one flat array, and set indices are remainders instead of masks.
- Reading pmpaddr and pmpcfg back, and the remaining control and status registers.
- popcount, clz, ctz, xperm and rotations: bit tricks on one word that no other part depends on here.
