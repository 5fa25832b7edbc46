# Verification of the NEXS core

A Dafny model of the data structures and protocols at the core of NEXS, a small operating-system
runtime in C, with proofs of what they keep over whole runs.

| file | component | main results |
|---|---|---|
| `Buddy.dfy` | buddy allocator | every run equals a run on sets of live blocks; lowest fit; the node array is a canonical picture of the live blocks |
| `PageTables.dfy` | x86-64 four-level page tables (section 4.5 of the Intel SDM, volume 3A) | every run acts on a plain map from pages to frames and rights; tables stay a tree; frames are never reused; user mode reaches nothing |
| `RegistryPaths.dfy`, `RegistryShape.dfy`, `Registry.dfy` | registry tree | the pointer tree refines a prefix-closed map; what a free reaches and what it leaks; no use after free |
| `RegistryEdits.dfy`, `RegistryMaps.dfy`, `RegistryMount.dfy`, `RegistryBind.dfy` | mount, unmount, bind | exact copies, nothing else changes; when unmounting undoes mounting |
| `RegistryRuns.dfy` | registry, whole runs | every run of all these operations equals a run on a plain map |
| `Wire.dfy`, `MessageQueue.dfy` | registry IPC | the wire format is self-delimiting; one FIFO survives the switch to a pipe |
| `BlockCache.dfy`, `Journal.dfy` | block cache and undo journal | every run returns what an uncached disk would; what replay restores for transactions of any length, and that commits do not stop it |
| `Scheduler.dfy`, `SchedulerRuns.dfy`, `SchedulerOrder.dfy` | eight-level scheduler | no process lost or queued twice in any run; every choice is the first by priority class and waiting; a full round dispatches every process of the best level once |
| `ExprParser.dfy`, `ExprGrammar.dfy` | precedence climbing with calls | accepts exactly a grammar in six layers; undoes printing with the fewest brackets |
| `DepScan.dfy` | dependency scanner | ends on every graph; lists exactly the reachable files that fit |
| `Utf8.dfy` | UTF-8 validator and in-place repair (section 3 of RFC 3629 for the encoding) | accepts exactly the shortest encodings; repairs in place |
| `HalBytecode.dfy`, `BytecodeRuns.dfy` | HAL bytecode assembler and machine | assembling and running equals interpreting; assembled bytecode and bytecode without jumps back always stop; what registers, stack and input hold is told by the calls of the run |
| `Wrappers.dfy`, `Arithmetic.dfy`, `Bytes.dfy` | shared | options, division facts, bytes and C strings |

Check the whole project with `dafny verify dfyconfig.toml`.

## How the model is built

Code that changes state is a class or a method with loops; what it computes is stated through pure
functions and predicates, and the properties are proved of those.  Numbers are unbounded unless the
width matters, in which case the wrap-around is written out (page-table words, `mm_map_range`,
jump targets).  Bytes are numbers below 256, and bit masks are quotients and remainders.

Registry keys and processes live in an explicit memory, a map from addresses to records in which
allocation adds an address and free removes it.  Reading through a pointer therefore needs a proof
that its target has not been freed, and the allocated addresses that belong to no key of the tree
are what has leaked.

Where a property one might expect does not hold, the exact condition is proved instead:

- A message survives the wire unchanged if and only if it holds no error code, no built-in function
  and no empty reference target (`Wire.CleanRoundTrip`, `Wire.UncleanExamples`).
- Mapping and unmapping a page restores the translations if and only if the page was unmapped
  before or lies in a 2 MB mapping (`PageTables.Mmu.MapThenUnmap`); `mm_map_range` covers only the
  first 2^20 pages (`PageTables.RangeViewPages`).
- A page mapped for users cannot be reached from user mode, because the tables above it are linked
  without the user bit; the rights to write and to execute are those asked for
  (`PageTables.EffectiveRights`, `PageTables.Mmu.NoUserPages`).
- Freeing a subtree with the stack of 1024 keys frees it whole if and only if, for every key, the
  siblings in front of it and of the keys between it and the top are fewer than 1024
  (`RegistryShape.ReachedAllIff`; `RegistryShape.WideTreeLeaks` is a tree where they are not).  The
  map is right in either case; the rest of the subtree stays allocated and counted.
- A value that has been set is read back if and only if every name of its path is shorter than
  NAME_LEN, because a key keeps a longer name cut (`RegistryTree.Registry.SetThenGet`,
  `RegistryTree.LongName`).
- Unmounting undoes mounting if and only if source and target share no child name
  (`RegistryBind.MountThenUnmount`, `RegistryMaps.SharedChildLost`), and a right `total_keys` stays
  right in `reg_unmount` if and only if nothing is removed, because each removed child is counted
  down twice (`RegistryBind.Unmount`).
- Replay puts back the last n records in the order of their places (`Journal.RollbackIsRing`), so
  that every block goes back to its last logging as long as the area does not wrap
  (`Journal.RollbackInFirstRound`) and not beyond (`Journal.WrapReorders`, `Journal.WrapForgets`).
  It changes nothing if and only if every block already holds what its last record says
  (`Journal.RestoreNothingIff`); a commit does not keep it from restoring
  (`Journal.CommittedIsUndone`).
- The parser accepts exactly the grammar among the token lists in which every `reg` has its path;
  a `reg` without one is swallowed without an error (`ExprParser.ParsesExactlyTheGrammar`,
  `ExprParser.DanglingReg`).
- `utf8makevalid` leaves a well-formed string if and only if the low byte of the replacement is
  ASCII or nothing had to be replaced (`Utf8.RepairedIffAscii`); negative replacements pass its
  test of the upper bound (`Utf8.NegativeReplacement`).  An overlong encoding of zero cuts the
  string short (`Utf8.OverlongZeroTruncates`).
- The dependency list is complete if and only if the reachable paths fit (`DepScan.DepsCount`,
  `DepScan.OneSlotTooFew`).
- An assembled run fails if and only if the opens and reads before the first halt overflow the stack
  (`HalBytecode.RunStatus`, `HalBytecode.StackOverflows`).

Where code and documentation disagree the model follows the code: a pick passes over a level whose
head is not ready, instead of taking the best level that is not empty (kernel/sched.c:7, 89-107); replay restores the blocks of
committed transactions too, and a checkpoint reclaims no space (kernel/journal.c:7-8, 126-150); the bytecode has no operand
count after the opcode and its header counts bytes, not instructions (hal/include/nexs_hal_bc.h:23-25,
hal/bc/nexs_hal_bc.c:457-461); the dependency scanner tries the working directory before the
directory of the calling file (compiler/dep_scan.c:12, 136-165); `utf8nvalid` reports the start of
the sequence in front of a stray following byte, not the stray byte (include/utf8.h:1069-1072).

## Model

| member | source | states |
|---|---|---|
| `BuddyAllocator.NextPow2` | core/buddy.c:31-36 | the result is the smallest MIN_BLOCK times a power of two that holds the request; it is below twice the request unless it is MIN_BLOCK |
| `BuddyAllocator.Buddy.constructor` | core/buddy.c:24-25 | an all-Free node array stands for no live block |
| `BuddyAllocator.Buddy.AllocNode` | core/buddy.c:38-63 | the in-place recursion on the node array does on the array what AllocTree does on trees, and changes no node outside its subtree |
| `BuddyAllocator.Buddy.AllocInHalves` | core/buddy.c:53-62 | low half first, then the high half; a failure in both leaves both trees as they were |
| `BuddyAllocator.Buddy.FreeNode` | core/buddy.c:75-99 | the in-place free and merge does what FreeTree does on trees, and changes no node outside its subtree |
| `BuddyAllocator.Buddy.Alloc` | core/buddy.c:65-73 | for sizes from 1 to the pool size: the lowest offset, aligned to the rounded size, that overlaps no live block, or failure exactly when there is none; a failure leaves the array node for node as it was; 0 and oversized requests fail |
| `BuddyAllocator.Buddy.Release` | core/buddy.c:101-113 | removes exactly the live block that starts at the pointer; any other pointer, null and out-of-pool ones included, leaves the array unchanged |
| `BuddyAllocator.Buddy.Run` | core/buddy.c:31-113 | every run of allocations and frees equals a run on plain sets of live blocks, result by result, and keeps the array canonical |
| `BuddyAllocator.Buddy.LiveBlocksWellPlaced` | core/buddy.c:38-113 | in every reachable state the live blocks are aligned to their size, inside the pool and pairwise disjoint |
| `BuddyAllocator.Buddy.AllocThenRelease` | core/buddy.c:65-113 | freeing a block just allocated restores the node array, node for node |
| `BuddyAllocator.LiveWithin` | core/buddy.c:38-63 | live blocks lie inside their node |
| `BuddyAllocator.LiveDisjoint` | core/buddy.c:38-63 | two different live blocks do not overlap |
| `BuddyAllocator.LiveDeterminesTree` | core/buddy.c:38-113 | two canonical trees with the same live blocks are equal: the tree is a canonical picture of the live set |
| `BuddyAllocator.ArrayDeterminedByBlocks` | core/buddy.c:38-113 | two valid node arrays with the same live blocks are equal |
| `BuddyAllocator.SplitIffUsedBelow` | core/buddy.c:38-99 | a node is Split exactly when something strictly below it is Used, and everything below a Free or Used node is Free |
| `BuddyAllocator.SlotIffAligned` | core/buddy.c:38-63 | the positions the recursion can return are exactly the multiples of the block size inside the node |
| `BuddyAllocator.AllocTreeTakesLowest` | core/buddy.c:38-63 | a success takes the lowest available position and adds exactly one block; a failure means every position overlaps a live block and leaves the tree alone |
| `BuddyAllocator.FreeTreeRemoves` | core/buddy.c:75-99 | freeing keeps the tree canonical and removes exactly the block that starts at the target |
| `BuddyAllocator.RepresentsUnique` | core/buddy.c:38-99 | an array subtree is determined by the tree it represents |
| `PageTables.IndexDigits` | hal/amd64/mmu.c:56-66 | the four 9-bit indices of an address are the digits of its page number |
| `PageTables.LeafEntryBits` | hal/amd64/mmu.c:138-142 | the entry a map writes, bit by bit: present, bit 1 exactly for write, bit 2 for user, bit 63 for no execute or bit 63 of the address, bits 3 and 4 for no cache, bits 5 to 11 clear, and from bit 12 on the address |
| `PageTables.WalkPlaces` | hal/amd64/mmu.c:56-112 | a walk over tables that form a tree stays inside owned tables of the right level and prefix |
| `PageTables.TableAtOwned` | hal/amd64/mmu.c:79-112 | the table found for a place is the one recorded for it |
| `PageTables.TablesDistinct` | hal/amd64/mmu.c:79-112 | different places of the tree have different table pages |
| `PageTables.LeafWrite` | hal/amd64/mmu.c:133-156 | writing one last-level entry keeps the tree and changes the translation of exactly that page |
| `PageTables.EffectiveRights` | hal/amd64/mmu.c:79-142 | what the processor grants along the walk: the rights to write and to execute are those of the last entry, and user mode reaches no page, because no table is linked with the user bit |
| `PageTables.FreshTable` | hal/amd64/mmu.c:79-112 | hanging a zeroed page into an absent entry keeps the tree and changes no translation |
| `PageTables.BootTree` | hal/amd64/boot.S:65-82 | the boot tables form a tree of three pages |
| `PageTables.BootPage` | hal/amd64/boot.S:65-82 | the boot tables map the first gigabyte to itself in 2 MB pages and nothing else |
| `PageTables.Mmu.Boot` | hal/amd64/mmu.c:47-53 | memory as the boot code leaves it is a valid starting state: the first gigabyte, writable and executable |
| `PageTables.Mmu.PhysAllocPage` | hal/amd64/mmu.c:47-53 | the page at the bump pointer is zeroed, nothing else is written, and the pointer moves up by one page |
| `PageTables.Mmu.EnsureEntry` | hal/amd64/mmu.c:79-112 | one level of the walk: the entry is present afterwards, no translation changes, every other table entry stays |
| `PageTables.Mmu.LinkFresh` | hal/amd64/mmu.c:79-112 | a missing table is replaced by a fresh empty one without changing any translation |
| `PageTables.Mmu.WalkReadonly` | hal/amd64/mmu.c:56-77 | the address of the last-level entry, or 0 exactly when there is none (absent table or 2 MB page) |
| `PageTables.Mmu.WalkAlloc` | hal/amd64/mmu.c:79-112 | the address of the last-level entry after creating missing tables, or 0 with memory untouched exactly when the page lies in a 2 MB mapping; no translation changes |
| `PageTables.Mmu.WriteLeaf` | hal/amd64/mmu.c:133-156 | writing through that address changes the translation of that page alone |
| `PageTables.Mmu.MapPage` | hal/amd64/mmu.c:133-147 | a successful map sends the page to the given frame with exactly the rights asked for, leaves frame and rights of every other page, and the entry in memory has these bits; a refused map (2 MB entry) changes nothing at all |
| `PageTables.Mmu.UnmapPage` | hal/amd64/mmu.c:149-156 | the page has no translation afterwards and no other page changes; a page in a 2 MB mapping is left alone |
| `PageTables.Mmu.VirtToPhys` | hal/amd64/mmu.c:162-184 | the hardware-style walk agrees with the plain map for all three page sizes: frame plus offset, or nothing |
| `PageTables.Mmu.AllocPage` | hal/amd64/mmu.c:208-220 | as a map with the rights asked for, to a frame that is no table and was never handed out before |
| `PageTables.Mmu.NoUserPages` | hal/amd64/mmu.c:79-142 | in every valid state, whatever a page was mapped with, user mode does not reach it |
| `PageTables.Mmu.MapThenUnmap` | hal/amd64/mmu.c:133-156 | map then unmap restores every translation exactly when the page was not mapped before or lies in a 2 MB mapping, which neither call touches |
| `PageTables.Mmu.MapRange` | hal/amd64/mmu.c:233-240 | maps pages one by one until the first refusal; success exactly when all are mapped; the 32-bit step is kept |
| `PageTables.RangeViewPages` | hal/amd64/mmu.c:233-240 | consecutive pages go to consecutive frames, with the rights asked for, for the first 2^20 pages only; every other page is as before |
| `PageTables.Mmu.Run` | hal/amd64/mmu.c:47-220 | in every run of map, unmap and allocate the calls act on a plain map from pages to frames and rights, the tables stay a tree of distinct pages below the bump pointer, and no frame handed out is ever a table or handed out twice |
| `RegistryPaths.JoinCuts` | registry/registry.c:186-248 | the text of a path leads along its segments |
| `RegistryPaths.SegmentsMore` | registry/registry.c:497-512 | a name written behind a text, however the text is spelled, adds exactly one segment |
| `RegistryPaths.CutShort` | registry/registry.c:34-37 | a path is kept whole exactly when every name is shorter than NAME_LEN |
| `RegistryPaths.SegmentsOfJoin` | registry/registry.c:186-248 | cutting the text built from segments gives the segments back |
| `RegistryPaths.CutIsGood` | registry/registry.c:186-217 | every prefix of what a text is cut into, its names cut, is a path within the limits, and the text built for it can be stored in that key |
| `RegistryShape.PrefixClosed` | registry/registry.c:57-63 | the keys of a sound pointer tree form a prefix-closed set of paths |
| `RegistryShape.WithPathKeys` | registry/registry.c:186-217 | creating a path adds exactly its missing prefixes, each holding nil with the given rights |
| `RegistryShape.AddKeepsRegistry` | registry/registry.c:57-63 | linking a new key in front of its siblings keeps the pointer tree sound and adds exactly one entry to the map |
| `RegistryShape.CutKeepsRegistry` | registry/registry.c:313-324 | unlinking a key and freeing any keys below it keeps the pointer tree sound, removes exactly the subtree from the map and leaks exactly what was not freed |
| `RegistryShape.LeakedBy` | registry/registry.c:96-141 | dropping keys from the tree and freeing some of them leaves exactly the others allocated |
| `RegistryShape.PopCovers` | registry/registry.c:96-141 | replacing the top of the explicit stack by its children uncovers exactly one key |
| `RegistryShape.FreeRoundEnd` | registry/registry.c:96-141 | one round of the free removes one key, counts it down and leaves the rest reachable from the stack |
| `RegistryShape.ReachedAllIff` | registry/registry.c:96-141 | the explicit stack frees the whole subtree exactly when the number of siblings in front of a key and of the keys between it and the top stays below 1024 for every key |
| `RegistryShape.RankBelowSize` | registry/registry.c:96-141 | that number is below the size of the subtree |
| `RegistryShape.SmallSuffices` | registry/registry.c:96-141 | a subtree of at most 1024 keys is always freed whole |
| `RegistryShape.WideKeyLeaks` | registry/registry.c:111-116 | a key with more than 1024 children leaves some of them allocated |
| `RegistryShape.WideTreeLeaks` | registry/registry.c:111-116 | a concrete tree of ASCII names that is not freed whole |
| `RegistryShape.WriteEntry` | registry/registry.c:292-305 | writing a value changes one entry of the map and no pointer |
| `RegistryTree.Registry.constructor` | registry/registry.c:596-598 | the fresh registry is the map with the root alone, counted right and without leaks |
| `RegistryTree.Registry.FindChild` | registry/registry.c:49-55 | the child of that name, or null exactly when there is none |
| `RegistryTree.Registry.Lookup` | registry/registry.c:219-248 | the key at the path cut into segments, or null exactly when the path is empty, relative or names no key |
| `RegistryTree.Registry.Get` | registry/registry.c:307-311 | the value the map holds at the path, or the not-found error |
| `RegistryShape.MkStep` | registry/registry.c:198-215 | each key that path creation makes has a path within the limits, and is new if its name was cut |
| `RegistryShape.LongIsOld` | registry/registry.c:49-55 | once the keys of its cut names are there, a path with a long name is not new any more |
| `RegistryTree.Registry.AddChild` | registry/registry.c:34-63 | one new key in front of its siblings, its name cut to the limit; the map gains one nil entry |
| `RegistryTree.Registry.Descend` | registry/registry.c:198-215 | one segment of path creation: an existing child is entered, a missing one made, under its cut name |
| `RegistryTree.Registry.MkPath` | registry/registry.c:186-217 | the map gains exactly the missing prefixes of the path, its names cut; no key moves |
| `RegistryTree.Registry.WriteKey` | registry/registry.c:292-305 | replaces value and rights of one key and nothing else |
| `RegistryTree.Registry.Set` | registry/registry.c:292-305 | the map is updated at the path with its names cut, missing prefixes made; a relative path changes nothing |
| `RegistryTree.Registry.SetThenGet` | registry/registry.c:292-311 | a value that has been set is read back if and only if every name of the path is shorter than NAME_LEN; the key of a cut name exists all the same, so that a second set would not find it new |
| `RegistryTree.LongName` | registry/registry.c:34-37 | a path that a fresh registry accepts and does not find again |
| `RegistryTree.Registry.Unlink` | registry/registry.c:313-322 | exactly the pointer that led to the key is redirected to its next sibling |
| `RegistryTree.Registry.PushChildren` | registry/registry.c:104-116 | the children of the popped key are pushed in order as long as the stack has room, and the others dropped |
| `RegistryTree.Registry.FreeRecursive` | registry/registry.c:96-141 | for a subtree of any size: exactly the keys the stack has a place for are freed and counted down, without touching freed memory |
| `RegistryTree.Registry.Remove` | registry/registry.c:313-324 | the map loses exactly the subtree; exactly the keys without a place on the stack leak; a right count stays right |
| `RegistryTree.Registry.Delete` | registry/registry.c:313-324 | for a subtree of any size the map loses exactly it, and what leaks is said exactly; a missing path changes nothing |
| `RegistryTree.Registry.DeleteLeaksNothingIff` | registry/registry.c:313-324 | a delete leaks nothing exactly when the stack has a place for every key of the subtree, as it has for at most 1024 keys |
| `RegistryTree.Registry.StoredPathFinds` | registry/registry.c:34-63 | the path stored in a key leads to that key if and only if it holds no name that was cut, and else to no key |
| `RegistryTree.Registry.ViewPrefixClosed` | registry/registry.c:186-324 | in every valid state the map is prefix-closed |
| `RegistryEdits.TailKeepsRegistry` | registry/registry.c:65-77 | linking a new key behind its siblings keeps the pointer tree sound and adds exactly one entry |
| `RegistryEdits.ClearKeepsRegistry` | registry/registry.c:525-533 | dropping all children of a key keeps the pointer tree sound and removes exactly what was below it |
| `RegistryEdits.GoneReadable` | registry/registry.c:525-533 | while the children are freed one by one, the next one can still be read |
| `RegistryMaps.MountFresh` | registry/registry.c:495-515 | copying a child and then mounting its own children on the copy copies the whole branch |
| `RegistryMaps.MountExisting` | registry/registry.c:487-494 | a child the target already has keeps its branch and takes over value and rights only when mounting before |
| `RegistryMaps.MountViewAt` | registry/registry.c:478-518 | the mounted map, path by path |
| `RegistryMaps.MountPoints` | registry/registry.c:478-518 | in terms of paths alone: a child the target lacks is copied with everything below it; of a child that both have the target takes over value and rights when mounting before and nothing otherwise; nothing else changes |
| `RegistryMaps.BindPoints` | registry/registry.c:549-574 | in terms of paths alone: every path of the target is that of the source, and outside it only ancestors of the target are new |
| `RegistryMaps.UnmountPoints` | registry/registry.c:520-547 | in terms of paths alone: the children that the source has too go with everything below them, nothing else |
| `RegistryMaps.BindViewAt` | registry/registry.c:549-574 | the bound map, path by path: below the target the source, elsewhere as before except created ancestors |
| `RegistryMaps.BindIsCopy` | registry/registry.c:549-574 | clearing the target, taking over the entry of the source and mounting before gives the exact copy |
| `RegistryMaps.MountUnmountRestores` | registry/registry.c:478-547 | mount then unmount restores exactly when source and target have no child name in common |
| `RegistryMaps.ViewsRestore` | registry/registry.c:478-547 | the same for the two maps composed |
| `RegistryMaps.SharedChildLost` | registry/registry.c:478-547 | a concrete registry in which a shared child is lost |
| `RegistryMount.LastChild` | registry/registry.c:65-77 | the walk along the list ends at its last key |
| `RegistryMount.AddChildTail` | registry/registry.c:65-77 | one new key behind its siblings, or the first; the map gains one nil entry |
| `RegistryMount.Mirror` | registry/registry.c:496-509 | the map gains one entry with the value and the rights of the source key |
| `RegistryMount.ArrangedNew` | registry/registry.c:501-508 | new children come behind those there are, in order, or, when mounting before, in front of them, in reverse |
| `RegistryMount.ReadyText` | registry/registry.c:497-512 | the texts composed for a copy and for the recursive call lead to the new key and to the source child, and leave room for what is below |
| `RegistryMount.TextsFit` | registry/registry.c:497-512 | texts that leave room for what is below the source give copies within the limits |
| `RegistryMount.MountChild` | registry/registry.c:486-516 | one round of the loop mounts exactly one more child; nothing outside the target moves |
| `RegistryMount.MountChildren` | registry/registry.c:486-516 | after the loop every child is mounted |
| `RegistryMount.Mount` | registry/registry.c:478-518 | for texts in any spelling the program leaves exactly the mounted map; a missing source or a text that leads nowhere changes nothing, a missing target is made first; nothing leaks and a right count stays right; the children of an existing target end in the order said |
| `RegistryBind.ClearChildren` | registry/registry.c:525-533 | every key below is removed from the map and nothing else; what leaks is said exactly |
| `RegistryBind.ClearLeaksNothing` | registry/registry.c:525-533 | clearing leaks nothing when every child can be freed whole |
| `RegistryBind.Bind` | registry/registry.c:549-574 | with flag 0 the target becomes an exact copy of the source subtree, values and rights included, and no path outside the target changes except created ancestors; other flags mount |
| `RegistryBind.Drop` | registry/registry.c:79-141 | detaching and freeing a child removes exactly its subtree from the map and counts the child down twice, with the wrap-around at zero |
| `RegistryBind.Unmount` | registry/registry.c:520-547 | the target loses exactly the children whose names the source has; a right count stays right exactly when there are none; what leaks is said exactly |
| `RegistryBind.UnmountLeaksNothing` | registry/registry.c:520-547 | unmounting leaks nothing when every removed child can be freed whole |
| `RegistryBind.UnmountAll` | registry/registry.c:520-533 | without a source everything below the target goes and a right count stays right |
| `RegistryBind.MountThenUnmount` | registry/registry.c:478-547 | the two calls in a row restore every path of an existing target exactly when source and target had no child name in common |
| `RegistryRuns.Perform` | registry/registry.c:186-574 | one call acts on the plain map and returns what it returns there |
| `RegistryRuns.Run` | registry/registry.c:186-574 | every run of set, get, delete, mount, bind and unmount gives the results and maps of the same run on a plain map; the count stays right unless something is unmounted with a source, and nothing leaks unless more than the stack holds is freed at once |
| `RegistryRuns.CountIsSize` | registry/registry.c:57-141 | when nothing has leaked, a right count is the size of the map |
| `Bytes.LeRoundTrip` | registry/reg_ipc.c:83-97 | reading little-endian bytes gives the number modulo the width |
| `Bytes.LeWrite` | registry/reg_ipc.c:83-93 | the loop writes the little-endian digits |
| `Bytes.LeRead` | registry/reg_ipc.c:86-97 | the loop, from the last byte to the first, reads the little-endian value |
| `Wire.DecodeEncode` | registry/reg_ipc.c:104-265 | for every nested value and any bytes behind it, decoding returns the value as the wire carries it and leaves exactly those bytes |
| `Wire.DecodeManyEncode` | registry/reg_ipc.c:150-260 | the same for the elements of an array |
| `Wire.NormalIffClean` | registry/reg_ipc.c:104-265 | a value survives the wire unchanged exactly when it holds no error code, no built-in function and no empty reference target |
| `Wire.CleanRoundTrip` | registry/reg_ipc.c:104-265 | the round trip is exact if and only if the value is clean |
| `Wire.UncleanExamples` | registry/reg_ipc.c:225-239 | an error, a built-in function and an empty reference, each changed by the wire |
| `Wire.WireBytes` | registry/reg_ipc.c:104-170 | five values byte by byte |
| `Wire.NegativeBytes` | registry/reg_ipc.c:83-93 | a negative integer byte by byte |
| `Wire.TypeByte` | registry/reg_ipc.c:104-112 | the first byte says what kind of value it is |
| `Wire.EncodePrefixFree` | registry/reg_ipc.c:104-170 | no encoding is a proper prefix of another: streams split in one way only |
| `Wire.Serialize` | registry/reg_ipc.c:104-170 | the program appends exactly the encoding to the pipe |
| `Wire.SerializeAll` | registry/reg_ipc.c:104-170 | the elements follow in order |
| `Wire.SerializeHeader` | registry/reg_ipc.c:104-150 | type, integer, float and string fields in front of the elements |
| `Wire.Deserialize` | registry/reg_ipc.c:172-265 | the program consumes and returns what Decode says, short reads included |
| `Wire.DeserializeMany` | registry/reg_ipc.c:172-265 | the elements are read in order |
| `Wire.DeserializeHeader` | registry/reg_ipc.c:172-230 | the fields in front of the elements are read in order, or the read stops short |
| `MessageQueue.Queue.constructor` | registry/reg_ipc.c:312-335 | an empty list; a maximum of zero or less stands for the default |
| `MessageQueue.Queue.Send` | registry/reg_ipc.c:337-377 | accepted exactly when the list has room or the pipe is in use; the message then waits last |
| `MessageQueue.Queue.Recv` | registry/reg_ipc.c:379-421 | the oldest waiting message, or none exactly when nothing waits |
| `MessageQueue.Queue.PendingCount` | registry/reg_ipc.c:423-443 | the exact count for the list, and one or zero for the pipe, as a message waits or not |
| `MessageQueue.Queue.Enable` | registry/reg_ipc.c:272-296 | everything waiting moves into the new pipe in order; a queue that cannot get a pipe is left as it is |
| `MessageQueue.Queue.Perform` | registry/reg_ipc.c:272-443 | one call returns what it returns on the plain queue and leaves the plain queue's messages |
| `MessageQueue.Queue.Run` | registry/reg_ipc.c:272-443 | every run returns, call by call, what the plain queue returns: a send is accepted exactly when the pipe is on or there is room, a receive delivers exactly when something waits; what waited at the start followed by the accepted messages is the delivered ones followed by what waits; as long as it is a list it never holds more than its maximum |
| `MessageQueue.PlainRunIsFifo` | registry/reg_ipc.c:272-443 | every run of the plain queue is one FIFO, across the switch to the pipe |
| `MessageQueue.PlainRunBounded` | registry/reg_ipc.c:337-377 | while it is a list the queue stays within its maximum |
| `MessageQueue.SendKeepsFifo` | registry/reg_ipc.c:337-377 | accepting a message extends the FIFO at its end |
| `MessageQueue.RecvKeepsFifo` | registry/reg_ipc.c:379-421 | delivering moves the front of the FIFO |
| `MessageQueue.EnableKeepsFifo` | registry/reg_ipc.c:272-296 | the switch keeps the FIFO |
| `MessageQueue.NormalIdempotent` | registry/reg_ipc.c:104-265 | a value that went over the wire once survives it unchanged |
| `BlockCache.ReplaceLogical` | kernel/blk.c:57-86 | replacing a clean or free slot changes the logical disk only at the new block |
| `BlockCache.FlushLogical` | kernel/blk.c:57-64 | writing a dirty block back does not change the logical disk |
| `BlockCache.BlkCache.constructor` | kernel/blk.c:92-98 | an empty cache shows the devices as they are |
| `BlockCache.BlkCache.CacheFind` | kernel/blk.c:66-73 | the slot that holds the block, or none |
| `BlockCache.BlkCache.CacheEvict` | kernel/blk.c:75-86 | the victim is a free slot, or else the clean block with the lowest stamp, or else the dirty one |
| `BlockCache.StampIsLastUse` | kernel/blk.c:100-143 | the stamp of a cached block is the number of its last access |
| `BlockCache.VictimLeastRecentlyUsed` | kernel/blk.c:75-86 | when no slot is free, every other block as clean or dirty as the victim has been accessed since, and a dirty block goes only when no block is clean |
| `BlockCache.BlkCache.FindDev` | kernel/blk.c:47-53 | found exactly when registered |
| `BlockCache.BlkCache.RegisterDev` | kernel/blk.c:39-45 | the device is registered, up to the limit, and no data changes |
| `BlockCache.BlkCache.FlushBuf` | kernel/blk.c:57-64 | the block reaches its device; the logical disk does not change |
| `BlockCache.BlkCache.Insert` | kernel/blk.c:100-143 | a missed block enters the cache in the victim slot, after that slot has been written back; every other slot is as it was |
| `BlockCache.BlkCache.Read` | kernel/blk.c:100-122 | returns what the logical disk holds, or fails for an unregistered device; the logical disk does not change; a missed block displaces the victim and only it |
| `BlockCache.BlkCache.Write` | kernel/blk.c:124-143 | changes the logical disk at that block only; a missed block displaces the victim and only it |
| `BlockCache.BlkCache.Sync` | kernel/blk.c:145-160 | afterwards no slot is dirty and the devices equal the logical disk |
| `BlockCache.BlkCache.Run` | kernel/blk.c:57-160 | every run of reads, writes and syncs, with whatever evictions they cause, returns what an uncached disk would, no block is ever cached twice, and the stamps follow the accesses of the run |
| `Journal.HeaderFields` | kernel/journal.c:24-38 | reading a header block gives back the magic number, the transaction number modulo 2^64, the address and the commit flag written into it |
| `Journal.LbaWraps` | kernel/journal.c:57-62 | position pos lies at place pos modulo n, header and data block side by side |
| `Journal.WriteCell` | kernel/journal.c:64-76 | writing a record or a commit changes exactly one cell of the area and no block outside it |
| `Journal.WriteOutside` | kernel/journal.c:64-76 | a write outside the area changes no cell |
| `Journal.RestoreKeeps` | kernel/journal.c:126-143 | restoring changes no block without a record |
| `Journal.RestoreLast` | kernel/journal.c:126-143 | a block with several records ends as its last record says |
| `Journal.RestoreNothingIff` | kernel/journal.c:126-143 | restoring changes nothing if and only if every block holds what its last record says |
| `Journal.RestoreAgain` | kernel/journal.c:126-143 | a restore cut short after any number of records and started over gives what a whole one gives |
| `Journal.RecordsNext` | kernel/journal.c:130-140 | one round of replay takes in the next record, skips a commit, or ends at the first blank place |
| `Journal.UndoLog.constructor` | kernel/journal.c:82-94 | whatever the area holds, the journal starts at its first place with no transaction open |
| `Journal.UndoLog.Begin` | kernel/journal.c:96-102 | fails exactly when a transaction is open, and else counts the transactions on |
| `Journal.CommitFacts` | kernel/journal.c:114-124 | a commit ends the transaction, marks the next cell with its number, and the sixty-fourth starts over |
| `Journal.UndoLog.WriteRecord` | kernel/journal.c:64-76 | through the cache, exactly the cell at the position modulo n changes |
| `Journal.UndoLog.Log` | kernel/journal.c:104-112 | the block as it is now goes into the next cell, wrapped around or not; no block outside the area changes |
| `Journal.UndoLog.Commit` | kernel/journal.c:114-124 | a mark goes into the next cell; every 64th commit starts over at the first place |
| `Journal.UndoLog.Checkpoint` | kernel/journal.c:145-150 | starts over at the first place and leaves every cell and every block |
| `Journal.UndoLog.ReplayPlace` | kernel/journal.c:131-139 | one place: its block is put back, a commit is skipped, a blank place ends the replay |
| `Journal.UndoLog.Replay` | kernel/journal.c:126-143 | the records up to the first blank place are put back in the order of their places, and the area stays as it is |
| `Journal.UndoLog.Perform` | kernel/journal.c:96-150 | one call acts on the plain state and succeeds when it does there |
| `Journal.UndoLog.Run` | kernel/journal.c:82-150 | every run of begin, log, write, commit, checkpoint and replay acts on the plain state, however often the area wraps |
| `Journal.TransactionArea` | kernel/journal.c:104-112 | within a transaction the area is the old one with the records written into it one after the other |
| `Journal.SurvivorUnique` | kernel/journal.c:57-62 | of the last n records no two share a place |
| `Journal.RingCells` | kernel/journal.c:57-76 | after any number of records each place holds the last one written there |
| `Journal.RollbackIsRing` | kernel/journal.c:104-143 | for a transaction of any length replay restores exactly the last n records, in the order of their places |
| `Journal.RollbackRestores` | kernel/journal.c:104-143 | a block ends as the surviving record that names it at the highest place says |
| `Journal.RollbackKeeps` | kernel/journal.c:104-143 | a block that no surviving record names is left as it is, logged or not |
| `Journal.RollbackInFirstRound` | kernel/journal.c:96-143 | as long as the area does not wrap, replay puts every logged block back to its content when last logged, whatever was written; unlogged blocks keep what was last written |
| `Journal.CommittedIsUndone` | kernel/journal.c:114-143 | replay after a commit restores the same blocks as replay before it, except that in a full area the commit overwrites the oldest surviving record |
| `Journal.WrapReorders` | kernel/journal.c:57-143 | two places and a block logged three times: the second copy is put back |
| `Journal.WrapForgets` | kernel/journal.c:57-143 | one place and two blocks logged: the first is not put back |
| `Scheduler.ChangeLevel` | kernel/sched.c:57-107 | relinking one level keeps every other level, the counts and the total |
| `Scheduler.QueuedAtLevel` | kernel/sched.c:27-29 | a queued process sits at the level of its priority and nowhere else |
| `Scheduler.AppendList` | kernel/sched.c:57-67 | linking behind the tail appends to the list |
| `Scheduler.UnlinkList` | kernel/sched.c:69-87 | unlinking removes exactly that process from the list |
| `Scheduler.Rotate` | kernel/sched.c:89-107 | a rotated queue holds the same processes, each as often |
| `Scheduler.Sched.constructor` | kernel/sched.c:44-55 | empty queues are valid |
| `Scheduler.Sched.Add` | kernel/sched.c:57-67 | an unqueued process is appended to the level of its priority and becomes ready; lists, tails, counts and total stay right |
| `Scheduler.Sched.Remove` | kernel/sched.c:69-87 | the process leaves its level, the others keep their order |
| `Scheduler.Sched.Unlink` | kernel/sched.c:74-84 | the relinking of one list, tail included |
| `Scheduler.Sched.PickNext` | kernel/sched.c:89-107 | the head of the first level whose head is ready, and that list rotates by one; null exactly when no level has a ready head |
| `Scheduler.Sched.RotateLevel` | kernel/sched.c:93-103 | head to tail in place, a one-element list included |
| `Scheduler.Sched.Tick` | kernel/sched.c:109-125 | a switch to the picked process: it alone becomes running, the previous one becomes ready; nothing happens when there is no pick or no change |
| `Scheduler.RotationStep` | kernel/sched.c:89-125 | with at least two processes and none blocked at the best level, a tick dispatches its head and the level stays in rotation |
| `Scheduler.Sched.TickMany` | kernel/sched.c:109-125 | n ticks: every state on the way is one tick after the one before it, and the reported processes are those current after each |
| `Scheduler.RotationTrace` | kernel/sched.c:89-125 | along any trace of ticks in which nothing blocks, the process current after tick k + 1 is number k of the best level, counted modulo its length, and no other level moves |
| `Scheduler.EveryWindowDispatchesAll` | kernel/sched.c:89-125 | any n consecutive ticks of such a trace, wherever they begin, dispatch each of the n processes of the level exactly once |
| `Scheduler.Sched.Round` | kernel/sched.c:89-125 | n ticks from such a state dispatch the n processes of the best level in queue order and restore every queue |
| `SchedulerRuns.StepMembers` | kernel/sched.c:57-156 | one call changes the set of queued processes by exactly the process added or removed |
| `SchedulerRuns.TotalCounts` | kernel/sched.c:57-107 | the total is the number of queued processes |
| `SchedulerRuns.Perform` | kernel/sched.c:57-156 | one call acts on plain sequences of processes and on their states, and a pick reports the process it took |
| `SchedulerRuns.Run` | kernel/sched.c:57-156 | in every run of adding unqueued processes, removing, picking, ticking and unblocking the queues stay sound, each call does on queues, states and picks what it does on plain sequences, and exactly the processes added and not removed are queued, each once |
| `SchedulerOrder.LevelIsClass` | kernel/sched.c:27-29 | the queues hold classes of 32 priorities, the lowest numbers first |
| `SchedulerOrder.SameQueueIffSameClass` | kernel/sched.c:27-67 | two queued processes share a queue exactly when their priorities divided by 32 agree |
| `SchedulerOrder.StepInOrder` | kernel/sched.c:57-125 | one call keeps every queue in the order of waiting |
| `SchedulerOrder.WaitingOrder` | kernel/sched.c:57-125 | in every state of every run the queues are in the order of waiting: since the last add of a process, or the last pick or tick that chose it |
| `SchedulerOrder.FrontIsHead` | kernel/sched.c:89-107 | the process that has waited longest in its class is the head of its queue |
| `SchedulerOrder.EveryChoice` | kernel/sched.c:89-125 | in every run each pick and each tick chooses the process that has waited longest in the best class of priorities whose longest waiting process is ready, or none if there is none |
| `SchedulerOrder.ReadyChoice` | kernel/sched.c:89-125 | when every queued process is ready, the choice is the first by priority divided by 32 and then by waiting |
| `SchedulerOrder.ZeroBeforeLast` | kernel/include/nexs_proc.h:24 | priority 0 goes before priority 255 |
| `SchedulerOrder.RunInOrder` | kernel/sched.c:57-125 | the program: a run of the scheduler makes these choices |
| `Scheduler.Sched.FindInLevel` | kernel/sched.c:71-76 | the walk finds the process exactly when it is in the list, with the one before it |
| `Scheduler.Sched.UnblockWaiting` | kernel/sched.c:144-156 | exactly the queued processes blocked on that path become ready and wait for nothing |
| `Scheduler.Sched.WakeLevel` | kernel/sched.c:146-155 | the same for one level |
| `ExprParser.ParsesExactlyTheGrammar` | lang/parser.c:211-448 | a token list in which every reg has its path is parsed to its end without error exactly when it is read off a well-shaped tree, calls included, and the result is that tree without brackets |
| `ExprParser.DanglingReg` | lang/parser.c:252-255 | 1 + reg is accepted as 1, without error and without being in the grammar |
| `ExprParser.GrammarUnambiguous` | lang/parser.c:358-448 | two well-shaped trees with the same tokens are the same expression |
| `ExprParser.ClimbReads` | lang/parser.c:421-446 | climbing over the tokens of a tree leaves the parser as if it had just read that tree |
| `ExprParser.PrimaryReads` | lang/parser.c:143-283 | an atom, an index, a call, brackets or a negation is consumed whole |
| `ExprParser.BinopSound` | lang/parser.c:421-446 | whatever is parsed without error is a well-shaped tree of at least the required precedence, and no operator of that precedence follows |
| `ExprParser.ClimbSound` | lang/parser.c:425-446 | the loop keeps left operands at least as tight as their operator and right operands strictly tighter |
| `ExprParser.PrimarySound` | lang/parser.c:143-283 | the same for a primary |
| `ExprParser.NothingIsAnError` | lang/parser.c:143-283 | if every reg has its path, no tree means that an error has been recorded |
| `ExprParser.ErrorStays` | lang/parser.c:143-446 | a recorded error stays recorded |
| `ExprParser.ArgsRead` | lang/parser.c:226-246 | the arguments of a call are read one by one, with or without commas, and the first sixteen are kept |
| `ExprParser.ArgsSound` | lang/parser.c:226-246 | whatever is read as arguments without error is a well-shaped list of them |
| `ExprParser.PrintParse` | lang/parser.c:270-448 | parsing the minimally bracketed print of an expression gives the expression back |
| `ExprParser.BracketShaped` | lang/parser.c:358-448 | the print is well shaped and stands for the expression |
| `ExprParser.PrintMinimal` | lang/parser.c:358-448 | no other spelling of the same expression has fewer brackets |
| `ExprParser.Parser.Expect` | lang/parser.c:122-134 | consumes the expected token or records an error and stays |
| `ExprParser.Parser.ParsePrimary` | lang/parser.c:143-283 | the program does on its token stream what Primary does on lists |
| `ExprParser.Parser.ParseAfterName` | lang/parser.c:211-250 | index, call or plain name behind an identifier |
| `ExprParser.Parser.ParseArgs` | lang/parser.c:231-240 | the loop over the arguments does what Args does on lists |
| `ExprParser.Parser.ParseBinop` | lang/parser.c:421-446 | the loop and its recursion do what Binop and Climb do on lists |
| `ExprParser.Parser.ParseExpr` | lang/parser.c:448 | parsing starts at the lowest precedence |
| `ExprGrammar.ParsesTheGrammar` | lang/parser.c:211-448 | a token list in which every reg has its path is parsed to its end without error exactly when it is an or-expr of a grammar in six layers that lists the operators of each layer, and then the result is the expression that the tree stands for; no table of precedences is named |
| `ExprGrammar.GrammarIsShaped` | lang/parser.c:358-382 | the six layers are the well-shaped trees |
| `ExprGrammar.OperatorClasses` | lang/parser.c:358-419 | each operator token, the words or and and and the path "/" included, is in its class |
| `ExprGrammar.DenotesIsStrip` | lang/parser.c:384-446 | what a tree stands for: operands in order, and the first sixteen arguments of a call |
| `ExprGrammar.Grouping` | lang/parser.c:358-446 | for any three operands and any two operator tokens, listed by operator: the right one takes its operands first exactly when the left one binds less tightly, and operators that bind alike group from the left |
| `ExprGrammar.GroupingExamples` | lang/parser.c:358-446 | 1 + 2 * 3, 1 - 2 - 3, 1 or 2 / 3 with the path "/", 1 < 2 and 3 |
| `ExprGrammar.Forms` | lang/parser.c:211-283 | brackets, negation, index, call and the two words for paths |
| `DepScan.DirnameIsParent` | compiler/dep_scan.c:29-40 | the directory of a path that fits is what stands before its last slash, or the working directory |
| `DepScan.ResolveFinds` | compiler/dep_scan.c:143-165 | a dependency can be opened exactly when the literal can be, or its place beside the calling file; an absolute or openable literal stands for itself |
| `DepScan.ResolveBeside` | compiler/dep_scan.c:28-56 | from a caller d/base the literal stands for itself if it can be opened, else for d/literal if that can be opened, else for itself |
| `DepScan.ResolveAtTop` | compiler/dep_scan.c:28-56 | from a caller without a directory, or in ".", the literal stands for itself; from a caller in the root the fallback has two slashes |
| `DepScan.BesideExample` | compiler/dep_scan.c:143-165 | lib/b.nx is found from lib/a.nx |
| `DepScan.ScriptCalls` | compiler/dep_scan.c:101-190 | in a script written piece by piece the scanner finds exactly the literals of the closed calls, in order: nothing from comments, unclosed literals or other literals |
| `DepScan.EveryTextIsAScript` | compiler/dep_scan.c:101-190 | every text is such a script |
| `DepScan.PieceCalls` | compiler/dep_scan.c:101-190 | one piece yields its literal or nothing and leaves the rest to be scanned |
| `DepScan.VisitExplores` | compiler/dep_scan.c:93-195 | what a scan adds is reachable from the file; while a slot is free nothing reachable in one step is missing from the list |
| `DepScan.DepsAreReachable` | compiler/dep_scan.c:93-195 | no path twice, every listed path reachable, and every reachable path listed when a slot is left, on any graph |
| `DepScan.ReachableAreTargets` | compiler/dep_scan.c:93-195 | the reachable paths are finitely many |
| `DepScan.DepsCount` | compiler/dep_scan.c:93-195 | the list is as long as there are reachable paths, up to the slots; it is complete exactly when they fit |
| `DepScan.OneSlotTooFew` | compiler/dep_scan.c:93-195 | a start file with two dependencies and one slot |
| `DepScan.AlreadySeen` | compiler/dep_scan.c:58-63 | true exactly when the path is in the list |
| `DepScan.SkipBlanksAt` | compiler/dep_scan.c:115-121 | the pointer stops at the first character that is neither space nor tab |
| `DepScan.SkipLineAt` | compiler/dep_scan.c:103-106 | the pointer stops at the end of the line |
| `DepScan.QuotedAt` | compiler/dep_scan.c:124-128 | the pointer stops at the closing quote or the end of the line |
| `DepScan.ArgumentAt` | compiler/dep_scan.c:118-134 | a closed literal within the length limit, or nothing, and where the scan goes on |
| `DepScan.CallAt` | compiler/dep_scan.c:113-117 | a call is exec, blanks and an opening parenthesis |
| `DepScan.AddDep` | compiler/dep_scan.c:166-184 | a new path is recorded and followed if a slot is free |
| `DepScan.ScanSource` | compiler/dep_scan.c:93-195 | the character loop and its recursion end on every file graph and leave the depth-first list |
| `DepScan.ScanDeps` | compiler/dep_scan.c:211-231 | the list for the start file, each entry with the text of its file if it can be read |
| `Utf8.CodepointRoundTrip` | include/utf8.h:1211-1307 | decoding undoes encoding exactly for the values from 0 to 0x1FFFFF |
| `Utf8.UnitValue` | include/utf8.h:1054-1133 | a complete sequence never needs more bytes than it has, and it is the shortest encoding exactly when the overlong test passes |
| `Utf8.AcceptedIffWellFormed` | include/utf8.h:1047-1144 | the validator accepts exactly the concatenations of shortest encodings of 1 to 0x1FFFFF |
| `Utf8.PrefixAccepted` | include/utf8.h:1047-1144 | everything before the place where the validator stops is well formed |
| `Utf8.NValid` | include/utf8.h:1047-1144 | null exactly for well-formed strings; otherwise the place of the first sequence that is not acceptable, without reading past the NUL or the bound |
| `Utf8.FrontAt` | include/utf8.h:1054-1140 | one round of the validator, with its bound on the remaining bytes |
| `Utf8.RepairNotLonger` | include/utf8.h:1146-1209 | the repaired string is never longer |
| `Utf8.RepairCases` | include/utf8.h:1146-1209 | sequence by sequence: a shortest encoding is kept, an overlong one shortened, and one replacement stands for each byte that is no lead or a lead without its following bytes |
| `Utf8.KnownEncodings` | include/utf8.h:1211-1235 | code points of each length, byte by byte |
| `Utf8.RepairedIffAscii` | include/utf8.h:1146-1209 | the repaired string is well formed exactly when the replacement byte is ASCII or the string needed none |
| `Utf8.RepairKeeps` | include/utf8.h:1146-1209 | a well-formed string is left as it is |
| `Utf8.RepairUnchangedIffWellFormed` | include/utf8.h:1146-1209 | with an ASCII replacement the repair leaves a string alone exactly when it is well formed, and repairing twice is repairing once |
| `Utf8.NegativeReplacement` | include/utf8.h:1146-1154 | replacement -1 leaves a string that is not well formed |
| `Utf8.OverlongZeroTruncates` | include/utf8.h:1146-1209 | an overlong encoding of zero ends the repaired string where it stood |
| `Utf8.CodepointAt` | include/utf8.h:1211-1235 | value and length of the sequence at a position; a byte that is neither ASCII nor a lead is read as a negative char |
| `Utf8.CatCodepoint` | include/utf8.h:1265-1307 | writes the shortest encoding if there is room, and nothing otherwise |
| `Utf8.UnitAt` | include/utf8.h:1155-1204 | completeness of a sequence, without looking past the NUL |
| `Utf8.RepairRound` | include/utf8.h:1154-1204 | one round keeps the unread part untouched: the write position never passes the read position |
| `Utf8.MakeValid` | include/utf8.h:1146-1209 | in place: memory ends as the repaired string and a NUL, with every byte behind it as before; the result is well formed exactly when the replacement byte is ASCII or nothing was replaced; a replacement above 0x7F is refused and changes nothing |
| `HalBytecode.StrRoundTrip` | hal/bc/nexs_hal_bc.c:78-99 | a string operand up to 2^14 - 1 bytes, anywhere in a program, is read back cut to the buffer |
| `HalBytecode.IntRoundTrip` | hal/bc/nexs_hal_bc.c:102-112 | every 32-bit integer operand is read back |
| `HalBytecode.DecodeEncode` | hal/bc/nexs_hal_bc.c:201-343 | wherever an assembled instruction stands, the machine reads it as it was meant, with its string clipped |
| `HalBytecode.StepIsExec` | hal/bc/nexs_hal_bc.c:201-343 | one step on an assembled program is one call run directly, and lands at the next instruction |
| `HalBytecode.RunStatus` | hal/bc/nexs_hal_bc.c:349-352 | a run fails exactly when the opens and reads before the first halt overflow the stack; otherwise it has written the clipped data of every write before that halt, in order |
| `HalBytecode.Assembler.constructor` | hal/bc/nexs_hal_bc.c:390-394 | an empty program behind a reserved header |
| `HalBytecode.Assembler.Emit` | hal/bc/nexs_hal_bc.c:396-399 | one byte, or an error exactly when the buffer is full |
| `HalBytecode.Assembler.EmitStr` | hal/bc/nexs_hal_bc.c:358-373 | a counted string if it fits, an error otherwise |
| `HalBytecode.Assembler.EmitInt` | hal/bc/nexs_hal_bc.c:375-384 | a marked 32-bit integer if it fits, an error otherwise |
| `HalBytecode.Assembler.AsmOpen` | hal/bc/nexs_hal_bc.c:415-419 | appends the encoding of the call |
| `HalBytecode.Assembler.AsmClose` | hal/bc/nexs_hal_bc.c:421-424 | appends the encoding of the call |
| `HalBytecode.Assembler.AsmWrite` | hal/bc/nexs_hal_bc.c:426-430 | appends the encoding of the call |
| `HalBytecode.Assembler.AsmRead` | hal/bc/nexs_hal_bc.c:432-436 | appends the encoding of the call |
| `HalBytecode.Assembler.AsmCtl` | hal/bc/nexs_hal_bc.c:438-442 | appends the encoding of the call |
| `HalBytecode.Assembler.AsmHalt` | hal/bc/nexs_hal_bc.c:444-446 | appends the encoding of the call |
| `HalBytecode.Assembler.Finish` | hal/bc/nexs_hal_bc.c:448-463 | the header and the code, or 0 exactly when the program did not fit |
| `HalBytecode.Assemble` | hal/bc/nexs_hal_bc.c:390-463 | any sequence of calls finishes without error exactly when its encoding fits, and then the buffer holds it |
| `HalBytecode.Vm.Init` | hal/bc/nexs_hal_bc.c:147-158 | accepts exactly programs with the magic number and version, and starts behind the header with a cleared machine |
| `HalBytecode.Vm.PushVal` | hal/bc/nexs_hal_bc.c:118-134 | pushes, or records an error when the stack is full |
| `HalBytecode.Vm.PopVal` | hal/bc/nexs_hal_bc.c:136-141 | the top of the stack, or zero and an error |
| `HalBytecode.Vm.FindFree` | hal/bc/nexs_hal_bc.c:229-232 | the lowest free register |
| `HalBytecode.Vm.ReadChars` | hal/bc/nexs_hal_bc.c:175-186 | the loop takes characters up to the limit, a newline or no answer |
| `HalBytecode.Vm.DevRead` | hal/bc/nexs_hal_bc.c:175-187 | what was read is pushed |
| `HalBytecode.Vm.DevWrite` | hal/bc/nexs_hal_bc.c:166-173 | the data up to its NUL is written |
| `HalBytecode.Vm.Step` | hal/bc/nexs_hal_bc.c:201-343 | one instruction of any bytecode, jumps and faults included, as StepConf says |
| `HalBytecode.RunsAsInterpreted` | hal/bc/nexs_hal_bc.c:349-352 | assembled bytecode stops after one step for each call and one more, with the registers, stack, output, unread input and status of the direct run |
| `HalBytecode.ForwardStops` | hal/bc/nexs_hal_bc.c:201-352 | any bytecode without jumps back, well formed or not, stops within as many steps as it has bytes, and one |
| `HalBytecode.SelfJumpRuns` | hal/bc/nexs_hal_bc.c:309-316 | a jump to itself never stops |
| `HalBytecode.StackOverflows` | hal/bc/nexs_hal_bc.c:118-134 | sixty-five reads overflow the stack |
| `HalBytecode.Vm.ExecInstr` | hal/bc/nexs_hal_bc.c:207-336 | the effect of every instruction that is no jump |
| `HalBytecode.Vm.Run` | hal/bc/nexs_hal_bc.c:349-352 | for any bytecode that stops, the loop ends where its steps do, with that status |
| `BytecodeRuns.RunEnds` | hal/bc/nexs_hal_bc.c:349-352 | a run ends as its last call left the machine |
| `BytecodeRuns.RegisterInUse` | hal/bc/nexs_hal_bc.c:207-250 | over every run: a register is in use exactly when an open took it after its last close, or it was in use and has not been closed; then it holds the path of that open, cut to 63 bytes |
| `BytecodeRuns.RegisterFree` | hal/bc/nexs_hal_bc.c:243-250 | over every run: after a close that no open followed a register is empty, and one that no call touched is as it was |
| `BytecodeRuns.OpenThenClose` | hal/bc/nexs_hal_bc.c:207-250 | closing the register that an open took restores all registers |
| `BytecodeRuns.RunTidy` | hal/bc/nexs_hal_bc.c:207-250 | registers not in use are empty in every run that starts so |
| `BytecodeRuns.OpenPushes` | hal/bc/nexs_hal_bc.c:207-241 | an open pushes the lowest register free at that moment, or -1 when all sixteen are in use |
| `BytecodeRuns.LineTakes` | hal/bc/nexs_hal_bc.c:175-187 | a read takes characters up to the limit, the first newline, which it keeps, or the first answer below zero, which it uses up |
| `BytecodeRuns.LineUnique` | hal/bc/nexs_hal_bc.c:175-187 | that determines what it takes and what it leaves |
| `BytecodeRuns.ReadPushes` | hal/bc/nexs_hal_bc.c:175-187 | a read takes at most 127 characters and pushes what stands before the first NUL among them |
| `BytecodeRuns.StackHistory` | hal/bc/nexs_hal_bc.c:201-343 | over every run without error the stack grows by what the calls pushed, in order |
| `BytecodeRuns.RegisterReused` | hal/bc/nexs_hal_bc.c:243-250 | open, close and open again: both opens get register 0 |
| `BytecodeRuns.Jumps` | hal/bc/nexs_hal_bc.c:309-328 | JMP jumps by a signed 16-bit offset in 32-bit arithmetic; JZ pops and jumps exactly when it pops the integer zero, or nothing is there |
| `BytecodeRuns.Others` | hal/bc/nexs_hal_bc.c:201-343 | NOP and CALL move on, POP takes the top away or fails, the opcodes that are not implemented fail |
| `BytecodeRuns.PushSteps` | hal/bc/nexs_hal_bc.c:286-293 | PUSH pushes its operand |
| `BytecodeRuns.CallBytes` | hal/bc/nexs_hal_bc.c:356-450 | the calls byte by byte |
| `BytecodeRuns.ReadBytes` | hal/bc/nexs_hal_bc.c:356-450 | a read with its negative length byte by byte |
| `BytecodeRuns.ProgramBytes` | hal/bc/nexs_hal_bc.c:390-463 | a program byte by byte |
| `HalBytecode.AssembleAndRun` | hal/bc/nexs_hal_bc.c:147-463 | assembling and running any sequence of calls equals interpreting it, with its exact failure condition and output |

## Left out

Contracts that are deliberately narrower than the code:

- RegistryTree.Registry.MkPath: a key made under a cut name is new; where it exists already, the code makes a second key of the same name, which a map from paths to keys cannot hold.
- RegistryTree.Registry.Set: the same.
- RegistryTree.Registry.AddChild: the path fits and no sibling has the cut name.
- RegistryTree.Registry.Descend: the same as MkPath.
- RegistryTree.Registry.SetThenGet: the same as MkPath.
- RegistryTree.Registry.Delete: the root is not deleted; the code would free it and keep using it.
- RegistryTree.Registry.FreeRecursive: freeing the IPC queue of a key is not modelled.
- RegistryMount.AddChildTail: the path fits and no sibling has the cut name.
- RegistryMount.Mirror: the copy has a path within the length limit.
- RegistryMount.MountChild: the same as Mount.
- RegistryMount.MountChildren: the same as Mount.
- RegistryMount.Mount: source and target lie apart, the names of the target are short, and both texts leave room for what is below the source; a target inside the source makes the code copy into its own source.
- RegistryBind.Bind: the same as Mount.
- RegistryBind.Unmount: source and target lie apart; otherwise the code may free the list it is walking along.
- RegistryBind.MountThenUnmount: the same as Mount.
- RegistryRuns.Perform: the same limits.
- RegistryRuns.Run: these limits hold for every call of the run.
- BlockCache.BlkCache.Insert: the device is registered.
- BlockCache.BlkCache.Write: the device is registered; a dirty block of an unregistered device is lost when it is evicted.
- BlockCache.BlkCache.Run: writes go to registered devices.
- Journal.UndoLog.constructor: records that the area already holds name blocks outside it, on registered devices.
- Journal.UndoLog.Log: the block lies outside the area, on a registered device; positions do not wrap at 2^64.
- Journal.UndoLog.Commit: the area is not empty; with no places the code divides by zero.
- Journal.UndoLog.Run: the same limits.
- Scheduler.Sched.Add: the process is not queued; the code does not look.
- SchedulerRuns.Run: nothing is added that is queued, and blocking a process is not one of the calls.
- Scheduler.Sched.Round: no process of the best level is blocked; the tick makes the previous process ready even if it has just blocked.
- PageTables.Mmu.MapPage: memory reaches three pages beyond the bump pointer; the code does not look.
- PageTables.Mmu.AllocPage: memory reaches four pages beyond the bump pointer.
- PageTables.Mmu.MapRange: memory reaches three pages per mapped page beyond the bump pointer.
- PageTables.Mmu.Run: memory reaches four pages per call beyond the bump pointer.
- Wire.Serialize: lengths are below 2^32 and the pipe takes every byte.
- MessageQueue.Queue.Send: lengths are below 2^32 and the pipe never fills up or fails.
- HalBytecode.Vm.Run: states its result for bytecode that stops; a loop need not.
- HalBytecode.Vm.Step: no device function is registered, so CALL reads its operand and does nothing.
- HalBytecode.Assembler.EmitStr: the code's casts of the length to int are left out, so strings are taken to be shorter than 2^31 bytes.
- ExprParser.Parser.ParsePrimary: the words ls, msgpending and receivemessage are not among the tokens; their call forms loop without end after an error.
- Utf8.NValid: the bytes up to the bound, or a NUL before it, are in memory.

Parts of the repository outside the model:

- Page tables: the TLB, reading CR3 (the root is the kernel PML4), page faults, freeing pages (`mm_free_page`) and per-process tables.
- Registry keys and processes: they are records in a map from addresses that the class reassigns, not Dafny objects; pointers, aliasing and freeing are kept, the layout of a record in memory is not.
- Error values of the registry and the pipe: their texts are left empty.
- Registry: `reg_move`, scopes, name resolution, pointer dereferencing and listing.
- Registry IPC: finding the queue by its path, the walk over all keys that upgrades each queue, real processes and file descriptors; messages are immutable values.
- Block cache: the `/dev/blk` keys, device callbacks that fail; the access clock does not wrap.
- Journal: the `/sys/journal` keys, user writes into the area, and crashes that lose cached blocks.
- Scheduler: publishing state, the context switch and process creation.
- Parser: the words named above, statements, the lexer, and the cutting of names longer than NAME_LEN.
- Dependency scanner: files that change during a scan; texts end at their first NUL.
- UTF-8: case folding, searching and comparing.
- Bytecode: registered device functions (CALL does nothing), the effect of CTL on a device, and error messages.
- The evaluator, the built-ins, the compiler back end, the file systems, drivers and boot code: tied to floating point, input and output, or hardware, or mostly per-case.
