# The memory stack of CrackOS3, modelled and proved in Dafny

CrackOS3 is a small x86-64 kernel. This project models the parts of it that hold its memory together, and
the one data structure and the one device driver that depend on them most, and proves what they are for.
`dafny verify dfyconfig.toml` checks all of it.

| part of the kernel | modules |
|---|---|
| B-tree and map, `include/data/btree.h` | BTreeModel, BTreePath, Slots, BTreeInsert, BTreeSiblings, BTreeRemove, BTreeObject, BTreeRuns, BTreeAsWritten |
| page tables, `src/high/memory/paging.cpp` | PageTables, Paging, Addresses |
| page allocator of the kernel heap, `src/high/memory/heap.cpp` | PageHeap, PageHeapRuns |
| slab allocator, same file | SlabPages, FreeLists, SlabAllocator (with Bitmaps), SlabRuns |
| large allocator, same file | LargeRegions, LargeAllocator |
| the heap over all three, same file | Neighbours, KernelHeap, HeapRuns |
| physical frames, `src/high/memory/mem.cpp` | MemoryMap, Subregion, FrameAllocator (with Bitmaps, Rests) |
| the start, `src/low/init` and `src/high/init/start.cpp` | BootTables, Boot |
| SATA driver, `src/high/PCI/sata.cpp` | Prdt, DiskRead |

## How the model is built

*B-tree.* Nodes are heap objects whose slots are shifted in place. A node's two fixed-size buffers lie inside
it, so they are sequence fields of the node object. What a set of nodes means is a `Tree` value (which node
sits where, which slots are used); `Rep` says that the heap holds exactly that tree, `Shape` that all leaves
are at one depth and every node but the root has between M-1 and 2M-1 keys, `Distinct` that no node is shared,
`Sorted(Inorder(..))` that the keys are in order. The minimum degree `M` is a constant without a value, so that
every result holds for all M >= 2. Insert and remove are the one-pass loops of the source, with the position
reached given by a path in the tree.

*Page tables.* Physical memory is a map from frame numbers to the 512 entries that the frame holds when it is
read as a table. `Walk` is the processor's 4-level walk (section 4.5 of the Intel SDM, volume 3A), with the
rights that all entries on the way grant together (section 4.6) and the caching that the last one asks for
(section 4.9). A table or entry is named by its path of indices. `Tree` says that every table lies in memory,
outside of the free frames, and hangs in one place only.

*Page allocator.* What the tables hold is a partial map from paths to present entries, of which every step of
the allocator changes one. `Conserved` says that every usable frame is exactly one of: free, a table, a mapped
heap page, in use elsewhere. `Indexed` says that full bits tell the truth.

*Slab allocator.* Its pages are those pages of 106 to 116 TiB that are mapped, which it has from the page
allocator's traversal and gives back to it. Their contents are sequences of bytes with the bitmap and the class
byte where the source has them, and the nodes of the free lists: chains that are followed and relinked through
their next pointers. A write through null, for want of a page, is a result that says so.

*The whole heap.* The three allocators share one memory, one set of free frames and one root table. A block is
a page, a block of a slab page or a region; `KernelHeap.InUse` reads off the state which blocks are given out.
`Changes` says of two states that exactly the named blocks have come into use or gone out of it and that all
others lie where they lay, on the same frames. `Neighbours` shows what a step of one allocator leaves of the
invariants of the others; the frames of large regions move between the free ones and those in use elsewhere.

*Frame allocator.* The bitmap is an array of bytes, written bit by bit; results are stated on its bits and on
the list of usable pages. To the page tables and the heap it appears as a set of free frames from which any
may be taken: `Boot.TakeFrame` and `Boot.GiveFrame` show that requests for single frames are exactly that, and
`Boot.TakeTable` and `Boot.TakeWindow` run the page tables on the bitmap.

*The start.* `BootTables` has the five tables that the boot code leaves, as part of the kernel's image, and what
the processor finds through them. `Boot.BootHeap` starts there and with a memory map: the frame allocator's init,
PageTable::init and the heap's. That a set bit is a reservation of init or a table (`Accounts`) is proved of the
first and kept by the second, so that the heap begins with every usable frame free, a table, or reserved.

*Reading from disk.* The disk is a sequence of bytes. Whether the hardware performs a command is an input, one
outcome per command.

A panic of the source is a precondition that excludes it, or a result that says so (`Paging.PageTable.Map`
returns false, `LargeAllocator.Malloc` returns None, `KernelHeap.Malloc` answers Fault). Numbers are unbounded,
except where a width matters: bytes of bitmaps, the 22-bit count of a descriptor, the 9-bit indices of an
address, and the subtractions at `src/high/memory/mem.cpp:40` and, as written, `src/high/memory/heap.cpp:498`.

## Repaired lines, and the same lines as written

Where a line defeats what it is for, the model has the line as it was meant, marked REPAIR in a comment. For
most of these lines a lemma says for all inputs when the line as it stands does no harm.

| line | as written | what is proved of the line as written |
|---|---|---|
| include/data/btree.h:190-193 | the parent's keys are not shifted in a split | UnshiftedKeepsIff, UnshiftedAtEnd, UnshiftedNeverBefore, UnshiftedLoses; an ascending build never needs the shift: BuildAscending |
| include/data/btree.h:162 | looks at the key before the promoted one | HalfTakenIff, WrongHalfTaken; an ascending build is not hurt: BuildAscending |
| include/data/btree.h:294 | the argument is decremented twice | LowMergeNeverFills, LowMergeKeepsIff, and on the nodes MergeLow |
| include/data/btree.h:350-353 | the donor's last child is dropped | DonorUnfinishedIff, DonorAlwaysLosesChild |
| include/data/btree.h:383-384 | a child of the wrong index moves | WrongChildMoves |
| include/data/btree.h:404 | reads behind the end of the children, and overwrites the result at once | the read is omitted |
| include/data/btree.h:139-140 | a stop inside a child does not stop the parent | kept as written: IterIsVisit, StopIsFinalIff, StopOverlooked |
| src/high/memory/heap.cpp:150-164 | a new table is not cleared | UnclearedIff |
| src/high/memory/heap.cpp:221-222, 241-242 | the entry is cleared before its frame is read | ClearedFirstIff |
| src/high/memory/heap.cpp:501 | a size in bytes is multiplied with the page size | SafeAsWrittenIff, OverlapAsWritten |

Kept as they are, with the exact condition under which they do what they promise: `get` does not ask whether
the last entry is present (GetAgreesIffPresent); map and unmap take a large page for a table (StepsEndIff, and
on the tables of the boot code LargeTakenForTable);
`alloc` may return a run that wraps around or crosses a gap (InOnePieceIff, AcrossAGap) and does not end for some
requests (NeverEnds, LoopsForEver); regions that end within a page (AddressesReturnIff, AddressGoesAstray); an odd
offset of a disk read (OriginIff); a read in two sectors at the end of the disk (PlanInsideIff, NinthOfEight).

Two places where code and documentation disagree: the comment at `src/high/memory/heap.cpp:354` names 2048 as
the largest slab size, the code has 2047; the comment at line 486 has sizes in pages, the code stores bytes. The
code is followed. The callers of `read` expect an error for a read that fails, but the errors of
`PCI::Sata` are a plain enumeration, which `return res.error()` turns into a number of bytes read: the model
does the same, and says when the result tells (MistakenIff, MistakenSizes, CodeAsSize).

## Model

| member | source | states |
|---|---|---|
| BTreeObject.BTree.Insert | include/data/btree.h:106-123 | From any valid tree (sorted, one leaf depth, occupancy M-1..2M-1 below the root, no shared node, right count) and any element, the tree is valid again and its in-order contents are the old ones with exactly that element put in |
| BTreeObject.BTree.Remove | include/data/btree.h:98-104 | True exactly if the key was there; then one element with that key is gone and all others are as before, otherwise nothing has changed; the tree stays valid |
| BTreeObject.BTree.Find | include/data/btree.h:85-96 | Finds something exactly if the key is in the contents, and then an element of the contents with that key |
| BTreeObject.FindFrom | include/data/btree.h:85-96 | The walk from the root decides membership in the whole tree, by following one child per level |
| BTreeObject.BTree.Iterate | include/data/btree.h:80-83 | The callable sees the elements in order until it says stop, provided that it then changes nothing more |
| BTreeObject.IterImpl | include/data/btree.h:135-143 | The recursion over nodes is the walk over the abstract tree, with the stop that the parent overlooks |
| BTreeObject.IterIsVisit | include/data/btree.h:135-143 | For every callable that is frozen once it has said stop, the walk that overlooks stops gives what the documented one gives |
| BTreeObject.BTree.GrowRoot | include/data/btree.h:112-118 | A full root gets a root above it: one level more, same contents, root with one key |
| BTreeObject.BTree.InsertBelow | include/data/btree.h:106-123 | Insertion below an existing root, full or not, with new nodes only where it splits |
| BTreeInsert.SlotFor | include/data/btree.h:157-159 | The slot for a key, searched from the right: all keys from it on are larger, the one before is not |
| BTreeInsert.SplitNode | include/data/btree.h:171-185 | The left node keeps M-1 keys, the new one has the last M-1 and their children, the middle key comes out |
| BTreeInsert.TakeKey | include/data/btree.h:186-195 | The promoted key and the new child are put into the parent with all later ones shifted |
| BTreeInsert.SplitChild | include/data/btree.h:171-196 | In the heap, splitting a full child gives exactly the tree with that child in two halves and its middle key above |
| BTreeInsert.SplitInorder | include/data/btree.h:171-196 | A split does not change the in-order contents |
| BTreeInsert.SplitShape | include/data/btree.h:171-196 | A split keeps leaf depth and occupancy |
| BTreeInsert.SplitIfFull | include/data/btree.h:157-166 | One turn of the descent: afterwards the chosen child is not full and the key belongs below it |
| BTreeInsert.InsertInLeaf | include/data/btree.h:148-155 | The shifting loop puts the element into the leaf and into the whole tree's contents at its place |
| BTreeInsert.InsertNonFull | include/data/btree.h:145-169 | The whole descent: one element more, in order, everything else kept |
| BTreeSiblings.ShiftLeft | include/data/btree.h:324-354 | Left rotation: in the heap exactly the abstract rotation, children included |
| BTreeSiblings.ShiftRight | include/data/btree.h:355-386 | Right rotation, likewise |
| BTreeSiblings.ShiftKeyToSibling | include/data/btree.h:323-387 | Both rotations: same in-order contents, one key more in the receiving child and one less in the other |
| BTreeSiblings.ResplitInorder | include/data/btree.h:323-387 | Any redistribution of two siblings and the key between them keeps the contents |
| BTreeSiblings.MergeTwoSiblings | include/data/btree.h:389-409 | Two siblings and the key between them become one node; the parent has one key and one child less |
| BTreeSiblings.ClosedInorder | include/data/btree.h:389-409 | A merge does not change the in-order contents |
| BTreeRemove.FillChild | include/data/btree.h:291-305 | Whatever the siblings hold, the child to be entered has at least M keys afterwards, with contents, depth and occupancy kept |
| BTreeRemove.DescendOne | include/data/btree.h:285-318 | One turn of the removal loop: a child with M keys or more is entered, and the ancestor with the key is remembered exactly if there is one |
| BTreeRemove.RemovingStep | include/data/btree.h:306-318 | If the key has been passed at an ancestor it is the largest key before the subtree entered, so that the leaf's last key may replace it |
| BTreeRemove.PulledInorder | include/data/btree.h:273-281 | Putting the predecessor from the leaf in place of the ancestor's key removes exactly that key from the contents |
| BTreeRemove.TakeFromLeaf | include/data/btree.h:262-283 | At the leaf: the key is removed from the leaf, or replaced through the remembered ancestor, or is nowhere |
| BTreeRemove.CollapseRoot | include/data/btree.h:222-237 | A root with one key and two minimal children becomes one full node; one level less, same contents |
| BTreeRemove.EnterSmallRoot | include/data/btree.h:238-258 | A root with one key is left to the right side, after a rotation if its child is minimal |
| BTreeRemove.RemoveLoop | include/data/btree.h:261-320 | The loop from a node that can spare a key: true exactly if the key was in the tree, which then has one element with it less |
| BTreeRemove.RemoveImpl | include/data/btree.h:198-321 | The whole of remove, from the empty tree to a root that disappears |
| BTreeRuns.Run | include/data/btree.h:98-123 | After every run of inserts and removes the tree is valid and its keys are those of a multiset that was given the same operations |
| BTreeRuns.FindAfter | include/data/btree.h:85-123 | After every run, find answers for that multiset |
| BTreeRuns.SelfTest | include/data/btree.h:38-63 | The tree's own test succeeds for every number of elements |
| BTreeAsWritten.UnshiftedKeepsIff | include/data/btree.h:190-193 | Without the shift, the parent's keys come out in order and complete exactly if every slot behind the split equals the one before it |
| BTreeAsWritten.UnshiftedAtEnd | include/data/btree.h:190-193 | Always when it is the last child that is split |
| BTreeAsWritten.UnshiftedNeverBefore | include/data/btree.h:190-193 | Never where two different keys lie behind the split |
| BTreeAsWritten.UnshiftedLoses | include/data/btree.h:190-193 | A parent of two keys that loses one |
| BTreeAsWritten.HalfTakenIff | include/data/btree.h:160-164 | The line leads to the right half exactly if there is a key before the promoted one, and it equals the inserted one or the promoted key is not larger; for the first child there is none, and the read lies before the buffer |
| BTreeAsWritten.WrongHalfTaken | include/data/btree.h:160-164 | For every M, a B-tree and a key that goes below the promoted key and is sent above it |
| BTreeAsWritten.LowMergeNeverFills | include/data/btree.h:293-294 | The doubly decremented merge leaves the child that is entered with M-1 keys, so that a removal there leaves M-2 |
| BTreeAsWritten.LowMergeKeepsIff | include/data/btree.h:293-294 | It keeps the contents exactly if the child before the last but one is minimal; the keys behind that child's first M-1 are overwritten |
| BTreeAsWritten.MergeLow | include/data/btree.h:293-294 | Run on the nodes with that number, the loops of the merge leave a heap that holds exactly the tree of which this is said |
| BTreeAsWritten.LowMergeHolds | include/data/btree.h:389-410 | Slot by slot, the node merged into and its parent are those of that tree |
| BTreeAsWritten.DonorUnfinishedIff | include/data/btree.h:348-354 | Without the repair the donor's children come out right exactly if the last of them was null |
| BTreeAsWritten.DonorAlwaysLosesChild | include/data/btree.h:348-354 | For an inner node of a tree they never do: a child is lost |
| BTreeAsWritten.WrongChildMoves | include/data/btree.h:379-384 | The child that moves is another node than the one that should |
| BTreeAsWritten.StopIsFinalIff | include/data/btree.h:125-143 | For every B-tree and every callable, the calls of the walk: a stop is the last call exactly if its element lies in a node that is reached through last children only |
| BTreeAsWritten.CallsAreTheWalk | include/data/btree.h:125-143 | The calls counted are the walk's: they lead to its state |
| BTreeAsWritten.StopOverlooked | include/data/btree.h:135-143 | A B-tree with three keys and a callable that is called again after it has said stop |
| BTreeAsWritten.BuildAscending | include/data/btree.h:85-196 | With all lines as written, every strictly ascending sequence of keys builds a valid B-tree with exactly these elements in order |
| PageTables.WalkIsEntries | src/high/memory/paging.cpp:123-149 | The processor's walk finds the frame that the entries on the page's path say, large pages included |
| PageTables.EffectiveRights | src/high/memory/paging.cpp:83-108 | When every entry grants no more than the one above it, the conjunction of all rights on the walk is the last entry's own, and so is the caching |
| PageTables.SetElsewhere | src/high/memory/paging.cpp:83-108 | Since no table hangs in two places, a written entry is seen at its path and below only |
| PageTables.LinkTree | src/high/memory/paging.cpp:35-42 | Hanging in a cleared free frame keeps the tables a tree outside of the free frames |
| PageTables.LinkAccounted | src/high/memory/paging.cpp:35-42 | The frame of a linked table leaves the free ones and is a table now; no other frame has changed hands |
| PageTables.AccountedThen | src/high/memory/paging.cpp:83-108 | Over several steps that take frames for tables and for pages, every frame that is free no more is accounted for once |
| Paging.PageTable.MapLevel | src/high/memory/paging.cpp:87-100 | One turn of map: the entry leads to the table it had or to a new one, each of the four flags is its old bit or the flag asked for, and the other fields are as before; no page's walk changes |
| Paging.PageTable.Map | src/high/memory/paging.cpp:83-108 | The page is mapped to the frame with exactly the rights and the caching asked for; each upper entry has every flag it had and those asked for, the last entry exactly those, and all other fields stay as before or as in a table of zeros; frame, rights and caching of every other page are unchanged; entries off the page's way are as they were; every frame that is free no more is a table now |
| Paging.PageTable.Unmap | src/high/memory/paging.cpp:110-121 | For any tables, the present bit is cleared in the frame where three steps end, if there is one; outside of large pages exactly this page loses its mapping, present or not before, its entry keeps all other fields, all tables stay, and get does not notice |
| Paging.PageTable.Get | src/high/memory/paging.cpp:123-149 | In the window the address less 64 TiB; elsewhere the answer of the source's branches, as a function of the entries |
| Paging.GetAgreesWithWalk | src/high/memory/paging.cpp:123-149 | Where the processor finds a frame, get gives the same byte, in the window once init has set it up |
| Paging.GetAgreesIffPresent | src/high/memory/paging.cpp:123-149 | For every page and offset, get has the processor's answer, the same address or none, exactly unless there is a last entry and it is absent |
| Paging.NextIsTable | src/high/memory/paging.cpp:13-33 | A step from an entry ends at the next table, or at none, exactly if the entry is no large page |
| Paging.StepsEndIff | src/high/memory/paging.cpp:13-33 | The three steps of map and unmap end at the page's own lowest table, or at none, exactly if the third entry is no large page, and the second is none either or its memory, read as a table, has no present entry there |
| Paging.TurnKeeps | src/high/memory/paging.cpp:87-100 | ORing flags into shared upper entries changes nobody's frame or rights |
| Paging.LeafWrite | src/high/memory/paging.cpp:101-107 | Writing the last entry keeps the tree, the order of rights and all other pages |
| Paging.PageTable.Init | src/high/memory/paging.cpp:51-82 | The window at 64 TiB shows each physical page at its offset, writeable, not for the user and cached as usual, whatever its root entries held before, and no other page changes; its 64 tables are on the frames taken, every entry of them with exactly the bits that the source sets, and all other tables and entries are as they were |
| Addresses.PathIsPage | src/high/memory/mem.cpp:239-252 | The four indices of an address below 128 TiB are below 512 and give the page number back |
| Addresses.NumberIsPath | src/high/memory/mem.cpp:239-252 | The four indices are those of the page number they make |
| PageHeap.PageHeap.FindSlot | src/high/memory/heap.cpp:135-145 | The first entry present and not full, or else the first absent one; none exactly if all are present and full |
| PageHeap.PageHeap.IsFull | src/high/memory/heap.cpp:192-203 | True exactly if all 512 entries are present and full |
| PageHeap.PageHeap.FullAndEmpty | src/high/memory/heap.cpp:228-239 | Both answers, each exactly |
| PageHeap.PageHeap.TakeSlot | src/high/memory/heap.cpp:150-164 | An absent entry gets a free frame if there is one; frames stay conserved, full bits true, no other page moves |
| PageHeap.PageHeap.SetFull | src/high/memory/heap.cpp:173-206 | Only the full bit of that entry changes, and all of the invariant stays |
| PageHeap.PageHeap.ClearSlot | src/high/memory/heap.cpp:219-242 | An entry with nothing below it disappears and its frame, page or table, is free again |
| PageHeap.PageHeap.MallocTraverse | src/high/memory/heap.cpp:128-210 | The recursion restores every full bit below and at its level; it fails only for want of frames or with the arena full; a page it returns was not mapped and now lies on a frame that was free |
| PageHeap.PageHeap.Malloc | src/high/memory/heap.cpp:251-256 | None above a page's size; otherwise a page of the arena that was not live, on a frame that was free, first in search order, all other pages unchanged; none only if frames or arena are used up |
| PageHeap.PageHeap.MallocRange | src/high/memory/heap.cpp:274-279 | The same for the range of the slab allocator; entries outside of the heap's arenas stay as they are |
| PageHeap.PageHeap.FreeTraverse | src/high/memory/heap.cpp:212-249 | The page and every table that only led to it disappear and their frames are free; full bits are true again |
| PageHeap.PageHeap.Free | src/high/memory/heap.cpp:258-262 | Exactly this page loses its mapping, its frame is free, no table on its way is left empty |
| PageHeap.FullMeansLive | src/high/memory/heap.cpp:135-145 | Below an entry marked full every page is mapped, so that the search may skip it |
| PageHeap.HeapWalk | src/high/memory/heap.cpp:154-164 | The processor finds a heap page, for the kernel only and cached as usual, exactly if its entry is present |
| PageHeap.OwnMore | src/high/memory/heap.cpp:150-165 | A frame that is taken belongs to one place, and the partition of the usable frames stays |
| PageHeap.OwnLess | src/high/memory/heap.cpp:219-248 | A frame that is given up is free, and the partition stays |
| PageHeapRuns.FreeUndoesMalloc | src/high/memory/heap.cpp:251-262 | malloc and free of a page leave all mappings as before and lose no frame; they gain one exactly if an empty table was on the way |
| PageHeapRuns.SamePageAgain | src/high/memory/heap.cpp:76-81 | The page freed is the one the next malloc gives, if no empty table was on its way |
| PageHeapRuns.FirstFitOnce | src/high/memory/heap.cpp:135-151 | The search in given tables has one result |
| PageHeapRuns.Serve | src/high/memory/heap.cpp:251-262 | Over any run of requests and returns, the mapped heap pages are those mapped before and those held, each held once |
| PageHeapRuns.ClearedFirstIff | src/high/memory/heap.cpp:219-222 | As written, the frames stay conserved exactly if the entry had frame 0 |
| PageHeapRuns.UnclearedIff | src/high/memory/heap.cpp:150-164 | As written, the heap keeps all its invariants exactly if no stale entry of the new table is present, and none of an upper table has rights or a size left |
| SlabPages.ClassFits | src/high/memory/heap.cpp:360-398 | The class of a size is the smallest that holds it; sizes up to 2047 have one; class and size determine each other |
| SlabPages.PageIsFull | src/high/memory/heap.cpp:399-411 | Blocks, bitmap and class byte fit a page in every class, and one block more would not |
| SlabPages.ClassSizes | src/high/memory/heap.cpp:373-385 | The classes are 4, 2047 and the powers of two in between |
| SlabPages.Layout | src/high/memory/heap.cpp:418-428 | A new page is zero but for the class number in its last byte; the bitmap lies right before that |
| SlabPages.OwnersWriteIsHarmless | src/high/memory/heap.cpp:425-445 | No byte of a block belongs to bitmap or class: what its owner writes there changes neither |
| SlabPages.TakeBlock | src/high/memory/heap.cpp:425-441 | The first free block is marked and nothing else; the count is the number of free blocks before |
| SlabPages.ReleaseBlock | src/high/memory/heap.cpp:449-467 | Exactly one block is released; full and empty are those of the page before |
| SlabPages.LastRoom | src/high/memory/heap.cpp:442-444 | A count of one says exactly that the page has no room left |
| FreeLists.ChainAppend | src/high/memory/heap.cpp:313-315 | Linking a new node behind the last keeps the chain |
| FreeLists.ChainRemove | src/high/memory/heap.cpp:342-345 | Unlinking a node through the pointer that led to it keeps the chain of the others |
| FreeLists.TotalRemove | src/high/memory/heap.cpp:342-345 | Unlinking an empty node loses no listed page |
| SlabAllocator.PageTaken | src/high/memory/heap.cpp:274-279 | What the traversal returns is a new page of the arena, never page 0 |
| SlabAllocator.SlabAllocator.AllocatePage | src/high/memory/heap.cpp:274-279 | A page of 106 to 116 TiB that was not mapped is mapped, no other page moves; none only if frames or addresses are used up |
| SlabAllocator.SlabAllocator.FreePage | src/high/memory/heap.cpp:281-285 | Exactly this page of the arena is unmapped, and no other page moves |
| SlabAllocator.SlabAllocator.Push | src/high/memory/heap.cpp:300-316 | The page is listed once more in this list, and all else in all ten lists is as it was; a page is taken exactly if no node has a null element, and only then, for want of one, does the call fail; it comes first in its list exactly if the very first element was null |
| SlabAllocator.SlabAllocator.Peek | src/high/memory/heap.cpp:317-327 | The first page of the list in the order of its elements, or null exactly for the empty list |
| SlabAllocator.SlabAllocator.Remove | src/high/memory/heap.cpp:328-350 | The page is in this list no more, all else is as it was, and empty nodes are unmapped |
| SlabAllocator.SlabAllocator.Provide | src/high/memory/heap.cpp:417-422 | An empty list gets a new page of its class; no block changes hands; a list with pages needs none and nothing happens |
| SlabAllocator.SlabAllocator.TakeListed | src/high/memory/heap.cpp:424-446 | A block of a listed page, which was nobody's, comes into use; a page is listed once exactly if it has room; the page is the first of the list, the block its lowest free one |
| SlabAllocator.SlabAllocator.Malloc | src/high/memory/heap.cpp:412-446 | Refused exactly above 2047 bytes; otherwise one block more is live, of the class of the size, contents of no page change and no page with blocks moves; it faults only if the class has no page and none is to be had; it is the lowest free block of the first page of its list, if there is one |
| SlabAllocator.SlabAllocator.Free | src/high/memory/heap.cpp:447-473 | Any address within a live block frees exactly that block; no page is ever returned; it faults only if the page was full, every node of its list is packed and no page is to be had; the lists change only if the page was full, which is then listed as push says |
| SlabAllocator.SlabAllocator.Size | src/high/memory/heap.cpp:474-480 | From any address within a live block: the smallest class that holds what malloc was asked for when it gave the block |
| SlabAllocator.BlockOfAddress | src/high/memory/heap.cpp:445-456 | Any address within a block leads back to its page and its index |
| SlabAllocator.BlocksApart | src/high/memory/heap.cpp:445-456 | Different blocks have no byte in common |
| SlabRuns.ReturnAndAsk | src/high/memory/heap.cpp:82-98 | A block that is freed is the one that the next malloc of its class gives, exactly if all lower blocks of its page are in use and its page comes first in its list, or was full and the very first element of the list is null |
| LargeRegions.GapStepFreezes | src/high/memory/heap.cpp:497-503 | Once the gap is wide enough for malloc to stop, every later region gives the same answer |
| LargeRegions.VisitIsStart | src/high/memory/heap.cpp:496-503 | The visit of the regions in order is the search for the place |
| LargeRegions.StartIsFree | src/high/memory/heap.cpp:496-507 | The place found overlaps no region |
| LargeRegions.StartIsAccepted | src/high/memory/heap.cpp:496-503 | The place found passes the strict gap test against all regions |
| LargeRegions.StartIsLowest | src/high/memory/heap.cpp:496-503 | No lower place passes it |
| LargeRegions.SafeAsWrittenIff | src/high/memory/heap.cpp:496-512 | As written, through the tree's iteration and with subtractions that wrap around: no request that is served gets bytes of a region exactly if the room at every region that some request ends behind, up to the next gap that would stop it or the arena's end, is clear |
| LargeRegions.OverlapAsWritten | src/high/memory/heap.cpp:496-512 | A map of three regions and a request of one page that is served at the third |
| LargeAllocator.LargeAllocator.FindPlace | src/high/memory/heap.cpp:496-503 | Through the tree's iteration with its overlooked stops, the lowest acceptable place |
| LargeAllocator.LargeAllocator.MapPages | src/high/memory/heap.cpp:508-511 | The pages of the region are mapped to frames that were free, each its own; every other frame that is free no more is a table now; nothing else in memory moves |
| LargeAllocator.LargeAllocator.Malloc | src/high/memory/heap.cpp:493-514 | The region is recorded in order, inside 116 to 126 TiB, apart from all others, and mapped; none only if no place is left or frames are used up |
| LargeAllocator.LargeAllocator.UnmapPages | src/high/memory/heap.cpp:521-525 | Every page of the region is unmapped, exactly their frames have become free, and all tables stay |
| LargeAllocator.LargeAllocator.Free | src/high/memory/heap.cpp:515-530 | Exactly the region at that address is forgotten, its pages are unmapped and their frames free, all other pages unchanged |
| LargeAllocator.LargeAllocator.Size | src/high/memory/heap.cpp:531-536 | The size of the region that begins there, 0 for none |
| LargeAllocator.PlaceFound | src/high/memory/heap.cpp:496-507 | The place found is on a page boundary and none of its pages is live |
| Neighbours.LargeKept | src/high/memory/heap.cpp:128-249 | A step of the page heap leaves every live page of the large allocator on its frame, which is neither free nor a table |
| Neighbours.ConservedByMapping | src/high/memory/heap.cpp:508-511 | map takes the frames of a region's pages to those in use elsewhere and frames of new tables into the tables, so that every usable frame is still exactly one thing |
| Neighbours.ConservedByUnmapping | src/high/memory/heap.cpp:521-525 | unmap and free bring exactly these frames back to the free ones |
| Neighbours.HeapEntriesKept | src/high/memory/paging.cpp:83-121 | Large pages come and go without a change of rights or full bits of the heap's entries |
| KernelHeap.RouteByIndex | src/high/memory/heap.cpp:40-63 | The dispatch of free and get_size depends on the root index of the address only |
| KernelHeap.RoutesToGiver | src/high/memory/heap.cpp:40-63 | In every state of the heap, every address within a block in use leads to the allocator that gave it out |
| KernelHeap.BlocksApart | src/high/memory/heap.cpp:33-63 | Two blocks in use, of whatever allocators, have no address in common |
| KernelHeap.BytesApart | src/high/memory/heap.cpp:33-63 | Two addresses in blocks in use never are the same byte of physical memory |
| KernelHeap.OnFrame | src/high/memory/heap.cpp:33-63 | The processor lets the kernel read and write every page of a block in use, and its frame is not free |
| KernelHeap.KernelHeap.constructor | src/high/memory/heap.cpp:113-117 | On tables with nothing from 96 TiB on, the three allocators start valid over one memory, and no block is in use |
| KernelHeap.KernelHeap.Malloc | src/high/memory/heap.cpp:33-39 | Up to 2047 bytes the block given is a slab block of the smallest of the ten classes that holds the size; above that up to 4096 bytes a page, and a region only if every page of the page arena is given out; beyond, a region of the size rounded up to pages. It was not in use and begins at the address given; every other block stays in use, in place and on its frames; all three allocators and the partition of the frames stay valid; it fails only where slab pages or, above 2047 bytes, frames or gaps are used up |
| KernelHeap.KernelHeap.Free | src/high/memory/heap.cpp:40-51 | An address of a block goes to its allocator, after which exactly this block is in use no more and all else is as it was; below 96 TiB nothing happens |
| KernelHeap.KernelHeap.GetSize | src/high/memory/heap.cpp:52-63 | The length of the block the address belongs to; 0 in the large arena where no region begins; none exactly below 96 TiB |
| HeapRuns.Serve | src/high/memory/heap.cpp:33-51 | Over any run of requests and returns, the blocks in use are those before the run and those held, each held once, at its address, and of the kind and length that its size is to get; where a run ends early, this holds up to the operation that failed, which found no page, no frames or no gap |
| MemoryMap.ToPhysical | src/high/memory/mem.cpp:57-79 | The loop over the map computes the address of an index |
| MemoryMap.ToIndex | src/high/memory/mem.cpp:81-106 | The loop over the map computes the index of an address |
| MemoryMap.AddressIsPage | src/high/memory/mem.cpp:57-79 | For aligned regions the address of index i is that of the i-th usable page, and there is none behind the last |
| MemoryMap.IndexIsPosition | src/high/memory/mem.cpp:81-106 | For sorted aligned regions the index of an address is its page's position among the usable pages, and there is none for other addresses |
| MemoryMap.RoundTrips | src/high/memory/mem.cpp:57-106 | The two conversions are inverse to each other |
| MemoryMap.AddressesReturnIff | src/high/memory/mem.cpp:57-106 | For lengths of any kind, addresses survive the way to an index and back exactly if only the last region ends within a page |
| MemoryMap.AddressGoesAstray | src/high/memory/mem.cpp:57-106 | Two regions, the first of which ends within a page: an address that comes back as another |
| Subregion.Find | src/high/memory/mem.cpp:19-55 | The search ends; its result has the size, lies in the region and meets no reserved interval |
| Subregion.FindsAPlace | src/high/memory/mem.cpp:19-55 | It fails only if there is no place that keeps two bytes off every reserved interval, and the place it finds is not above any such place |
| Subregion.PartBeforeIff | src/high/memory/mem.cpp:40 | The part before an interval leaves the interval out exactly if the subtraction does not wrap around |
| Bitmaps.SetByte | src/high/memory/mem.cpp:117-121 | Setting or clearing the mask in a byte changes exactly one bit of the bitmap |
| Bitmaps.MaskIsShift | src/high/memory/mem.cpp:117-121 | The mask of bit k is 1 shifted by k |
| FrameAllocator.Allocator.ReserveMemory | src/high/memory/mem.cpp:108-136 | On both paths, exactly the bits of the usable pages that the range touches are written |
| FrameAllocator.Allocator.ReservePages | src/high/memory/mem.cpp:114-124 | The page-by-page path, on its own |
| FrameAllocator.Allocator.ReserveIndices | src/high/memory/mem.cpp:126-134 | The path by indices does the same |
| FrameAllocator.PlaceBitmap | src/high/memory/mem.cpp:174-186 | A place for the bitmap lies in the first usable region that has one to offer, meets nothing reserved, and is not above any that keeps two bytes off; none only if the search fails in every region that qualifies |
| FrameAllocator.Allocator.constructor | src/high/memory/mem.cpp:153-201 | After init a bit is set exactly if its page has a byte of the bitmap, of page 0, of the boot information, the trampoline, the kernel, or of 0xA0000 to 0x100000 |
| FrameAllocator.TotalIsPages | src/high/memory/mem.cpp:153-172 | The bitmap has one bit for each usable page |
| FrameAllocator.Allocator.Probe | src/high/memory/mem.cpp:207-215 | One turn finds a run behind the cursor or moves the cursor to the first set bit in its way |
| FrameAllocator.Allocator.Alloc | src/high/memory/mem.cpp:204-224 | From a set bit, or if there is a run: it ends, with a page exactly if a cyclic run of free bits exists, with the first run behind the cursor, and reserves the pages of the returned range |
| FrameAllocator.NeverEnds | src/high/memory/mem.cpp:204-224 | From a clear bit and without a run, no number of turns brings the cursor back |
| FrameAllocator.LoopsForEver | src/high/memory/mem.cpp:204-224 | One clear page before a taken one, and two wanted: every turn ends at the taken page |
| FrameAllocator.OnePage | src/high/memory/mem.cpp:204-224 | For a single page the loop always ends, and finds one exactly if a bit is clear |
| FrameAllocator.ReservedWasFree | src/high/memory/mem.cpp:216-221 | What alloc reserves was free |
| FrameAllocator.ReservesTheRun | src/high/memory/mem.cpp:209-221 | In one piece, exactly the run's pages are reserved, and they are contiguous |
| FrameAllocator.InOnePieceIff | src/high/memory/mem.cpp:209-221 | All frames of the returned range exist exactly if the run lies in one piece |
| FrameAllocator.AcrossAGap | src/high/memory/mem.cpp:209-221 | Two clear bits in a row whose pages are not, at a gap and at the end of memory |
| FrameAllocator.FreeUndoesAlloc | src/high/memory/mem.cpp:204-228 | free of what alloc returned restores the bitmap |
| FrameAllocator.AllocationsApart | src/high/memory/mem.cpp:204-228 | Outstanding allocations share no usable page |
| FrameAllocator.OneFrame | src/high/memory/mem.cpp:204-228 | For single pages, alloc and free take a frame out of the set of free frames and put it back |
| BootTables.SetupPaging | src/low/init/start.cpp:93-114 | The first three tables, from cleared memory |
| BootTables.MapHighKernel | src/low/init/main.cpp:92-198 | Two more under root entry 64; nothing else in memory changes |
| BootTables.BootTree | src/low/init/start.cpp:93-114 | The tables reached from the root are these five, a tree; all root entries but 0 and 64 are empty |
| BootTables.BootWalk | src/low/init/main.cpp:92-198 | The processor finds the first GiB at its own addresses, the kernel's at 32 TiB, and nothing else |
| BootTables.LargeTakenForTable | src/high/memory/paging.cpp:83-121 | On these tables map and unmap of any page of the first GiB end in memory in use, at the first frame of its 2 MiB page, and leave the page mapped as it was |
| BootTables.BootTurns | src/high/memory/paging.cpp:87-100 | The three turns of map before that find present entries and change nothing |
| Boot.BookedAccounts | src/high/memory/mem.cpp:153-201 | After init, with all tables in reserved pages, a bit is set exactly if its page is reserved or a table |
| Boot.AccountsMore | src/high/memory/mem.cpp:204-224 | It stays so when free frames come into use |
| Boot.AccountedTables | src/high/memory/paging.cpp:83-108 | The tables after a step are those before and the frames taken |
| Boot.RunTaken | src/high/memory/mem.cpp:204-224 | A run in one piece is as many free frames in a row, and alloc takes exactly these |
| Boot.BootConserved | src/high/memory/mem.cpp:153-201 | Where a bit is set exactly if its page is reserved or a table, every usable frame is exactly one of: free, in use elsewhere, a table |
| Boot.BootHeap | src/high/init/start.cpp:57-64 | From any sorted, aligned memory map and the boot code's tables: the heap starts valid with no block in use, on the frames of clear bits; a bit is set exactly if its page has a byte of one of the six ranges that init keeps, or is a table; the window shows memory and all other pages are mapped as before; it fails exactly if there is no run of 64 pages |
| Boot.TakeFrame | src/high/memory/mem.cpp:204-224 | alloc(1) takes one of the free frames, and fails exactly if there is none |
| Boot.GiveFrame | src/high/memory/mem.cpp:226-228 | free of one usable page adds exactly its frame to the free ones |
| Boot.TakeTable | src/high/memory/paging.cpp:35-42 | A turn of map that needs a table takes a frame of a clear bit, hangs it in, and keeps the bits' account; none exactly if all bits are set |
| Boot.TakeWindow | src/high/memory/paging.cpp:60-82 | alloc(64) and the window keep the bits' account and all other mappings; none exactly if there is no run |
| Prdt.SetupPhysicalRegion | src/high/PCI/sata.cpp:613-642 | It succeeds exactly if every byte has memory and the buffer breaks at most 15 times: at a page that does not follow on the one before, or after 1024 in a row. The descriptors are then one more than the breaks, denote exactly the physical bytes of the buffer in order, and every count fits 22 bits |
| Prdt.FollowsOn | src/high/PCI/sata.cpp:624-629 | A page is appended only where the last chunk really ended |
| Prdt.ConsecutiveBreaks | src/high/PCI/sata.cpp:613-642 | A buffer on consecutive frames breaks once for every 4 MiB filled, and once more behind its first page if it begins within that |
| Prdt.ConsecutiveFits | src/high/PCI/sata.cpp:613-642 | Such a buffer is never too fragmented up to 60 MiB, and up to 4 MiB takes one descriptor if it begins with a page |
| Prdt.ByteByByte | src/high/PCI/sata.cpp:613-642 | Byte i of what the descriptors denote is byte i of the buffer, on the frame of its page |
| DiskRead.Port.SendRead | src/high/PCI/sata.cpp:540-570 | Refused without a disk, for a drive with packets, beyond the end of the disk, above 65535 sectors, and for nothing, with the error of each; otherwise the hardware's outcome, and a command that is performed puts its sectors into the buffer |
| DiskRead.Port.ReadThrough | src/high/PCI/sata.cpp:49-77 | One or two sectors: the bytes wanted are cut out of them |
| DiskRead.Port.ReadMany | src/high/PCI/sata.cpp:79-133 | Head, whole sectors and tail come together in the buffer; with commands in order, the answer for every combination of refused and lost ones |
| DiskRead.Port.ReadAligned | src/high/PCI/sata.cpp:36-47 | Whole sectors go straight into the buffer |
| DiskRead.Port.Read | src/high/PCI/sata.cpp:17-134 | Out of bounds exactly reported. A disk that performs everything delivers every read of at least one byte, at an even offset the bytes asked for, except those of which a command would span 65536 sectors or more, which are answered 5, and those of two sectors up to the end of the disk, which are answered 3. With commands in order, the answer for every combination of refused and lost ones; above 8 bytes the result tells whether the bytes are there |
| DiskRead.Port.ServedIff | src/high/PCI/sata.cpp:36-123 | A disk that performs everything serves exactly the reads of which no command spans 65536 sectors and which are not of two sectors up to its end |
| DiskRead.Port.CheckInBytes | src/high/PCI/sata.cpp:648-658 | The test of a command in bytes: on the disk, and at most 65535 sectors |
| DiskRead.Port.MistakenIff | src/high/PCI/sata.cpp:36-77 | An answer equal to the size asked for is no success exactly if the command was refused with an error of that code; the code is never 2 |
| DiskRead.Port.MistakenSizes | src/high/PCI/sata.cpp:36-77 | Of reads of up to 8 bytes only those of 1 and of 3 to 8 can be mistaken for success |
| DiskRead.CodeAsSize | src/high/PCI/sata.cpp:36-77 | For each of these sizes, a disk on which it happens |
| DiskRead.OriginIff | src/high/PCI/sata.cpp:50-133 | The bytes read are those asked for exactly if the offset is even |
| DiskRead.ManyParts | src/high/PCI/sata.cpp:89-99 | On the longest path the middle consists of whole sectors that begin on a sector |
| DiskRead.PlanInsideIff | src/high/PCI/sata.cpp:36-122 | A read that stays on the disk asks for existing sectors only, except exactly for two sectors at the end of the disk |
| DiskRead.NinthOfEight | src/high/PCI/sata.cpp:63-70 | The last 100 bytes of a disk of eight sectors: a ninth sector is asked for |

## Left out

- BTreeObject.BTree.Insert: keys and values are integers; nodes are garbage-collected, so that `delete` and the destructor are not modelled, and allocation of a node does not fail.
- BTreeObject.BTree.Iterate: the callable is a function with a state, and promises nothing beyond the documented order for a callable that changes its state after it has said stop.
- Paging.PageTable.Map: no large page on the way, as the source assumes (StepsEndIff says what it rests on, LargeTakenForTable what happens otherwise); the window at 64 TiB through which tables are reached is what turns a frame number into a table, and not itself walked. Caches of the processor are not modelled.
- Paging.PageTable.Init: the 64 frames are in a row, which the allocator's answer means exactly if its run is in one piece (InOnePieceIff).
- Boot.BootHeap: the first search for 64 frames ends and finds a run in one piece (NeverEnds and InOnePieceIff say when it does not); that the kernel's image holds its first tables is what targets/linker.ld:25-85 says, and is taken from there.
- PageHeap.PageHeap.Free: only for a page that is mapped; the source follows whatever it finds otherwise.
- SlabAllocator.SlabAllocator.Malloc: after a fault nothing is said of the lists; the source does not go on from there either.
- KernelHeap.KernelHeap.Malloc: the nodes of the large allocator's map, its lock and the three allocators' own records are objects of their own; the source takes the nodes from this heap, in the middle of a call.
- HeapRuns.Serve: ends at the first failure; what operator new and delete add, clearing the block, is not modelled.
- LargeAllocator.LargeAllocator.Malloc: asks for more than 0 bytes, as the routing guarantees; what is mapped when the source panics half way is not described.
- FrameAllocator.Allocator.Alloc: `int` as the type of the run's counter is not modelled; for requests that never end there is NeverEnds.
- FrameAllocator.Allocator.constructor: the memory map is sorted, without overlap and aligned to pages; reading it from the boot information, and the addresses of linker symbols, are parameters.
- Prdt.SetupPhysicalRegion: that the table with the fewest descriptors is chosen is not claimed; the source does not choose it.
- DiskRead.Port.Read: bytes are moved by a command at once, and which command the hardware performs is an input; sums of offset and size do not wrap around 64 bits; sector sizes are even. What the buffer holds after a failure is not described.
- Locks and interrupts: every operation is taken to run alone.
- The metadata calls at src/high/memory/paging.cpp:151-196, which the heap does not use.
- Writing to the disk, the handshake of command slots, the initialisation of ports, xHCI, PCI enumeration.
- Processes, messages, the rest of the boot code, APIC, ACPI, the console, file systems and executables.
- The linked list, optional, variant, string and smart pointer classes: sequences and options stand for them.
