# Weenix, verified

Dafny models of the parts of the Weenix teaching kernel, its user programs and its
disk tool whose correctness is hardest to see from the code, with proofs of what
they promise. `dafny verify dfyconfig.toml` checks everything. Nothing here runs
the kernel.

Code that changes things in place is modelled by classes and methods over fields and
arrays, and each method is proved against a function or relation on values; the
results over all inputs and all runs are lemmas about those values.

| files | models | main results |
|---|---|---|
| `Division`, `Digits`, `Arith` | 64-bit division on a 32-bit machine (`kernel/util/math.c`) | Program D gives quotient and remainder for all operands; the signed quotient is right for all but one pair |
| `Blocks`, `FreeLists`, `Buddy` | the page allocator (`kernel/mm/page.c`) | free lists are exactly the maximal free blocks, whatever happened before; allocation fails only when no run fits, and splits a smallest block that does; the bitmap's join test is right exactly for groups that are multiples of the largest block |
| `Slab`, `SlabOps` | slab allocators and kmalloc (`kernel/mm/slab.c`) | live objects never overlap; free lists and counts are exact; reclaiming takes nothing in use; a block is freed to the cache it came from, whatever happened in between |
| `Regex`, `Notation`, `Matching`, `Ed` | the editor's regular expressions (`user/bin/ed.c`) | a pattern compiles exactly if it is one in the notation, to code for what it stands for; the backtracking matcher finds the leftmost match exactly if there is one, and of the matches there the greedy one |
| `Pframe`, `Shadow`, `Chains`, `Shadowd` | resident pages and the shadow daemon (`kernel/mm/pframe.c`, `kernel/vm/shadow.c`, `kernel/vm/shadowd.c`) | collapsing shadow chains changes no page that any memory area sees; exactly when a pass fails the daemon's assertion and which objects it leaves behind |
| `S5Blocks`, `S5Files`, `S5Inodes`, `S5` | the System V file system (`tools/fsmaker/api.py`, `kernel/fs/s5fs/s5fs_subr.c`) | the free list is one stack across superblock and disk; writing splices into one file and touches no other; every block has one owner |
| `RamfsTable`, `Ramfs` | the memory file system and vnode references (`kernel/fs/ramfs/ramfs.c`, `kernel/fs/vnode.c`) | names never dangle, nor does the ".." of a named directory; link counts are exact as long as no directory with names is freed, and a run in which one is |
| `Sched`, `SchedOps`, `Kmutex`, `KmutexOps` | threads, queues and mutexes (`kernel/proc/sched.c`, `kernel/proc/kmutex.c`) | over every run: each thread is in one place, the processor and mutexes go to threads in the order in which they came, and mutual exclusion |
| `Init` | start-up order (`kernel/util/init.c`) | dependencies come first; exactly which dependency graphs survive |
| `Numerals`, `Printf`, `Vsnprintf`, `Conversions` | formatted output and number parsing (`kernel/util/printf.c`) | what every conversion writes, told from its characters and argument words; truncation, padding and exactly when a printed number reads back |
| `Elf32`, `Bytes` | the arguments of a new program (`kernel/api/elf32.c`) | the image fills its buffer and reads back as the arguments given |
| `Options`, `Lists` | helpers | |

## Where the code and its intent differ

- A page group whose size is not a multiple of the largest block starts with blocks on
  small lists and all bitmap bits clear. When such a block is allocated and freed, it is
  joined with a buddy that is not on the list (`InitialBitsMatch`, `LeftoverOrder`,
  `LeftoverJoinFails`). For some sizes the bit that is flipped lies behind its bitmap
  (`BitOutside`, `BitBehind`).
- `page_alloc_n` compares as an int, so requests of 2^31 pages and more get one page
  (`AllocN`). `kmalloc` and the choice of a slab's size wrap around for sizes near 2^32
  (`Kmalloc`, `CalcSlabSize`).
- `__divdi3` gives a negative result for the smallest number divided by -1 (`Divdi3`).
- The shadow daemon's comments expect the last put of an object to release the object
  it shadows, which `shadow_put` does not do. The parameter `releases` of `Walk` and
  `Pass` says which. Without it the daemon fails its assertion where an odd run of
  single-parent objects lies directly above one with two parents (`UnreleasedWalkOk`,
  `UnreleasedPanics`), and where it does not fail it leaves the second of two
  single-parent objects in a row (`UnreleasedPairsLeft`).
- `_init_call` reports a circular dependency also where two functions share a dependency
  that has already been called in the same search (`DiamondPanics`).
- A star after a group mark in a pattern is reported without clearing the code emitted so
  far, so the empty pattern that follows stands for half a pattern (`Compile`).
- A file made in a directory that has been removed but is still held keeps its link when
  the directory goes (`LostFile`). Looking up ".." panics in a removed but held directory
  whose parent is gone (`LostParent`); it does not in a directory that has a name, as
  long as no directory has been given a second one (`ParentThere`).
- When space runs out in the middle of a write, bytes past the end of the file may be
  left non-zero (`PartialWrite`).
- A number that `vsnprintf` pads with spaces on the left, or writes with `0X`, a plus or a
  space first, is not read back by `simple_strtoull` and `simple_strtoll` (the
  round-trip lemmas).
- With several AT_PHDR entries all of them lead to the table copied last (`AuxRead`).

## What became a parameter

Memory that may or may not be available (page frames, page blocks for slabs, inodes),
interrupts that arrive while the processor is idle (a list of wakeups), which processes
are running, the words on the stack and the strings they point to in `vsnprintf`, the
contents of the program header table, and the line of input in the editor.

## Model

| member | source | states |
|---|---|---|
| Division.Qdivrem | kernel1/weenix-assignment-1.0.7/weenix/kernel/util/math.c:143-337 | For all 64-bit operands the result is the floor quotient and, if wanted, the remainder; the machine divide error happens exactly for divisor 0 |
| Division.LongDivide | kernel1/weenix-assignment-1.0.7/weenix/kernel/util/math.c:227-337 | Knuth's Program D on 16-bit digits in place gives quotient and remainder whenever the divisor has two to four digits and is not larger than the dividend |
| Division.DivideByDigit | kernel1/weenix-assignment-1.0.7/weenix/kernel/util/math.c:198-225 | The unrolled one-digit division gives the same quotient and remainder |
| Division.DivideStep | kernel1/weenix-assignment-1.0.7/weenix/kernel/util/math.c:257-314 | One turn of the digit loop: the digit returned is the true quotient digit, the remainder left in place is below the divisor, and no digit outside the window changes |
| Division.Estimate | kernel1/weenix-assignment-1.0.7/weenix/kernel/util/math.c:268-285 | The digit guessed from three dividend and two divisor digits is a largest one whose product with the two does not exceed the three |
| Division.TrialQuotient | kernel1/weenix-assignment-1.0.7/weenix/kernel/util/math.c:261-285 | A guess made from leading digits of any operands is never too small, and too large by at most one |
| Division.TrialDigit | kernel1/weenix-assignment-1.0.7/weenix/kernel/util/math.c:261-285 | The same for the digit sequences of the algorithm |
| Division.MulSub | kernel1/weenix-assignment-1.0.7/weenix/kernel/util/math.c:292-298 | In wrapping words, the window loses the product modulo its size, and a borrow is reported exactly when the true difference is negative |
| Division.AddBack | kernel1/weenix-assignment-1.0.7/weenix/kernel/util/math.c:307-312 | The window gains the divisor, up to the one carry that is dropped |
| Division.DivideDigits | kernel1/weenix-assignment-1.0.7/weenix/kernel/util/math.c:251-315 | The whole loop: quotient digits and what is left in the dividend satisfy the division equation |
| Division.Normalise | kernel1/weenix-assignment-1.0.7/weenix/kernel/util/math.c:242-250 | Both operands are multiplied by one power of two that brings the divisor's first digit to at least half the base |
| Division.Shl | kernel1/weenix-assignment-1.0.7/weenix/kernel/util/math.c:125-133 | The digits shifted left stand for the value times the power of two |
| Division.ShiftRight | kernel1/weenix-assignment-1.0.7/weenix/kernel/util/math.c:322-328 | The digits shifted right stand for the value divided by the power of two |
| Division.Remainder | kernel1/weenix-assignment-1.0.7/weenix/kernel/util/math.c:322-332 | The remainder returned is what is left in the dividend, scaled back |
| Division.Load | kernel1/weenix-assignment-1.0.7/weenix/kernel/util/math.c:187-197 | The four digits stand for the 64-bit number |
| Division.SkipZeros | kernel1/weenix-assignment-1.0.7/weenix/kernel/util/math.c:232-233 | Skipping leading zero digits keeps the value and leaves at least as many digits as the divisor has |
| Division.Udivdi3 | kernel1/weenix-assignment-1.0.7/weenix/kernel/util/math.c:364-368 | Unsigned 64-bit quotient |
| Division.Umoddi3 | kernel1/weenix-assignment-1.0.7/weenix/kernel/util/math.c:374-381 | Unsigned 64-bit remainder |
| Division.Divdi3 | kernel1/weenix-assignment-1.0.7/weenix/kernel/util/math.c:344-359 | The truncated quotient, exactly except for the smallest number divided by -1, whose quotient is not a 64-bit number |
| Blocks.TakeMaximal | kernel1/weenix-assignment-1.0.7/weenix/kernel/mm/page.c:252-269 | Taking a maximal free block removes that block, and nothing else, from the maximal free blocks |
| Blocks.TakeHalf | kernel1/weenix-assignment-1.0.7/weenix/kernel/mm/page.c:152-175 | With one half of a free block taken, the other half is maximal and no other block changes |
| Blocks.CoveredFrom | kernel1/weenix-assignment-1.0.7/weenix/kernel/mm/page.c:235-329 | Every free page lies in some maximal free block |
| Blocks.CoveredOnce | kernel1/weenix-assignment-1.0.7/weenix/kernel/mm/page.c:235-329 | No page lies in two maximal free blocks, or in one and in use |
| Blocks.NoFreeBuddies | kernel1/weenix-assignment-1.0.7/weenix/kernel/mm/page.c:272-294 | The two halves of a block are never both maximal |
| Blocks.FitsInMaximal | kernel1/weenix-assignment-1.0.7/weenix/kernel/mm/page.c:235-250 | A free aligned run lies in a maximal free block at least as large |
| FreeLists.TakeBlock | kernel1/weenix-assignment-1.0.7/weenix/kernel/mm/page.c:252-256 | Unlinking a free block and flipping the bit above it keeps lists and bitmaps exact |
| FreeLists.PutBlock | kernel1/weenix-assignment-1.0.7/weenix/kernel/mm/page.c:318-323 | Linking a block in use and flipping the bit above it keeps the bitmaps right and the lists exact up to that block |
| FreeLists.SplitReady | kernel1/weenix-assignment-1.0.7/weenix/kernel/mm/page.c:163-173 | When a block is split the bit over its halves is clear, as asserted, and neither half is on its list |
| FreeLists.ClearBitMeansBuddy | kernel1/weenix-assignment-1.0.7/weenix/kernel/mm/page.c:276-286 | A clear bit over a free block means exactly that its buddy is on the same list |
| FreeLists.JoinStep | kernel1/weenix-assignment-1.0.7/weenix/kernel/mm/page.c:285-292 | Replacing two free halves by their block keeps lists, bitmaps and the number of free pages right |
| FreeLists.JoinDone | kernel1/weenix-assignment-1.0.7/weenix/kernel/mm/page.c:276-277 | When the bit is set the lists are exact again |
| FreeLists.BitFlipped | kernel1/weenix-assignment-1.0.7/weenix/kernel/mm/page.c:321-324 | One flip per block entering or leaving a list keeps each bit the parity of its two halves |
| Buddy.CreateLists | kernel1/weenix-assignment-1.0.7/weenix/kernel/mm/page.c:71-88 | The loops fill the lists with the blocks of the size's binary digits and largest blocks |
| Buddy.InitialBitsMatch | kernel1/weenix-assignment-1.0.7/weenix/kernel/mm/page.c:56-88 | All-clear bitmaps are right for a new group exactly if its size is a multiple of the largest block |
| Buddy.InitialExact | kernel1/weenix-assignment-1.0.7/weenix/kernel/mm/page.c:71-88 | Then the new lists hold exactly the maximal free blocks and all pages |
| Buddy.LeftoverOrder | kernel1/weenix-assignment-1.0.7/weenix/kernel/mm/page.c:71-79 | Every group of another size has a leftover block of some order |
| Buddy.Carve | kernel1/weenix-assignment-1.0.7/weenix/kernel/mm/page.c:42-68 | The pages left of a range when the group's structure and byte-rounded bitmaps have taken its end, and the clear bitmaps themselves |
| Buddy.BitOutside | kernel1/weenix-assignment-1.0.7/weenix/kernel/mm/page.c:57-61 | The bit over a leftover block is outside its bitmap exactly if the whole range has no more blocks of the next order than the usable part, and their number is a multiple of 8 |
| Buddy.BitBehind | kernel1/weenix-assignment-1.0.7/weenix/kernel/mm/page.c:55-63 | The place taken for it is then the first bit of the next bitmap, which starts clear, or of the group's structure |
| Buddy.LeftoverJoinFails | kernel1/weenix-assignment-1.0.7/weenix/kernel/mm/page.c:252-293 | In every new group with a leftover block whose bit is in its bitmap: once the block has been allocated and freed the bit is clear, so the join test passes, and the buddy is not on the list that joining unlinks it from |
| Buddy.PageGroup.constructor | kernel1/weenix-assignment-1.0.7/weenix/kernel/mm/page.c:36-91 | The lists and bitmaps of a new group on a range of any number of pages; the clear bitmaps match the lists exactly if the usable part is a multiple of the largest block (`InitialBitsMatch`), and exactly then the allocator's invariant holds, with all usable pages free |
| Buddy.PageGroup.Split | kernel1/weenix-assignment-1.0.7/weenix/kernel/mm/page.c:152-175 | The block's halves replace it; the number of free pages stays and the right half is the next to be split or handed out |
| Buddy.PageGroup.SplitDown | kernel1/weenix-assignment-1.0.7/weenix/kernel/mm/page.c:202-206 | Repeated splitting ends with a block of the wanted order at the head of its list |
| Buddy.PageGroup.Take | kernel1/weenix-assignment-1.0.7/weenix/kernel/mm/page.c:252-269 | The block handed out was free in all its pages; it, and nothing else, becomes live |
| Buddy.PageGroup.AllocFrom | kernel1/weenix-assignment-1.0.7/weenix/kernel/mm/page.c:198-206 | Splitting and handing out together |
| Buddy.PageGroup.BuddyOf | kernel1/weenix-assignment-1.0.7/weenix/kernel/mm/page.c:278-287 | The address arithmetic finds the sibling block, and the smaller address is that of the joined block |
| Buddy.PageGroup.JoinOnce | kernel1/weenix-assignment-1.0.7/weenix/kernel/mm/page.c:276-292 | The buddy found by trusting the clear bit is on the list it is unlinked from; the joined block takes their place |
| Buddy.PageGroup.Join | kernel1/weenix-assignment-1.0.7/weenix/kernel/mm/page.c:272-294 | Joining ends with exact lists and as many free pages as before |
| Buddy.PageGroup.Free | kernel1/weenix-assignment-1.0.7/weenix/kernel/mm/page.c:303-329 | A live block, and nothing else, becomes free |
| Buddy.PageSystem.constructor | kernel1/weenix-assignment-1.0.7/weenix/kernel/mm/page.c:104-109 | No groups and no free pages |
| Buddy.PageSystem.AddRange | kernel1/weenix-assignment-1.0.7/weenix/kernel/mm/page.c:111-125 | A range apart from the groups there becomes a group, if anything of it is usable, and is counted; the invariant survives exactly where `InitialBitsMatch` says the new group's bitmaps are right |
| Buddy.PageSystem.FindFree | kernel1/weenix-assignment-1.0.7/weenix/kernel/mm/page.c:241-244 | The first group with a free block of the order |
| Buddy.PageSystem.FindLarger | kernel1/weenix-assignment-1.0.7/weenix/kernel/mm/page.c:196-210 | The smallest larger order that some group has a block of, and the first group that has one |
| Buddy.PageSystem.AllocOrder | kernel1/weenix-assignment-1.0.7/weenix/kernel/mm/page.c:235-270 | Allocation fails exactly when no group has an aligned run of that many free pages; otherwise one such run becomes live, nothing else changes and the running count is right; it is part of a free block than which no group has a smaller one that is large enough |
| Buddy.PageSystem.FindFit | kernel1/weenix-assignment-1.0.7/weenix/kernel/mm/page.c:196-250 | The smallest order with a free block that is large enough, and the first group that has one, or no run fits |
| Buddy.PageSystem.AllocIn | kernel1/weenix-assignment-1.0.7/weenix/kernel/mm/page.c:246-269 | The same for one group chosen |
| Buddy.PageSystem.FromAddress | kernel1/weenix-assignment-1.0.7/weenix/kernel/mm/page.c:93-102 | The group that contains the address, if any does |
| Buddy.PageSystem.FreeIn | kernel1/weenix-assignment-1.0.7/weenix/kernel/mm/page.c:318-325 | A live block of one group becomes free and is counted |
| Buddy.PageSystem.FreeOrder | kernel1/weenix-assignment-1.0.7/weenix/kernel/mm/page.c:303-329 | A live block becomes free; an address outside every group changes nothing |
| Buddy.OrderFor | kernel1/weenix-assignment-1.0.7/weenix/kernel/mm/page.c:364-368 | The order is the smallest with enough pages as the cast to int sees the number, and there is none exactly above the largest block |
| Buddy.PageSystem.AllocN | kernel1/weenix-assignment-1.0.7/weenix/kernel/mm/page.c:359-373 | The order is the smallest whose blocks have as many pages as asked for as an int: no memory means no aligned run of so many pages is free, and the count falls by exactly so many; panic exactly for more pages than the largest block; a block has enough pages exactly for requests below 2^31 |
| Buddy.HistoryIndependent | kernel1/weenix-assignment-1.0.7/weenix/kernel/mm/page.c:235-329 | The free lists, as sets, depend on which pages are live and on nothing else that happened |
| Buddy.AllFreed | kernel1/weenix-assignment-1.0.7/weenix/kernel/mm/page.c:303-329 | When all blocks are freed the lists are those the group was created with |
| Buddy.Tiling | kernel1/weenix-assignment-1.0.7/weenix/kernel/mm/page.c:235-329 | Every page lies in exactly one block, free or live |
| Buddy.BuddiesNotBothFree | kernel1/weenix-assignment-1.0.7/weenix/kernel/mm/page.c:272-294 | Two buddies are never both on the free list |
| Ed.Editor.Compile | kernel1/weenix-assignment-1.0.7/weenix/user/bin/ed.c:1188-1296 | A pattern is accepted exactly if it is one in the notation, and then the code left in the buffer encodes what it stands for; the anchor, the rest of the input, reuse of the last pattern, and exactly which error leaves code behind |
| Ed.Editor.CompileLoop | kernel1/weenix-assignment-1.0.7/weenix/user/bin/ed.c:1215-1292 | The one-pass emitter accepts exactly what the grammar reads, stops at the same place, and its code encodes the tree |
| Ed.Editor.CompileOne | kernel1/weenix-assignment-1.0.7/weenix/user/bin/ed.c:1223-1291 | One turn emits the encoding of one step of the reading, patching a preceding item for a star |
| Ed.Editor.CompileSet | kernel1/weenix-assignment-1.0.7/weenix/user/bin/ed.c:1268-1285 | A class takes its place among the items with its code, or is refused as the grammar refuses it |
| Ed.Editor.CompileClass | kernel1/weenix-assignment-1.0.7/weenix/user/bin/ed.c:1268-1285 | A class is emitted with its true count of members |
| Ed.Editor.CompileMembers | kernel1/weenix-assignment-1.0.7/weenix/user/bin/ed.c:1276-1283 | The members up to the closing bracket are copied, or the class is refused |
| Ed.Editor.CompileStar | kernel1/weenix-assignment-1.0.7/weenix/user/bin/ed.c:1256-1260 | The star is allowed exactly after a character, dot or class, and turns that item into its repetition |
| Ed.Editor.CompileEscape | kernel1/weenix-assignment-1.0.7/weenix/user/bin/ed.c:1227-1247 | Group marks must nest and be at most the number of groups; another escaped character stands for itself |
| Ed.Editor.Cclass | kernel1/weenix-assignment-1.0.7/weenix/user/bin/ed.c:1430-1444 | Membership in the class at that code position |
| Ed.Editor.AdvanceOne | kernel1/weenix-assignment-1.0.7/weenix/user/bin/ed.c:1354-1395 | One item without a star passes exactly the characters in its language, moves on accordingly, and a group mark, and nothing else, records the place |
| Ed.Editor.RunStar | kernel1/weenix-assignment-1.0.7/weenix/user/bin/ed.c:1397-1413 | The run measured is the longest one of characters the starred item takes |
| Ed.Editor.AdvanceStar | kernel1/weenix-assignment-1.0.7/weenix/user/bin/ed.c:1397-1423 | Trying the longest run first and then shorter ones finds a match exactly if there is one, and it is the greedy one: its first star takes as much as leaves the rest a match, then its second, and so on |
| Ed.Editor.Advance | kernel1/weenix-assignment-1.0.7/weenix/user/bin/ed.c:1347-1428 | The backtracking matcher says yes exactly if some prefix of the text is in the language; then loc2 is the end of the greedy match, the lexicographically largest way to share out the text, and the groups recorded are where that match has their marks |
| Ed.Editor.FastCheck | kernel1/weenix-assignment-1.0.7/weenix/user/bin/ed.c:1324-1336 | Places skipped because the first character differs have no match |
| Ed.Editor.Execute | kernel1/weenix-assignment-1.0.7/weenix/user/bin/ed.c:1298-1345 | A line matches exactly if the language has a substring of it, subject to the anchor; loc1 is the leftmost place, loc2 the end of the greedy match there, and the groups recorded are those of that match |
| Ed.SearchWord | kernel1/weenix-assignment-1.0.7/weenix/user/bin/ed.c:1188-1345 | Compiling a word without notation in it and executing it succeeds exactly on the lines that contain the word, and finds its first place |
| Matching.SplitsLanguage | kernel1/weenix-assignment-1.0.7/weenix/user/bin/ed.c:1347-1428 | A text is in the language of the items exactly if the items can share it out, each taking its part |
| Matching.GreedyStar | kernel1/weenix-assignment-1.0.7/weenix/user/bin/ed.c:1397-1423 | A star that takes as much as leaves the rest a match, followed by the greedy match of the rest, is the greedy match |
| Matching.StarRun | kernel1/weenix-assignment-1.0.7/weenix/user/bin/ed.c:1397-1423 | Trying every end of the longest run tries every way to match |
| Notation.WrittenPattern | kernel1/weenix-assignment-1.0.7/weenix/user/bin/ed.c:1188-1296 | A text is read as a pattern exactly if it stands for one in the notation, with literals plain or escaped wherever they are no notation, any number of stars, an anchor or none, and any delimiter; then it is read as what it stands for |
| Notation.SpellsRead | kernel1/weenix-assignment-1.0.7/weenix/user/bin/ed.c:1215-1292 | Reading goes over every string that stands for some items and has exactly those items |
| Notation.StopWritten | kernel1/weenix-assignment-1.0.7/weenix/user/bin/ed.c:1215-1292 | Up to where reading stops, whatever the text, it stands for the items that were read |
| Notation.WrittenBadStar | kernel1/weenix-assignment-1.0.7/weenix/user/bin/ed.c:1256-1260 | Reading fails at a star after a group mark exactly if the text has one there |
| Notation.WriteParse | kernel1/weenix-assignment-1.0.7/weenix/user/bin/ed.c:1188-1296 | Every tree within the limits has a pattern, which is read as the tree |
| Notation.WordPattern | kernel1/weenix-assignment-1.0.7/weenix/user/bin/ed.c:1287-1290 | A word without notation is a pattern for its letters |
| Notation.LettersLanguage | kernel1/weenix-assignment-1.0.7/weenix/user/bin/ed.c:1354-1360 | The language of a word's letters is the word alone |
| Pframe.PageCache.constructor | kernel1/weenix-assignment-1.0.7/weenix/kernel/mm/pframe.c:122-145 | No page is resident |
| Pframe.PageCache.GetResident | kernel1/weenix-assignment-1.0.7/weenix/kernel/mm/pframe.c:189-211 | The hash chain has the page exactly when it is resident; an unpinned page found goes to the end of the queue |
| Pframe.PageCache.Alloc | kernel1/weenix-assignment-1.0.7/weenix/kernel/mm/pframe.c:226-256 | A new page enters its object's list, the hash table and the queue of unpinned pages, and is counted |
| Pframe.PageCache.Pin | kernel1/weenix-assignment-1.0.7/weenix/kernel/mm/pframe.c:381-398 | Only the pin count changes; the first pin moves the page between the two queues |
| Pframe.PageCache.Unpin | kernel1/weenix-assignment-1.0.7/weenix/kernel/mm/pframe.c:410-429 | The last unpin moves it back |
| Pframe.PageCache.Clean | kernel1/weenix-assignment-1.0.7/weenix/kernel/mm/pframe.c:470-500 | A dirty unpinned page becomes clean |
| Pframe.PageCache.Free | kernel1/weenix-assignment-1.0.7/weenix/kernel/mm/pframe.c:510-543 | The page leaves its object, the table and the queue |
| Pframe.PageCache.Move | kernel1/weenix-assignment-1.0.7/weenix/kernel/mm/pframe.c:353-364 | The page changes object in both lists, the table and both counts |
| Pframe.PageCache.Migrate | kernel1/weenix-assignment-1.0.7/weenix/kernel/mm/pframe.c:345-366 | The page becomes the destination's, or is dropped if the destination has that page already; the assertions of unpinning, cleaning and freeing hold |
| Pframe.LookupAgrees | kernel1/weenix-assignment-1.0.7/weenix/kernel/mm/pframe.c:189-211 | Looking in the hash chain and scanning the object's list find the same page |
| Shadow.LookupPage | kernel1/weenix-assignment-1.0.7/weenix/kernel/vm/shadow.c:134-160 | For reading, the page found is the nearest one down the chain; for writing there is none |
| Shadow.SoleParent | kernel1/weenix-assignment-1.0.7/weenix/kernel/vm/shadowd.c:72-74 | An object with one counted reference has no parent but the one the walk came from |
| Shadow.MoveKeepsView | kernel1/weenix-assignment-1.0.7/weenix/kernel/vm/shadowd.c:76-85 | Moving a page up one object, or dropping it where it is hidden, changes what no other object sees |
| Shadow.SpliceKeepsView | kernel1/weenix-assignment-1.0.7/weenix/kernel/vm/shadowd.c:86-91 | Taking an object without pages out of a chain changes what no other object sees |
| Shadow.SpliceSound | kernel1/weenix-assignment-1.0.7/weenix/kernel/vm/shadowd.c:86-91 | The counts stay right, up to a reference that is not released |
| Chains.SurvivesReleasing | kernel1/weenix-assignment-1.0.7/weenix/kernel/vm/shadowd.c:70-99 | With references released, the walk's assertion holds exactly if every inner object has one or two counted references |
| Chains.ReleasingLeavesNone | kernel1/weenix-assignment-1.0.7/weenix/kernel/vm/shadowd.c:70-99 | With references released, the walk leaves no single-parent object |
| Chains.UnreleasedWalkOk | kernel1/weenix-assignment-1.0.7/weenix/kernel/vm/shadowd.c:70-99 | As the code stands, the walk's assertion holds exactly if every inner object has one reference, or two below an even run of objects with one |
| Chains.UnreleasedLeaves | kernel1/weenix-assignment-1.0.7/weenix/kernel/vm/shadowd.c:70-99 | It then leaves exactly every second object of each run of objects with one reference |
| Chains.UnreleasedPairs | kernel1/weenix-assignment-1.0.7/weenix/kernel/vm/shadowd.c:70-99 | So it leaves something exactly if two inner objects in a row have one reference each |
| Chains.InnerMeans | kernel1/weenix-assignment-1.0.7/weenix/kernel/vm/shadowd.c:70-99 | The inner objects of a chain are those strictly between its ends |
| Chains.UnreleasedExample | kernel1/weenix-assignment-1.0.7/weenix/kernel/vm/shadowd.c:87-91 | A chain of four objects below one area, with exact counts, in which one is left |
| Chains.UnreleasedPanics | kernel1/weenix-assignment-1.0.7/weenix/kernel/vm/shadowd.c:92-93 | Two areas whose chains meet, with exact counts and no object with more than two parents: the assertion fails as the code stands and holds with references released |
| Chains.SettledKept | kernel1/weenix-assignment-1.0.7/weenix/kernel/vm/shadowd.c:70-99 | A chain already settled stays so when another is worked on |
| Chains.WalksKept | kernel1/weenix-assignment-1.0.7/weenix/kernel/vm/shadowd.c:70-99 | A splice changes neither whether another chain can be walked nor what walking it leaves, whether or not references are released |
| Chains.StaysUnnoticed | kernel1/weenix-assignment-1.0.7/weenix/kernel/vm/shadowd.c:70-99 | What that needs without releasing holds as long as the walk at work does not fail its assertion |
| Chains.SettledLeaves | kernel1/weenix-assignment-1.0.7/weenix/kernel/vm/shadowd.c:70-99 | Walking a settled chain leaves exactly the single-parent objects it has |
| Shadowd.Ref | kernel1/weenix-assignment-1.0.7/weenix/kernel/vm/shadow.c:85-92 | One more reference |
| Shadowd.Put | kernel1/weenix-assignment-1.0.7/weenix/kernel/vm/shadow.c:102-125 | One reference fewer, and nothing else even for the last one of an object without pages |
| Shadowd.MigrateOne | kernel1/weenix-assignment-1.0.7/weenix/kernel/vm/shadowd.c:77-85 | One page goes up; no area sees a difference |
| Shadowd.MigrateAll | kernel1/weenix-assignment-1.0.7/weenix/kernel/vm/shadowd.c:76-85 | All pages go up; no area sees a difference |
| Shadowd.Unlink | kernel1/weenix-assignment-1.0.7/weenix/kernel/vm/shadowd.c:86-91 | The assertion on the spliced object's counts holds and it leaves the chain |
| Shadowd.SpliceOut | kernel1/weenix-assignment-1.0.7/weenix/kernel/vm/shadowd.c:74-91 | A single-parent object leaves the chain; no area sees a difference |
| Shadowd.StepSplice | kernel1/weenix-assignment-1.0.7/weenix/kernel/vm/shadowd.c:74-91 | The first branch keeps the walk's invariant |
| Shadowd.StepDown | kernel1/weenix-assignment-1.0.7/weenix/kernel/vm/shadowd.c:92-97 | The second branch keeps the walk's invariant |
| Shadowd.Walk | kernel1/weenix-assignment-1.0.7/weenix/kernel/vm/shadowd.c:65-101 | The walk succeeds exactly if the chain's counts allow it; then every page every area sees is as before, the single-parent objects of the chain are exactly those characterised, and every other chain can be walked as before |
| Shadowd.Pass | kernel1/weenix-assignment-1.0.7/weenix/kernel/vm/shadowd.c:58-104 | Whether references are released or not: the pass succeeds exactly if every chain of a running process could be walked at the start; then every area sees the same pages and the single-parent objects left on each chain are those its walk leaves in the tree at the start |
| Shadowd.SinglesHaveOneParent | kernel1/weenix-assignment-1.0.7/weenix/kernel/vm/shadowd.c:40-51 | Counting as single-parent means having exactly one parent |
| Shadowd.ReleasedNoneLeft | kernel1/weenix-assignment-1.0.7/weenix/kernel/vm/shadowd.c:40-51 | After a pass from exact counts with references released, no inner object of a walked chain has a single parent |
| Shadowd.UnreleasedPairsLeft | kernel1/weenix-assignment-1.0.7/weenix/kernel/vm/shadowd.c:40-51 | After one without, a walked chain has such an object exactly if two in a row had one reference each before |
| S5Blocks.PushedStack | kernel1/weenix-assignment-1.0.7/weenix/tools/fsmaker/api.py:70-79 | On the stack of free blocks that superblock and node blocks stand for, freeing is a push |
| S5Blocks.PoppedStack | kernel1/weenix-assignment-1.0.7/weenix/tools/fsmaker/api.py:633-648 | Allocating is a pop |
| S5Blocks.StackKept | kernel1/weenix-assignment-1.0.7/weenix/tools/fsmaker/api.py:70-79 | Writing to blocks that are not free leaves the stack as it was |
| S5Blocks.FreeThenAlloc | kernel1/weenix-assignment-1.0.7/weenix/tools/fsmaker/api.py:70-79 | What was freed last is allocated first, and then the list is as it was |
| S5.Disk.AllocBlock | kernel1/weenix-assignment-1.0.7/weenix/tools/fsmaker/api.py:633-648 | The top of the stack; no space exactly with an empty stack, and an error exactly for a bad count |
| S5.Disk.StoreNode | kernel1/weenix-assignment-1.0.7/weenix/tools/fsmaker/api.py:75-77 | The superblock's list is stored as little-endian words and the rest of the block stays |
| S5.Disk.FreeBlock | kernel1/weenix-assignment-1.0.7/weenix/tools/fsmaker/api.py:70-79 | The block is pushed |
| S5.Disk.KernelFreeBlock | kernel1/weenix-assignment-1.0.7/weenix/kernel/fs/s5fs/s5fs_subr.c:178-210 | The kernel's version leaves the same bytes on the disk and the same superblock as the tool's |
| S5.Disk.AllocZeroed | kernel1/weenix-assignment-1.0.7/weenix/tools/fsmaker/api.py:65-68 | A zeroed block nobody owns; no file changes |
| S5.Disk.Locate | kernel1/weenix-assignment-1.0.7/weenix/tools/fsmaker/api.py:242-252 | The block number of a place in a file, with the indirect block made on the way; no file's bytes change |
| S5.Disk.Provide | kernel1/weenix-assignment-1.0.7/weenix/tools/fsmaker/api.py:253-260 | A place without a block gets one; no file's bytes change |
| S5.Disk.BlockFor | kernel1/weenix-assignment-1.0.7/weenix/tools/fsmaker/api.py:242-262 | The two together |
| S5.Disk.WriteBlock | kernel1/weenix-assignment-1.0.7/weenix/tools/fsmaker/api.py:239-268 | One round puts its part of the data at its place and changes no other byte of any file |
| S5.Disk.Write | kernel1/weenix-assignment-1.0.7/weenix/tools/fsmaker/api.py:232-270 | The file's bytes become the old ones with the data put in; size, errors and the part written when space runs out are as stated, and it runs out exactly if the missing blocks, with a missing indirect block, outnumber the free ones; no other file changes and every block has one owner |
| S5.Disk.ReadPart | kernel1/weenix-assignment-1.0.7/weenix/tools/fsmaker/api.py:211-227 | The bytes of one block, zeros for a hole |
| S5.Disk.Read | kernel1/weenix-assignment-1.0.7/weenix/tools/fsmaker/api.py:203-230 | The slice of the file's contents, cut at its size |
| S5Files.GivenOwned | kernel1/weenix-assignment-1.0.7/weenix/tools/fsmaker/api.py:253-260 | A block nobody owns can be given to a place without one, and ownership stays exclusive |
| S5Files.GivenSameFiles | kernel1/weenix-assignment-1.0.7/weenix/tools/fsmaker/api.py:253-260 | If it is zeroed no file changes |
| S5Files.TakeZeroed | kernel1/weenix-assignment-1.0.7/weenix/tools/fsmaker/api.py:246-247 | Allocating and clearing keeps every file |
| S5Files.WriteData | kernel1/weenix-assignment-1.0.7/weenix/tools/fsmaker/api.py:262-266 | Writing to a block of one file changes that file at those places and no other file |
| S5Inodes.WriteSplices | kernel1/weenix-assignment-1.0.7/weenix/tools/fsmaker/api.py:232-270 | A write that succeeds splices the data into the contents, with zeros where the file was shorter |
| S5Inodes.PartialWrite | kernel1/weenix-assignment-1.0.7/weenix/tools/fsmaker/api.py:232-270 | One that runs out of space leaves the contents spliced up to the old size; bytes past the end stay zero exactly if no other byte was written there |
| S5.Disk.FreeDirect | kernel1/weenix-assignment-1.0.7/weenix/kernel/fs/s5fs/s5fs_subr.c:299-308 | The direct blocks go to the free list |
| S5.Disk.FreeEntries | kernel1/weenix-assignment-1.0.7/weenix/kernel/fs/s5fs/s5fs_subr.c:324-329 | The blocks named in the indirect block go to the free list, although freeing may write to blocks; its assertion holds |
| S5.Disk.FreeAllBlocks | kernel1/weenix-assignment-1.0.7/weenix/kernel/fs/s5fs/s5fs_subr.c:299-334 | All blocks of the inode, each once |
| S5.Disk.FreeInode | kernel1/weenix-assignment-1.0.7/weenix/kernel/fs/s5fs/s5fs_subr.c:287-347 | Every block of the file goes to the free list once, the inode becomes the first free one, and no other file changes |
| S5.Disk.AllocInode | kernel1/weenix-assignment-1.0.7/weenix/kernel/fs/s5fs/s5fs_subr.c:218-273 | The first free inode becomes an empty file of zeros, or a device with its number; none exactly if there is no free one |
| S5Inodes.BlocksOfOwner | kernel1/weenix-assignment-1.0.7/weenix/kernel/fs/s5fs/s5fs_subr.c:299-334 | The blocks of one inode are not those of another |
| S5Inodes.Released | kernel1/weenix-assignment-1.0.7/weenix/kernel/fs/s5fs/s5fs_subr.c:287-347 | Once its blocks are free the inode can be marked free, and the other files are as they were |
| S5Inodes.FreshInode | kernel1/weenix-assignment-1.0.7/weenix/kernel/fs/s5fs/s5fs_subr.c:258-266 | A new file reads as zeros |
| Sched.OnePlace | kernel1/weenix-assignment-1.0.7/weenix/kernel/proc/sched.c:30-77 | Every thread is in exactly one place: executing, on one queue once, not started or exited; its wait channel names that queue |
| Sched.StepInv | kernel1/weenix-assignment-1.0.7/weenix/kernel/proc/sched.c:100-345 | Every operation keeps that and the sizes of the queues |
| Sched.EveryRun | kernel1/weenix-assignment-1.0.7/weenix/kernel/proc/sched.c:100-345 | After every run no thread is lost or in two places |
| Sched.AwakeInv | kernel1/weenix-assignment-1.0.7/weenix/kernel/proc/sched.c:195-209 | Waking the longest waiter keeps the invariant |
| Sched.AllAwakeInOrder | kernel1/weenix-assignment-1.0.7/weenix/kernel/proc/sched.c:211-223 | Broadcast moves all waiters behind the runnable threads in the order in which they waited |
| Sched.InRunLine | kernel1/weenix-assignment-1.0.7/weenix/kernel/proc/sched.c:30-62 | No step lets anybody overtake on the run queue, and only a switch moves the line |
| Sched.KthRunnable | kernel1/weenix-assignment-1.0.7/weenix/kernel/proc/sched.c:281-345 | In every run the k-th in line for the processor is the current thread after the k-th switch, whatever happens in between, and keeps its place until then |
| Sched.JoinsBehind | kernel1/weenix-assignment-1.0.7/weenix/kernel/proc/sched.c:333-345 | Who becomes runnable, by yielding, being started, woken or cancelled, is behind all that were runnable |
| Sched.WakesLongest | kernel1/weenix-assignment-1.0.7/weenix/kernel/proc/sched.c:195-209 | A wakeup takes the first in line, who becomes the last in line for the processor, and moves the others up |
| Sched.SleepsBehind | kernel1/weenix-assignment-1.0.7/weenix/kernel/proc/sched.c:100-110 | Who goes to sleep is behind all that sleep on the queue |
| Sched.CancelWakes | kernel1/weenix-assignment-1.0.7/weenix/kernel/proc/sched.c:234-243 | The flag is set; a cancellable sleeper leaves its queue, where the others keep their order, and becomes the last in line for the processor; nothing else changes |
| Sched.CancelledFlag | kernel1/weenix-assignment-1.0.7/weenix/kernel/proc/sched.c:100-345 | In every run a thread is cancelled exactly if it was before or somebody cancels it |
| Sched.ExitedForGood | kernel1/weenix-assignment-1.0.7/weenix/kernel/proc/sched.c:100-345 | In every run a thread that has exited never runs, sleeps or waits again |
| SchedOps.Scheduler.constructor | kernel1/weenix-assignment-1.0.7/weenix/kernel/proc/sched.c:14-18 | One thread executes and the run queue is empty |
| SchedOps.Scheduler.KtqueueEnqueue | kernel1/weenix-assignment-1.0.7/weenix/kernel/proc/sched.c:30-37 | The thread is put at the tail |
| SchedOps.Scheduler.KtqueueDequeue | kernel1/weenix-assignment-1.0.7/weenix/kernel/proc/sched.c:45-62 | The longest waiter leaves, if any |
| SchedOps.Scheduler.KtqueueRemove | kernel1/weenix-assignment-1.0.7/weenix/kernel/proc/sched.c:70-77 | A given thread leaves |
| SchedOps.Scheduler.QueueInit | kernel1/weenix-assignment-1.0.7/weenix/kernel/proc/sched.c:80-85 | A new empty queue |
| SchedOps.Scheduler.MakeRunnable | kernel1/weenix-assignment-1.0.7/weenix/kernel/proc/sched.c:333-345 | A thread on no queue joins the run queue |
| SchedOps.Scheduler.WakeupOn | kernel1/weenix-assignment-1.0.7/weenix/kernel/proc/sched.c:195-209 | The longest waiter becomes runnable; the assertion on its state holds |
| SchedOps.Scheduler.BroadcastOn | kernel1/weenix-assignment-1.0.7/weenix/kernel/proc/sched.c:211-223 | The loop is the specified step for all waiters |
| SchedOps.Scheduler.Cancel | kernel1/weenix-assignment-1.0.7/weenix/kernel/proc/sched.c:234-243 | The flag is set, and a cancellable sleeper becomes runnable |
| SchedOps.Scheduler.Interrupt | kernel1/weenix-assignment-1.0.7/weenix/kernel/proc/sched.c:281-300 | A wakeup from an interrupt is a step of the scheduler |
| SchedOps.Scheduler.ChooseNext | kernel1/weenix-assignment-1.0.7/weenix/kernel/proc/sched.c:292-318 | The thread first in line becomes the current one, and all others move up by one place |
| SchedOps.Scheduler.Switch | kernel1/weenix-assignment-1.0.7/weenix/kernel/proc/sched.c:281-318 | The switch is a run of wakeups while nothing is runnable, followed by a dispatch; if something is runnable it takes the first in line at once and the others move up |
| SchedOps.Scheduler.GoToSleep | kernel1/weenix-assignment-1.0.7/weenix/kernel/proc/sched.c:100-137 | Going to sleep and switching is a run of the specified steps |
| SchedOps.Scheduler.SleepOn | kernel1/weenix-assignment-1.0.7/weenix/kernel/proc/sched.c:100-138 | The uncancellable form |
| SchedOps.Scheduler.CancellableSleepOn | kernel1/weenix-assignment-1.0.7/weenix/kernel/proc/sched.c:148-193 | A thread already cancelled gets the error and nothing changes; another sleeps |
| Kmutex.MutualExclusion | kernel1/weenix-assignment-1.0.7/weenix/kernel/proc/kmutex.c:34-102 | After every run at most one thread is between lock and unlock, it is the recorded holder, and a free mutex has no waiters |
| Kmutex.WorldStep | kernel1/weenix-assignment-1.0.7/weenix/kernel/proc/kmutex.c:34-102 | Every step, of mutexes or of the scheduler, keeps the invariant |
| Kmutex.EveryWorldRun | kernel1/weenix-assignment-1.0.7/weenix/kernel/proc/kmutex.c:34-102 | So does every run |
| Kmutex.DispatchReturns | kernel1/weenix-assignment-1.0.7/weenix/kernel/proc/kmutex.c:34-49 | A thread comes back from lock only as the holder |
| Kmutex.TakeWorld | kernel1/weenix-assignment-1.0.7/weenix/kernel/proc/kmutex.c:34-49 | Lock of a free mutex |
| Kmutex.WaitWorld | kernel1/weenix-assignment-1.0.7/weenix/kernel/proc/kmutex.c:34-49 | Lock of a held mutex puts the caller last in line |
| Kmutex.UnlockWorld | kernel1/weenix-assignment-1.0.7/weenix/kernel/proc/kmutex.c:88-102 | Unlock hands over to the longest waiter; the assertion that the caller is not the holder holds |
| Kmutex.InLine | kernel1/weenix-assignment-1.0.7/weenix/kernel/proc/kmutex.c:34-102 | No step lets anyone overtake; only unlock moves the line |
| Kmutex.KthWaiter | kernel1/weenix-assignment-1.0.7/weenix/kernel/proc/kmutex.c:34-102 | The k-th in line gets the mutex with the k-th unlock |
| KmutexOps.LockRun | kernel1/weenix-assignment-1.0.7/weenix/kernel/proc/kmutex.c:34-49 | Sleeping in lock until some thread is chosen is a run of the whole system |
| KmutexOps.Mutexes.constructor | kernel1/weenix-assignment-1.0.7/weenix/kernel/proc/kmutex.c:20-26 | No mutexes |
| KmutexOps.Mutexes.Init | kernel1/weenix-assignment-1.0.7/weenix/kernel/proc/kmutex.c:20-26 | A free mutex without waiters |
| KmutexOps.Mutexes.Lock | kernel1/weenix-assignment-1.0.7/weenix/kernel/proc/kmutex.c:34-49 | The code is such a run, and takes a free mutex at once |
| KmutexOps.Mutexes.Unlock | kernel1/weenix-assignment-1.0.7/weenix/kernel/proc/kmutex.c:88-102 | The code is the specified hand-over |
| Init.Starter.CallAll | kernel1/weenix-assignment-1.0.7/weenix/kernel/util/init.c:105-121 | If start-up does not panic every function has been called once and after all it depends on; it does not panic exactly if what each search pulls in is a tree |
| Init.Starter.SearchFrom | kernel1/weenix-assignment-1.0.7/weenix/kernel/util/init.c:117-120 | One search succeeds exactly if what it pulls in is a tree, and calls exactly that |
| Init.Starter.Call | kernel1/weenix-assignment-1.0.7/weenix/kernel/util/init.c:27-66 | A call either ends with its function called after its dependencies, or panics on something that is no tree; the assertion that it has not been called meanwhile holds |
| Init.Starter.Find | kernel1/weenix-assignment-1.0.7/weenix/kernel/util/init.c:33-38 | The first function of that name |
| Init.PanicMeansNoTree | kernel1/weenix-assignment-1.0.7/weenix/kernel/util/init.c:41-49 | A panic means a missing name, or a function reached in two ways |
| Init.SearchEnds | kernel1/weenix-assignment-1.0.7/weenix/kernel/util/init.c:27-66 | A search that ends has marked what it reached, and that is a tree |
| Init.OrderHasNoCycle | kernel1/weenix-assignment-1.0.7/weenix/kernel/util/init.c:27-66 | A successful order leaves no room for a cycle |
| Init.DiamondPanics | kernel1/weenix-assignment-1.0.7/weenix/kernel/util/init.c:46-49 | The check is stricter than its message: two functions sharing a dependency panic without any cycle |
| Init.Starter.constructor | kernel1/weenix-assignment-1.0.7/weenix/kernel/util/init.c:77-101 | Nothing has been called |
| Vsnprintf.Vsnprintf | kernel1/weenix-assignment-1.0.7/weenix/kernel/util/printf.c:280-510 | The value is the length of the whole output whatever the size; the buffer gets its first part with a NUL behind it, nothing past the size is written, and size 0 touches nothing; what the output is the laws of whole formats tell |
| Vsnprintf.Convert | kernel1/weenix-assignment-1.0.7/weenix/kernel/util/printf.c:372-499 | Each conversion appends the text, and takes the words, that the laws of the conversions tell of |
| Vsnprintf.ScanSpec | kernel1/weenix-assignment-1.0.7/weenix/kernel/util/printf.c:313-367 | What is read is a directive of flags, width, precision and qualifier that stands there, with its meaning; a directive followed by a letter is read as a whole |
| Vsnprintf.SpecRoundTrip | kernel1/weenix-assignment-1.0.7/weenix/kernel/util/printf.c:313-367 | Every directive that can be written is read as what it means: flags present, numbers, starred arguments with negative ones, and the width of the integer |
| Vsnprintf.SpecIsWritten | kernel1/weenix-assignment-1.0.7/weenix/kernel/util/printf.c:313-367 | From every format, well formed or not, what is read is the meaning of some directive that stands there |
| Vsnprintf.SkipFlags | kernel1/weenix-assignment-1.0.7/weenix/kernel/util/printf.c:313-323 | A flag is set exactly if its character stands before the first that is no flag, and there it stops |
| Vsnprintf.SkipAtoi | kernel1/weenix-assignment-1.0.7/weenix/kernel/util/printf.c:152-159 | The decimal value of the longest run of digits, and where it ends |
| Vsnprintf.PutField | kernel1/weenix-assignment-1.0.7/weenix/kernel/util/printf.c:373-416 | Padding of characters and strings to the width, on either side |
| Vsnprintf.FormatAppends | kernel1/weenix-assignment-1.0.7/weenix/kernel/util/printf.c:280-510 | What is written later does not depend on what came before |
| Vsnprintf.PlainText | kernel1/weenix-assignment-1.0.7/weenix/kernel/util/printf.c:305-311 | Text without conversions is written as it is |
| Conversions.FormatMeans | kernel1/weenix-assignment-1.0.7/weenix/kernel/util/printf.c:280-510 | A format made of text and conversions is written as what its pieces stand for, one after the other, with the arguments in order and %n storing the number of characters before it; a conversion cut off at the end is a percent sign |
| Conversions.UnsignedConversion | kernel1/weenix-assignment-1.0.7/weenix/kernel/util/printf.c:443-499 | %o, %x, %X and %u write the argument, as an unsigned number of 16, 32 or 64 bits by its qualifier, in base 8, 16, 16 and 10; the length is the larger of width and number, the place of digits and padding is as the flags say, and letters are large for %X only |
| Conversions.UnsignedReadBack | kernel1/weenix-assignment-1.0.7/weenix/kernel/util/printf.c:114-499 | Reading that text in the base, or with the prefix telling it, gives the argument, exactly if there are no spaces in front nor a large X, or it is 0 |
| Conversions.SignedConversion | kernel1/weenix-assignment-1.0.7/weenix/kernel/util/printf.c:455-499 | %d and %i write it as a signed number in base 10 with the sign in front; it reads back exactly if there are no spaces in front and no plus or space for the sign, or it is 0 |
| Conversions.PointerConversion | kernel1/weenix-assignment-1.0.7/weenix/kernel/util/printf.c:418-426 | %p writes the word in base 16, without a width filled with zeros to eight digits, and it reads back likewise |
| Conversions.CharConversion | kernel1/weenix-assignment-1.0.7/weenix/kernel/util/printf.c:373-389 | %c writes the low byte of its word in a field of the width |
| Conversions.StringConversion | kernel1/weenix-assignment-1.0.7/weenix/kernel/util/printf.c:391-416 | %s writes its string, cut to the precision, in a field of the width; the address 0 has its own text |
| Conversions.OtherConversion | kernel1/weenix-assignment-1.0.7/weenix/kernel/util/printf.c:429-474 | %% and %n, and letters that are no conversion, which take no argument and are written as they are |
| Conversions.ArgumentIs | kernel1/weenix-assignment-1.0.7/weenix/kernel/util/printf.c:480-496 | The number printed is congruent to the argument words modulo the qualifier's width and in its range, signed or not |
| Printf.Writer.Number | kernel1/weenix-assignment-1.0.7/weenix/kernel/util/printf.c:169-268 | The loops write sign, prefix, padding, zeros and digits as specified, with truncation past the end |
| Printf.Writer.Front | kernel1/weenix-assignment-1.0.7/weenix/kernel/util/printf.c:219-251 | The part before the digits |
| Printf.Writer.PutWhile | kernel1/weenix-assignment-1.0.7/weenix/kernel/util/printf.c:220-224 | A run of one character; what the counter has become |
| Printf.Writer.PutDigits | kernel1/weenix-assignment-1.0.7/weenix/kernel/util/printf.c:257-261 | The digits kept backwards come out forwards |
| Printf.Writer.Put | kernel1/weenix-assignment-1.0.7/weenix/kernel/util/printf.c:221-223 | Characters past the end are counted and not stored |
| Printf.WriteDigits | kernel1/weenix-assignment-1.0.7/weenix/kernel/util/printf.c:203-215 | The digits of a 64-bit number in any base fit the local buffer |
| Printf.NumberField | kernel1/weenix-assignment-1.0.7/weenix/kernel/util/printf.c:183-266 | The text is as long as the larger of width and number, and padding is spaces behind, zeros before the digits, or spaces in front |
| Printf.NaturalFront | kernel1/weenix-assignment-1.0.7/weenix/kernel/util/printf.c:186-245 | Sign first, then the prefix with the letter in the right case |
| Printf.NumberCase | kernel1/weenix-assignment-1.0.7/weenix/kernel/util/printf.c:177-245 | Letters are all large or all small |
| Printf.UnsignedRoundTrip | kernel1/weenix-assignment-1.0.7/weenix/kernel/util/printf.c:114-268 | What number() writes reads back in its base, exactly if there are no spaces in front and no prefix for hexadecimal, or it is 0 |
| Printf.PrefixRoundTrip | kernel1/weenix-assignment-1.0.7/weenix/kernel/util/printf.c:114-268 | With a prefix it reads back without being told the base, exactly if there are no spaces in front and the prefix has no large letter, or it is 0 |
| Printf.SignedRoundTrip | kernel1/weenix-assignment-1.0.7/weenix/kernel/util/printf.c:114-268 | Signed numbers, the smallest included, read back exactly if also no plus or space stands for the sign |
| Printf.SignedPrefixRoundTrip | kernel1/weenix-assignment-1.0.7/weenix/kernel/util/printf.c:114-268 | With a prefix they do without being told the base, exactly if also the prefix has no large letter |
| Numerals.Strtoull | kernel1/weenix-assignment-1.0.7/weenix/kernel/util/printf.c:114-137 | The value of the longest run of digits after the base is settled, modulo 2^64, and where it ends |
| Numerals.Strtoll | kernel1/weenix-assignment-1.0.7/weenix/kernel/util/printf.c:145-150 | The same with a sign, as a 64-bit signed number |
| Numerals.DigitsValue | kernel1/weenix-assignment-1.0.7/weenix/kernel/util/printf.c:203-215 | The digits written stand for the number |
| Numerals.LeadingZeros | kernel1/weenix-assignment-1.0.7/weenix/kernel/util/printf.c:252-256 | Zeros in front do not count |
| Numerals.ReadBack | kernel1/weenix-assignment-1.0.7/weenix/kernel/util/printf.c:114-137 | Zeros and digits between a settled base and something that is no digit read as the number |
| Numerals.DecimalDetected | kernel1/weenix-assignment-1.0.7/weenix/kernel/util/printf.c:114-137 | Digits without a zero in front read as decimal when the base is to be found out |
| Elf32.CalcArgsize | kernel1/weenix-assignment-1.0.7/weenix/kernel/api/elf32.c:303-347 | The size is that of head, vectors, strings and one table for each AT_PHDR |
| Elf32.LoadArgs | kernel1/weenix-assignment-1.0.7/weenix/kernel/api/elf32.c:360-432 | A buffer of just that size is filled with the whole image, in bounds |
| Elf32.LoadHead | kernel1/weenix-assignment-1.0.7/weenix/kernel/api/elf32.c:366-387 | argc and the three pointers |
| Elf32.LoadVector | kernel1/weenix-assignment-1.0.7/weenix/kernel/api/elf32.c:389-401 | Each string and the pointer to it, a null pointer at the end, nothing else touched |
| Elf32.LoadEntry | kernel1/weenix-assignment-1.0.7/weenix/kernel/api/elf32.c:419-427 | One auxiliary entry; the program header table if it points to it |
| Elf32.LoadAux | kernel1/weenix-assignment-1.0.7/weenix/kernel/api/elf32.c:417-431 | All entries and the end mark |
| Elf32.ArgumentsRead | kernel1/weenix-assignment-1.0.7/weenix/kernel/api/elf32.c:360-438 | Following the pointers as the program does gives argc, argv and envp back |
| Elf32.AuxRead | kernel1/weenix-assignment-1.0.7/weenix/kernel/api/elf32.c:417-431 | And the auxiliary vector, AT_PHDR leading to the table copied last |
| Elf32.OnlyHeader | kernel1/weenix-assignment-1.0.7/weenix/kernel/api/elf32.c:422-427 | With one AT_PHDR that is its own table |
| Ramfs.MemoryFs.constructor | kernel1/weenix-assignment-1.0.7/weenix/kernel/fs/ramfs/ramfs.c:190-230 | A root directory with its vnode |
| Ramfs.MemoryFs.Vget | kernel1/weenix-assignment-1.0.7/weenix/kernel/fs/vnode.c:114-203 | One more reference; the first also counts as a link |
| Ramfs.MemoryFs.Vput | kernel1/weenix-assignment-1.0.7/weenix/kernel/fs/vnode.c:228-303 | The inode goes exactly if this was the last reference and nothing names it |
| Ramfs.GotThenPut | kernel1/weenix-assignment-1.0.7/weenix/kernel/fs/vnode.c:114-303 | Getting and putting leaves the file system as it was |
| RamfsTable.VnodeReadInv | kernel1/weenix-assignment-1.0.7/weenix/kernel/fs/ramfs/ramfs.c:232-267 | Reading a vnode in keeps the invariant |
| RamfsTable.VnodeDeletedInv | kernel1/weenix-assignment-1.0.7/weenix/kernel/fs/ramfs/ramfs.c:269-287 | Deleting a vnode keeps it, and frees the inode exactly if nothing names it |
| Ramfs.MemoryFs.FindSlot | kernel1/weenix-assignment-1.0.7/weenix/kernel/fs/ramfs/ramfs.c:404-419 | The first slot with the name, or none has it |
| Ramfs.MemoryFs.FreeInode | kernel1/weenix-assignment-1.0.7/weenix/kernel/fs/ramfs/ramfs.c:145-184 | An unused inode number, unless there is none or no memory |
| Ramfs.MemoryFs.AddInode | kernel1/weenix-assignment-1.0.7/weenix/kernel/fs/ramfs/ramfs.c:320-358 | The common part of making something: its new inode with its mode, and the name that stands for it, or no room, exactly if there is none |
| Ramfs.MemoryFs.Create | kernel1/weenix-assignment-1.0.7/weenix/kernel/fs/ramfs/ramfs.c:320-358 | A new file with its name and vnode |
| Ramfs.MemoryFs.Mknod | kernel1/weenix-assignment-1.0.7/weenix/kernel/fs/ramfs/ramfs.c:361-402 | A new block or character device with its name |
| Ramfs.MemoryFs.Mkdir | kernel1/weenix-assignment-1.0.7/weenix/kernel/fs/ramfs/ramfs.c:484-529 | A new directory with its name, and entries for itself and its parent |
| Ramfs.MemoryFs.Link | kernel1/weenix-assignment-1.0.7/weenix/kernel/fs/ramfs/ramfs.c:421-453 | One more link, and a name that stands for the inode |
| Ramfs.MemoryFs.RemoveName | kernel1/weenix-assignment-1.0.7/weenix/kernel/fs/ramfs/ramfs.c:463-481 | One fewer, and the vnode put |
| Ramfs.MemoryFs.Unlink | kernel1/weenix-assignment-1.0.7/weenix/kernel/fs/ramfs/ramfs.c:455-482 | The name goes, and the inode with it exactly if that was its only name and nobody holds its vnode |
| Ramfs.MemoryFs.IsEmpty | kernel1/weenix-assignment-1.0.7/weenix/kernel/fs/ramfs/ramfs.c:550-561 | Whether the directory has names other than dot and dot-dot |
| Ramfs.MemoryFs.Rmdir | kernel1/weenix-assignment-1.0.7/weenix/kernel/fs/ramfs/ramfs.c:531-577 | An empty directory loses its name; otherwise nothing changes and the error is the right one |
| RamfsTable.NoDangling | kernel1/weenix-assignment-1.0.7/weenix/kernel/fs/ramfs/ramfs.c:320-577 | In every valid state each name other than the dots leads to an inode that is there |
| Ramfs.MemoryFs.Lookup | kernel1/weenix-assignment-1.0.7/weenix/kernel/fs/ramfs/ramfs.c:404-419 | The vnode of what the first matching slot names; the panic of reading it in happens exactly for a ".." whose inode is gone, and never in a named directory as long as no directory was linked |
| Ramfs.FoundAgain | kernel1/weenix-assignment-1.0.7/weenix/kernel/fs/ramfs/ramfs.c:320-419 | A file just created is found under its name, exactly if the name is short enough to be kept whole |
| RamfsTable.DotIsSelf | kernel1/weenix-assignment-1.0.7/weenix/kernel/fs/ramfs/ramfs.c:484-529 | In every valid state "." stands for the directory it is in |
| RamfsTable.ParentThere | kernel1/weenix-assignment-1.0.7/weenix/kernel/fs/ramfs/ramfs.c:484-577 | As long as only other things than directories are linked, the ".." of the root or of a named directory stands for the directory that has its one name |
| RamfsTable.ParentLost | kernel1/weenix-assignment-1.0.7/weenix/kernel/fs/ramfs/ramfs.c:269-287 | What ".." stands for goes exactly when that directory's vnode does and nothing names it |
| RamfsTable.RootedAdd | kernel1/weenix-assignment-1.0.7/weenix/kernel/fs/ramfs/ramfs.c:320-529 | Making something keeps every named directory named once, in its parent |
| RamfsTable.RootedUnlink | kernel1/weenix-assignment-1.0.7/weenix/kernel/fs/ramfs/ramfs.c:455-577 | Removing a name keeps it |
| RamfsTable.RootedDeleted | kernel1/weenix-assignment-1.0.7/weenix/kernel/fs/ramfs/ramfs.c:269-287 | Freeing an inode keeps it, even of a directory with names |
| Ramfs.LostParent | kernel1/weenix-assignment-1.0.7/weenix/kernel/fs/ramfs/ramfs.c:232-237 | A run that ends in the panic: the parent of a removed but held directory is removed and ".." looked up |
| RamfsTable.LinkInv | kernel1/weenix-assignment-1.0.7/weenix/kernel/fs/ramfs/ramfs.c:421-453 | Adding a name and a link keeps the invariant |
| RamfsTable.UnlinkInv | kernel1/weenix-assignment-1.0.7/weenix/kernel/fs/ramfs/ramfs.c:455-482 | Taking both away keeps it |
| RamfsTable.AddInv | kernel1/weenix-assignment-1.0.7/weenix/kernel/fs/ramfs/ramfs.c:320-358 | A new inode with its first name keeps it |
| RamfsTable.RightCounts | kernel1/weenix-assignment-1.0.7/weenix/kernel/fs/ramfs/ramfs.c:101-110 | Link counts are names plus root plus vnode, exactly if no names have been lost |
| RamfsTable.LostNames | kernel1/weenix-assignment-1.0.7/weenix/kernel/fs/ramfs/ramfs.c:269-287 | Names are lost exactly when the vnode of a directory goes that has some and that nothing names |
| RamfsTable.TidyUnlink | kernel1/weenix-assignment-1.0.7/weenix/kernel/fs/ramfs/ramfs.c:455-577 | Removing a file or an empty directory keeps every nameless directory without names |
| Ramfs.LostFile | kernel1/weenix-assignment-1.0.7/weenix/kernel/fs/ramfs/ramfs.c:269-577 | A run in which a file made in a removed but held directory is left with a link and no name |
| Slab.NobjsFit | kernel1/weenix-assignment-1.0.7/weenix/kernel/mm/slab.c:92-104 | As many objects as fit in the block, and no more would |
| Slab.CalcSlabSize | kernel1/weenix-assignment-1.0.7/weenix/kernel/mm/slab.c:117-158 | In 32-bit arithmetic, the order wastes least of those tried and the panic means that nothing fits, exactly for objects whose slab is smaller than 2^31 |
| Slab.NothingWraps | kernel1/weenix-assignment-1.0.7/weenix/kernel/mm/slab.c:92-115 | For those, sizes and waste are as in unbounded arithmetic |
| Slab.Layout | kernel1/weenix-assignment-1.0.7/weenix/kernel/mm/slab.c:66-73 | Objects, bufctls and header follow one another inside the block |
| Slab.LiveObjectsApart | kernel1/weenix-assignment-1.0.7/weenix/kernel/mm/slab.c:202-308 | No two objects of a cache overlap, nor does one overlap a bufctl or header |
| SlabOps.AcrossCaches | kernel1/weenix-assignment-1.0.7/weenix/kernel/mm/slab.c:202-308 | Objects of different caches do not overlap |
| SlabOps.AllObjectsApart | kernel1/weenix-assignment-1.0.7/weenix/kernel/mm/slab.c:202-308 | No two objects overlap, whatever their caches |
| SlabOps.BlocksApart | kernel1/weenix-assignment-1.0.7/weenix/kernel/mm/slab.c:405-436 | No two blocks of kmalloc overlap, nor does one overlap the other's tag |
| SlabOps.NewTag | kernel1/weenix-assignment-1.0.7/weenix/kernel/mm/slab.c:426-430 | Writing the tag of a new block changes that of no live one, so every live block's tag still names the cache it came from |
| SlabOps.ReclaimedBlocks | kernel1/weenix-assignment-1.0.7/weenix/kernel/mm/slab.c:347-379 | Reclaiming leaves every live block and its tag as they are |
| Slab.TakenOk | kernel1/weenix-assignment-1.0.7/weenix/kernel/mm/slab.c:279-291 | Taking the first free object keeps the lists right |
| Slab.GivenOk | kernel1/weenix-assignment-1.0.7/weenix/kernel/mm/slab.c:328-334 | Giving one back keeps them right |
| Slab.GrownOk | kernel1/weenix-assignment-1.0.7/weenix/kernel/mm/slab.c:202-260 | A new slab keeps them right |
| SlabOps.Thread | kernel1/weenix-assignment-1.0.7/weenix/kernel/mm/slab.c:215-228 | The loop threads all objects of the new slab in order |
| SlabOps.Allocators.Grow | kernel1/weenix-assignment-1.0.7/weenix/kernel/mm/slab.c:202-260 | A new slab at the head of the list, all its objects free |
| SlabOps.Allocators.FindSlab | kernel1/weenix-assignment-1.0.7/weenix/kernel/mm/slab.c:268-277 | A slab that is not full, or all are |
| SlabOps.Allocators.ObjAlloc | kernel1/weenix-assignment-1.0.7/weenix/kernel/mm/slab.c:262-308 | An object that was free and is not live elsewhere; failure exactly if all slabs are full and there is no block; a slab is added exactly if all were full |
| SlabOps.Allocators.ObjFree | kernel1/weenix-assignment-1.0.7/weenix/kernel/mm/slab.c:310-338 | Its own slab gets the object back, and every block of kmalloc stays live |
| SlabOps.FreeUndoesAlloc | kernel1/weenix-assignment-1.0.7/weenix/kernel/mm/slab.c:262-338 | Freeing right after allocating leaves everything as it was |
| SlabOps.EmptyMeansUnused | kernel1/weenix-assignment-1.0.7/weenix/kernel/mm/slab.c:359-367 | A slab counts none in use exactly if it has none |
| SlabOps.ReclaimKeepsLive | kernel1/weenix-assignment-1.0.7/weenix/kernel/mm/slab.c:347-379 | Reclaiming keeps every object in use, and of the slabs looked at exactly those that have one |
| SlabOps.Allocators.ReclaimCache | kernel1/weenix-assignment-1.0.7/weenix/kernel/mm/slab.c:357-376 | One cache: slabs without objects in use go until the target is met and no longer, and the pages are counted |
| SlabOps.Allocators.Reclaim | kernel1/weenix-assignment-1.0.7/weenix/kernel/mm/slab.c:347-379 | All caches; with no target every slab without an object in use goes; with one it stops at the first slab that meets it |
| SlabOps.Allocators.Kmalloc | kernel1/weenix-assignment-1.0.7/weenix/kernel/mm/slab.c:405-436 | The first cache large enough; panic exactly above the largest as the wrapped size, out of memory exactly if that cache is full and there is no page block; the block is new, is recorded with its cache, and has room exactly if the size does not wrap |
| SlabOps.Allocators.Kfree | kernel1/weenix-assignment-1.0.7/weenix/kernel/mm/slab.c:447-466 | Any live block, however many others were allocated, freed or reclaimed since, goes back to the cache kmalloc took it from, and no other block is touched |

## Left out

- Buddy.PageSystem.AllocOrder: does not model the call of the slab reclaimer and the wait for the shadow daemon before giving up; without the daemon the code does not look again after reclaiming, so it fails all the same, with the pages of unused slabs freed.
- Buddy.PageGroup.constructor: does not model an empty range, for which the code lays the group's structure below the range, nor what flipping a bit behind a bitmap does to the group's structure.
- Page addresses are page numbers, and the poisoning of memory is not modelled.
- Regex: a NUL inside a pattern, the `locs` mechanism for further matches on the same line, and the editor's temporary file and terminal. The `error` macro is a failing outcome.
- Pframe.PageCache.Clean: the write-back itself, which may block, is not modelled; nor are busy pages, filling pages and the pageout daemon.
- Shadowd.Put: does not model the destruction of an object that still has pages at its last reference, which frees each page while cleaning it; nor are `shadow_fillpage` and `shadow_cleanpage`. Pages of shadow objects are dirty and pinned once, as `pframe_migrate` needs.
- S5: superblock and inodes are records and not bytes on the disk; negative offsets, truncation, formatting, directories and the kernel's locking are not modelled.
- Sched: operations are atomic, and interrupts arrive between them or while the processor is idle; contexts and interrupt levels are not modelled.
- Kmutex: `kmutex_lock_cancellable` is not modelled.
- Init.Starter.CallAll: does not model the layout of the section that the functions and dependencies are read from.
- Vsnprintf.SkipAtoi: does not model overflow of an int in widths and precisions; nor are lengths over 2^31 and a buffer that wraps around the address space modelled. What `%n` stores is returned as a list. `sscanf` is not modelled.
- Elf32.LoadArgs: the image must lie below 2^32; copying it to user space and mapping segments are not modelled.
- Ramfs: reading, writing, listing, stat and unmounting, file sizes and busy vnodes. Names are not empty and have no NUL, as callers ensure.
- Slab: red zones and poison are modelled by their sizes and not by their contents, and allocators are given and not created.
- Virtual memory maps, mmap, brk, fork and exec, path names and file system calls, device drivers, the shell and the other user programs are not part of this model; they would add many members with easier claims.
