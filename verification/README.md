# Verified models of rv32emu components

rv32emu is a RISC-V RV32 emulator whose difficult code is fast forms that must agree with simple ones.
This project models those components in Dafny, each in the form the emulator gives it, and proves the
agreement for all inputs, all runs or all interleavings.

| file | component |
|---|---|
| `OrderedMapTheory.dfy`, `OrderedMap.dfy`, `OrderedMapIteration.dfy` | the left-leaning red-black map of `src/map.c`, with node memory, path array and iterators |
| `BlockIr.dfy`, `HandlerLaws.dfy`, `IrList.dfy` | the IR of a basic block, the interpreter's handlers as its meaning, what these compute, and the linked IR list |
| `ConstOpt.dfy`, `Fusion.dfy`, `FusionZero.dfy`, `FusionPass.dfy`, `OptimiserPrecise.dfy` | constant propagation and macro-operation fusion over that list |
| `BlockLookup.dfy`, `Chaining.dfy`, `ChainedRun.dfy` | finding blocks by PC, block links and the branch history table, and whole runs over optimised, chained blocks |
| `Mmu.dfy` | Sv32 walks, data and instruction TLBs, A and D bits |
| `RegAlloc.dfy`, `RegAllocZero.dfy`, `Liveness.dfy`, `LivenessExact.dfy` | the tier-1 register allocator, the code generated through it, and its liveness analysis |
| `SeqLock.dfy`, `T2cLife.dfy` | the two-thread protocols of the tier-2 compiler |
| `BlockCache.dfy`, `PageIndex.dfy` | the block cache with its ghost list, and its page index |
| `SanitizePath.dfy`, `PathMeaning.dfy`, `DemandPaging.dfy`, `Mpool.dfy` | path normalisation and what paths mean, demand-paged guest memory, the pool allocator |
| `Compressed.dfy`, `CompressedDecode.dfy`, `CompressedWord.dfy` | RVC handlers, immediates and whole words against the 32-bit instructions they stand for |
| `Words.dfy`, `Powers.dfy`, `Lists.dfy` | machine words, powers of two and lists without repetition, used by the others |

## How the models are built

* Words are integers from 0 to 2^32 - 1, and wrap-around is written out. The RVC immediates are
  bit-vectors, since masks and shifts are their point. A shift by 32 or more, undefined in C, gives 0.
* The map keeps its nodes in an explicit memory from addresses to cells, so that freeing a node removes
  its cell and a dangling access cannot be written. The colour is a field of the cell; in the C code it is
  the low bit of the right pointer. Keys are integers under their usual order. The address a new node
  gets is a parameter, NULL when there is no memory.
* What the host decides is a parameter: whether an allocation or `mprotect` succeeds, where a new arena
  lies, which way a branch goes, which thread moves next, where an indirect jump or the environment goes.
* Page-table entries are modelled by their fields and page-table words by page number and index. A
  fault is taken at once: the code walks a second time after trap handling, which repeats the first walk
  when the tables are untouched.
* The order that the C library's `qsort` gives the allocator's queue is computed by insertion.
* A handler of a fused run counts by `imm2`, as the code does, and reads as many entries.

## Findings

* Constant propagation is not sound after the hint `c.li x0, imm` with a non-zero immediate: the rule
  for the 32-bit `nop` keeps the constant recorded for x0, while its handler clears x0
  (`ConstOpt.HintThenNopMiscompiled`). It is sound exactly when no `nop` meets such a record
  (`ConstOpt.SoundExactlyWhenClean`).
* Fusion relies on x0 holding zero, which the interpreter does not enforce for loads to x0 and for
  `c.li x0`. The block `lw x0, 0(x5); addi a7, x0, 1; ecall` calls the environment with another a7 once
  optimised, if the word loaded is not zero (`FusionZero.LoadToZeroMiscompiled`). The optimiser keeps the
  meaning of a block exactly when the run reaches no handler of li + ecall or addi + bne with an x0 that
  shows (`FusionZero.OptimiserExactly`); after constant propagation the first kind stands only behind a load
  to x0 (`FusionZero.Fuse6BehindLoad`).
* Code of the tier-1 compiler takes x0 for zero whatever X[0] holds, and never stores it. It computes what
  the interpreter computes from x0 = 0; with 7 in X[0], `addi x5, x0, 1` gives 1 instead of 8
  (`RegAllocZero.SevenInZero`). The two agree after every instruction exactly when x0 never shows in a result
  (`RegAllocZero.ZeroExactly`), which can happen exactly for the instructions of `RegAllocZero.FeelsExactly`.
* The register allocator evicts the register whose last use comes earliest, although the comment in
  `reg_pick` speaks of the one used latest: `liveness_cmp` sorts ascending (`RegAlloc.RegPick`).
* `liveness_calc` counts the destinations of fused LUIs as read, although nothing reads them
  (`LivenessExact.CountedExactly`).
* The seqlock accepts a torn pair if its 32-bit counter goes all the way round between two loads of a
  reader (`SeqLock.RoundTripTears`); below that it never does.
* A block at PC 0 of address space 0 has the key zero, which the caches of compiled code take for an unused
  place. Its code stays in the jit_cache after the fence of its page (`T2cLife.ZeroKeyStays`), and in the
  inline cache even after the block is evicted and the code freed (`T2cLife.FreedCodeStays`).
* `block_translate` tests for the end of the page after it has taken an instruction, so that a block whose
  last instruction lies across the page end reaches into the next page, although the comment there says that
  no block does (`PageIndex.SpansExactly`). The page index misses such a block where the scan finds it
  (`PageIndex.CrossingBlockMissed`); the two agree exactly when no live block reaches into the page
  (`PageIndex.IndexAgreesExactly`). A fence that scans invalidates it and leaves its code in the jit_cache
  (`T2cLife.SecondPageStays`). The second page and the zero key are the only ways in which a step leaves dead
  code in either cache (`T2cLife.SlotLeavesExactly`, `T2cLife.InlineLeavesExactly`).
* The scan misses page 0 for a block whose one instruction lies across the end of the address space, from
  0xfffffffe to 2 (`PageIndex.WrappedBlockMissed`), and considers every other byte of translated blocks
  (`PageIndex.ScanSeesExactly`).
* `sanitize_path` of the empty string returns "." in a buffer of one byte, without a terminator.
* The permission check differs from section 4.3.2 of the RISC-V Privileged Architecture in three ways: under
  MXR an execute-only page is not readable (`Mmu.ExecuteOnlyPage`), user mode reaches pages without U
  (`Mmu.SupervisorPageFromUser`), and S mode with SUM fetches from pages with U (`Mmu.UserPageFetched`).
  `Mmu.AllowedExactly` says that these are all. Besides, translation is off when satp is zero, and not when
  its MODE bit is clear or in machine mode (`Mmu.BareModeWalks`); a physical address of 34 bits loses its
  two upper bits (`Mmu.FarPage`); and a pointer to a table is followed though its A, D or U bit, reserved
  there, is set (`Mmu.MarkedPointer`). `Mmu.TranslatesExactly` says that nothing else makes a difference.
* C.JR and C.JALR keep the low bit of their target, which JALR clears (`CompressedWord.IndirectExactly`).
  The decoder takes some reserved words: c.lui x0 with a zero immediate and c.lwsp x0 as no-ops, c.slli by
  32 or more as such a shift; on the arithmetic words of RV64 it aborts. C.EBREAK decodes to the 32-bit
  ebreak, so that without a trap vector the two bytes after it are skipped (`CompressedWord.BreakSkips`).
* MULHU is folded through signed 64-bit arithmetic; taken as wrapping, it still gives the right word. So
  does MULHSU, folded as the product of two signed numbers.

## Model

| member | source | states |
|---|---|---|
| `OrderedMap.OrderedMap.Insert` | src/map.c:559-627 | the tree stays a left-leaning red-black search tree; a new key is added with its value and size grows by one; an existing key, a failed allocation or a too-deep path changes nothing, and below 2^64 entries the last never happens |
| `OrderedMap.OrderedMap.FindPath` | src/map.c:528-556 | the path array leads to the node of the key or to the hole where it belongs, and never exceeds its capacity |
| `OrderedMap.OrderedMap.GrowStep` | src/map.c:583-620 | one turn of the insertion unwinding re-establishes order, colours and black height one level up |
| `OrderedMap.OrderedMap.RepairGrowth` | src/map.c:583-620 | the whole unwinding loop leaves the new item in order in a red-black tree |
| `OrderedMap.OrderedMap.FixShrunkLeft` | src/map.c:236-315 | the fix-up cases after a removal on the left build the rebalanced subtree in memory |
| `OrderedMap.OrderedMap.FixShrunkRight` | src/map.c:316-439 | the fix-up cases after a removal on the right build the rebalanced subtree in memory |
| `OrderedMap.OrderedMap.RepairShrink` | src/map.c:232-444 | the unwinding loop of a removal ends in a red-black tree without the removed node |
| `OrderedMap.OrderedMap.TakePlace` | src/map.c:170-194 | the successor takes the place, colour and children of the node to remove, on the path as in the tree |
| `OrderedMap.OrderedMap.Locate` | src/map.c:146-165 | the path array of rb_remove leads to the node, and below 2^64 entries the path and its NULL entry fit the array |
| `OrderedMap.OrderedMap.ToSuccessor` | src/map.c:155-162 | the path goes on to the node's successor, and still fits the array |
| `OrderedMap.OrderedMap.Unlink` | src/map.c:140-444 | rb_remove takes exactly the given node out of the tree, keeps every invariant and, below 2^64 entries, never writes beyond its path array |
| `OrderedMap.OrderedMap.Erase` | src/map.c:670-687 | exactly the iterator's item leaves the map, its node is freed, every other key stays in its node and size falls by one; on no node nothing happens |
| `OrderedMapTheory.DepthBound` | src/map.c:44 | depth is at most twice the logarithm of size plus one |
| `OrderedMap.NeverTooDeep` | src/map.c:44 | below 2^64 entries no walk fills the path array, so the "too deep" refusal is unreachable |
| `OrderedMapTheory.GrowKeepsColours` | src/map.c:583-620 | each insertion repair step keeps colours and black height, for every shape around it |
| `OrderedMapTheory.ShrinkKeepsColours` | src/map.c:234-439 | each removal repair step settles the tree or leaves it one black level short one level up |
| `OrderedMapTheory.ShrinkKeepsInorder` | src/map.c:234-439 | no removal repair step moves an item in the order |
| `OrderedMapIteration.Find` | src/map.c:630-655 | the node of the key, or none exactly when the key is absent |
| `OrderedMapIteration.Next` | src/map.c:755-791 | the in-order successor |
| `OrderedMapIteration.Prev` | src/map.c:793-832 | the in-order predecessor |
| `OrderedMapIteration.KeysUpwards` | src/map.c:716-791 | map_first and map_next visit every key once, ascending |
| `OrderedMapIteration.KeysDownwards` | src/map.c:735-832 | map_last and map_prev visit every key once, descending |
| `OrderedMapIteration.Replay` | src/map.c:559-687 | every run of insertions and erasures from the empty map, with any addresses malloc may hand out (freed ones again, or NULL), keeps the tree and ends in the items, and the finite map, of the run |
| `HandlerLaws.BitwiseHandlers` | src/rv32_template.c:410-488 | and, or and xor, for every bit of the result |
| `HandlerLaws.ShiftHandlers` | src/rv32_template.c:420-478 | a shift moves each bit by the low five bits of the distance and fills with zeros or with the sign |
| `HandlerLaws.SameBits` | src/rv32_template.c:410-478 | a word is determined by its 32 bits |
| `HandlerLaws.SumHandlers` | src/rv32_template.c:450-453 | sum and difference are exact up to one carry or borrow |
| `HandlerLaws.SignedOrder` | src/rv32_template.c:286-289 | slt, slti, blt and bge compare by sign first: the word with bit 31 set is the smaller one |
| `HandlerLaws.UnsignedOrder` | src/rv32_template.c:280-295 | sltu, sltiu, bltu and bgeu say whether the difference borrows, beq and bne whether it is zero |
| `HandlerLaws.ImmediateHandlers` | src/rv32_template.c:397-447 | each operation with an immediate is that with a register |
| `HandlerLaws.ProductHandlers` | src/rv32_template.c:709-740 | high and low word together are the 64-bit product, signed, unsigned or mixed |
| `HandlerLaws.DivisionHandlers` | src/rv32_template.c:749-787 | quotient times divisor plus remainder is the dividend, and the remainder is smaller than the divisor with the dividend's sign; the results for divisor zero and overflow |
| `HandlerLaws.UnsignedDivisionHandlers` | src/rv32_template.c:765-800 | the same for divu and remu |
| `HandlerLaws.StoreHandler` | src/rv32_template.c:362-390 | a store changes exactly its bytes, to those of the register from the low end, at every address; a strict machine traps exactly on misaligned ones |
| `HandlerLaws.LoadHandler` | src/rv32_template.c:324-355 | a load puts its bytes into rd, extended by zeros or by the sign, and changes nothing else |
| `HandlerLaws.StoredIsLoaded` | src/rv32_template.c:324-390 | a load of the same size and address reads back what a store wrote |
| `HandlerLaws.CallHandler` | src/rv32_template.c:40-190 | the calls go to their targets, with the address behind them in the link register |
| `HandlerLaws.CallReturns` | src/rv32_template.c:40-190 | a jump through the link register comes back behind the call, with all else unchanged |
| `HandlerLaws.BranchHandler` | src/rv32_template.c:198-295 | a branch goes to its target or on, by its comparison, and changes nothing else |
| `HandlerLaws.ShortBranchHandler` | src/rv32_template.c:1338-1482 | the compressed branches and jumps likewise |
| `HandlerLaws.AddressHandlers` | src/rv32_template.c:30-35 | LUI and ADDI make an absolute address, AUIPC and ADDI one relative to the PC |
| `HandlerLaws.OperandHandlers` | src/rv32_template.c:397-488 | the operations read rs1 and rs2, write rd and change nothing else |
| `HandlerLaws.PlainHandlers` | src/rv32_template.c:492-515 | fence, no-ops and environment calls |
| `ConstOpt.FoldMulhuAgrees` | src/rv32_constopt.c:444-456 | folding MULHU in signed 64-bit arithmetic gives the handler's word |
| `ConstOpt.FoldMulhsuAgrees` | src/rv32_constopt.c:430-441 | folding MULHSU as the product of two signed 64-bit numbers gives the handler's word |
| `ConstOpt.RuleSound` | src/rv32_constopt.c:12-968 | each rule keeps the outcome of its instruction, and what it records is true afterwards |
| `ConstOpt.ConstantPropagationSound` | src/emulate.c:1822-1831 | the rewritten IR gives the same registers, memory, PC, cycles and way of leaving after every prefix of a block entered with x0 = 0, branches folded to jumps included |
| `ConstOpt.PropagateLayout` | src/rv32_constopt.c:12-968 | rewritten instructions keep their addresses and lengths |
| `ConstOpt.SoundExactlyWhenClean` | src/rv32_constopt.c:12 | on code that runs to its end the pass is sound at every point if and only if no nop meets a non-zero constant recorded for x0 |
| `ConstOpt.HintThenNopMiscompiled` | src/rv32_constopt.c:779-782 | c.li x0, 5 followed by nop makes the optimiser take x0 for 5 |
| `ConstOpt.CleanUnlessHint` | src/rv32_constopt.c:12-968 | code that computes no value into x0 never meets the failing case |
| `ConstOpt.OptimizeConstant` | src/emulate.c:1822-1831 | the loop over the IR list rewrites every node by its rule and keeps the list intact |
| `OptimiserPrecise.KnownIsFolded` | src/emulate.c:1822-1831 | an instruction of a block whose operands are recorded constants has become a load of the very value that it computes in the run |
| `OptimiserPrecise.DecidesWhenKnown` | src/rv32_constopt.c:54-80 | a branch with known operands has become a jump to where it goes |
| `OptimiserPrecise.RemembersOthers` | src/rv32_constopt.c:12-968 | a rule forgets nothing about registers that its instruction does not write |
| `Fusion.Fuse2Sound` | src/emulate.c:790-801 | LUI + ADD fused does what the two do, for every register aliasing |
| `Fusion.Fuse8Sound` | src/emulate.c:940-951 | LUI + ADDI likewise |
| `Fusion.Fuse9Sound` | src/emulate.c:960-977 | LUI + LW likewise, if the load does not trap |
| `Fusion.Fuse10Sound` | src/emulate.c:986-1007 | LUI + SW likewise, if the store does not trap |
| `Fusion.Fuse11Sound` | src/emulate.c:1016-1036 | LW + ADDI post-increment likewise |
| `Fusion.Fuse6Exactly` | src/emulate.c:884-900 | li a7 + ecall fused agrees with the two if and only if x0 holds zero |
| `Fusion.Fuse12Exactly` | src/emulate.c:1044-1090 | addi + bne fused agrees with the two if and only if both ways lead to the same PC, x0 is zero or x0 makes no difference to the comparison |
| `Fusion.MergedSound` | src/emulate.c:775-932 | a fused run of LUI, SW, LW, shifts or ADDI does what its up to sixteen instructions do one by one |
| `Fusion.FusionSound` | src/emulate.c:1450-1718 | fusion keeps registers, memory, PC, cycle count and the way the block is left, for every block with x0 = 0 along the run and no trapping access, whichever pool requests are granted |
| `Fusion.FusionConserves` | src/emulate.c:1284-1371 | the handlers stand for exactly the decoded instructions |
| `Fusion.ZeroStays` | src/emulate.c:1450-1718 | x0 stays zero along every run of code without loads to x0 and hints |
| `FusionZero.FusionExactly` | src/emulate.c:1450-1718 | fusion keeps the meaning of a block that does not trap if and only if the run reaches no li + ecall or addi + bne handler with an x0 that shows |
| `FusionZero.OptimiserExactly` | src/emulate.c:1883-1887 | the same for both passes, on a block entered with x0 = 0 |
| `FusionZero.Fuse6BehindLoad` | src/emulate.c:1450-1718 | after constant propagation of decoded code, li a7 + ecall is fused only behind a load to x0 |
| `FusionZero.LoadToZeroMiscompiled` | src/emulate.c:884-900 | lw x0, 0(x5); addi a7, x0, 1; ecall means something else once optimised, if a non-zero word lies under x5 |
| `IrList.RemoveNext` | src/emulate.c:1284-1297 | the n nodes after one are unlinked, n_insn falls by n and ir_tail is the last node |
| `FusionPass.CountConsecutive` | src/emulate.c:1300-1333 | the length of the run at the front of the list |
| `OptimiserPrecise.PairsExactly` | src/emulate.c:1463-1700 | exactly the pairs of the table are fused, each into its opcode |
| `OptimiserPrecise.RunsAreFused` | src/emulate.c:1337-1371 | a run of two to sixteen instructions becomes one instruction if the pool grants its entries |
| `FusionPass.TryFuseSequence` | src/emulate.c:1337-1371 | a run of two to sixteen with a granted slot becomes one node holding all entries; otherwise nothing changes |
| `FusionPass.MatchPattern` | src/emulate.c:1450-1718 | the pass terminates with the fused list, its length n_insn and its last node ir_tail |
| `FusionPass.OptimiserSound` | src/emulate.c:1883-1887 | both passes together keep the meaning of a decoded block |
| `FusionPass.Optimise` | src/emulate.c:1883-1887 | running both passes on the list leaves it intact; running it gives what the decoded instructions give if no instruction writes x0, and in general if and only if no erring handler is reached |
| `BlockLookup.Lookup.Find` | src/emulate.c:563-582 | linear probing finds the block of the PC or proves it absent, and terminates |
| `BlockLookup.Lookup.Insert` | src/emulate.c:543-560 | probing finds an empty slot, and exactly the new block is added to both levels |
| `BlockLookup.Lookup.LookupOrFind` | src/emulate.c:588-606 | the two levels return exactly the block inserted for the PC since the last clear, for every PC, that of the invalid tag included |
| `BlockLookup.Lookup.Clear` | src/riscv.c:68-97 | both levels are empty |
| `BlockLookup.Lookup.Serve` | src/emulate.c:1834-1891 | any run of requests, with the clear at 80 per cent, answers as a finite map does |
| `BlockLookup.FirstBlockStays` | src/emulate.c:1860-1866 | as long as no more than 820 PCs are in the table or asked for, every request is answered with the first block of its PC |
| `BlockLookup.KeepsExactly` | src/emulate.c:1860-1866 | a request loses blocks exactly when its PC is new and 820 blocks are there, and then it loses all |
| `Chaining.RunsTheRightBlock` | src/emulate.c:2112-2193 | over every run, blocks abandoned by a trapped access included, whichever link or history entry led there and even if last_pc is stale after an indirect jump, the block being executed is the one at the architectural PC |
| `Chaining.LinksNameSuccessors` | src/emulate.c:2164-2190 | each taken or untaken link and each history entry names the live block at its edge's successor PC |
| `Chaining.LastInsnEdge` | src/rv32_template.c:40-263 | the last instruction of a block, fused or not, leaves it at the PC its tail names, by the decision of its branch |
| `Chaining.EdgeDispatchedOnce` | src/emulate.c:2164-2190 | once the dispatch loop has found the successor over an edge, the block enters it by itself whenever it leaves by that edge, until a clear, if its last handler follows links |
| `Chaining.IndirectEntersExactly` | src/rv32_template.c:93-156 | an indirect jump enters the next block by itself exactly when the map has one at its target, whatever the history holds |
| `ChainedRun.BlockLeaves` | src/emulate.c:2112-2193 | a whole block, from every state, leaves to the PC that its tail names |
| `ChainedRun.FuseTail` | src/emulate.c:1450-1718 | fusion keeps the way a block ends, whichever pool requests are granted |
| `ChainedRun.DispatchRuns` | src/emulate.c:2112-2193 | a dispatch makes a block run |
| `ChainedRun.ChainedIsBlockwise` | src/emulate.c:2112-2193 | over every run, with any links, history, clears and pool answers, the chained interpreter over optimised blocks is in the registers, memory, PC and cycle count that the decoded code reaches block by block |
| `Mmu.MmuWalk` | src/system.c:203-245 | the loop computes the two-level walk |
| `Mmu.WalkMarked` | src/system.c:203-245 | setting A and D bits never changes any walk |
| `Mmu.ConsultedInRam` | src/system.c:56-61 | every page-table entry a walk reads lies inside guest RAM |
| `Mmu.AllowedExactly` | src/system.c:281-311 | the fault check is the permission rule of the standard except exactly on execute-only pages under MXR, on pages without U in user mode, and on fetches from U pages in S mode with SUM |
| `Mmu.TranslatesExactly` | src/system.c:521-571 | a translation gives the standard's physical address of 34 bits, fault and A and D bits if and only if: with MODE set outside machine mode, the check goes right on the leaf found, an access let through has a page number below 2^20, and none is let through behind a pointer with reserved bits; otherwise, satp is zero or the page happens to be mapped to itself |
| `Mmu.FarPage` | src/system.h:217-224 | a superpage at 4 GiB is read at address 0 |
| `Mmu.MarkedPointer` | src/system.c:203-245 | a pointer entry with A set is followed, where the standard faults |
| `Mmu.ExecuteOnlyPage` | src/system.c:286-300 | a load from an execute-only page under MXR faults, where the standard allows it |
| `Mmu.SupervisorPageFromUser` | src/system.c:301-311 | user mode loads from a page without U, where the standard faults |
| `Mmu.UserPageFetched` | src/system.c:301-311 | S mode with SUM fetches from a page with U, where the standard faults |
| `Mmu.BareModeWalks` | src/system.c:523-524 | with MODE clear and a root page number in satp, an empty table faults, where the standard does not translate |
| `Mmu.HitIsReference` | src/system.c:84-148 | an entry that matches the page and permits the access gives the address and the A and D bits of a fresh walk |
| `Mmu.Hart.DtlbLookup` | src/system.c:84-119 | a hit, which is found exactly when an entry of the page permits the access, is a fresh walk's result, with D set on a write; a miss changes no memory |
| `Mmu.Hart.Translate` | src/system.c:521-571 | the result and the memory afterwards are those of a fresh walk, hit or miss, and the same access finds an entry next time |
| `Mmu.Hart.Ifetch` | src/system.c:332-381 | likewise for instruction fetches |
| `Mmu.Hart.WriteSatp` | src/emulate.c:388-390 | after a change of satp no stale entry is left |
| `Mmu.Hart.Flush` | src/system.c:69-80 | no entry for the page is left in any slot of either TLB, and other pages are served as before |
| `Mmu.Hart.Run` | src/system.c:63-571 | any run of loads, stores, fetches, flushes, satp writes and stores beside the page tables gives, access by access, the address or fault of fresh walks, and the same memory |
| `Mmu.WriteLeavesMarks` | src/system.c:560-567 | a write that translates leaves A and D set in the leaf entry, which lies in RAM |
| `RegAlloc.LivenessCalc` | src/jit.c:1862-2062 | for each guest register, the index of the last instruction that reads it, -1 if none does |
| `RegAlloc.UsesCover` | src/jit.c:1862-2062 | no computing instruction depends on a register that is not counted as read |
| `Liveness.UncountedIsUnread` | src/jit.c:1862-2062 | for every instruction, fused ones included: another value in a register that is not counted as read changes no other register, no memory, no PC, no cycle count and no way of going on; the same for the destinations that are counted for a fused run of LUI |
| `Liveness.DeadAfterLastUse` | src/jit.c:1862-2062 | behind the last use computed for a register, its value has no influence on the rest of the block |
| `Liveness.RefreshExactly` | src/jit.c:2064-2072 | a host register stays alive exactly when this instruction or a later one counts its guest register as read |
| `LivenessExact.CountedExactly` | src/jit.c:1862-2062 | a counted register makes a difference, in some state, exactly when the instruction is not idle: no constant result, no operand copied to itself, no branch with both ways alike, no operand overwritten by the fused LUI; for a fused run of LUI, never |
| `LivenessExact.RunCounts` | src/jit.c:2008-2036 | a fused run counts what its members count one by one, a run of LUI their destinations |
| `RegAlloc.CandidateQueue` | src/jit.c:1834-1860 | every guest register, by ascending last use and then by number |
| `RegAlloc.RegPick` | src/jit.c:2075-2136 | the first host register that is not alive, or else, of those not reserved, the one whose guest register has its last use earliest |
| `RegAlloc.Jit.SaveReg` | src/jit.c:1800-1818 | a dirty guest value reaches memory before its host register is given away; a dirty x0 is dropped without a store |
| `RegAlloc.Jit.EmitLoad` | src/jit.c:943-959 | the host register holds the guest value; for x0 that is zero, whatever X[0] holds, and it is dirty |
| `RegAlloc.Jit.MapVmReg` | src/jit.c:2155-2230 | a guest register gets a host register, no other mapping changes, and no guest value is lost |
| `RegAlloc.Jit.RaLoad2` | src/jit.c:2232-2265 | both operands are in host registers and loaded, even if mapping the first evicted the second |
| `RegAlloc.Jit.GenAluReg` | src/rv32_jit.c:166-185 | the emitted code computes the instruction for every aliasing of rd, rs1 and rs2 |
| `RegAlloc.Jit.GenAluImm` | src/rv32_jit.c:117-153 | likewise for immediates and immediate shifts |
| `RegAlloc.Jit.StoreBack` | src/jit.c:1820-1827 | nothing is dirty any more |
| `RegAlloc.Jit.Translate` | src/jit.c:2819-2832 | for any straight-line LUI, AUIPC, ALU and shift code and any host of at least three registers, the emitted code followed by store_back leaves X, from every initial host state, as the instructions do with x0 read as zero, and X[0] as it was; so with zero in X[0] it leaves X as the interpreter does |
| `RegAllocZero.ZeroExactly` | src/jit.c:949-959 | taking x0 for zero gives the interpreter's registers after every instruction of a block if and only if x0 never shows in a result |
| `RegAllocZero.FeelsExactly` | src/rv32_jit.c:117-185 | x0 can show in the result of an instruction if and only if it is an operand, save for andi 0, ori -1, sub and xor of x0 with itself |
| `RegAllocZero.ZeroOrUnfelt` | src/jit.c:949-959 | generated code and interpreter agree if X[0] is zero or no instruction of the block feels x0 |
| `RegAllocZero.SevenInZero` | src/jit.c:949-959 | addi x5, x0, 1 with 7 in X[0] gives 8 in the interpreter and 1 in generated code |
| `RegAlloc.InterpreterAgrees` | src/rv32_template.c:30-488 | what the instructions do to X is what the interpreter's handlers compute |
| `SeqLock.AcceptedTogether` | src/t2c_template.c:224-269 | in every interleaving, an accepted key and entry were stored together by one update that was complete when the reader first loaded seq, if seq did not go round in between |
| `SeqLock.LogIsHistory` | src/t2c.c:754-775 | the pairs a slot ever holds are its zeroed contents and the updates of the run, in order |
| `SeqLock.QuietReaderAccepts` | src/t2c_template.c:224-269 | after any run, an undisturbed reader accepts exactly when the latest update stored its key and some entry, and takes that entry |
| `SeqLock.RoundTripTears` | src/t2c.c:767-775 | if seq goes round exactly once between the loads of key and entry, the reader accepts a pair that no update stored |
| `T2cLife.FreedExactlyOnce` | src/t2c.c:577-651 | in every interleaving an evicted block is freed exactly once, and never while T2C compiles it or while it is live |
| `T2cLife.HotHasCode` | src/cache.c:544-647 | a live block marked hot2 has code and is not invalidated |
| `T2cLife.FenceInvalidates` | src/cache.c:544-647 | after any run, a fence invalidates exactly the live blocks of its address space (and page), being compiled or not, and takes their hot2 away; nothing else about blocks changes, and no code of other pages is cleared |
| `T2cLife.FencedStaysCold` | src/t2c.c:621-632 | over every run after a fence, a fenced block gets neither hot2 nor code nor a slot; if it was fenced while T2C compiled it, no cache ever names it |
| `T2cLife.BeginExactly` | src/riscv.c:250-264 | T2C begins exactly with the live block of the requested PC and address space that has no valid code |
| `T2cLife.FinishExactly` | src/t2c.c:577-650 | code is published, in the block and its slot, exactly when there is some and the block was neither evicted nor invalidated; an evicted block is freed then |
| `T2cLife.CachedCodeIsLive` | src/emulate.c:1936-2004 | code in the jit_cache or the inline cache under a non-zero key belongs to a live block that is not freed, under its own key, and that is not invalidated if it lies in one page |
| `T2cLife.SlotLeavesExactly` | src/t2c.c:803-829 | after any run, a step leaves newly dead code (of an invalidated or freed block) in a jit_cache slot if and only if the key is zero and the step fences page 0 of address space 0, or the step fences by scanning a second page that the block reaches into |
| `T2cLife.InlineLeavesExactly` | src/t2c.c:685-724 | the same for the inline cache, where the eviction of the block at PC 0 leaves the zero key's entry too |
| `T2cLife.FreedCodeStays` | src/t2c.c:712-724 | an inline entry of key zero outlives its block, whose code is freed |
| `T2cLife.SecondPageStays` | src/cache.c:617-647 | a block that reaches into the next page is invalidated by a scanning fence of it and keeps its jit_cache slot, whatever its key |
| `T2cLife.ZeroKeyStays` | src/t2c.c:803-829 | a block with key zero keeps its slot through the page clear |
| `BlockCache.Cache.Get` | src/cache.c:223-259 | exactly the live entry of the key, counted if asked |
| `BlockCache.Cache.PutEntry` | src/cache.c:284-384 | the hash chains and lists change as two plain lists do: evict, revive, add, trim; the evicted value is handed back |
| `BlockCache.Cache.GhostListUpdate` | src/cache.c:264-276 | beyond capacity the oldest ghost is forgotten |
| `BlockCache.FirstDecides` | src/cache.c:284-311 | the first entry of a key in its chain is the live one, or the newest ghost when none is live |
| `BlockCache.PutIsUpdate` | src/cache.c:284-384 | as a finite map, the key is bound and exactly the victim, its own entry or at capacity the oldest insertion, is dropped |
| `BlockCache.RunsStayInOrder` | src/cache.c:284-384 | over any run at most one live entry per key exists and neither list outgrows the capacity |
| `BlockCache.EvictedIsRemembered` | src/cache.c:313-335 | the entry evicted at capacity is not live any more, and its newest ghost remembers its frequency, whichever ghosts the same call revives or forgets |
| `BlockCache.Cache.Serve` | src/cache.c:223-384 | any run of gets and puts on a new cache is answered, evictions included, as the two plain lists answer it |
| `BlockCache.HandsBackTheLost` | src/cache.c:312-384 | a put hands back the value of the one key that loses its binding, and nothing exactly when none does |
| `BlockCache.RunConserves` | src/cache.c:284-384 | over any run, the values put in are, as a multiset, those live and those handed back: no block is lost or handed back twice |
| `BlockCache.HandedBackIsUnbound` | src/emulate.c:1900-2004 | over runs that put in new blocks, the value handed back was live and is bound to no key afterwards, so that the caller may free it |
| `BlockCache.FreqCountsUses` | src/cache.c:223-259 | while a key stays live, its frequency grows by one with each counted get and by nothing else |
| `BlockCache.RevivedResumes` | src/cache.c:284-384 | a key evicted with frequency f and put again after any operations on other keys resumes at f + 1 if it still has a ghost, and at 1 if not |
| `PageIndex.Index.Insert` | src/cache.c:500-516 | every live block stays indexed exactly once, or the index is marked incomplete |
| `PageIndex.Index.Remove` | src/cache.c:519-535 | exactly the block leaves the index |
| `PageIndex.Index.InvalidateVa` | src/cache.c:572-647 | the live blocks of the address space with their first byte on the page (with any byte on it, when the index is incomplete) become invalidated, nothing else changes, and the newly invalidated ones are counted; marks and count are those of the full scan if and only if the index is incomplete or no live block reaches into the page |
| `PageIndex.IndexAgreesExactly` | src/cache.c:572-647 | index and scan mark the same blocks, and count as many, if and only if no live block of the address space, not yet invalidated, reaches into the page from another page |
| `PageIndex.MarksInBytes` | src/cache.c:572-647 | what index and scan mark, said in bytes and addresses |
| `PageIndex.TranslateExtent` | src/emulate.c:1191-1255 | the instructions taken are those up to the first branch or the first that ends at or behind the page end |
| `PageIndex.SpansExactly` | src/emulate.c:1241-1253 | a translated block reaches into another page, the next one, if and only if its last instruction lies across the page end |
| `PageIndex.ScanSeesExactly` | src/cache.c:617-647 | the scan considers every byte of a translated block, counted modulo 2^32, except exactly page 0 for a block across the end of the address space |
| `PageIndex.WrappedBlockMissed` | src/cache.c:628-637 | the scan for address 0 does not find a block from 0xfffffffe to 2, which has two bytes there |
| `PageIndex.CrossingBlockMissed` | src/cache.c:594-615 | the scan for 0x1000 finds a block from 0xff0 to 0x1002 and the index does not |
| `SanitizePath.Sanitize` | src/utils.c:91-179 | the path the element stack specifies, within n + 1 bytes, zero-filled to the end, terminated exactly when the input is not empty |
| `SanitizePath.Backtrack` | src/utils.c:136-142 | backtracking stops at the start of the last element |
| `SanitizePath.Idempotent` | src/utils.h:50-66 | sanitizing twice is sanitizing once |
| `PathMeaning.SameDestination` | src/utils.h:50-66 | the sanitized path leads to the same place as the path, from every working directory |
| `PathMeaning.SanitizedIsCanonical` | src/utils.h:50-66 | two paths are sanitized alike exactly when they lead to the same place from everywhere |
| `PathMeaning.NeverLonger` | src/utils.c:91-179 | sanitizing a path that is not empty never makes it longer |
| `PathMeaning.SanitizedIsShortest` | src/utils.h:50-66 | no equivalent path that is not empty is shorter |
| `DemandPaging.GuestMemory.Fault` | src/io.c:104-146 | the chunk becomes accessible and is counted once; peak is the running maximum; a refused mprotect changes nothing |
| `DemandPaging.GuestMemory.Write` | src/io.c:104-146 | guest stores see a flat array of zeros, whether or not they fault |
| `DemandPaging.GuestMemory.Collect` | src/io.c:297-355 | an all-zero active chunk is given back, and the guest's memory never changes |
| `DemandPaging.GuestMemory.Round` | src/io.c:297-355 | one round leaves active no chunk that holds only zeros |
| `DemandPaging.GuestMemory.Serve` | src/io.c:104-355 | any sequence of stores, loads, faults, collector steps and mprotect failures is answered as a flat array answers it and leaves that array; an access is denied only when mprotect fails |
| `DemandPaging.EveryChunkVisited` | src/io.c:353 | any max_idx consecutive steps visit every chunk |
| `DemandPaging.GuestMemory.Usage` | src/io.c:279-294 | the most chunks that were ever active at once, in bytes |
| `Mpool.Pool.constructor` | src/mpool.c:63-105 | the pool has as many chunks as fit into the rounded size, none handed out |
| `Mpool.Pool.Alloc` | src/mpool.c:151-166 | the chunk handed out overlaps no other held chunk and lies inside an arena; NULL only when the pool is empty and cannot grow |
| `Mpool.Pool.Extend` | src/mpool.c:109-149 | a new arena of the same size is cut into as many chunks as fit |
| `Mpool.Pool.Release` | src/mpool.c:179-187 | the chunk goes back to the free list |
| `Mpool.Cut` | src/mpool.c:90-98 | the chunks of an arena are linked, apart and inside it |
| `Compressed.FillLoopIsSar` | src/rv32_template.c:1311-1316 | the fill loop of C.SRAI is an arithmetic shift |
| `Compressed.ExpansionAgrees` | src/rv32_template.c:1213-1541 | executing a legal compressed ALU, load, store, branch or direct jump does what its 32-bit expansion does, apart from the PC step and the link value |
| `CompressedWord.Decode` | src/decode.c:2005-2033 | every compressed word: one that stands for a 32-bit instruction in the standard's listing is accepted and does what that instruction does for every state with x0 = 0 (an indirect jump, to an even target), hints do nothing except c.li x0 with a non-zero immediate, a word is refused exactly when it is reserved and not one of the four kinds the decoder takes, and all but the ebreak decode to two bytes |
| `CompressedWord.OpCaddi` | src/decode.c:1468-1490 | C.NOP and C.ADDI decode to their meaning in the listing |
| `CompressedWord.OpCaddi4spn` | src/decode.c:1496-1511 | C.ADDI4SPN decodes to its meaning, refused exactly for a zero immediate |
| `CompressedWord.OpCli` | src/decode.c:1517-1528 | C.LI decodes to its meaning; to x0 it is idle exactly when the immediate is zero |
| `CompressedWord.OpClui` | src/decode.c:1534-1566 | C.LUI and C.ADDI16SP decode to their meaning; zero immediates are refused except for x0 |
| `CompressedWord.OpCmiscAlu` | src/decode.c:1578-1653 | the shifts right, C.ANDI and the register arithmetic decode to their meaning; RV64 words are never refused |
| `CompressedWord.OpCsrli` | src/decode.c:1596-1608 | C.SRLI, a shift by zero taken as a no-op included |
| `CompressedWord.OpCsrai` | src/decode.c:1609-1617 | C.SRAI through the whole rs1 field |
| `CompressedWord.OpCarith` | src/decode.c:1623-1650 | C.SUB, C.XOR, C.OR and C.AND; the decoder aborts exactly on the RV64 words |
| `CompressedWord.OpCslli` | src/decode.c:1659-1672 | C.SLLI decodes to its meaning below 32; larger shifts are taken too |
| `CompressedWord.OpClwsp` | src/decode.c:1678-1694 | C.LWSP decodes to its meaning; x0 is taken as a no-op |
| `CompressedWord.OpCjal` | src/decode.c:1774-1783 | C.JAL decodes to its meaning, its second sign extension changing nothing |
| `CompressedWord.OpCcr` | src/decode.c:1789-1835 | C.JR, C.MV, C.EBREAK, C.JALR and C.ADD decode to their meaning, for every pair of fields |
| `CompressedWord.OpCbranch` | src/decode.c:1841-1867 | C.BEQZ and C.BNEZ decode to their meaning |
| `CompressedWord.IndirectExactly` | src/rv32_template.c:1497-1523 | C.JR and C.JALR agree with JALR exactly when the target is even |
| `CompressedWord.LiHint` | src/rv32_template.c:1287 | c.li x0 is idle exactly when its immediate is zero |
| `CompressedWord.BreakSkips` | src/decode.c:1821-1822 | exactly the word 0x9002 is C.EBREAK; it decodes to the 32-bit ebreak, after which the default trap handler goes on four bytes further instead of two |
| `CompressedDecode.CjLoop` | src/decode.c:274-275 | the loop sets the four places above the sign bit exactly when that bit is set |
| `CompressedDecode.CbLoop` | src/decode.c:311-312 | likewise for eight places |
| `CompressedDecode.DecodeCaddi` | src/decode.c:232-240 | the loop gives the sign-extended six-bit immediate |
| `CompressedDecode.DecodeCj` | src/decode.c:262-281 | the CJ immediate of the standard's layout, sign-extended |
| `CompressedDecode.DecodeCb` | src/decode.c:300-314 | the CB immediate of the standard's layout, sign-extended |
| `CompressedDecode.DecodeCi` | src/decode.c:246-250 | the CI immediate of the standard's layout |
| `CompressedDecode.DecodeAddi4spn` | src/decode.c:198-206 | the C.ADDI4SPN immediate of the standard's layout |
| `CompressedDecode.DecodeAddi16sp` | src/decode.c:212-220 | the C.ADDI16SP immediate of the standard's layout |
| `CompressedDecode.DecodeLui` | src/decode.c:226-230 | the C.LUI immediate of the standard's layout |
| `CompressedDecode.SraiRegister` | src/decode.c:1609-1617 | the full rs1 field of C.SRAI names the register of its three-bit field |

## Left out

- Fusion.FusionSound: excludes runs in which an access traps, because inside a fused sequence the cycle count and the reported PC are those of the whole sequence.
- ConstOpt.ConstantPropagationSound: does not cover SC.W, whose rule does not forget rd, nor C.SLLI by 32 or more, undefined in C.
- RegAlloc.Jit.Translate: straight-line computing code only; loads, stores, branches, multiplication and set-less-than emit calls or host branches.
- Chaining.RunsTheRightBlock: assumes legal code without WFI, because both end a block at an instruction that is not its last; only the interpreter build without the system emulation.
- Mmu.Hart.Run: privilege and SUM are fixed in a run, and page tables change only by A and D bits.
- T2cLife.CachedCodeIsLive: ids of blocks are never reused.
- ChainedRun.ChainedIsBlockwise: assumes that no access traps and that the code writes x0 neither by loads nor by hints.
- LivenessExact.CountedExactly: runs of stores, loads, shifts and ADDI are covered in one direction only, by Liveness.UncountedIsUnread, since whether a register of a run shows depends on the entries around it.
- BlockCache.HandedBackIsUnbound: a put never brings in a block that is in the cache already.
- Mmu.TranslatesExactly: the kinds of fault are not told apart.
- SeqLock.AcceptedTogether: memory is sequentially consistent; the orderings of the C11 atomics are not modelled.
- BlockCache.Cache.PutEntry: the allocation of the new entry succeeds; the restore path does not restore the page index.
- CompressedWord.Decode: the words of the F extension are only told apart, not decoded.
- Frequencies in the block cache are unbounded counters.
- The lists of the block cache and of the page index, and the register map of the allocator, are sequences; their pointers are not modelled.
- The byte layout of the chunk bitmap, signal masks and the forwarding to earlier signal handlers.
- Lazy MMIO fusion, trap entry and return, CSR side effects, the A and F extensions.
- The byte encodings of x86-64 and Arm64, LLVM IR construction, the T2C instruction templates, instruction-cache barriers.
- The hit rate of the jit_cache, and code_cache_flush, which clears it without the lock.
- Superpage coverage of single-address flushes, and ASIDs.
- Devices, system calls, ELF loading, the debugger stub, logging and the command line.
