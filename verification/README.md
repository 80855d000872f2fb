# Verification of the pipeline's cache, monitor and support software

A Dafny model of three parts of the repository and of the small programs around them, with proofs that hold
for all inputs, all runs and, where a size is a parameter, all sizes.

**The N-way write-back cache.**  `CacheController` follows the generated controller signal by signal,
`CacheDatapath` the arrays and multiplexers, `Cache` the wiring; one call of `Cache.Cycle` is one clock period.
`CacheSpec` states the same cycle on values, `CacheRefinement` proves that cache and line memory together are
the flat byte-writable memory of `hvl/shadow_memory.sv` (`FlatMemory`), and `CacheProgress` that every held request is
answered and the memory port keeps still.  `CacheReplacement` carries the replacement policy over to the cache and says where
dirty lines come from.  `Plru` is tree pseudo-LRU over 2^k ways; `NWayGenerator`, `NWayPaths`
and `GeneratedPlru` follow `python/n_way_cache.py` from node labels to the generated update and victim functions.
`BurstMemory` is the burst memory of the test bench.

**The RVFI monitor.**  `IsaSpec` holds the 70 instruction modules and their selection.  `IsaManual` describes the 32-bit
instructions on integers, independently of it, and proves that the modules do exactly that; `BitVectors` and `IsaValues` lead from
words to integers.  `IsaEncoding` gives formats, register numbers and immediates bit by bit, `IsaDecoding` and
`CompressedExpansion` what the decoders and the compressed modules have in common with the others,
`ReorderBuffer` and `RvfiMonitor` the clocked checkers, `MonitorSoundness` what an error-free run means.

**The software.**  `SoftDivision` and `SoftLcm` are the arithmetic of `testcode/src/comp2.c`; `MExtension` compares
it and the monitor's multiply and divide results with the exact ones; `TradeMessages` is `testcode/src/comp3.c`.
`Arithmetic`, `MachineWords` and `Wrappers` hold shared facts about powers of two, quotients and 32-bit words, and
the option type.

## Assumptions

- A clock edge is a step; registers are read before it and written at it.  Values are two-valued.
- Cache: while a request waits for `mem_resp` the requester goes on asking for a word of the same line; which word, whether
  to read or write it, data and byte enables may change, and read and write may be asserted together, which cache and
  shadow memory both take as a read (`ReadWinsOverWrite`).  Withdrawing the request, or moving to another set, is what the
  cache does not survive (`WithdrawnRequestCorrupts`).  The memory answers after any finite time.
- `array_4_way`, `data_array_4_way` and `bus_adapter_4_way` are not part of this model.  They are taken to read the
  contents before the edge, to write at the edge, to clear tag, valid, dirty and PLRU arrays on reset, to write bytes under
  their enables, and to replicate the 32-bit word over the line.
- C: `int` and `long` are 32 bits; signed overflow and narrowing wrap around.
- Monitor: one reset edge precedes a run.  Initial contents of the reorder buffer are arbitrary.

## What the proofs found

- The monitor's DIV and REM (`hvl/rvfimon.v:5313-5315`, `6127-6129`) are nested conditionals with unsigned branches.
  By sections 11.8.1 and 11.8.2 of IEEE 1800-2017 that makes the whole expression unsigned, `$signed(a) / $signed(b)` included.
  `MonitorDivExact` and `MonitorRemExact` give exactly the operands where the result is still the one of section 6.2 of
  the RISC-V manual (version 2.2); `MonitorDivWitness` is -7 / 2.  `SoftDiv` and `SoftRem` compare the software with both readings.
- "Expected intr after trap" (`hvl/rvfimon.v:298-300`) can never be raised, because a trapped instruction also invalidates
  the shadow pc: `TrapCheckIsDead`, `AnyPcAfterTrap`.
- `iter` loses a running value exactly when the LCM of a proper prefix exceeds an `int`: `NothingLostExactly`, `PrefixOverflow`;
  the result can still be right by luck: `LuckyOverflow`.
- `process_execution` skips a message only if type and subtype are both wrong, though the comment beside the test
  speaks of notifications of no interest; the model follows the test.  Its risk is exact precisely below a distance of
  2^29 (2^28 for long expirations, one more for liquidity makers): `RiskExact`.  From there the flag depends only on the distance, taken
  the short way round 2^32, modulo 2^30 (2^29): `FlagExactly`, `RiskWraps`.
- A request withdrawn, or moved to another set, during its fill leaves bus data in the cache as a valid clean line:
  `WithdrawnRequestCorrupts`.
- `hvl/param_memory.sv:7` describes `BURST_LEN` as bits; it is the number of beats, and is modelled as that.

## Model

| member | source | states |
|---|---|---|
| CacheController.Controller.LoadPlru | python/cache_cntrl_4.sv:95-117 | the overwriting assignments compose to touching each hitting way in turn; OneHitLoads says what that is |
| CacheController.Controller.WhichDirty | python/cache_cntrl_4.sv:118-125 | `dirty` is the dirty bit of the way to replace |
| CacheController.Controller.SetDefaults | python/cache_cntrl_4.sv:127-188 | after the defaults nothing loads and nothing is requested; which_tag survives |
| CacheController.Controller.WhichReplace | python/cache_cntrl_4.sv:190-216 | for every PLRU value exactly one nested condition fires, the victim's |
| CacheController.Controller.DriveHit | python/cache_cntrl_4.sv:230-288 | a hit loads PLRU, and on a write dirties and byte-writes only the first hitting way; a miss loads nothing |
| CacheController.Controller.Drive | python/cache_cntrl_4.sv:225-374 | in each state the signals are those of that state's arm, for all inputs and whatever was latched |
| CacheController.Controller.DecideNext | python/cache_cntrl_4.sv:375-402 | next state for each state, hit, dirty and memory answer |
| CacheController.Controller.Clock | python/cache_cntrl_4.sv:404-411 | reset wins over the next state |
| CacheDatapath.Datapath.Load | python/cache_datapath_4.sv:109-366 | an edge changes the addressed set only, way by way under the load signals; reset clears valid, dirty and PLRU |
| CacheDatapath.AdapterWrites | hvl/shadow_memory.sv:30-39 | replicated word and shifted byte enables write exactly the bytes the shadow memory writes |
| Cache.WiresRead | python/cache_datapath_4.sv:326-410 | hit lines, dirty and PLRU outputs, line and address multiplexers read the addressed set |
| Cache.LoadsMakeStep | python/cache_datapath_4.sv:309-366 | any signals the controller may drive load each way as the set-level step says |
| Cache.OutputsMatch | python/cache_4_way.sv:96-119 | the controller signals drive the ports as the value-level outputs say |
| Cache.Cache.Settle | python/cache_4_way.sv:28-119 | the wires settle to the value-level outputs and next state |
| Cache.Cache.Cycle | python/cache_4_way.sv:120-128 | a clock period of controller and datapath refines the value-level step, or resets |
| FlatMemory.CutBits | hvl/shadow_memory.sv:25-26 | cutting the number of an address gives its fields back |
| FlatMemory.BitsCut | hvl/shadow_memory.sv:25-26 | every 32-bit address is determined by its fields; line number and byte lane are addr[31:5] and {addr[4:2], 2'b00} |
| FlatMemory.WriteThenRead | hvl/shadow_memory.sv:22-39 | reading back sees exactly the enabled bytes changed, other words unchanged |
| FlatMemory.ReadBytes | hvl/shadow_memory.sv:22-28 | byte i of a word read is the byte i above the address rounded down to a multiple of 4 |
| FlatMemory.WrittenBytes | hvl/shadow_memory.sv:30-39 | byte by byte: a write changes the enabled bytes of its word and no other address |
| FlatMemory.ShadowMemory.Read | hvl/shadow_memory.sv:22-28 | the word at the address |
| FlatMemory.ShadowMemory.Write | hvl/shadow_memory.sv:30-39 | the byte loop merges the enabled bytes into the one line |
| FlatMemory.ShadowMemory.Data | hvl/shadow_memory.sv:63-84 | an answered read is counted if and only if its data differs from the word in memory; an answered write is performed |
| CacheRefinement.HitStep | python/cache_cntrl_4.sv:230-288 | a hit keeps the set invariant and changes what a program sees only by the write |
| CacheRefinement.MissStep | python/cache_cntrl_4.sv:378-388 | a miss changes nothing a program sees |
| CacheRefinement.EvictStep | python/cache_cntrl_4.sv:350-372 | write-back cycles keep the invariant although the dirty bit is cleared early, and change nothing a program sees |
| CacheRefinement.FillStep | python/cache_cntrl_4.sv:289-349 | fill cycles keep the invariant although the line is valid before its data is; the last one ends in a hit |
| CacheRefinement.ResetEstablishes | python/cache_cntrl_4.sv:404-407 | after reset the invariant holds and a program sees the line memory |
| CacheRefinement.StepKeepsInv | python/cache_cntrl_4.sv:225-411 | in every reachable state dirty implies valid, valid tags differ, and clean lines equal memory except the victim in transfer |
| CacheRefinement.StepAbs | python/cache_cntrl_4.sv:225-411 | only completed writes change the memory a program sees, and exactly their enabled bytes |
| CacheRefinement.StepReads | python/cache_cntrl_4.sv:241-254 | a completed read returns the word of the memory a program sees |
| CacheRefinement.CheckCounts | hvl/shadow_memory.sv:63-84 | over any log of answers the shadow memory performs the writes, and errcount grows by exactly the number of reads that differ from the word the earlier writes left |
| CacheRefinement.RunAgrees | hvl/shadow_memory.sv:63-84 | over every legal run the shadow memory counts no mismatch and ends with the memory seen through the cache |
| CacheRefinement.CacheRefinesShadowMemory | hvl/shadow_memory.sv:22-84 | from reset, for every request sequence and every memory latency: each read returns the word of the initial memory with the earlier answered writes applied, and those writes are what a program sees in the end |
| CacheRefinement.LatestByte | hvl/shadow_memory.sv:22-39 | in that memory a byte holds what the last write enabling it wrote |
| CacheRefinement.UntouchedByte | hvl/shadow_memory.sv:22-39 | a byte that no write enables keeps its initial value |
| CacheReplacement.OneHitLoads | python/cache_cntrl_4.sv:95-117 | for every register and way, the update for that way's hit line alone is the generated update, and without a hit line nothing changes |
| CacheReplacement.PlruStep | python/cache_cntrl_4.sv:230-288 | an answer loads the one way that hits, as generated, into its set; no other cycle and no other set changes PLRU bits |
| CacheReplacement.PlruOfRun | python/cache_cntrl_4.sv:225-411 | after any legal run the PLRU bits of a set are the generated updates of the ways that answered, in order |
| CacheReplacement.AnswerProtects | python/cache_cntrl_4.sv:190-288 | a way that answered is not the victim of its set before two answers from other ways |
| CacheReplacement.MissesTakeTurns | python/cache_cntrl_4.sv:190-349 | up to four answers after misses come from different ways, and after four the PLRU bits are back |
| CacheReplacement.DirtyMeansWritten | python/cache_cntrl_4.sv:256-283 | a line is dirty only if an answered request wrote it; reads and fills make no line dirty |
| CacheProgress.PortSteady | python/cache_cntrl_4.sv:289-372 | an unanswered memory command is repeated unchanged |
| CacheProgress.TransferSteady | hvl/param_memory.sv:69-87 | from first cycle to answer the port shows one command, a read or a write and never both |
| CacheProgress.StageDrops | python/cache_cntrl_4.sv:375-402 | every cycle answers the request, waits for memory, or takes it one stage further |
| CacheProgress.RequestCompletes | python/cache_cntrl_4.sv:229-411 | exact cycles, write-backs and fills of a held request for all latencies: at most one of each |
| CacheProgress.WithdrawnRequestCorrupts | python/cache_cntrl_4.sv:289-400 | a request withdrawn, or moved to another set, mid-fill makes the next read return bus data |
| CacheProgress.ReadWinsOverWrite | python/cache_cntrl_4.sv:241-255 | with read and write together cache and shadow memory agree on a read: right word, nothing written |
| NWayGenerator.NodeLabels | python/n_way_cache.py:97-107 | the label loops produce the level-order labels, then the ways |
| NWayGenerator.LabelQuotient | python/n_way_cache.py:102-102 | the quotient written as a label is exact |
| NWayGenerator.LabelsArePermutation | python/n_way_cache.py:97-105 | every number 0 .. N-2 labels exactly one node, for every N = 2^k |
| NWayGenerator.BuildIsSplit | python/n_way_cache.py:109-109 | the level-order list builds the balanced search tree over the ways |
| NWayGenerator.InOrderSorted | python/n_way_cache.py:97-109 | read in order the tree lists ways and bits alternately and sorted |
| NWayGenerator.SplitHeight | python/n_way_cache.py:110-110 | the height is log2 N |
| NWayPaths.Dfs | python/n_way_cache.py:7-30 | the search finds exactly the labels of a tree with distinct labels |
| NWayPaths.WalkTo | python/n_way_cache.py:114-121 | the walk records the turns down to way i |
| NWayPaths.FindPaths | python/n_way_cache.py:112-121 | the path loop yields the path of every way |
| NWayPaths.PathSpellsWay | python/n_way_cache.py:113-121 | a path has log2 N turns whose directions are the binary digits of the way |
| GeneratedPlru.TurnsTouch | python/n_way_cache.py:123-127 | the assignments generated for one hit touch that way's leaf in the bit tree |
| GeneratedPlru.SelectedIsVictim | python/n_way_cache.py:182-189 | the conditions generated for a way all hold exactly if the tree walk ends there |
| GeneratedPlru.ReplaceIsVictim | python/n_way_cache.py:179-190 | the generated chain picks the victim whatever the register holds |
| GeneratedPlru.RoundRobin | python/n_way_cache.py:97-190 | from any register N replacements pick each way exactly once and restore the register |
| GeneratedPlru.HitProtects | python/n_way_cache.py:112-190 | a way just used is not replaced before log2 N uses of other ways |
| GeneratedPlru.ProtectionIsTight | python/n_way_cache.py:112-190 | log2 N uses of other ways, deepest branching first, always make it the victim |
| GeneratedPlru.FourWayReplace | python/cache_cntrl_4.sv:190-216 | the 4-way controller's victim choice is the generated one |
| GeneratedPlru.FourWayLoad | python/cache_cntrl_4.sv:95-117 | pointing the path bits at one way is the generated update |
| Plru.AfterHalves | python/n_way_cache.py:97-127 | replacement rounds alternate between the two halves of any subtree |
| Plru.EachWayOnce | python/n_way_cache.py:97-127 | in 2^k rounds each way is the victim in exactly one |
| Plru.RoundsReturn | python/n_way_cache.py:97-127 | 2^k rounds restore the bits |
| Plru.Survives | python/n_way_cache.py:112-127 | an accessed way becomes the victim only after k accesses to others |
| Plru.DeepestFirstEvicts | python/n_way_cache.py:112-127 | k such accesses suffice from any state |
| BurstMemory.ParamMemory.MemRead | hvl/param_memory.sv:50-103 | four beats carry the addressed line; latency by page, memory unchanged |
| BurstMemory.ParamMemory.MemWrite | hvl/param_memory.sv:108-162 | four beats replace the addressed line and no other; latency by page |
| BurstMemory.BeatBytes | hvl/param_memory.sv:96-99 | byte j of beat k is the memory byte at 8k + j above the start of the line |
| BurstMemory.WriteThenReadBack | hvl/param_memory.sv:50-162 | a burst written is read back beat for beat through any address of its line; other lines keep theirs |
| BurstMemory.SameLineAsCache | hvl/param_memory.sv:55-56 | masking and dividing an address gives the line number the cache uses |
| SoftDivision.UDivModSI4 | testcode/src/comp2.c:118-141 | exact quotient or remainder for every divisor but 0, no bit lost in either loop, both loops end; results for 0 |
| SoftDivision.DivSI3 | testcode/src/comp2.c:143-167 | the truncated quotient modulo 2^32, -2^31 / -1 included |
| SoftDivision.ModSI3 | testcode/src/comp2.c:169-190 | the truncated remainder |
| SoftDivision.MulDI3 | testcode/src/comp2.c:204-217 | the product modulo 2^64 |
| SoftLcm.Gcd | testcode/src/comp2.c:84-100 | the loop runs Euclid's recursion on all ints |
| SoftLcm.GcdMeaning | testcode/src/comp2.c:84-100 | the greatest common divisor up to sign, positive for non-negative inputs, 1 for two zeros |
| SoftLcm.LcmOfTwo | testcode/src/comp2.c:102-104 | for positive numbers a common multiple that divides every common multiple |
| SoftLcm.Lcm | testcode/src/comp2.c:102-104 | the product never overflows `long long` |
| SoftLcm.Iter | testcode/src/comp2.c:106-116 | the loop is the narrowing fold |
| SoftLcm.ExactLcmIsLcm | testcode/src/comp2.c:106-116 | folding without narrowing gives the least common multiple of positive entries |
| SoftLcm.FoldIsLcm | testcode/src/comp2.c:106-116 | so does `iter` if every proper prefix LCM fits an int |
| SoftLcm.NothingLostExactly | testcode/src/comp2.c:111-114 | narrowing changes no running value if and only if every proper prefix LCM fits an int |
| SoftLcm.PrefixOverflow | testcode/src/comp2.c:111-114 | an input where a lost prefix makes the result wrong |
| SoftLcm.LuckyOverflow | testcode/src/comp2.c:111-114 | an input where a prefix is lost and the result right |
| MExtension.MulhExact | hvl/rvfimon.v:5871-5872 | MULH and MUL are the two halves of the exact signed product |
| MExtension.MulhsuExact | hvl/rvfimon.v:5923-5924 | MULHSU and MUL are the two halves of the exact mixed product |
| MExtension.MulhuExact | hvl/rvfimon.v:5975-5975 | MULHU and MUL are the two halves of the exact unsigned product |
| MExtension.MonitorDivExact | hvl/rvfimon.v:5313-5315 | the monitor's DIV is the manual's if and only if the operands are sign-free |
| MExtension.MonitorRemExact | hvl/rvfimon.v:6127-6129 | the monitor's REM is the manual's if and only if the operands are sign-free; for a negative dividend and positive divisor, if the divisor is a power of two dividing the dividend |
| MExtension.SignedBranchWouldAgree | hvl/rvfimon.v:5313-5315 | with a signed last branch the conditionals would be the manual's for all operands |
| MExtension.MonitorDivWitness | hvl/rvfimon.v:5313-5315 | -7 / 2 and -7 % 2 differ from the manual |
| MExtension.SoftDiv | testcode/src/comp2.c:143-167 | __divsi3 is the manual's DIV iff the divisor is not 0, and the monitor's iff the operands are also sign-free |
| MExtension.SoftRem | testcode/src/comp2.c:169-190 | __modsi3 is the manual's REM always, and the monitor's iff the operands are sign-free |
| SoftDivision.UDivSI3 | testcode/src/comp2.c:192-196 | the quotient of the argument words, through both conversions |
| SoftDivision.UModSI3 | testcode/src/comp2.c:198-202 | the remainder of the argument words |
| MExtension.SoftDivu | testcode/src/comp2.c:192-196 | __udivsi3 is DIVU iff the divisor is not 0 |
| MExtension.SoftRemu | testcode/src/comp2.c:198-202 | __umodsi3 is REMU always |
| BitVectors.AddValue | hvl/rvfimon.v:3514-3514 | a word sum is the integer sum modulo 2^32 |
| BitVectors.SignedLess | hvl/rvfimon.v:3919-3919 | comparing with the sign bits flipped is comparing the signed values |
| IsaValues.ShiftRightSignedIs | hvl/rvfimon.v:6638-6638 | the arithmetic shift divides the signed value by a power of two, rounding down, for every amount |
| IsaValues.LoadedIs | hvl/rvfimon.v:5518-5524 | loaded bytes and halfwords are remainders of the memory word, read as two's complement by LB and LH |
| IsaValues.StoreThenLoad | hvl/rvfimon.v:6236-6237 | a store within a word followed by a load of its size gives the stored bytes back, whatever the word held |
| IsaManual.ModulesAreManual | hvl/rvfimon.v:3481-7008 | each of the 45 32-bit modules has, for all words and operands, exactly the effect an integer description gives: result, next pc, trap, address, byte masks, store data |
| IsaManual.SpecIsManual | hvl/rvfimon.v:2696-3476 | isa_spec has that effect on every word a 32-bit module accepts |
| IsaEncoding.Accepts32 | hvl/rvfimon.v:3481-7008 | a 32-bit module accepts a word if and only if it has the fixed bits of its instruction |
| IsaEncoding.Accepts16 | hvl/rvfimon.v:4042-5276 | the same for compressed modules, with the fields that must not be zero |
| IsaEncoding.DecodesOperands | hvl/rvfimon.v:3481-7008 | the registers and the immediate of each instruction type; x0 for registers a type does not have |
| IsaEncoding.Registers32 | hvl/rvfimon.v:6628-6631 | which bits are the register numbers |
| IsaEncoding.ImpliedRegisters | hvl/rvfimon.v:4487-4831 | stack pointer and link register of the compressed instructions that imply them |
| IsaEncoding.ImmIBits | hvl/rvfimon.v:5508-5508 | which instruction bits form the I immediate, and its sign |
| IsaEncoding.ImmSBits | hvl/rvfimon.v:6222-6222 | the S immediate |
| IsaEncoding.ImmBBits | hvl/rvfimon.v:3909-3909 | the B immediate |
| IsaEncoding.ImmUBits | hvl/rvfimon.v:5712-5712 | the U immediate |
| IsaEncoding.ImmJBits | hvl/rvfimon.v:5408-5408 | the J immediate |
| IsaEncoding.CImmJBits | hvl/rvfimon.v:4461-4462 | the offset of compressed jumps |
| IsaEncoding.ShamtBits | hvl/rvfimon.v:6375-6375 | the shift amount |
| IsaEncoding.CShamtBits | hvl/rvfimon.v:4955-4955 | the compressed shift amount |
| IsaEncoding.CImm6Bits | hvl/rvfimon.v:4114-4114 | the immediate of C.ADDI, C.LI and C.ANDI |
| IsaEncoding.CImmLuiBits | hvl/rvfimon.v:4706-4706 | the immediate of C.LUI |
| IsaEncoding.CImm16spBits | hvl/rvfimon.v:4163-4163 | the immediate of C.ADDI16SP |
| IsaEncoding.CImm4spnBits | hvl/rvfimon.v:4212-4212 | the immediate of C.ADDI4SPN |
| IsaEncoding.CImmBBits | hvl/rvfimon.v:4361-4361 | the offset of compressed branches |
| IsaEncoding.CImmLwBits | hvl/rvfimon.v:4755-4755 | the offset of C.LW and C.SW |
| IsaEncoding.CImmLwspBits | hvl/rvfimon.v:4806-4806 | the offset of C.LWSP |
| IsaEncoding.CImmSwspBits | hvl/rvfimon.v:5204-5204 | the offset of C.SWSP |
| IsaEncoding.Registers16 | hvl/rvfimon.v:4757-4758 | the full and the short register numbers of compressed instructions |
| IsaDecoding.Disjoint32 | hvl/rvfimon.v:3481-7008 | no word is valid for two 32-bit modules |
| IsaDecoding.Disjoint16 | hvl/rvfimon.v:4042-5276 | no word is valid for two compressed modules |
| IsaDecoding.DisjointLengths | hvl/rvfimon.v:2696-3476 | no word is valid for a 32-bit and a compressed module |
| IsaDecoding.AtMostOneValid | hvl/rvfimon.v:2696-3476 | at most one of the 70 modules is valid for any word |
| IsaDecoding.OrderIrrelevant | hvl/rvfimon.v:2696-3476 | the selection chains may be written in any order, for all words and operands |
| IsaDecoding.ValidWords | hvl/rvfimon.v:2696-2766 | spec_valid holds exactly if some module accepts the word |
| IsaDecoding.ZeroRegisterWrite | hvl/rvfimon.v:5320-5320 | a result for x0 is 0 whatever is selected |
| CompressedExpansion.FieldsAgree | hvl/rvfimon.v:4042-5276 | the expansion of a valid compressed word is valid and decodes to the same registers and immediate |
| CompressedExpansion.ExpansionAgrees | hvl/rvfimon.v:4042-5276 | every valid compressed word has the effect of its expansion, with pc + 2 as next instruction; direct jumps up to the target check |
| CompressedExpansion.EvenPcAgrees | hvl/rvfimon.v:4042-5276 | at an even pc every valid compressed word and its expansion have equal outputs, trap included |
| CompressedExpansion.OddTargetNeedsOddPc | hvl/rvfimon.v:4438-4531 | the target check the compressed jumps omit fails only at odd pcs |
| ReorderBuffer.Rob.Clock | hvl/rvfimon.v:405-431 | an edge with its overlapping non-blocking writes is the value-level step |
| ReorderBuffer.ErrcodeMeaning | hvl/rvfimon.v:414-424 | which code is raised when, and the slot it names |
| ReorderBuffer.Conservation | hvl/rvfimon.v:405-431 | while errcode stays 0, accepted = emitted + buffered as multisets of entries |
| ReorderBuffer.InOrder | hvl/rvfimon.v:420-427 | while errcode stays 0 the orders come out 0, 1, 2, ... modulo 2^64 |
| ReorderBuffer.OutputsWereInputs | hvl/rvfimon.v:414-427 | every output is an accepted entry, data included |
| ReorderBuffer.NoFalseAlarm | hvl/rvfimon.v:405-431 | new numbers within 256 of the next never raise errcode, come out in turn with their own data, and as soon as they are next |
| RvfiMonitor.MemoryCodeMeaning | hvl/rvfimon.v:147-176 | the memory checks pass if and only if any access, read or write, is at the expected address, the write mask is the expected one, every expected byte is read and every written byte is right |
| RvfiMonitor.CodeIsLastFailing | hvl/rvfimon.v:126-177 | the code is that of the last failing check in the order of the source, and 0 if none of the 16 fails |
| RvfiMonitor.Monitor.CheckChannel | hvl/rvfimon.v:126-180 | the code left by the check list, and 0 exactly for conforming reports |
| RvfiMonitor.Monitor.ShadowPc | hvl/rvfimon.v:287-304 | error and new shadow pc of one edge |
| RvfiMonitor.Monitor.ShadowRegisters | hvl/rvfimon.v:342-374 | error and new shadow registers of one edge |
| RvfiMonitor.Monitor.ReportError | hvl/rvfimon.v:378-386 | the later checker's code is shown |
| RvfiMonitor.ReportIsLast | hvl/rvfimon.v:378-386 | that is the last non-zero code of channel 0, reorder buffer, shadow pc and shadow registers |
| RvfiMonitor.Monitor.Clock | hvl/rvfimon.v:126-386 | an edge of the whole monitor is the value-level step, from any state resets |
| MonitorSoundness.Pipeline | hvl/rvfimon.v:182-230 | the shadow state is that of the emitted instructions, one cycle late |
| MonitorSoundness.ChecksContinue | hvl/rvfimon.v:287-374 | the shadow checks pass exactly the instructions that continue the log |
| MonitorSoundness.ShadowCodes | hvl/rvfimon.v:287-374 | which of codes 130, 131 and 132 a failing check leaves |
| MonitorSoundness.CleanExactly | hvl/rvfimon.v:126-386 | no error code ever shows if and only if all reports conform, the reorder buffer is content and the log is sequential |
| MonitorSoundness.ConformingRunIsClean | hvl/rvfimon.v:126-431 | conforming, in-window, sequential runs raise no alarm |
| MonitorSoundness.RegFileMeaning | hvl/rvfimon.v:342-374 | the reference registers hold the latest write to each register, x0 starting at 0 |
| MonitorSoundness.MonitorSound | hvl/rvfimon.v:126-431 | a clean run is a sequential execution: orders, pc chain, latest writes, x0 = 0, and the registers, next pc, trap, address and bytes that isa_spec gives |
| MonitorSoundness.ManualEffects | hvl/rvfimon.v:3481-7008 | on 32-bit instructions these effects are the manual's on integers |
| MonitorSoundness.TrapCheckIsDead | hvl/rvfimon.v:298-303 | code 133 can never be raised |
| MonitorSoundness.AnyPcAfterTrap | hvl/rvfimon.v:295-303 | after a trap the pc check accepts anything |
| TradeMessages.SwapTwice | testcode/src/comp3.c:174-192 | each byte swap undoes itself |
| TradeMessages.SwapSpells16 | testcode/src/comp3.c:122-124 | a swapped 16-bit load is the number its bytes spell, most significant first |
| TradeMessages.SwapSpells32 | testcode/src/comp3.c:174-180 | the same for 32 bits |
| TradeMessages.SwapSpells64 | testcode/src/comp3.c:182-192 | the same for 64 bits |
| TradeMessages.FieldsSpell | testcode/src/comp3.c:121-125 | contracts, strike, expiration, price and id are the numbers spelt in the message |
| TradeMessages.Processor.ProcessExecution | testcode/src/comp3.c:113-172 | a message with neither type N nor subtype E, or with an old id, changes nothing; any other sets the last id and is flagged if its risk is over the threshold |
| TradeMessages.Processor.CheckRisk | testcode/src/comp3.c:146-171 | the flag is the exact test below the risk limit, and 0 at the limit |
| TradeMessages.RunTotals | testcode/src/comp3.c:113-144 | over any stream the last id is the largest with type N or subtype E; modulo 2^32 the puts are the contracts of records of type P and side B less those of other P records, the calls those of C records not sold less those of side S |
| TradeMessages.AcceptedExactly | testcode/src/comp3.c:115-135 | a message is accepted if and only if it has type N or subtype E and its id exceeds that of every such message before it |
| TradeMessages.CountsWithinTotal | testcode/src/comp3.c:136-144 | puts and calls together never exceed the contract total |
| TradeMessages.CountersExact | testcode/src/comp3.c:136-144 | each counter is exact if and only if its sum fits its type; below 2^31 contracts all are, within the total |
| TradeMessages.ReplayChangesNothing | testcode/src/comp3.c:129-134 | replaying any messages of a stream, in any order, changes no state |
| TradeMessages.WrapOnce | testcode/src/comp3.c:146-161 | wrapping at every step is wrapping once at the end |
| TradeMessages.RiskExact | testcode/src/comp3.c:146-161 | the risk is computed exactly if and only if the distance from the strike is below the limit |
| TradeMessages.FlagExactly | testcode/src/comp3.c:146-171 | exactly which distances raise the flag, and which should |
| TradeMessages.FlagUpToLimit | testcode/src/comp3.c:146-171 | the flag is right below the limit and missed at it |
| TradeMessages.FlagOfMessage | testcode/src/comp3.c:113-172 | the same for the flag process_execution returns for a message |
| TradeMessages.FlagInNumbers | testcode/src/comp3.c:146-171 | in numbers: 4 times the distance, 8 from expiration 11 on, less 2 for a maker, against 100, while that fits an int |
| TradeMessages.RiskWraps | testcode/src/comp3.c:146-161 | a distance of 2^30 is computed as risk 0 |

## Left out

- MonitorSound: covers what the monitor checks; memory read data is taken from the report, because the monitor has no shadow memory, and
  `mode`, `halt` and `mem_extamo` enter no check.
- MonitorSound: needs reports that isa_spec recognises and that name the decoded source registers; the address checks
  themselves skip x0.
- ModulesAreManual: describes DIV and REM as the monitor computes them; `MonitorDivExact` and `MonitorRemExact` say where that is the
  manual's result.  The compressed modules reach it through `ExpansionAgrees`.
- ExpansionAgrees: supposes operand value 0 for a source register that is x0, as the interface reports it.
- Gcd: takes the most negative int divided by -1 exactly, where C leaves it undefined; `Lcm` likewise.
- FoldIsLcm: one direction; `NothingLostExactly` is the exact condition for the running values, and `LuckyOverflow` shows that the final
  value alone can be right without it.
- RequestCompletes: the two latencies are arbitrary but fixed for the request.
- MemRead: transfers at the test bench's parameters; the assertion processes beside the bursts, reset from a file and clock periods are absent.
- TransferSteady: states what the burst memory's assertions watch; the line-to-burst adaptor between cache and burst memory is not part of this model.
- Read strobes of the cache arrays, constant 1 in the controller, and reset in the middle of a run.
- Controllers for 8 ways and more: the generated text has fixed label widths; only the PLRU part is proved for all N.
- The text layout of the generated SystemVerilog, and the datapath and top-level generators.
- The instruction port of the shadow memory, which is a lookup in an unchanging memory.
- The benchmark drivers with their constant data, byte-sized `testcode/src/comp1.c`, and the single-expression ALU.
- Pipeline, forwarding, arbiter and branch predictor, whose hardware description is not part of this model.
- Display, finish and mailbox actions, and four-valued logic.
