# mette: verified model

mette is a small language toolchain and its runtime. An assembler lays a program out in two passes
and writes an image; a loader reads the image back at any address; a stack VM executes it; under the
VM sit a heap allocator, a print formatter and multi-limb arithmetic. This project models these parts
in Dafny, on the 32-bit little-endian i386 target, and proves what they are for.

Code that works step by step in C (the passes, the writer, the loader, the VM, the allocator, the
formatter's buffer, the carry loops) is a class or a method with a loop here, proved against
a specification on values; the properties are then proved about that specification.

## The main results

- **From listing to running bytes.** Assembling a program, loading the image at any base and running
  it for any number of steps, whatever its native calls answer each time, gives the state that the
  instruction list itself gives
  (`Simulation.RunSimulates`, `Image.LoadedProgramSimulates`, and end to end over the imperative
  assembler, loader and VM in `Pipeline.AssembleLoadRun`); in the list, a branch to a label goes on at
  the instruction behind it (`Control.BranchToLabel`).
- **What each part does.** Every instruction's effect on a running machine in plain arithmetic
  (`Effects`), every operator of an expression, every byte of data in the image and what loading it
  yields (`Contents.DataLoads`), every field of the file, every conversion of the formatter.
- **The two passes agree.** Every address of pass 1 is the offset of the bytes pass 2 emits, and the
  image body has its declared size exactly when emission does not stop inside alignment padding. The
  loader recovers the program exactly then, when every counted native name is known; with fewer than
  65536 names it accepts no other file.
- **Control flow and position.** A program whose branches lead to machine instructions never leaves
  them; two loads of a program without address-dependent instructions run alike; a program with both
  properties needs no run-time assumption at all (`Control.StaticallySafe`).
- **Calls.** At any nesting depth a call returns to the byte behind it with the caller's locals; also
  when frames and locals are blocks in memory, whatever the allocator does outside the blocks in use
  (`Frames.RunRefines`, `Frames.RawCallReturns`). The allocator model provides what that asks for:
  over one heap shared by VM and program, every block handed out is fresh and every block in use stays
  live (`FrameHeap.HeapRunRefines`), so a loaded image whose frames live in that heap runs as its
  listing (`Pipeline.LoadedProgramOverHeap`).
- **Scopes and names.** All three walks over the list see the same scopes; definitions resolve
  uniquely; a branch reaches the instruction behind its label's own statement, and a native call runs
  the thunk registered under the name written in the source.
- **Expressions.** The in-place evaluator, which spoils a symbol reference when it resolves it,
  succeeds exactly when the expression has a meaning and no reference is met twice.
- **Heap.** Over every run of calls in which the arena does not grow below a block in use, the slots
  tile the arena, the free list is sorted and coalesced, and the pointers handed out are exactly those
  of the live blocks. A growth leaves the blocks in use alone exactly when no slot was free or nothing
  in use lay above the last free one; allocating and freeing again restores every word that matters.
- **Formatter.** One argument per specification, specifications that parse back from their text, the
  stream of a pure format function, and exactly which of its characters reach the output.
- **Limbs.** Addition and subtraction are exact with their carry, and undo each other, in place too.

## How it is organised

| files | content |
|---|---|
| numbers, words, opcodes | arithmetic facts; machine words and byte order; the opcode table |
| machine, handlers, effects, runs, vm | the VM's transition function, what its handlers mean, what each instruction does, whole runs, the VM as it runs |
| frames, frameheap | the VM with frames and locals in memory blocks, and its refinement; the blocks in the allocator's heap |
| expressions, parsing | symbol tables and expression evaluation; the parser's symbol actions |
| layout, agreement, contents, passes | the passes on values, why they agree, what they leave in the image, the passes as they run |
| image, loader, pipeline | the image format, the loader as it runs, everything together |
| simulation, control | the source-level machine, simulation, control flow, position independence |
| arena, freelist, heap, heapruns | the heap on values, its free list, the allocator as it runs, runs of calls |
| format, printer | the format function; the formatter as it runs |
| witnesses | a concrete program that meets the hypotheses, and concrete inputs for the departures below |
| limbs | multi-limb addition and subtraction |

Conventions. `Option` results stand for the assembler's reported errors and the loader's panics.
A VM outcome is `Running` or `Halted`, with `Panic` for the VM's own checks, `Fault` for a hardware
trap and `Undefined` where the C code reads something indeterminate without a check. `CodeIntact` says
that memory still holds the emitted machine instructions; `Laid` says that pass 1 reported no error
and the program's total size stays below 2^32.

## Where the code and its intent differ

The model follows the code. For each of these a member gives the exact condition, and for most another
a concrete input in `Witnesses`.

- A symbol reference can be resolved only once, because resolving overwrites its name
  (`src/vma/vma_asm.c:107`): `Expressions.EvaluatorMatchesMeaning`, `Witnesses.SecondUseFails`.
- Growing with a free slot left moves the last free slot's end to the old break instead of the new
  one (`src/rtl/rtl_memory.c:73-75`). With nothing in use above that slot this only postpones the new
  pages to the next such growth, so a request may take two growths; with a block in use above it, that
  block is claimed: `Heap.Allocator.Alloc`, `HeapRuns.GrowthKeepsLive`, `HeapRuns.AppendClaimsLive`,
  `HeapRuns.HandedOutOverlaps`, `Witnesses.GrowthBreaksHeap`.
- A request within 7 bytes of 2^32 wraps to a one-unit block (`src/rtl/rtl_memory.c:91`):
  `Arena.UnitsHoldRequest`, `Witnesses.LargestRequestGetsNothing`.
- A full print buffer loses its last character (`src/rtl/rtl_print.c:79-92`):
  `Printer.DeliveredAt`, `Printer.DeliveredWhole`, `Witnesses.FullBufferLosesOne`.
- When the last data is an empty string literal behind a padded empty reservation, emission stops in
  front of the padding and the file is too short to load (`src/vma/vma_out.c:84`):
  `Agreement.BodyLength`, `Witnesses.BodyFallsShort`, `Witnesses.ShortImageRefused`.
- `LDC.SB` takes 0 to 255 and loads 128 to 255 as negative (`src/vma/vma_asm.c:532`):
  `Simulation.SignedByteLoads`, `Witnesses.SignedByteFlips`.
- A width of zero without a flag in front of it is read as the zero-padding flag
  (`src/rtl/rtl_print.c:225-229`): `Format.ParsingInvertsRendering`.
- An unclosed subroutine leaves its scope in force for the start of both passes
  (`src/vma/vma_asm.c:455-463`): `Agreement.ParserScopesAgree`, `Witnesses.UnclosedScopesDiffer`.
- `NOT` pops two operands and loses the second (`src/vm_arch/vm_opcodes.in:54-57`): `Runs.NotTakesTwo`.
- `%o` converts in base 18 (`src/rtl/rtl_print.c:260`), which is octal only below eight:
  `Format.OctalOnlyBelowEight`.
- `%s` counts and prints the terminating zero (`src/sysdep/xstring.c:24-31`) unless the precision cuts
  it off: `Format.TerminatorCutOff`.
- The digit table has `H` before `G` (`src/rtl/rtl_print.c:129`), so the digits sixteen and seventeen
  are swapped, which only conversions above base 16, that is `%o`, can show: `Format.SwappedDigits`.

In one place the model follows the intent instead: `MULU` and `MULS` leave one result unset on i386
(`src/vm/vm_core.c:35-38`), while the model pushes the high and low words documented in the opcode table
and computed on MIPS. The one word the i386 macros compute is the low one (`Handlers.LowWordsAgree`).

## Model

| member | source | states |
|---|---|---|
| Words.FetchInvertsStore16 | src/vm/vm_misc.h:8-16 | fetching a half-word byte by byte returns the value the assembler stored |
| Words.FetchInvertsStore32 | src/vm/vm_misc.h:18-26 | fetching a word byte by byte returns the value the assembler stored |
| Words.AlignWordIsAlignUp | src/vma/vma.h:245 | the masking macro is rounding up whenever its sum does not wrap |
| Words.AlignedMultiple | src/vma/vma.h:245 | rounding up yields a multiple for every alignment in use |
| Words.BitsMean | src/vm/vm_core.c:134-145 | and, or, exclusive or and inversion, bit by bit |
| Opcodes.OpcodeValue | src/vm_arch/vm_gen_opcodes.c:19-22 | every shipped byte is the operation's table index with its arity in the two highest bits |
| Opcodes.SlotOfIndex | src/vm_arch/vm_gen_opcodes.c:38-42 | the jump table holds the operation at its table index |
| Opcodes.DecodeInvertsTable | src/vm_arch/vm_gen_opcodes.c:19-22 | the VM's split of every shipped opcode byte recovers the operation and its table arity |
| Opcodes.OpcodeBytesDistinct | src/vm_arch/vm_opcodes.codes.tab:3-10 | no two operations share an opcode byte |
| Handlers.ProductsMean | src/vm/vm_core.c:118-125 | the two pushed words make up the whole unsigned or signed 64-bit product |
| Handlers.LowWordsAgree | src/vm/vm_core.c:35-38 | the truncated product of the i386 macros is the documented low word of both multiplications |
| Handlers.UnsignedDivisionMeans | src/vm/vm_core.c:126-129 | remainder and quotient satisfy the division equation with a remainder below the divisor; a trap exactly on zero |
| Handlers.SignedDivisionMeans | src/vm/vm_core.c:130-133 | the same truncating toward zero, with the remainder's sign; a trap exactly on zero and on the quotient 2^31 |
| Handlers.SubUndoesAdd | src/vm/vm_core.c:112-117 | subtracting the added operand restores the other, wrap-around included, so operand order is right |
| Handlers.ComparisonsMean | src/vm/vm_core.c:155-169 | exactly one of less, greater and equal is set, signed and unsigned; the orders agree on operands of one sign |
| Handlers.ShiftBack | src/vm/vm_core.c:146-151 | shifting left and back right keeps exactly the low bits that were not shifted out |
| Handlers.RightShiftsRoundDown | src/vm/vm_core.c:149-154 | both right shifts divide by the power of two and round down, the arithmetic one on the signed value |
| Handlers.WriteKeepsOthers | src/vm/vm_core.c:213-224 | a store changes no byte outside its range and maps nothing new |
| Handlers.ReadsBack | src/vm/vm_core.c:198-224 | what was stored is read back, and a store succeeds exactly where a load does |
| Handlers.StoreThenLoadWord | src/vm/vm_core.c:210-224 | STM.W then LDM.W yields the stored word, or both fault |
| Handlers.StoreThenLoadHalf | src/vm/vm_core.c:204-220 | STM.H then a half-word load yields the low half, zero- or sign-extended, or both fault |
| Handlers.StoreThenLoadByte | src/vm/vm_core.c:198-216 | STM.B then a byte load yields the low byte, zero- or sign-extended, or both fault |
| Handlers.LocalsRoundTrip | src/vm/vm_core.c:232-255 | a stored local is loaded back, the others stay, and storing panics exactly as loading does |
| Handlers.FreshLocals | src/vm/vm_core.c:225-231 | LOCALS makes exactly the asked number of locals, none with a value |
| Handlers.SignedWraps | src/vm/vm_sysdeps.h:11 | the signed reading of a word inverts wrapping of every signed value |
| Effects.SwapMeans | src/vm/vm_core.c:259-263 | SWAP puts the entry below on top of the topmost one |
| Effects.DupMeans | src/vm/vm_core.c:256-258 | DUP pushes the topmost entry again |
| Effects.PopMeans | src/vm/vm_core.c:264-265 | POP drops the topmost entry |
| Effects.ConstantMeans | src/vm/vm_core.c:170-178 | LDC_0, LDC_1 and LDC_2 push 0, 1 and 2 |
| Effects.AddMeans | src/vm/vm_core.c:112-114 | ADD pushes the sum modulo 2^32 |
| Effects.SubMeans | src/vm/vm_core.c:115-117 | SUB subtracts the topmost entry from the one below, modulo 2^32 |
| Effects.MultiplyMeans | src/vm/vm_core.c:118-125 | MULU and MULS push, the high one on top, the two words that make up the product |
| Effects.UnsignedDivideMeans | src/vm/vm_core.c:126-129 | DIVU leaves the remainder on top of the quotient and traps on zero |
| Effects.SignedDivideMeans | src/vm/vm_core.c:130-133 | DIVS does with truncation toward zero, and traps on zero and on the quotient 2^31 |
| Effects.BitOperations | src/vm/vm_core.c:134-142 | AND, OR and XOR push what they make of every bit |
| Effects.NotMeans | src/vm/vm_core.c:143-145 | NOT pushes the topmost entry with every bit inverted and drops the one below |
| Effects.ShiftMeans | src/vm/vm_core.c:146-154 | LSL multiplies by the power of two modulo 2^32, LSR and ASR divide by it rounding down |
| Effects.CompareMeans | src/vm/vm_core.c:155-169 | the comparisons push 1 or 0 for the topmost entry against the one below, signed and unsigned |
| Effects.InlineByteMeans | src/vm/vm_core.c:179-186 | LDC_UB pushes the inline byte, LDC_SB sign-extends it |
| Effects.InlineWordMeans | src/vm/vm_core.c:187-197 | LDC_W pushes the inline word, LEA adds it to the address behind the instruction |
| Effects.LoadMeans | src/vm/vm_core.c:198-212 | a load pushes the little-endian value of the bytes at its address, sign-extended for SB and SH, and faults where one is unmapped |
| Effects.StoreMeans | src/vm/vm_core.c:213-224 | a store writes the low bytes, least significant first, at its address and nothing else, and faults where one is unmapped |
| Effects.LocalsMean | src/vm/vm_core.c:225-231 | LOCALS makes as many locals without a value as its inline byte says |
| Effects.LoadLocalMeans | src/vm/vm_core.c:232-243 | LDLOC pushes the local its inline byte names, with the panics without locals and out of bounds |
| Effects.StoreLocalMeans | src/vm/vm_core.c:244-255 | STLOC moves the topmost entry into the local its inline byte names, with the same panics |
| Effects.BranchMeans | src/vm/vm_core.c:266-287 | BR always, BR_T on a topmost entry other than zero and BR_F on zero go the signed inline distance from their end |
| Effects.CallMeans | src/vm/vm_core.c:288-295 | CALL and ICALL save the address behind them and the locals and go to their target; 2048 frames fit |
| Effects.JumpMeans | src/vm/vm_core.c:313-316 | IJMP goes to the topmost entry |
| Effects.ReturnMeans | src/vm/vm_core.c:296-307 | RET goes back to the address and locals of the topmost frame |
| Effects.NativeMeans | src/vm/vm_core.c:317-327 | NCALL hands stack and memory to the thunk its inline half-word numbers |
| Effects.NotReady | src/vm/vm_core.c:92-110 | missing operands panic first, then an opcode byte outside the table, and unmapped bytes fault |
| Runs.ActShape | src/vm_arch/vm_opcodes.in:10-226 | every handler pushes its table count of results or leaves the data stack alone; only CALL and ICALL enter, only RET leaves, only NCALL goes native |
| Runs.StepAccounts | src/vm/vm_core.c:102-105 | one step moves the data depth by the popped and pushed counts and leaves everything below the operands |
| Runs.NotTakesTwo | src/vm/vm_core.c:143-145 | NOT runs exactly with two entries to pop, inverts the top one and loses the other |
| Runs.RunAccounts | src/vm_arch/vm_opcodes.in:10-226 | over any run without NCALL the depth is the initial depth plus the sum of pushes minus pops of the executed opcodes |
| Runs.RunKeepsBottom | src/vm/vm_core.c:102-105 | entries no executed opcode popped are the same at the end of the run |
| Runs.RunKeepsCapacity | src/vm/vm_stack.c:47-63 | in every reachable state the stacks hold at most 16384 and 2048 entries |
| Runs.StepMovesOneFrame | src/vm/vm_core.c:54-66 | a step leaves the control stack alone, pushes one frame, or pops one and resumes with it |
| Runs.FrameStays | src/vm/vm_core.c:288-312 | while a callee runs, at any depth, the caller's frame and all below it stay in place |
| Runs.CallReturns | src/vm/vm_core.c:296-307 | when the control stack is first back at its depth, execution is at the byte behind the call with the caller's locals and control stack |
| Frames.StepRefines | src/vm/vm_core.c:54-80 | one step on values that is defined is one step with frames and locals in blocks, for any fresh block the allocator returns and any change it makes to memory not in use; no frame in use is written |
| Frames.RunRefines | src/vm/vm_core.c:225-312 | so is any run in which no thunk takes a byte of a block in use; blocks given back may be handed out again, to the VM or to the program |
| Frames.OnlyThunksTake | src/vm/vm_core.c:317-327 | no other operation takes such a byte, nor does a thunk that maps no further bytes |
| Frames.UndisturbedRefines | src/rtl/rtl_memory.c:120-139 | rewriting any bytes but the program's and those of the blocks in use keeps the correspondence |
| Frames.BlockStays | src/vm/vm_core.c:54-66 | while a callee runs the caller's frame block stays on the control stack with the caller's locals pointer in it |
| Frames.RawCallReturns | src/vm/vm_core.c:296-307 | at the return the control stack, the locals pointer and every stored value behind it are the caller's, and execution is at the byte behind the call |
| Frames.StoredCell | src/vm/vm_core.c:244-255 | storing a local in its block changes that cell only |
| Frames.FrameLayout | src/vm/vm_core.c:47-66 | a call leaves return address, caller's locals and stack depth as the three words of the frame |
| Frames.LocalsLayout | src/vm/vm_core.c:225-255 | LOCALS writes its count to its block, and a stored local stands in its own word behind it |
| Frames.NeedsExactly | src/vm/vm_core.c:54-66 | a call asks for twelve bytes, LOCALS for four and four a local |
| Frames.StartRefines | src/vm/vm_core.c:339-355 | a fresh context stands for itself on values, whatever bytes are the program's |
| FrameHeap.HandedOverFresh | src/rtl/rtl_memory.c:120-141 | the block the allocator hands out is mapped, nonzero and apart from every block in use and every byte the program was given |
| FrameHeap.HeapServes | src/vm/vm_core.c:54-66 | over a sound heap that owns the VM's blocks a step is served as the refinement asks, takes no byte of the VM's for the program, and the heap then owns the new block too |
| FrameHeap.ThunkApart | src/vm_thunks/vmt_rtl.c:9-16 | a thunk that takes only bytes outside the arena or of blocks its own calls added takes none of a block in use |
| FrameHeap.NotInHeader | src/rtl/rtl_memory.c:28-32 | no header byte of the heap lies in a live block behind its own header |
| FrameHeap.WordsInHeaders | src/rtl/rtl_memory.c:28-32 | a call that writes the words of its slots only, as bytes writes header bytes only |
| FrameHeap.GivenBytesKept | src/rtl/rtl_memory.c:28-32 | such writes leave every byte alone that was given away all the while |
| FrameHeap.StepBlocks | src/vm/vm_core.c:225-312 | after a step nothing is in use but what was and the block it asked for |
| FrameHeap.ReturnGivesBack | src/vm/vm_core.c:296-307 | the frame and the locals a return frees are in use no longer |
| FrameHeap.ReturnFreesLive | src/vm/vm_core.c:296-307 | both always belong to live blocks, so the heap can free them one after the other |
| FrameHeap.BetweenOwned | src/vm/vm_core.c:296-327 | the frees of a return and any allocator calls of a thunk that free no block in use go through sound heaps that own what is in use next |
| FrameHeap.HeapRunRefines | src/vm/vm_sysdeps.h:26-27 | with frames and locals in the allocator's own heap, shared with the program, a run on blocks is the run on values, whatever the thunks answer at each step |
| Expressions.EvaluatorMatchesMeaning | src/vma/vma_asm.c:194-322 | evaluation succeeds if and only if the expression has a meaning and no reference is visited twice, now or before; it then yields that meaning and spoils exactly the visited references |
| Expressions.EvaluationIsMeaning | src/vma/vma_asm.c:236-322 | an error-free evaluation, whatever ran before, yields the order-independent meaning modulo 2^32 |
| Expressions.AcyclicNotCircular | src/vma/vma_asm.c:217-223 | ranked constant definitions never lead evaluation back to a reference being expanded |
| Expressions.MeaningStable | src/vma/vma_asm.c:208-215 | placing more instructions never changes a meaning already found |
| Expressions.ArithmeticMeans | src/vma/vma_asm.c:278-291 | sum, difference and product modulo 2^32, the quotient rounded down, no meaning for division by zero |
| Expressions.BitOperatorMeans | src/vma/vma_asm.c:269-277 | or, and, exclusive or, bit by bit |
| Expressions.UnaryMeans | src/vma/vma_asm.c:299-316 | negation and its operand wrap to zero, inversion flips every bit |
| Expressions.LocalFirst | src/vma/vma_asm.c:48-60 | a subroutine's own names come before the global ones, which it sees too |
| Expressions.LeafMeans | src/vma/vma_asm.c:194-252 | a literal is its value, a label the address it was placed at, a constant what its definition means |
| Parsing.ParsingIsWellformed | src/vma/vma_misc.c:74-103 | after any statements: unique names in every table, distinct native names, `@@` names only in subroutine tables and (without errors) all of them there, and the scope the list implies |
| Parsing.ParsingExtends | src/vma/vma_asm.c:27-41 | tables, native names and the instruction list only grow at their ends |
| Parsing.LookupFindsEntry | src/vma/vma_asm.c:48-60 | with unique names a lookup finds the one entry of that name |
| Parsing.DefinitionStays | src/vma/vma_parser.y:115-138 | in an error-free parse every label and constant is finally the unique entry of its name in its own table, a label at the instruction behind it |
| Parsing.FirstDefinitionWins | src/vma/vma_misc.c:74-103 | the first definition of a name in a table stays, whatever follows |
| Parsing.ErrorsExactly | src/vma/vma_misc.c:79-101 | a parse is error-free exactly when no name is defined twice in a table and no local name outside a subroutine |
| Parsing.LocalNames | src/vma/vma_misc.c:79 | local names are two at-signs and at least one more character |
| Parsing.OpenSubroutine | src/vma/vma_parser.y:140-156 | the open subroutine is the one opened last unless it was closed, and its table is numbered by those opened before |
| Parsing.LocalNamesStayLocal | src/vma/vma_misc.c:79-91 | in an error-free parse no `@@` name is found in the globals |
| Parsing.NativeIdsNameTheirCalls | src/vma/vma_parser.y:271-275 | the id in every NCALL is the position of its own source name in the final table, so repeated names share it |
| Parsing.NativeNamesWereCalled | src/vma/vma_asm.c:32-35 | every table position belongs to a called name, so ids are dense |
| Parsing.PassesUseParserScopes | src/vma/vma_parser.y:140-156 | with the last subroutine closed both passes reach every statement in the scope the parser had there |
| Parsing.ScopeAtStatement | src/vma/vma_parser.y:140-156 | the passes' scope in front of every statement is the one the parser was in |
| Parsing.DefinitionResolves | src/vma/vma_asm.c:62-73 | a definition is found from its own scope, and a name without `@@` from every scope |
| Parsing.Builder.Find | src/vma/vma_asm.c:48-60 | the table walk finds a name exactly when it is defined |
| Parsing.Builder.AddSymbol | src/vma/vma_misc.c:74-103 | defining in place gives the specified tables and error count |
| Parsing.Builder.NativeId | src/vma/vma_asm.c:14-46 | the id is the first position of the name, appended when new |
| Parsing.Builder.Reduce | src/vma/vma_parser.y:104-156 | every reduction leaves the specified parser state |
| Layout.CutFrom | src/vma/vma_out.c:83-87 | emission covers the longest prefix of instructions below the bss boundary |
| Agreement.PlacedAtExtent | src/vma/vma_asm.c:440-477 | without wrap-around every instruction sits at the rounded-up end of the one before, its padding is the gap, its size the next extent |
| Agreement.DataAligned | src/vma/vma_asm.c:442-453 | data and reservations of width `w` start at multiples of `w` behind less than `w` bytes of padding; nothing else is padded |
| Agreement.FollowsAt | src/vma/vma_asm.c:324-429 | from one instruction to the next: opcode byte and operand, `w` bytes an item, `w` times the amount of a reservation, the bytes of a text, nothing for directives |
| Agreement.ReservationCounted | src/vma/vma_asm.c:409-426 | the amount of a reservation is what its expression means |
| Agreement.PassesShareScopes | src/vma/vma_asm.c:515-524 | pass 1 ends in the scope it began in, and both passes use the same scope at every instruction |
| Agreement.ParserScopesAgree | src/vma/vma_asm.c:455-463 | the passes' scopes are the parser's everywhere if and only if the last subroutine was closed or the list begins with a scope directive |
| Agreement.EmitsItsSize | src/vma/vma_asm.c:491-628 | an instruction emits exactly its padding plus the size pass 1 reserved |
| Agreement.EmittedUpTo | src/vma/vma_asm.c:491-628 | before instruction i pass 2 has emitted exactly its address minus its padding minus the start address |
| Agreement.BytesAtAddress | src/vma/vma_asm.c:491-628 | every instruction's bytes stand in the output at the offset of its pass 1 address |
| Agreement.BssBoundary | src/vma/vma_asm.c:472-474 | the bss boundary is the end of the last allocating instruction |
| Agreement.BodyLength | src/vma/vma_out.c:63-87 | the body has the size written in the header if and only if the cut is not inside padding with data to come; it is never longer |
| Agreement.NonEmptyTextsFillBody | src/vma/vma_out.c:83-87 | without empty string literals the body always has the declared size |
| Agreement.MachineBeforeCut | src/vma/vma_out.c:83-87 | no machine instruction is ever cut off |
| Contents.BoundaryIsLastEnd | src/vma/vma_asm.c:472-474 | the bss boundary is the end of the last machine instruction, definition or text, or the start |
| Contents.DataStored | src/vma/vma_asm.c:580-605 | item `k` of a definition stands `w * k` behind its address as the low bytes of what it means, least significant first, behind 0xAA padding |
| Contents.TextStored | src/vma/vma_asm.c:569-578 | a text stands in the body as it is |
| Contents.ReservationFilled | src/vma/vma_asm.c:607-628 | a reservation before the cut is filled with 0xCC behind 0xAA padding |
| Contents.OperandAccepted | src/vma/vma_asm.c:526-549 | a byte operand is accepted from 0 to 255, a short branch exactly when its target lies -128 to 127 bytes from its end, anything else always |
| Contents.DataLoads | src/vm/vm_core.c:198-212 | loading an item where the image was loaded pushes what the item means, as far as it fits its width |
| Passes.Assembler.constructor | src/vma/vma_misc.c:105-116 | the state the passes start from |
| Passes.Assembler.Evaluate | src/vma/vma_asm.c:236-322 | in-place evaluation reports no error exactly when the evaluation on values exists; then the node holds its value, other cells are untouched or hold their meaning |
| Passes.Assembler.EvaluateSymref | src/vma/vma_asm.c:194-234 | the same for a reference, whose name is overwritten |
| Passes.Assembler.EvaluateBinary | src/vma/vma_asm.c:251-297 | the same for binary operators, in evaluation order, a zero divisor being an error |
| Passes.Assembler.EvaluateUnary | src/vma/vma_asm.c:299-315 | the same for unary operators |
| Passes.Assembler.EstimateSize | src/vma/vma_asm.c:324-431 | the size is the specified one and amounts of earlier reservations stay in their cells |
| Passes.Assembler.EnterInsn | src/vma/vma_asm.c:442-469 | padding, scope and address of one instruction |
| Passes.Assembler.PlaceInsn | src/vma/vma_asm.c:440-477 | one turn of pass 1 keeps the fields equal to the placement on values, errors included |
| Passes.Assembler.RunPass1 | src/vma/vma_asm.c:433-483 | pass 1 reports no error exactly when the placement exists, and leaves it in the instruction fields |
| Passes.Assembler.EmitData | src/vma/vma_asm.c:580-605 | data items are evaluated and written in list order; `Contents.DataStored` says as which bytes |
| Passes.Assembler.EmitMachine | src/vma/vma_asm.c:499-567 | opcode byte and operand as specified, an error exactly when evaluation or range fails |
| Passes.Assembler.EmitBytes | src/vma/vma_asm.c:503-627 | the bytes of one instruction; a reservation reuses its pass 1 amount |
| Passes.Assembler.EmitInsn | src/vma/vma_asm.c:491-628 | scope change and bytes of one instruction, an error exactly when the emission on values has none |
| Passes.Assembler.HashName | src/vma/vma_out.c:36-47 | the accumulator loop computes the name hash |
| Passes.Assembler.EmitProgram | src/vma/vma_out.c:83-87 | emits exactly the instructions before the cut |
| Passes.Assembler.WriteHeader | src/vma/vma_out.c:73-81 | appends the 32-byte header |
| Passes.Assembler.WriteNativeTable | src/vma/vma_out.c:89-95 | appends the hashes in table order |
| Passes.Assembler.Assemble | src/vma/vma_out.c:49-96 | both passes and the writer succeed exactly when the specified image exists, and the output is then that image |
| Image.LoadsParts | src/vm/vm_loader.c:24-121 | a header, a body of the declared size and a hash table load exactly when every counted hash is known; with a shorter body exactly when bytes of the table can stand for the rest and for known hashes |
| Image.NoMistake | src/vm/vm_loader.c:85-100 | which a table that fits the count never can |
| Image.LoadsWhatWasWritten | src/vm/vm_loader.c:12-125 | loading a generated file recovers body, sizes, entry and the counted part of the table, exactly when the cut is not inside padding and every counted name is known; the loader accepts any other generated file exactly when table bytes are mistaken, so with fewer than 65536 names never |
| Image.HeaderBytes | src/vma/vma_out.c:73-81 | the 32 header bytes: `BARF`, three little-endian words, the native count, filler |
| Image.FileLayout | src/vma/vma_out.c:49-96 | a written file has total size, body size, start offset and native count in the header, the body from byte 32 on and behind it the hashes of the native names in order; it starts at the label `start` |
| Image.GeneratesExactly | src/vma/vma_out.c:67-70 | a file is written exactly when both passes report no error and `start` is defined |
| Image.LoadAccepts | src/vm/vm_loader.c:12-125 | a file loads exactly when it begins with `BARF` and its fields, holds the body and table it promises, and every hash has a thunk |
| Image.LoadTakes | src/vm/vm_loader.c:12-125 | sizes, entry, body and table of a loaded module are those of the file |
| Image.FixUpFindsProcs | src/vm/vm_loader.c:102-118 | fix-up replaces every written hash by its thunk and fails exactly when one is unknown |
| Image.LookupByName | src/vm/vm_thunks.c:11-24 | when the hash tells a name from the registered ones, first match by hash is first match by name |
| Image.HashMeans | src/vma/vma_out.c:36-47 | the hash of nothing is zero; a further character multiplies by 61, adds it and folds in the high half, bit by bit |
| Image.HashOfOne | src/vm/vm_gen_thunks.pl:9-18 | the hash of one plain character is its code |
| Image.FirstThunk | src/vm/vm_thunks.c:11-24 | the thunk of a hash is the first registered one, or zero |
| Image.NativesLinkedByName | src/vma/vma_out.c:89-95 | entry k of a loaded table is the thunk registered under the k-th counted name; the program is recovered exactly without unregistered name or short body |
| Image.NativeStep | src/vm/vm_core.c:317-327 | an NCALL in the listing hands the data stack to the thunk of the name its 16-bit id counts to, its own when there are fewer than 65536; past the table it panics or is undefined |
| Image.RunStartsUnpadded | src/vma/vma_out.c:67-71 | a start label from which the listing runs at all is unpadded, so the entry offset is its instruction's |
| Image.LoadedProgramSimulates | src/vm/vm_core.c:339-355 | a loaded image started at its entry runs as the listing does from its start label |
| Loader.FindThunk | src/vm/vm_thunks.c:11-24 | the pointer loop finds the first record with the hash, or zero |
| Loader.Reader.ReadBytes | src/vm/vm_loader.c:85-88 | a full read moves the cursor past the bytes at it; a short one is recognised |
| Loader.Reader.ReadHeader | src/vm/vm_loader.c:24-58 | the sequential reads yield the header's fields, or nothing on a bad signature or short file |
| Loader.Reader.FixUpTable | src/vm/vm_loader.c:102-118 | the in-place loop leaves the specified thunks or reports an unknown hash |
| Loader.Reader.LoadModule | src/vm/vm_loader.c:12-125 | the loader's result is the specified module or panic for every file |
| Simulation.MachineEmitted | src/vma/vma_asm.c:499-567 | every machine instruction stands whole in the body, opcode and encoded meaning, at its address |
| Simulation.OperandRoundTrip | src/vm/vm_core.c:179-197 | at any base the operand fetched from the bytes is the one meant: a loaded label, a sign-extended byte or the value |
| Simulation.LongRoundTrip | src/vma/vma_asm.c:561-567 | a 32-bit displacement lands on base plus label for every base and label |
| Simulation.ShortRoundTrip | src/vma/vma_asm.c:539-549 | so does an accepted one-byte displacement after sign extension |
| Simulation.SignedByteLoads | src/vma/vma_asm.c:526-537 | LDC.SB is accepted exactly for 0 to 255 and loads its own value exactly for 0 to 127 |
| Simulation.StepDecodes | src/vm/vm_core.c:99-107 | on an opcode byte with its operand the VM runs that operation with the table arity |
| Simulation.StepSimulates | src/vm/vm_core.c:90-337 | one VM step on intact code is one step over the list, halts included |
| Simulation.RunSimulates | src/vm/vm_core.c:90-337 | so are k steps, while control stays on listed instructions and code stays intact |
| Control.BranchToLabel | src/vma/vma_asm.c:539-567 | a taken branch or call whose operand refers to a label goes on at the instruction behind the label, whatever the base; an untaken one falls through |
| Simulation.LabelFindsItsInstruction | src/vma/vma_parser.y:115-118 | a label's address names the machine instruction it stands before and no other |
| Simulation.LoadedCodeIntact | src/vm/vm_loader.c:85-88 | a body copied to a base puts every machine instruction's bytes at its loaded address |
| Control.StepStaysOnCode | src/vm/vm_core.c:266-312 | a step of a well-connected program stays before machine instructions, return addresses included |
| Control.ControlStaysOnListing | src/vm/vm_core.c:90-337 | in every reachable state of the byte run the pc is a listed machine instruction's loaded address, and op_invalid is never reached |
| Control.RelocatableKeepsCode | src/vm/vm_core.c:225-307 | a program without memory and native instructions never overwrites its code |
| Control.SourceRunsAlike | src/vma/vma_asm.c:539-567 | its listing runs alike at any two bases and under any thunks |
| Control.RunsAlike | src/vm/vm_core.c:266-295 | two loads of such a program run with equal pc minus base, data stack and locals after any number of steps |
| Control.StaticallySafe | src/vm/vm_core.c:90-337 | a well-connected program without memory and native instructions, loaded intact, never leaves its instructions and runs for ever as its listing does, with no assumption about the run |
| Vm.Stack.constructor | src/vm/vm_stack.c:15-40 | an empty stack of the given capacity |
| Vm.Stack.PushBlock | src/vm/vm_stack.c:47-63 | pushes the block with its first element on top, or refuses it whole exactly on overflow |
| Vm.Stack.PopBlock | src/vm/vm_stack.c:72-88 | pops exactly the topmost entries in order, or refuses exactly on underflow |
| Vm.Context.constructor | src/vm/vm_core.c:339-355 | a context at the entry with empty stacks of the source's capacities and no locals |
| Vm.Context.PushResults | src/vm/vm_core.c:329-332 | results end up top first over the old contents, or the stack overflows |
| Vm.Context.SaveFrame | src/vm/vm_core.c:54-66 | saves return address and locals on the control stack and clears the locals |
| Vm.Context.RestoreFrame | src/vm/vm_core.c:68-80 | restores both from the topmost frame |
| Vm.Context.Dispatch | src/vm/vm_core.c:107-335 | carrying an action out on arrays and fields is what the transition function says |
| Vm.Context.RunNative | src/vm/vm_core.c:317-327 | a thunk's effect replaces data stack and memory |
| Vm.Context.StepOnce | src/vm/vm_core.c:90-337 | one step of the imperative VM is one step of the transition function, for every byte |
| Vm.Context.Execute | src/main.c:36-38 | k turns of the loop are k transitions, with the thunks' answers at each of them |
| Pipeline.AssembleLoadRun | src/vma/vma_out.c:49-96 | the imperative assembler, loader and VM in a row run exactly when pass 2 succeeds, the body fills its size and counted names are known, or table bytes are mistaken for a short body; in the first case they end as the listing's run does |
| Pipeline.LoadedProgramInBlocks | src/vm/vm_core.c:54-80 | a loaded image run with frames and locals in blocks does what its listing does |
| Pipeline.LoadedProgramOverHeap | src/vm/vm_sysdeps.h:26-27 | so it does when the blocks come from the allocator's heap, from any sound state of it |
| Pipeline.CopyBody | src/vm/vm_loader.c:79-88 | the copying loop places the body at the base |
| Pipeline.ReadPlaced | src/vm/vm_loader.c:85-88 | a placed body is read back, around the end of the address space too |
| Pipeline.CallRunsItsOwnName | src/vma/vma_asm.c:551-554 | executing the NCALL of a parsed call statement runs the thunk registered under the name in that statement exactly when the header counts its position; otherwise its id, if in the table, is another name's |
| Pipeline.BranchReachesItsLabel | src/vma/vma_parser.y:115-118 | a parsed branch or call to a name goes on, when taken, at the instruction behind that name's label statement, at every base |
| Arena.FirstFitIsLowest | src/rtl/rtl_memory.c:103-142 | the chosen slot is free and large enough, all free slots below are too small, and none is chosen exactly when none fits |
| Arena.NeverWraps | src/rtl/rtl_memory.c:107-111 | below the user-space limit the overflow check never ends the search |
| Arena.TakeShaped | src/rtl/rtl_memory.c:120-139 | taking a slot, split or whole, keeps tiling and coalescing |
| Arena.ReleaseShaped | src/rtl/rtl_memory.c:162-188 | releasing keeps tiling and coalescing |
| Arena.TakeThenRelease | src/rtl/rtl_memory.c:106-188 | releasing the block just taken restores every slot, through both branches |
| Arena.BehindShaped | src/rtl/rtl_memory.c:73-75 | moving the topmost free slot's end to the old break keeps tiling and coalescing, with the new pages lost for now |
| Arena.BehindLive | src/rtl/rtl_memory.c:73-75 | and touches no live block when nothing in use lies above the slot |
| Arena.SecondGrowthFits | src/rtl/rtl_memory.c:101-148 | behind a topmost free slot a second growth makes the slot fit when the first did not |
| Arena.Conservation | src/rtl/rtl_memory.c:28-41 | free, live and lost bytes are always the arena |
| Arena.LiveDisjoint | src/rtl/rtl_memory.c:28-41 | live blocks never overlap |
| Arena.TakeAddsOne | src/rtl/rtl_memory.c:120-141 | an allocation adds exactly its block to the live ones |
| Arena.ReleaseRemovesOne | src/rtl/rtl_memory.c:153-189 | a release removes exactly its block |
| Arena.UnitsHoldRequest | src/rtl/rtl_memory.c:91 | a block holds the requested bytes behind its header if and only if the rounding does not wrap |
| Arena.UnitsExact | src/rtl/rtl_memory.c:91 | a request that does not wrap takes the fewest units that hold it and one for the header |
| Arena.RequestLimit | src/rtl/rtl_memory.c:95-98 | requests above 2^27 - 16 bytes are too large |
| Arena.PagesExact | src/rtl/rtl_memory.c:57-58 | a growth takes the fewest whole pages |
| Arena.TakeExact | src/rtl/rtl_memory.c:120-139 | the block is as long as asked for, or one unit longer when exactly one more was there; the rest stays free behind it |
| Arena.ReleaseExact | src/rtl/rtl_memory.c:162-188 | a release leaves one free slot over the freed block and its free neighbours, and everything else as it was |
| Arena.GrowthSuffices | src/rtl/rtl_memory.c:57-82 | from an empty free list one growth makes the new slot the first fit |
| FreeLists.ChainRemove | src/rtl/rtl_memory.c:132-139 | redirecting one link takes exactly one node out of the list |
| FreeLists.ChainInsert | src/rtl/rtl_memory.c:170-181 | two links put exactly one node in |
| FreeLists.FreeListSorted | src/rtl/rtl_memory.c:34-35 | the free list is strictly sorted by address and inside the arena |
| FreeLists.NodeOfSlot | src/rtl/rtl_memory.c:106-118 | following the list from a free slot leads to the next free slot of the arena |
| Heap.Allocator.FindFit | src/rtl/rtl_memory.c:103-142 | the list walk finds the arena's first fit with its predecessor, or that there is none |
| Heap.Allocator.Carve | src/rtl/rtl_memory.c:120-139 | rewriting headers and links takes the slot and keeps the heap's shape |
| Heap.Allocator.SplitSlot | src/rtl/rtl_memory.c:120-131 | the split writes both headers and links the rest behind the block |
| Heap.Allocator.Unlink | src/rtl/rtl_memory.c:132-139 | takes exactly the chosen node out of the free list |
| Heap.Allocator.Deliver | src/rtl/rtl_memory.c:119-141 | handing out the slot the walk found answers the request as the whole call must |
| Heap.Allocator.Grow | src/rtl/rtl_memory.c:44-83 | whole pages behind the arena or no change; both branches as written |
| Heap.Allocator.GrowOnceMore | src/rtl/rtl_memory.c:144-147 | one growth in the loop is a step of the described growths, or is refused and changes nothing but a first arena start |
| Heap.Allocator.Alloc | src/rtl/rtl_memory.c:85-151 | a fitting request takes the lowest fitting slot; on an empty free list one growth suffices, behind a topmost free slot at most two do, with the exact slots after each; below a block in use the result starts at the last free slot; too large requests and refused growth change nothing; unless it grew below a block in use, only header words of the slots it leaves are written |
| Heap.Allocator.FindPlace | src/rtl/rtl_memory.c:162-168 | finds the free neighbours of a block in address order |
| Heap.Allocator.LinkFreed | src/rtl/rtl_memory.c:170-181 | links the block into the list or merges it into the slot below |
| Heap.Allocator.MergeNext | src/rtl/rtl_memory.c:181-188 | swallows the slot above exactly when it is free and adjacent |
| Heap.Allocator.Free | src/rtl/rtl_memory.c:153-189 | freeing a live block keeps the heap's shape and merges it with free neighbours, writing only header words of the slots before; zero does nothing |
| Heap.LeftJoin | src/rtl/rtl_memory.c:170-176 | comparing the last lower free slot's end with the block merges exactly when the slot below is free |
| Heap.RightJoin | src/rtl/rtl_memory.c:181-188 | comparing the block's end with the next free slot merges exactly when the slot above is free |
| HeapRuns.CallKeepsSound | src/rtl/rtl_memory.c:44-189 | every call keeps the heap invariant |
| HeapRuns.ReachableHeapsSound | src/rtl/rtl_memory.c:44-189 | in every reachable state: tiling to the break, coalescing, sorted free list, disjoint live blocks, conservation |
| HeapRuns.RunLosesNothing | src/rtl/rtl_memory.c:76-81 | while the arena only grows on an empty free list the headers lead exactly to the break and free plus live bytes are the arena |
| HeapRuns.ToppedShape | src/rtl/rtl_memory.c:73-75 | one or two growths behind the topmost free slot keep shape and live blocks and let that slot fit |
| HeapRuns.CallChangesOneBlock | src/rtl/rtl_memory.c:85-189 | a call adds or removes one live block, large enough when added, and no other changes |
| HeapRuns.Allocate | src/rtl/rtl_memory.c:85-151 | the imperative allocator makes only the described calls and points behind the header of the slot handed out; when it grew below a block in use, what it hands out starts at the last free slot and, with nothing lost, overlaps that block |
| HeapRuns.TopNode | src/rtl/rtl_memory.c:103-118 | walking the links ends at the last free slot |
| HeapRuns.HandleAboveTop | src/rtl/rtl_memory.c:73-75 | whether growth would harm a block can be told from the free list and the pointers handed out |
| HeapRuns.Serve | src/rtl/rtl_memory.c:44-189 | over any requests served in place the pointers handed out and not given back are exactly those of the live blocks, until the arena grows below one |
| HeapRuns.GrowthKeepsLive | src/rtl/rtl_memory.c:73-81 | a granted growth leaves words that describe a heap with the same blocks in use if and only if no slot was free or nothing in use lay above the last free one |
| HeapRuns.GrowthKeepsShape | src/rtl/rtl_memory.c:73-81 | a granted growth leaves headers that lead exactly to the new break if and only if no slot was free |
| HeapRuns.AppendClaimsLive | src/rtl/rtl_memory.c:73-75 | the moved slot contains a block in use if and only if one lay above it; with nothing lost before, if and only if the slot ended below the break |
| HeapRuns.HandedOutOverlaps | src/rtl/rtl_memory.c:73-75 | after such a growth the block handed out overlaps one in use exactly when it reaches the first one above the slot, and with nothing lost always |
| HeapRuns.AllocThenFree | src/rtl/rtl_memory.c:85-189 | allocating without growth and freeing leaves slots, anchor, list links and headers as they were |
| Format.DigitsDenote | src/rtl/rtl_print.c:131-142 | conversion yields a string whose positional value is the number, in every base from 2 to 36 |
| Format.DigitsOfBase | src/rtl/rtl_print.c:131-142 | only digits of the base, and no leading zero but for zero itself |
| Format.WordDigits | src/rtl/rtl_print.c:164-172 | at most 32 digits, so the buffers suffice |
| Format.ReadingInvertsDecimal | src/rtl/rtl_print.c:184-196 | reading the decimal digits of a 32-bit value, in front of anything but a digit, yields it and stops behind them |
| Format.ParsingInvertsRendering | src/rtl/rtl_print.c:225-247 | the text of flags, width and precision parses back to them, exactly unless a zero width stands without a flag |
| Format.PointAlone | src/rtl/rtl_print.c:240-247 | a point without digits is a precision of zero |
| Format.OctalOnlyBelowEight | src/rtl/rtl_print.c:258-261 | the digits of base 18 are the octal ones exactly below eight |
| Format.SwappedDigits | src/rtl/rtl_print.c:129-142 | a conversion is in alphabetical digits exactly when no digit is sixteen or seventeen, so always up to base 16 |
| Format.TerminatorCutOff | src/rtl/rtl_print.c:179-182 | a string is printed without its terminating zero exactly when the precision cuts it off |
| Format.LayoutShape | src/rtl/rtl_print.c:94-127 | length by width and precision, the clipped text on the aligned side, padding on the other |
| Format.OneArgumentPerSpec | src/rtl/rtl_print.c:198-284 | one argument is consumed per specification other than `%%`, known conversion or not |
| Format.UnsignedConversion | src/rtl/rtl_print.c:255-266 | without width and precision `%u`, `%x`, `%X` and `%o` print the argument in base 10, 16, 16 and 18, in digits of the base without leading zeros |
| Format.SignedConversion | src/rtl/rtl_print.c:250-254 | `%d` prints a sign exactly for a negative signed word and behind it the absolute value |
| Format.TextConversion | src/rtl/rtl_print.c:267-282 | `%c` prints the low byte, `%s` the text with its terminator, `%b` the buffer, any other letter nothing |
| Format.LaidOutConversion | src/rtl/rtl_print.c:94-182 | with width and precision the same text is laid out, zero-padded only for unsigned conversions and `%d` of what is not negative; `%c` heeds neither |
| Format.PlainText | src/rtl/rtl_print.c:202-223 | text without a percent sign is printed as it is, in front of what follows |
| Format.PercentSign | src/rtl/rtl_print.c:202-223 | `%%` prints one percent sign and takes no argument; one at the end prints nothing |
| Format.RenderedConversion | src/rtl/rtl_print.c:225-284 | a specification in its textual form prints the conversion of the next argument, whatever stands around it |
| Printer.DeliveredWhole | src/rtl/rtl_print.c:79-92 | the output is the whole stream if and only if it is shorter than 1024 |
| Printer.DeliveredAt | src/rtl/rtl_print.c:79-92 | the i-th delivered character is the stream's character i + i/1023 |
| Printer.DeliveredLength | src/rtl/rtl_print.c:79-92 | one character is lost per full buffer |
| Printer.Context.PutChar | src/rtl/rtl_print.c:79-92 | appends to the stream and keeps buffer, output and count in step with it |
| Printer.Context.ConvText | src/rtl/rtl_print.c:94-127 | the padding loops append the laid-out text |
| Printer.Context.ConvBase | src/rtl/rtl_print.c:131-147 | the recursion writes exactly the digits from its start on and returns their end |
| Printer.Context.ConvNumber | src/rtl/rtl_print.c:149-172 | signed and unsigned conversions, a negative number never zero-padded |
| Printer.Context.ReadNumber | src/rtl/rtl_print.c:184-196 | reads the longest run of digits modulo 2^32 |
| Printer.Context.ReadSpec | src/rtl/rtl_print.c:225-247 | the cursor moves parse flags, width and precision as specified |
| Printer.Context.Conversion | src/rtl/rtl_print.c:249-282 | appends the conversion of the argument, nothing for an unknown one |
| Printer.Context.PrintPiece | src/rtl/rtl_print.c:202-284 | one turn appends the text of one piece and advances behind it |
| Printer.Context.Print | src/rtl/rtl_print.c:198-291 | for every format the stream is the format function's text, the output what of it is delivered, the count its full length |
| Limbs.ValueInjective | src/imp/i386/imp_add.c:6-21 | limb sequences of one length are determined by their value |
| Limbs.Add | src/imp/i386/imp_add.c:3-22 | result plus carry times 2^(32n) is the sum, also when the result shares an operand's array |
| Limbs.Sub | src/imp/i386/imp_sub.c:3-25 | result is the difference plus borrow times 2^(32n), also in place |
| Limbs.SubUndoesAdd | src/imp/i386/imp_sub.c:6-24 | subtracting the same operand restores the other limb for limb, the borrow being the carry |
| Limbs.AddThenSub | src/imp/i386/imp_add.c:3-22 | adding in place and subtracting again leaves the array as it was |
| Witnesses.LoopRuns | src/vm/vm_core.c:184-291 | the four emitted bytes of a three-instruction loop meet every hypothesis and run at any base, for ever, as the listing does |
| Witnesses.CallOverHeap | src/vm/vm_core.c:288-307 | a call and its return over the empty heap, with any thunks, meet every hypothesis about runs on blocks; the heap grows by a page and has it back whole at the end |
| Witnesses.SecondUseFails | src/vma/vma_asm.c:217-223 | a constant that names a label, used twice in one expression, has a meaning but is reported as an error |
| Witnesses.GrowthBreaksHeap | src/rtl/rtl_memory.c:73-75 | a request that does not fit a half-used page grows it and leaves words that describe no heap with the used half in use |
| Witnesses.HalfUsedReached | src/rtl/rtl_memory.c:85-189 | two allocations and a release lead from the empty heap to that page |
| Witnesses.LargestRequestGetsNothing | src/rtl/rtl_memory.c:91 | the largest request gets a bare header |
| Witnesses.FullBufferLosesOne | src/rtl/rtl_print.c:79-92 | 1024 characters come out as the first 1023 |
| Witnesses.BodyFallsShort | src/vma/vma_out.c:83-87 | a program whose header promises four bytes and whose body has one |
| Witnesses.ShortImageRefused | src/vma/vma_out.c:67-87 | its image is written, and the loader refuses it |
| Witnesses.SignedByteFlips | src/vma/vma_asm.c:526-537 | LDC.SB accepts 128 and loads minus 128 |
| Witnesses.UnclosedScopesDiffer | src/vma/vma_asm.c:455-463 | with an unclosed subroutine a reference in front of it finds nothing in the parser's scope and the subroutine's own constant in the passes' |
| Witnesses.UnclosedAssembles | src/vma/vma_asm.c:515-532 | and the program assembles with that constant in the instruction |

## Left out

- Heap.Allocator.Alloc: once the arena has grown with a block in use above the last free slot it promises only where the result starts, because the source then counts that block as free; `HeapRuns.GrowthKeepsLive` is the exact condition.
- HeapRuns.Serve: stops at the first such growth for the same reason, as do `HeapRuns.Allocate` and the runs of `HeapRuns.ReachableHeapsSound`.
- Heap.Allocator.Free: asks for zero or the pointer of a live block, as the source does without checking it.
- Heap.Allocator.Grow: the system's answer is arbitrary except that no break above 0xC0000000 is granted, the i386 user-space limit; without one, the search's overflow check could fire.
- Passes.Assembler.Assemble: says nothing about the partial output after an error, and the cut-off after 20 errors is not modelled; both end the assembler without a usable image.
- Passes.Assembler.Evaluate: the second evaluation of a symbol reference is an unresolved-symbol error here; the source looks up the symbol record's bytes as a name. The same holds for `Passes.Assembler.EvaluateSymref`. Expression nodes and instruction fields are cells of arrays indexed by node and instruction, not linked records.
- Vm.Context.StepOnce: says nothing about stacks and fields after a panic, fault or exit, which end the process.
- Vm.Context.SaveFrame: keeps frames and locals as values, as `Runs.CallReturns` and `Runs.FrameStays` do; `Frames` and `FrameHeap` show that blocks in memory do the same as long as the program stays out of the blocks in use. What a program does that writes there is not modelled, and allocation for frames and locals always succeeds, as the source takes it to.
- FrameHeap.HeapRunRefines: asks for a program that holds only bytes it was given and frees none of the VM's blocks, and stops, like the heap's runs, at a growth below a block in use. The heap model keeps headers and links as maps: that the memory's bytes differ only where those words do is part of what it asks for.
- Loader.Reader.LoadModule: allocation of the module always succeeds, and a body longer than the declared memory size is not refused, as in the source.
- Image.LoadsWhatWasWritten: assumes a start symbol that, when defined, is a label; the source would misread a constant's record as an instruction.
- Image.LoadedProgramSimulates: for a run of no steps at all the start label must be unpadded; a run of any step implies it.
- Handlers.ProductsMean: proves the documented high and low words; the i386 macros set one result and leave the other undefined.
- Vm.Context.RunNative: a thunk transforms the data stack and memory only; the source hands it the whole context.
- Simulation.RunSimulates: is about runs that keep the machine instructions' bytes and whose control stays on listed instructions; anything else has no source-level meaning.
- Printer.Context.Print: a format that ends inside a specification is reported as an overrun at that point; the source goes on behind the terminator.
- Limbs.Add: asks for at least one limb, because the source's loop instruction wraps its counter on zero, and arrays are the same or disjoint, never partly overlapping.
- Uninitialised locals, NCALL indices outside the table and opcode bytes whose arity bits undersupply the handler end in `Undefined`; the source reads whatever is there.
- `rtl_realloc`, whose merge loop never matches and whose shrink path hands `rtl_free` a header.
- String buffers' clipping to their capacity: the formatter's output is an unbounded sink.
- System calls, files and command lines: the file is a byte sequence, memory a finite map of mapped bytes, and a thunk at each step an arbitrary function on the data stack and memory, which may be another at the next step.
- The lexer and the grammar: the model starts at the parser's symbol actions and the instruction list.
- Big-endian and MIPS byte order, start-up assembly and linker scripts, debug printing and panic texts.
- Shift counts are taken modulo 32, as the i386 shift instructions do; the C standard leaves larger ones open.
