# RV32IM virtual machine: a verified model

A Dafny model of the yeti-vm interpreter for RISC-V RV32IM: its instruction codec, the dispatch
registry, the block-structured memory, the step machine with its exceptions, and the Intel HEX loader.
`dafny verify dfyconfig.toml` checks all of it.

The centre is one refinement theorem. `Reference` is a mathematical RV32IM machine (sections 2.2-2.6, 7.1
and 7.2 of the RISC-V Instruction Set Manual, Volume I, version 20191213): integers, its own decoder, one
flat map from addresses to bytes, no registry, no bit tricks. Of the blocks it knows only where they lie, as
the regions that one access must stay within. `BasicVm` is the interpreter as
the C++ code has it: an object with a register array, a map of memory blocks, a registry and flags, that
fetches through a pointer into writable memory and may throw in the middle of a step. For every program,
host and run length, the interpreter's run completes exactly when the reference run does with every program
counter mapped, and then in the same registers, program counter and memory - also when a store overwrites
the instruction that is being executed. A run that throws has made the reference's steps up to the one that
throws. `RunVm` puts it all together: from a new machine through initialisation and loading a program to the
end of its run.

## Layers

| modules | content |
|---|---|
| `Words`, `BitTools`, `Opcode` | 32-bit words and their bit operations; `bits<T>`; field getters, decoders, encoders |
| `Codec` | the codec against the manual's formats, in both directions |
| `Calculate`, `Arithmetic` | what the handlers compute, as coded, against the reference ALU |
| `Registry`, `Dispatch` | the dispatch index, its meaning, and the two register functions as imperative code |
| `Memory`, `Mmu`, `Accesses` | block arithmetic and flat memory; block and MMU objects; histories of accesses |
| `Interface`, `Reference` | host actions and exceptions; the reference machine |
| `Machine`, `BasicVm` | one step and whole runs as functions of the state; the object that implements them |
| `Refinement`, `Faults`, `Invariant` | the refinement, what faulting steps leave behind, what every run keeps |
| `Hex`, `HexLoad`, `HexMeaning` | Intel HEX text, records and files; the loader record by record; what a load means, from the bytes of the records alone |
| `RunVm` | the command line tool's machine, from construction to the end of the run |

Each method of the objects is specified by a function on the object's state, and the theorems are about
these functions. A handler reads its operands through `current`, a block object and an address, at the moment
the C++ code does; that no handler reads it after it has written memory is part of what is proved.

## Hypotheses

- Blocks of a machine lie in the 32-bit address space and have at most 2^32 - 4 bytes (`Memory.Roomy`). The
  limit is exact: by `Memory.RangeTestLimit` the range test of a four-byte access, whose sum at
  src/yeti-vm/vm_memory.cxx:107 wraps around beyond it, is right at every address iff the block keeps to it.
- A block may end at 2^32 itself. The sum at src/yeti-vm/vm_memory.cxx:91 wraps there too, and a block above
  can then be overlapped unnoticed; adding a block requires that this does not happen
  (`Memory.EndsSafely`), which `Memory.AdmissionExact` proves to be the exact condition. Every block that
  ends below 2^32 meets it. `Memory.WrappedExamples` gives inputs on which both sums go wrong.
- The range tests of the data records of a HEX file that the loader reaches, and of a whole binary, do not wrap around
  (`HexLoad.RecordsFit`, `Memory.NoWrap`). For HEX files blocks of at most 2^32 - 255 bytes are enough.
- Every block is a `generic_memory`; sizes fit in 32 bits; the host is little-endian.
- `sll`, `srl` and `sra` by a register shift by the whole of rs2 in the code, which C++ leaves undefined
  from 32 on. The model takes the low five bits, as the comment of the register tests says and common hosts do.
- `mul` multiplies two `int32` values before it widens them; the model wraps that product.
- The reference machine follows the interpreter where the manual leaves a choice or the interpreter departs
  from it: a SYSTEM word with func3 zero is EBREAK unless its immediate is zero; FENCE and EBREAK do
  nothing; the CSR instructions trap; misaligned accesses trap; an access must stay within one block; JALR
  and taken branches need a target that is a multiple of four.
- A registered host callback is a sequence of calls on the machine's interface (register and memory access,
  jumps, halting) that may throw any exception, such as that of a control register access; one such sequence being a parameter of each step. Nothing is assumed about it
  beyond sizes of at least one for reads, since the code divides by that size.
- Whether `data()` of an empty vector is null, which decides if a data record without bytes loads, is the
  parameter `emptyIsNull`.
- `extend_sign` does not fill anything when the bit at the position is clear, although its comment at
  src/yeti-vm/vm_bit_tools.hxx:122-127 says so; `BitTools.ExtendSignExact` says for which words this matters.
- Encoder arguments fit their fields; branch and jump offsets are even and U-immediates have twelve low zero bits.

## Model

| member | source | states |
|---|---|---|
| RunVm.RunVm | tools/yeti_main.cxx:153-187 | from a new machine to the end of the run: a binary is loaded iff it has 1 to 4194304 bytes, a HEX file iff it loads; the reference machine then starts with zeroed registers, at address 0 or at the address of the file's last start record, on memory that is zero but for the program, and the run completes iff the reference run does with every program counter mapped, and ends in its state; otherwise the entry point is unmapped, or the reference makes some steps to mapped program counters, is still running and fails at the next one, by a trap or an unmapped target, with that exception, and the machine is left with that step's partial effect |
| RunVm.StartAndRun | tools/yeti_main.cxx:176-180 | starting and running an initialised machine ends as the reference run does from zeroed registers and the entry point |
| RunVm.Boot | tools/yeti_main.cxx:155-162 | both initialisations of a new machine succeed; the addresses 0 to 0x7FFFFF are then mapped, in two blocks, and every byte is 0; the registry is the full one |
| RunVm.LoadProgram | tools/yeti_main.cxx:85-91 | a binary loads iff it has 1 to 4194304 bytes, then lies at address 0 with zeroes after it, and starts at 0; a HEX file loads iff it is good through its EOF record, over zeroes |
| BasicVm.BasicVm.Run | src/yeti-vm/vm_basic.cxx:236-242 | the loop completes iff the reference run from the old state does with every program counter mapped, and the object is then in exactly that state; if it throws, the object is as the faulting step leaves it |
| BasicVm.BasicVm.RunStep | src/yeti-vm/vm_basic.cxx:197-234 | fetch, dispatch, execute and advance through a live pointer: final state and exception are those of one step on the instruction word as it was at the start |
| BasicVm.BasicVm.Exec | src/yeti-vm/vm_handlers_rv32i.hxx:43-855 | every handler, working on the object, has the effect and exception of the instruction word it was given when it started |
| Refinement.RunRefines | src/yeti-vm/vm_basic.cxx:236-242 | runs of any length, any program, any host: completes iff the reference run does and every program counter reached can be fetched from; then registers, program counter, flat memory and running flag are equal |
| Refinement.StepRefines | src/yeti-vm/vm_basic.cxx:197-234 | one step completes iff the reference steps to a fetchable program counter, then in the same state; otherwise it throws the exception of that trap |
| Refinement.ExecAgrees | src/yeti-vm/vm_handlers_rv32i.hxx:43-855 | each of the 54 handlers, followed by the advance unless it skips it, is the reference's execution of the instruction it stands for |
| Refinement.DecodeAgrees | src/yeti-vm/vm_handler.cxx:23-36 | for every 32-bit word the registry finds a handler iff the reference decoder knows the word, and the handler's registers, width and immediate, as the interpreter decodes them, are those of the reference's instruction |
| Refinement.FetchIsLoadWord | src/yeti-vm/vm_basic.cxx:338-342 | a fetch at an aligned mapped address gives the word that a four-byte load reads there, which is the little-endian word of flat memory |
| Refinement.WriteAgrees | src/yeti-vm/vm_basic.cxx:99-115 | a write succeeds iff size, alignment and block allow it, changes exactly its bytes of flat memory, and changes nothing when it throws |
| Refinement.ReadAgrees | src/yeti-vm/vm_basic.cxx:81-97 | the bytes that a lookup finds form the little-endian number of flat memory |
| Refinement.JalrAgrees | src/yeti-vm/vm_handlers_rv32i.hxx:127-137 | the target is rs1 plus offset with bit 0 cleared, taken before rd is written, also when rd is rs1 |
| Refinement.LoadEffect | src/yeti-vm/vm_handlers_rv32i.hxx:258-361 | the five loads read and sign- or zero-extend as the manual says, or throw as the reference traps |
| Refinement.PerformAgrees | src/yeti-vm/vm_basic.cxx:46-61 | any sequence of calls made by a host callback acts on the interpreter as on the reference, through the first that throws |
| Faults.FaultingStep | src/yeti-vm/vm_basic.cxx:197-234 | a step that throws leaves the program counter in place and has no effect, except: the link of JAL and JALR, an effect whose next instruction is unmapped, and the calls of a host callback up to the one that threw |
| Faults.FaultingRun | src/yeti-vm/vm_basic.cxx:236-242 | a run throws iff a step that it reaches does; it has then made the reference machine's steps up to there, all to mapped program counters, and the reference fails at that step with that exception; its partial effect is what is left |
| Faults.ThrownErrors | src/yeti-vm/vm_basic.cxx:17-159 | which exception each kind of failing step throws |
| Invariant.MoreStepsChangeNothing | src/yeti-vm/vm_basic.cxx:236-242 | a run that has stopped or thrown ends the same however many further steps it may take |
| Invariant.RunInvariant | src/yeti-vm/vm_basic.cxx:236-249 | in every state reached x0 is zero, the four bytes at the program counter lie in one block, no block has moved, a stopped machine stays stopped; after a completed step the program counter is a multiple of four whatever the entry point was |
| Machine.Step | src/yeti-vm/vm_basic.cxx:197-234 | a step keeps the machine ready for the next one, thrown or not, and a completed one leaves an aligned program counter |
| BasicVm.BasicVm.Start | src/yeti-vm/vm_basic.cxx:244-249 | clears the registers, throws iff the entry point is unmapped, and runs iff all four initialisation flags are set; memory is untouched |
| BasicVm.BasicVm.SetRegister | src/yeti-vm/vm_basic.cxx:117-127 | writes one register, never x0; throws for a register number above 31 |
| BasicVm.BasicVm.SetPc | src/yeti-vm/vm_basic.cxx:147-154 | moves iff four bytes at the value lie in one block, else throws and moves nothing |
| BasicVm.BasicVm.JumpIf | src/yeti-vm/vm_basic.cxx:28-38 | a taken branch goes to pc plus offset modulo 2^32 and throws if that is misaligned or unmapped; an untaken one advances |
| BasicVm.BasicVm.ReadMemory | src/yeti-vm/vm_basic.cxx:81-97 | reads the little-endian bytes of the block found, throws for every other size or address |
| BasicVm.BasicVm.WriteMemory | src/yeti-vm/vm_basic.cxx:99-115 | patches exactly the bytes of the block found, throws for every other size or address with no effect |
| BasicVm.BasicVm.Syscall | src/yeti-vm/vm_basic.cxx:46-61 | an unknown number throws or is ignored, by the flag; a known one performs the callback's calls |
| BasicVm.BasicVm.InitIsa | src/yeti-vm/vm_basic.cxx:358-371 | succeeds iff not done before; afterwards the registry is the full one, and a second call changes nothing |
| BasicVm.BasicVm.AddMemory | src/yeti-vm/vm_basic.cxx:388-391 | a block is added iff it is admissible; exactly its addresses become mapped, with zero bytes |
| BasicVm.BasicVm.InitMemory | src/yeti-vm/vm_basic.cxx:261-271 | the code block is tried first and then the data block, each admitted iff its flag is clear and it fits, with zero bytes; a refused one does not keep the other out |
| BasicVm.BasicVm.SetProgram | src/yeti-vm/vm_basic.cxx:273-280 | loads iff there is a code block, no entry point yet and one block holds the whole binary; then flat memory is overlaid with it; the entry point is taken even when it does not fit |
| BasicVm.BasicVm.SetProgramHex | src/yeti-vm/vm_basic.cxx:282-331 | succeeds iff there is a code block, no entry point yet, a record of kind 1 with right checksum and count, and every record before it is right too, of kind 0 or 2 to 5, and if of kind 0 lies in one block; each byte of memory is that of the last record of kind 0 that covers it before the load stops, or the old one; the entry point is the last start record's or 0 |
| BasicVm.BasicVm.LoadRecords | src/yeti-vm/vm_basic.cxx:287-330 | the loop stops, succeeds and leaves memory and entry point as the records one by one say |
| BasicVm.BasicVm.LoadRecord | src/yeti-vm/vm_basic.cxx:296-308 | the data go to base plus offset modulo 2^32 iff one block holds all of them (and they are not empty, if an empty vector has a null pointer), and change exactly their bytes |
| HexMeaning.LoaderMeaning | src/yeti-vm/vm_basic.cxx:282-331 | the loader's stopping point, success, entry point and memory are those that the kind, count, checksum, offset and data bytes of the records determine |
| HexMeaning.BaseMeaning | src/yeti-vm/vm_basic.cxx:319-323 | the base address is that of the last record of kind 2 or 4, in units of 16 or 65536, or 0 |
| HexMeaning.EntryMeaning | src/yeti-vm/vm_basic.cxx:313-318 | the entry point is the big-endian address of the last record of kind 3 or 5, or 0 |
| HexLoad.LoadedNext | src/yeti-vm/vm_basic.cxx:292-328 | one more record overlays its data at base plus offset modulo 2^32 on what the records before it left, if it is a data record |
| HexLoad.ProgressNext | src/yeti-vm/vm_basic.cxx:292-328 | base address, entry point and memory after one more record, from the extend, start and data records read so far |
| HexLoad.ProgressEnds | src/yeti-vm/vm_basic.cxx:292-330 | the loader stops at the first record that does not continue; it succeeds iff that record is there, valid and EOF |
| HexLoad.SameLoadable | src/yeti-vm/vm_basic.cxx:296-308 | whether a record can be placed does not depend on the records loaded before it |
| HexLoad.RecordsFitInRoom | src/yeti-vm/vm_memory.cxx:102-110 | no range test of a record wraps if blocks leave room for 255 bytes, whatever the file |
| Memory.InRangeExact | src/yeti-vm/vm_memory.cxx:97-110 | the range test is containment iff its offset sum does not wrap |
| Memory.IsOverlapExact | src/yeti-vm/vm_memory.cxx:87-95 | the overlap test is overlap-or-touch-from-below iff the end of the range does not wrap |
| Memory.RangeTestLimit | src/yeti-vm/vm_memory.cxx:97-110 | the range test of n bytes is right at every address iff the block has at most 2^32 - n bytes |
| Memory.WrappedExamples | src/yeti-vm/vm_memory.cxx:87-110 | inputs on which the wrapped sums accept a word beyond a block, and two overlapping blocks |
| Memory.AdmissionExact | src/yeti-vm/vm_memory.cxx:8-23 | a block is accepted iff it is non-empty, disjoint from all blocks and does not end where one begins - and when exactly the code departs from that |
| Memory.AddBlocksWellFormed | src/yeti-vm/vm_memory.cxx:8-23 | after any sequence of additions that end safely where they are made, all blocks are non-empty and pairwise disjoint and earlier blocks are unchanged |
| Memory.BelowTheTopIsSafe | src/yeti-vm/vm_memory.cxx:87-95 | additions of blocks that end below 2^32 always end safely |
| Memory.AdjacentBlocks | src/yeti-vm/vm_memory.cxx:87-95 | two adjacent blocks can be added from below up but not from above down |
| Memory.TryEmplaceSucceeds | src/yeti-vm/vm_memory.cxx:14-22 | a key that is present also overlaps, so the insertion after the loop never fails |
| Memory.FindBlockExact | src/yeti-vm/vm_memory.cxx:25-37 | a lookup gives exactly the one block that contains the whole range, and null iff no single block does, iff no range test wraps around |
| Memory.HitIsUnique | src/yeti-vm/vm_memory.cxx:25-37 | at most one block answers, so the iteration order does not matter |
| Memory.StraddlingMisses | src/yeti-vm/vm_memory.cxx:25-37 | a range across two adjacent blocks is not found |
| Memory.HitSurvives | src/yeti-vm/vm_memory.cxx:8-37 | a found block stays the found block whatever is added later |
| Memory.FlatOfPatch | src/yeti-vm/vm_memory.cxx:58-66 | storing into a block changes exactly those bytes of flat memory and no block's extent |
| Memory.FlatWithZeros | src/yeti-vm/vm_memory.cxx:68-71 | a new block maps exactly its addresses, with byte 0 at each, and changes no other byte |
| Memory.BytesRoundTrip | src/yeti-vm/vm_basic.cxx:99-115 | the bytes stored for a value read back as that value modulo their width |
| Mmu.MemoryManagementUnit.AddBlock | src/yeti-vm/vm_memory.cxx:8-23 | the loop over the map decides as the source's tests do for every block, and accepts exactly the admissible ones if the block ends safely; otherwise nothing changes |
| Mmu.MemoryManagementUnit.FindBlock | src/yeti-vm/vm_memory.cxx:25-37 | the loop returns the unique block whose range test holds, or null, in any visiting order |
| Mmu.GenericMemory.Load | src/yeti-vm/vm_memory.cxx:48-56 | copies exactly the requested bytes, or refuses |
| Mmu.GenericMemory.Store | src/yeti-vm/vm_memory.cxx:58-66 | replaces exactly the given bytes, or refuses and changes nothing |
| Accesses.WritesRefine | src/yeti-vm/vm_basic.cxx:99-115 | after any sequence of writes every byte is that of the last successful write covering it |
| Accesses.ReadAfterWrites | src/yeti-vm/vm_basic.cxx:81-115 | a read after any sequence of writes assembles those bytes, and throws iff it would have before them |
| Registry.PackIdInjective | src/yeti-vm/vm_handler.hxx:37-60 | the packed id, and the key of the second side set, determine their fields |
| Registry.LookupIsSearch | src/yeti-vm/vm_handler.cxx:23-36 | in every uniform registry the indexed lookup finds a handler iff it is registered and its fields match the word |
| Registry.RegisterAllHolds | src/yeti-vm/vm_handler.cxx:7-21 | registering a list succeeds iff all ids are new and different, and then holds exactly those handlers with the side sets in step |
| Registry.OrderIndependent | src/yeti-vm/vm_handler.cxx:7-21 | handlers that register in one order register in every order, with the same registry |
| Registry.TableIdsDiffer | src/yeti-vm/vm_handlers_rv32i.cxx:7-102 | no two of the handlers share an id |
| Registry.TableUniform | src/yeti-vm/vm_handlers_rv32i.cxx:7-102 | each group is uniform in using func3, and each group and func3 in using func7 |
| Registry.TablesComplete | src/yeti-vm/vm_handlers_rv32m.cxx:6-18 | both sets together list each of the 54 handlers once |
| Registry.TableLookup | src/yeti-vm/vm_handler.cxx:23-36 | for every word the handler found is that of the opcode, func3, func7 listing, or null |
| Registry.FullRegistration | src/yeti-vm/vm_handlers_rv32i.cxx:83-102 | both register functions succeed on an empty registry |
| Registry.RegisterAgainFails | src/yeti-vm/vm_handlers_rv32m.cxx:6-18 | registering either set again fails and changes nothing |
| Dispatch.HandlerRegistry.RegisterHandler | src/yeti-vm/vm_handler.cxx:7-21 | inserts the handler and its keys unless its id is present |
| Dispatch.RegisterRv32i | src/yeti-vm/vm_handlers_rv32i.cxx:83-102 | the sequence of guarded registrations is the registration of the whole list, cut at the first failure |
| Dispatch.RegisterRv32m | src/yeti-vm/vm_handlers_rv32m.cxx:6-18 | the same for the M set |
| BitTools.MaskBits | src/yeti-vm/vm_bit_tools.hxx:57-64 | the mask has exactly the requested bits, cut at 32 |
| BitTools.GetBitsIsField | src/yeti-vm/vm_bit_tools.hxx:71-77 | shift and mask is the arithmetic field |
| BitTools.GetRangeIsField | src/yeti-vm/vm_bit_tools.hxx:89-97 | the range form gives the field of that width |
| BitTools.ShiftBitsIsField | src/yeti-vm/vm_bit_tools.hxx:115-120 | moving a field multiplies it by the power of two of its new place |
| BitTools.ExtendSignValue | src/yeti-vm/vm_bit_tools.hxx:128-147 | a value of position + 1 bits is extended to its two's complement value |
| BitTools.ExtendSignExact | src/yeti-vm/vm_bit_tools.hxx:122-147 | for every word the result is the two's complement value of the low bits iff the bit at the position is set or the word has no bit from there on; if it is clear the word stays as it is |
| BitTools.ShiftThenExtend | src/yeti-vm/vm_bit_tools.hxx:153-176 | logical shift and fill from the highest set bit equals the arithmetic shift, which is the floor of the signed quotient |
| BitTools.CountlZeroFindsTop | src/yeti-vm/vm_bit_tools.hxx:153-160 | counting leading zeros finds the highest set bit of every non-zero word |
| Codec.RTypeDecodes | src/yeti-vm/vm_opcode.cxx:130-146 | decoding an encoded R-type instruction returns every field |
| Codec.ITypeDecodes | src/yeti-vm/vm_opcode.cxx:148-161 | the same for I-type, the immediate modulo its width |
| Codec.STypeDecodes | src/yeti-vm/vm_opcode.cxx:163-176 | the same for S-type |
| Codec.BTypeDecodes | src/yeti-vm/vm_opcode.cxx:178-191 | the same for B-type, for even offsets |
| Codec.UTypeDecodes | src/yeti-vm/vm_opcode.cxx:193-201 | the same for U-type, for immediates with low twelve bits zero |
| Codec.JTypeDecodes | src/yeti-vm/vm_opcode.cxx:203-211 | the same for J-type, for even offsets |
| Codec.SignedImmediates | src/yeti-vm/vm_opcode.cxx:83-128 | every integer in range, encoded and decoded by I, S, B or J and read as signed, is that integer |
| Codec.DecodedImmediates | src/yeti-vm/vm_opcode.cxx:83-128 | the decoded immediates of every word are the manual's slices with the sign bit weighted negatively |
| Codec.DecodedSlices | src/yeti-vm/vm_opcode.hxx:98-138 | the six field getters are the manual's bit ranges |
| Codec.OpcodeGroups | src/yeti-vm/vm_opcode.hxx:257-295 | the opcode groups of the handlers, from the two fields of their opcodes |
| Codec.Reencodes | src/yeti-vm/vm_opcode.cxx:130-255 | re-encoding the decoded fields of any word, in any of the six formats, gives the word back |
| Arithmetic.MultiplicationRecombines | src/yeti-vm/vm_handlers_rv32m.hxx:46-93 | high and low halves recombine to the signed, unsigned and mixed product of all operands |
| Arithmetic.DivisionLaw | src/yeti-vm/vm_handlers_rv32m.hxx:96-156 | quotient times divisor plus remainder is the dividend modulo 2^32 always, and exactly, with bounded remainder of the dividend's sign, away from zero and overflow |
| Arithmetic.MathOperation | src/yeti-vm/vm_handlers_rv32m.hxx:46-156 | the eight M operations are the manual's, over integers |
| Arithmetic.RegisterOperation | src/yeti-vm/vm_handlers_rv32i.hxx:644-784 | the ten register operations are the manual's, over integers |
| Arithmetic.ImmediateOperation | src/yeti-vm/vm_handlers_rv32i.hxx:432-553 | the six immediate operations are the manual's |
| Arithmetic.ShiftOperation | src/yeti-vm/vm_handlers_rv32i.hxx:557-618 | the three immediate shifts are multiplication, division and floored signed division by a power of two |
| Refinement.CompareAgrees | src/yeti-vm/vm_handlers_rv32i.hxx:173-253 | the six branch comparisons are the manual's conditions |
| Hex.HexRoundTrip | tools/view_hex.cxx:6-17 | reading the printed form of any bytes gives those bytes, with at most one character after them ignored |
| Hex.DigitValues | src/yeti-vm/vm_utility.cxx:105-124 | the sixteen digits have their values in upper and lower case, and every other character gives 255 |
| Hex.SpelledBytes | src/yeti-vm/vm_utility.cxx:126-140 | any text that spells bytes in digits of either case is read as those bytes |
| Hex.ToHex | tools/view_hex.cxx:6-17 | the loop prints two digits from 0123456789ABCDEF for each byte, in order |
| Hex.FromHex | src/yeti-vm/vm_utility.cxx:126-140 | the loop reads one byte from each pair of characters, for two digits 16 times the one value plus the other |
| Hex.HexChecksum | src/yeti-vm/vm_utility.cxx:142-154 | the loop gives the byte that makes the sum of the bytes before `last` zero modulo 256 |
| Hex.SumAddsUp | src/yeti-vm/vm_utility.cxx:146-150 | the sum of no bytes is 0, and one more byte adds itself |
| Hex.ParseHexRecord | src/yeti-vm/vm_utility.cxx:80-99 | count, big-endian offset, type, data and checksum come from their places in the line, and the computed sum complements the bytes before the last |
| Hex.ValidIffZeroSum | src/yeti-vm/vm_utility.cxx:142-168 | a line of exactly count + 5 byte pairs is valid iff all its bytes sum to zero modulo 256 |
| Hex.RecordRoundTrip | src/yeti-vm/vm_utility.cxx:80-99 | the bytes of a record with any count, 16-bit offset, type and data give back exactly those fields, and are valid |
| Hex.EntryParses | src/yeti-vm/vm_utility.cxx:55-72 | the text of such a record, in digits of either case, after any text without a colon and before at most one character, parses to it |
| Hex.AddressRecords | src/yeti-vm/vm_utility.cxx:185-207 | extend and start records hold big-endian addresses, scaled by 16 or 65536 for the extends; with another length or kind they give 0 |
| Hex.KindMeaning | src/yeti-vm/vm_utility.cxx:156-163 | the type of a record, by its kind byte |
| Hex.ParseHex | src/yeti-vm/vm_utility.cxx:44-78 | parsing fails iff some line has a colon and is shorter than 11 characters, or than 11 plus the announced count from the colon on, and no line before it is an EOF record; else it gives what each line with a colon says, in order, through the first EOF |
| Hex.LineMeaning | src/yeti-vm/vm_utility.cxx:52-75 | a line is skipped iff it has no colon, rejected iff it is too short, and else gives the record of its characters, an EOF record iff its type digits are 01 |
| Hex.ParseRecoversRecords | src/yeti-vm/vm_utility.cxx:44-78 | any mix of record lines and lines without a colon parses to the records, in order, through the first EOF |
| Hex.EofIsLast | src/yeti-vm/vm_utility.cxx:73-75 | in every parsed file only the last record can be EOF |

## Left out

- CSR handlers: only that they throw, since this machine has no control registers; their register semantics are not modelled.
- `debug` and `barrier` do nothing in this machine; debug printing, mnemonics, disassembly, `dump_state`, `op_size` and `get_op_id` are display only.
- `jump_if_abs`, which no handler calls, and the CSR accessors of the machine interface.
- `run_step` on a machine whose program counter is unmapped, which follows a null pointer: a started machine never gets there.
- The syscall registry itself: the set of known numbers is a field, and a callback is the sequence of calls it makes.
- The shared pointers by which blocks and handlers are owned; a block given to a machine is only changed through it.
- Memory blocks of other kinds than `generic_memory`, such as devices.
- BasicVm.BasicVm.Run: takes at most one step for each callback script it is given, because guest programs need not halt; by `Invariant.MoreStepsChangeNothing` the bound does not matter to a run that ends.
- BasicVm.BasicVm.InitMemory: not for a block that would be accepted although it is larger than 2^32 - 4 bytes or leaves the address space, because accesses to it can then pass the range test and leave its vector.
- BasicVm.BasicVm.SetProgram: not for a binary whose range test wraps around, because the copy then leaves the block's vector.
- BasicVm.BasicVm.SetProgramHex: the same for a data record that the loader reaches.
- BasicVm.BasicVm.LoadRecord: the same for its record.
- Mmu.GenericMemory.Load: not for a range whose offset sum wraps around, because the copy then leaves the vector.
- Mmu.GenericMemory.Store: the same.
- Hex.ParseHexRecord: not for a line with fewer bytes than its count announces, because the parser then reads past them.
- RunVm.RunVm: the same bound on steps as `BasicVm.BasicVm.Run`; reading the file, the output of its system calls and the disassembly are not modelled.
- Arithmetic.RegisterOperation: register shifts by 32 or more use the low five bits of rs2, because C++ leaves the code's own shift undefined there.
- Hex.ParseHex: only for lines that the parser reads within their text; its length check adds the count once, not twice, and lets shorter lines through.
- The `BaseFormat` part of an instruction id, which the packed id does not contain.
- HEX digits outside 0-9, a-f, A-F in the round trips, and 16-bit segment wrap-around, which the code does not implement either.
- HEX file sizes, streams and file access; `load_program`.
- Privileged behaviour, timers, and the other command-line tools.
