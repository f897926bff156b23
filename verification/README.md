# A verified model of the RV32IM interpreter

This Dafny project models a 32-bit RISC-V interpreter: its instruction step and run loop, the
tohost/fromhost channel to the host, its checkpoint files, its memory checksum and its program
loader. It proves what each of them is for.

Run `dafny verify dfyconfig.toml` to check everything.

## How it is laid out

| file | content |
|---|---|
| CIntegers.dfy, XorLaws.dfy | the C integer types as ranges of `int`, wrap-around, bitwise operators and their arithmetic |
| Ram.dfy | the 4 GB guest memory and little-endian accesses |
| Fields.dfy | the bit-field views of an instruction word |
| Machine.dfy | `state_t` as a value; one step, with the host call it may service first |
| Interpreter.dfy | `state_t` as a class; the step and the run loop in place, proved against Machine and Runs |
| Isa.dfy | RV32IM without its SYSTEM instructions, from the ISA manual: formats and integer semantics, independent of the interpreter |
| Decoding.dfy, Alu.dfy, Refinement.dfy, Simulation.dfy | the interpreter refines that ISA, per instruction and over runs |
| HostChannel.dfy | the host channel in numbers and bytes, independent of the interpreter, and that the interpreter does exactly that |
| InstructionWords.dfy | what each of the 2^32 instruction words does in a step |
| Runs.dfy, HostCalls.dfy, RegisterZero.dfy | the run loop and what holds over every run |
| MulDiv.dfy, Effects.dfy, Idioms.dfy | meaning of products and quotients; instruction pairs |
| Checkpoint.dfy, CheckpointIo.dfy, CheckpointFormat.dfy, CheckpointTheorems.dfy | the checkpoint file, its writer and reader, its bytes, and resuming |
| Crc.dfy, CrcTheorems.dfy, CrcPolynomial.dfy | the checksum, error detection, and its meaning over GF(2) |
| CrcWords.dfy, CrcPeriod.dfy | large powers of x modulo the generator, the period of the register, and all pairs of flipped bits it misses |
| Periods.dfy, Mersenne.dfy | periods and orbits of a repeated map; 2^31 - 1 is prime |
| Loader.dfy, Boot.dfy | program headers, the boot stub, and running it |
| Witnesses.dfy | concrete inputs on which the program departs from what a part is for |

Conventions.

- A C integer is an `int` restricted to its range; signed addition, subtraction, multiplication and
  left shift wrap as two's complement. Signed division truncates toward zero.
- A step ends in `Running(state)` or `Stuck(fault)`. It is stuck where the program asserts or exits,
  on a division that C leaves undefined (zero divisor, or the most negative number by -1), and on an
  access past the end of the 4 GB memory, which the program does not check.
- The addresses of tohost and fromhost are a parameter (`Config`). The operating system is an oracle
  (`Host`) giving, for each instruction count, a result word and a set of guest-memory edits.
- In the class, methods state their result through `Snapshot()`, the value of the whole state. When a
  method reports a failure the process has ended, and nothing is said about the state left behind.

Where the source and a standard differ, or a part does not do on all inputs what it is for, the model
follows the source; the exact condition is proved, and an input on which it fails is exhibited:

- Division by zero and signed overflow stop the interpreter, although section 7.2 of the RISC-V
  Unprivileged ISA defines their results, and MULHSU is missing. `Refinement.StepRefinesIsa` says exactly
  when a step runs on; `Witnesses.DivisionByZeroStops` and `Witnesses.MissingProductStops` are cases in
  which it does not.
- There is no instruction-address-misaligned exception (section 2.5 of the same manual): where the
  manual raises it, the interpreter has made the jump, link register included, as in
  `Witnesses.MisalignedJumpRuns`.
- The cycle-counter read can write register zero. `Runs.ZeroAfterStep` gives the exact condition and
  `RegisterZero.ZeroClobbered` a run in which it happens.
- A checkpoint does not hold `brk`, so that resuming is transparent if and only if it was not set
  (`CheckpointTheorems.ResumeIsTransparent`); in `Witnesses.ResumeDiffers` an ECALL is executed twice.
- Loading a checkpoint does not clear pages without a record. `CheckpointTheorems.RestoreExact` has the
  exact condition and `Witnesses.DirtyPageSurvives` a byte that stays.
- `times` writes its buffer after the result, and may overwrite it: `HostChannel.RequestServed` and
  `Witnesses.TimesOverwritesResult`. A buffer apart from the request is safe
  (`HostChannel.TimesServed`).
- The host's acknowledgement sets fromhost after clearing tohost, so a fromhost placed inside the low
  tohost word undoes it: `HostCalls.AcknowledgeClears` and `Witnesses.ReplyBecomesExit`.
- The checksum is taken over all 2^35 bits of memory, more than the period 2^31 - 1 of its register.
  `CrcPeriod.TwoErrors` says exactly which two flipped bits cancel, and `CrcPeriod.FlipGoesUnnoticed` is such a pair, whatever the memory holds.

## Model

| member | source | states |
|---|---|---|
| Refinement.StepRefinesIsa | interpret.cc:41-498 | for every legal RV32IM instruction outside the SYSTEM group, in every state and whatever request is pending: unless the host stops the program, the step completes if and only if the instruction is defined there, else ends in its fault; then registers, memory and pc are those the ISA manual gives the instruction fetched before the service, executed on the memory the service left (for a misaligned target, those of the jump), with icnt one higher and nothing else changed but last_pc and brk |
| InstructionWords.StepOfWord | interpret.cc:41-498 | one step from any state, for every one of the 2^32 words at pc: a fetch past the end of memory, a failed service, an instruction of the manual, a SYSTEM word, a word without effect or one that stops the program, told by the digits of the word |
| InstructionWords.MeaningOfEncode | interpret.hh:36-115 | the digits of the manual's encoding of an instruction spell that instruction |
| InstructionWords.ReadCycleStep | interpret.cc:454-465 | RDCYCLE puts the low word of icnt into rd, for every rd |
| InstructionWords.EcallStep | interpret.cc:451-453 | ECALL sets brk, keeps pc and is counted |
| InstructionWords.OtherSystemStep | interpret.cc:454-470 | EBREAK and every other access to a control register only advance pc |
| HostChannel.ServiceIsAction | interpret.cc:506-596 | in every state the service is the action told in literal request numbers and bytes: no request, exit, the memory after each of the nine calls wherever the three words lie, or how it fails |
| HostChannel.RequestServed | interpret.cc:514-595 | the guest finds its result in the first request word (for times, if and only if its buffer spares it), tohost zero, fromhost one and every other byte as the operating system wrote it or as it was |
| HostChannel.TimesServed | interpret.cc:573-584 | a times request whose 16-byte buffer lies apart from the result word delivers its result |
| Simulation.RunRefinesIsa | interpret.cc:500-504 | every execution of the manual's machine, of any length, fetching from its own memory and with the host's services between fetch and execution, is the run of the interpreter over that many instructions |
| Simulation.RunIsExecution | interpret.cc:500-504 | conversely, every completed run over encoded instructions with aligned targets, host calls included, is such an execution of the manual's machine, one instruction for each step |
| Decoding.DecodeEncode | interpret.hh:36-115 | decoding through the overlaid bit-fields recovers opcode, registers and immediate from the manual's encoding of every instruction |
| Decoding.DecodeBType | interpret.cc:406-412 | the scrambled 13-bit branch displacement comes back with its sign |
| Decoding.DecodeJType | interpret.cc:248-254 | the scrambled 21-bit jump displacement comes back with its sign |
| Decoding.DecodeSType | interpret.cc:191-194 | the split 12-bit store displacement comes back with its sign |
| Refinement.LoadRefines | interpret.cc:84-118 | loads of every width and signedness read the manual's value, or get stuck exactly past the end of memory |
| Refinement.StoreRefines | interpret.cc:191-212 | stores write the manual's bytes in little-endian order |
| Refinement.OpRefines | interpret.cc:261-397 | every register operation gives the manual's result; with rd zero not even an undefined one is evaluated |
| Refinement.BranchRefines | interpret.cc:406-448 | branches are taken on the manual's signed and unsigned conditions and land where it says, with registers and memory untouched |
| Refinement.JalrRefines | interpret.cc:234-244 | the target is formed from the old rs1 even when rd is the same register, its lowest bit is cleared, and the link is written whatever its alignment |
| Alu.SignShift | interpret.cc:353-355 | the signed C shift fills with copies of the sign bit, digit by digit |
| Alu.LeftShift | interpret.cc:284-289 | the wrapped C shift moves every binary digit up and drops the ones beyond the word |
| Alu.TruncIsQuotient | interpret.cc:335-337 | C division and remainder, from Euclidean arithmetic, round toward zero as the manual's do |
| MulDiv.DivRem | interpret.cc:335-369 | on every defined input, and only there, DIV and REM give q and r with a = q*b + r, r smaller than b and of the dividend's sign, and no other pair does |
| MulDiv.DivuRemu | interpret.cc:349-384 | DIVU and REMU give the unsigned quotient and remainder exactly when the divisor is not zero |
| MulDiv.SignedProduct | interpret.cc:273-294 | MULH above MUL is the exact signed 64-bit product |
| MulDiv.UnsignedProduct | interpret.cc:273-322 | MULHU above MUL is the exact unsigned 64-bit product |
| MulDiv.HighWordsDiffer | interpret.cc:290-322 | the two high words differ by the sign corrections modulo 2^32 |
| Interpreter.Core.constructor | interpret.cc:35-37 | a fresh machine: every field, register and byte of memory is zero, but the limit |
| Interpreter.Core.ExecRiscv | interpret.cc:41-498 | the in-place step leaves exactly the state of the step function, or reports its fault |
| Interpreter.Core.ExecuteWord | interpret.cc:82-482 | the opcode switch in place is the dispatch function |
| Interpreter.Core.HandleCall | interpret.cc:506-596 | servicing in place: exit, unsupported or reply, then the acknowledgement |
| Interpreter.Core.RunRiscv | interpret.cc:500-504 | the loop computes exactly the run |
| Interpreter.Core.Read | interpret.cc:44-60 | a cast load is the little-endian value of its bytes |
| Interpreter.Core.Write | interpret.cc:196-206 | a cast store writes the little-endian bytes and no others |
| Runs.RunStops | interpret.cc:500-504 | every run ends, with brk set or with icnt exactly at the smaller limit, and a run from a state with brk set is empty |
| Runs.RunComposes | interpret.cc:500-504 | running to n1 and then to n2 >= n1 is running straight to n2, stuck outcomes included |
| Runs.RunOnce | interpret.cc:500-504 | with brk clear and an instruction left under the limit, running for one more instruction is one step |
| Runs.RunStuckAt | interpret.cc:500-504 | a run gets stuck exactly as the step does from a state that it reaches |
| Runs.StepFrame | interpret.cc:484 | a completed step counts one instruction and never resets brk |
| Runs.StepBreaks | interpret.cc:451-453 | a step sets brk exactly on an exit request or an ECALL |
| Runs.ExitRetiresOne | interpret.cc:506-512 | an odd tohost seen by the loop makes the whole run the effect of the word already fetched, in memory the request left alone, ending with brk set and icnt one higher, or in that word's own fault |
| Runs.PcStaysEven | interpret.cc:234-260 | pc is even throughout every run from an even pc |
| Runs.ZeroAfterStep | interpret.cc:454-465 | from a zero register zero, a step leaves it zero if and only if it is not a cycle read into it or the low word of icnt is zero |
| Runs.ZeroStaysZero | interpret.cc:454-465 | register zero stays zero over every run that executes no cycle read into it |
| Runs.AlwaysZeroIff | interpret.cc:454-465 | register zero is zero in every state of a run if and only if every cycle read into it finds the low word of icnt zero |
| RegisterZero.ZeroClobbered | interpret.cc:457-458 | a run of one instruction that leaves 1 in register zero |
| Runs.StepIgnores | interpret.hh:13-23 | no instruction depends on last_pc, epc or bad_addr |
| Runs.RunIgnores | interpret.cc:500-504 | runs from states that differ only there end alike |
| HostCalls.ServicedAtMostOnce | interpret.cc:56-60 | over any run, services plus a request still pending are at most the stores touching the request word plus the request pending at the start |
| HostCalls.StepBalance | interpret.cc:56-60 | in each step a service consumes a pending request and only a store to the word makes a new one |
| HostCalls.AcknowledgeClears | interpret.cc:593-595 | the acknowledgement clears the request if and only if fromhost does not start inside the low tohost word |
| HostCalls.AcknowledgeSeen | interpret.cc:593-595 | with the words apart the guest finds tohost zero and fromhost one |
| HostCalls.DispatchMemory | interpret.cc:191-212 | executing an instruction changes memory only by a store, and only the bytes stored |
| Effects.StoreEffect | interpret.cc:191-212 | a whole step of an encoded store, stuck exactly past the end of memory |
| Effects.LoadEffect | interpret.cc:84-118 | a whole step of an encoded load: nothing is read for register zero, else stuck exactly past the end of memory |
| Idioms.LuiAddiMakesConstant | interpret.cc:134-146 | for every 32-bit constant, LUI of the rounded upper part and ADDI of the lower part produce it |
| Idioms.AuipcJalrReaches | interpret.cc:222-244 | from every pc AUIPC and JALR reach any even target, and miss exactly the odd ones by one, as a call or as a far jump, changing only the link register and the one used for the address |
| Idioms.StoreThenLoad | interpret.cc:84-212 | a store then a load of the same width and address, by whatever base and displacement, returns the truncated value, sign- or zero-extended |
| CheckpointFormat.DumpFormat | saveState.cc:9-60 | the file byte by byte: magic number, pc, registers, icnt and count at their offsets, then one record with address and contents for each page that has a non-zero byte, in ascending order: 152 + 4100*n bytes |
| CheckpointFormat.RestoreMeaning | saveState.cc:62-80 | loading any file: a short header or record fails its assertion, a record outside memory is out of range, and otherwise pc, registers and icnt are the header's and each byte that of the last record holding it, or what it was; the magic number does not matter |
| CheckpointTheorems.DumpInjective | saveState.cc:26-60 | two states have the same file if and only if pc, registers, icnt and memory agree |
| Checkpoint.RestoreDump | saveState.cc:62-80 | loading a dump gives back pc, registers, icnt and every non-zero page, and leaves all other memory as it was |
| CheckpointTheorems.RestoreExact | saveState.cc:73-78 | memory is restored if and only if the target is zero on the pages without a record |
| CheckpointTheorems.DumpAfterRestore | saveState.cc:26-80 | dumping what was loaded reproduces the file under that same condition, and only then |
| CheckpointTheorems.ResumeIsTransparent | main.cc:135-146 | stop, dump, load into a fresh process and run on: every later state or fault is that of the run that never stopped, if and only if brk was not set at the stop |
| CheckpointTheorems.CheckpointSize | saveState.cc:33-58 | after n steps without host calls from k non-zero pages the checkpoint has at most k + 2n records |
| CheckpointTheorems.StepGrowth | interpret.cc:191-212 | one such step adds at most one page, or two when its store straddles a boundary |
| CheckpointIo.ScanPage | saveState.cc:34-41 | the word scan of a page finds out whether it has a non-zero byte |
| CheckpointIo.FindFrom | saveState.cc:51-52 | the bitset search skips exactly the zero pages |
| CheckpointIo.DumpState | saveState.cc:26-60 | the marking, counting and writing loops produce exactly the file |
| CheckpointIo.LoadState | saveState.cc:62-80 | the reading loop restores in place, or fails as the parser does |
| Crc.UpdateCrc | helper.cc:79-97 | the nested loops compute the update function |
| Crc.ComputeCrc32 | helper.cc:99-101 | the checksum of a buffer |
| Crc.UpdateLinear | helper.cc:88-94 | the register is XOR-linear in state and data together |
| Crc.UpdateBijective | helper.cc:88-94 | for every fixed buffer the update is a bijection on register values, with its inverse |
| Crc.UpdateConcat | helper.cc:88-94 | updates compose over concatenation |
| CrcTheorems.UpdateIsSerial | helper.cc:88-94 | the byte loop is a bit-serial register |
| CrcTheorems.BurstDetected | helper.cc:79-101 | two buffers of equal length that differ, only inside 32 consecutive bits at any alignment, never have the same checksum |
| CrcTheorems.ChecksumParity | helper.cc:79-101 | the checksums of two buffers of equal length differ in an odd number of bits if and only if the buffers do |
| CrcTheorems.OddErrorsDetected | helper.cc:79-101 | an odd number of flipped bits, anywhere in a buffer of any length, always changes the checksum |
| CrcTheorems.AbsorbWord | helper.cc:88-94 | four little-endian bytes act on the register only through their sum with it |
| CrcTheorems.AbsorptionDependsOnSum | helper.cc:88-94 | two words leave equal registers if and only if their sums with the registers are equal |
| CrcTheorems.ResidueIffChecksum | helper.cc:99-101 | four appended bytes leave the constant residue if and only if they are the message's own checksum |
| CrcPolynomial.CrcIsRemainder | helper.cc:86-96 | the register, reflected, is the remainder of the message polynomial, with the initial value added at the top, modulo 0x11EDC6F41, and no other word is |
| CrcPolynomial.CollisionIffMultiple | helper.cc:79-101 | two buffers of equal length have the same checksum if and only if the generator divides the polynomial of their difference |
| CrcPeriod.PeriodOfShift | helper.cc:90-93 | 2^31 - 1 turns of the inner loop leave every register as it was |
| CrcPeriod.ReturnsIff | helper.cc:90-93 | the register 1 comes back after exactly the multiples of 2^31 - 1 turns |
| CrcPeriod.TwoErrors | helper.cc:79-101 | two flipped bits leave the checksum of a buffer of any length as it was if and only if their distance is a multiple of 2^31 - 1 |
| CrcPeriod.FlipGoesUnnoticed | main.cc:151-151 | flipping bits 0 and 2^31 - 1 of the 4 GB memory never changes its checksum |
| CrcPolynomial.PolyIsGenerator | helper.cc:87-87 | the program's constant is the CRC-32C generator with its coefficients reversed |
| Loader.LoadElfInto | loadelf.cc:102-132 | the header loop in place, followed by the stub writes, computes the loaded state |
| Loader.WriteStub | loadelf.cc:175-183 | the seven word writes in place are the stub |
| Loader.LastSegmentWins | loadelf.cc:104-132 | a covered byte is that of the last header of type 1 with a memory size covering it: file byte, or zero past the file size |
| Loader.UncoveredKept | loadelf.cc:104-132 | a byte no such header covers keeps its value |
| Loader.LoadSucceeds | loadelf.cc:120-130 | loading succeeds if and only if every header of type 1 with a memory size stays inside memory and file |
| Loader.LoadElfOutcome | loadelf.cc:102-185 | the loader only sets memory and pc, to 0x1000, and stops exactly on a header out of bounds |
| Loader.LoadedMemory | loadelf.cc:102-183 | from zeroed memory the stub's seven words are in place, and every other byte is that of the last header of type 1 covering it, or zero |
| Loader.LoadedImage | loadelf.cc:102-132 | for headers whose file size does not exceed their memory size, every byte outside the stub is that of the last memory image of a header of type 1 holding it, else zero |
| Boot.BootReachesEntry | loadelf.cc:177-185 | from reset exactly five steps reach the entry address rounded down to even, with t0 the entry, a1 0x1020, every other register zero and memory unchanged |
| Boot.LoadedAtReset | loadelf.cc:175-185 | a freshly loaded machine with a clear tohost is at that reset |
| Witnesses.DivisionByZeroStops | interpret.cc:335-337 | a DIV by zero, to which the manual gives -1, stops the interpreter |
| Witnesses.MissingProductStops | interpret.cc:301-310 | a MULHSU, to which the manual gives a result, stops the interpreter |
| Witnesses.MisalignedJumpRuns | interpret.cc:247-260 | a jump by two, for which the manual raises an exception, is made and linked |
| Witnesses.EcallRepeats | main.cc:135-146 | an ECALL that is the last instruction before the checkpoint is executed again by the resumed run, while the run that never stopped has ended |
| Witnesses.ResumeDiffers | main.cc:135-146 | a concrete run of that kind |
| Witnesses.DirtyPageSurvives | saveState.cc:73-78 | a byte in a page without a record survives the loading, and the next dump differs |
| Witnesses.TimesOverwritesResult | interpret.cc:573-584 | times with its buffer laid over the request destroys its result |
| Witnesses.ReplyBecomesExit | interpret.cc:593-595 | with both host words at one address, every reply is the guest's next exit request |

## Left out

- Refinement.StepRefinesIsa: the SYSTEM instructions are outside the refinement, because the source gives them no trap and only one CSR; what it does with them is InstructionWords.StepOfWord.
- Host system calls: write, open, read, lseek, fstat, gettimeofday and times are an oracle; the effect of a call on files and clocks is not modelled.
- The x86 checksum intrinsic: the portable branch is the reference.
- Interpreter.Core.HandleCall: flushing of standard output and error after a write is not modelled.
- CheckpointIo.DumpState: the file is a byte sequence; opening it and failing or partial writes are not modelled.
- CheckpointIo.LoadState: the file is a byte sequence; a short read fails its assertion as in the source, a failing open is not modelled.
- Loader.LoadElfInto: the ELF identification checks, the section scan with its memory protection, and the symbol table are not modelled; the entry point, the headers and the two host addresses are parameters, and a guest store into a protected page, which would stop the process, succeeds here. A header outside memory or file ends in a fault, where the source has undefined behaviour.
- Disassembly, logging, printing of state, timing, backtraces and command-line handling: presentation only.
- Flag remapping, byte swapping, the register checksum and other small helpers: they would only add easy members.
