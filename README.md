# emu: a RISC-V emulator and its guest runtime, in Dafny

This project models the core of green-ogre/emu. It has three parts:

- **The emulator** (src/decoding.rs, src/primitives.rs, src/emulator.rs).
  - `decode` turns a 32-bit instruction word into an `Instr`.
  - `Reg` and `Imm` are the operand types.
  - `Emulator` is a state machine over 32 registers, a byte memory of
    `u32::MAX` bytes, `pc`, the exit flag and code, and a console buffer. It fetches,
    decodes and executes one instruction per `step`. It has little-endian loads and
    stores, the memory-mapped console (0x4), the null trap (0x0), the exit address
    (0x1) and the two system calls `exit` (93) and `write` (64).
- **The framebuffer expansion** `emu_screen_to_texture_data` of src/interface.rs.
  It expands the 1-bit-per-pixel screen region of memory to RGBA8 pixels.
- **The guest runtime library.**
  - emu/slib.cpp has the header-chain heap allocator (`malloc`, `free`,
    `allocate`, `reuse_allocation`), the fixed-capacity `Vec` (`new_vec`,
    `push_vec`), `memset` and `memcpy`, and the console formatter (`print_char`,
    `print_str`, `print_int`, `print_address`, `printf`). The program of
    emu/emu.cpp is used as a scenario.
  - emu.c is the older draft. It has a bump allocator with an exhaustion check, its
    own `print_int` that takes its buffers from that heap, a `printf` without `%p`,
    and the `arr`/`main` program.

Every part that changes state in place is a class whose methods carry loops, with
`modifies` frames:

- `Emulator.Emulator` (registers and memory are arrays);
- `SlibHeap.Heap` (the header chain and the payload bytes);
- `SlibVec.Vec`;
- `SlibPrint.Console`;
- `EmuC.Runtime` (the bump counter, the heap bytes and the console).

Each method is proved to leave exactly the state that a pure function of the old
state describes:

- module `Machine` for the emulator;
- `MallocS`/`FreeS` for the heap;
- `PushS` for the vector;
- `Format`, `DecimalText` and `HexText` for the formatter;
- `Bump`, `Splice` and `AllBytes` for emu.c.

The properties (round trips, frames, bounds, traps, exact output) are lemmas about
those functions. `decode` and the `Reg`/`Imm` tables are pure code, so they are pure
functions. An independent encoder (module `Encoding`) is proved to be their inverse.

Module layout:

- `Words`: machine integers, casts and little-endian bytes.
- `Wrappers`: `Option` and `Result`. `Panic(msg)` stands for a Rust panic.
- `Primitives`, `Instructions`, `Decoding` and `Encoding`: the instruction side.
- `Machine`, `Emulator` and `MachineProps`: the emulator.
- `Interface`: the framebuffer.
- `SlibMem`, `SlibHeap`, `SlibVec` and `SlibPrint`: emu/slib.cpp.
- `CText`: the bytes the formatters print.
- `EmuC`: emu.c.

The `Instr` enum lives in a source file (`instruction_set`) that is not part of this
model. It is rebuilt from the variants that `decode` builds. Variants that share an
operand shape are grouped under one constructor with an operation tag:
`Instr::Add(rd, rs1, rs2)` is `Op(Add, rd, rs1, rs2)`. The operand order is the
Rust one.

Where the code departs from the RISC-V Unprivileged ISA (20191213), the model
follows the code and states the departure as a lemma:

- U-type immediates are zero-extended (`Decoding.UImm`, `MachineProps.LuiZeroExtends`);
- `Mul`/`Div`/`Rem` work on 32 bits and the `*w` forms on 64
  (`MachineProps.MulWidths`);
- shift amounts are masked to 5 bits (`MachineProps.SllMasksAmount`);
- `Srli` shifts arithmetically (`MachineProps.SrliIsArithmetic`);
- `Jalr` adds its offset twice (`MachineProps.JalrAddsOffsetTwice`).

The console port of emu/slib.cpp is the same as the emulator's 0x4.
`SlibPrint.Console.out` and `EmuC.Runtime.out` are the bytes that the stores to it
append to the emulator's console.

## Model

| member | source | states |
|---|---|---|
| Words.AsU64 | src/emulator.rs:139 | `x as u64` is x modulo 2^64, the identity on values already in range |
| Words.AsU32 | src/emulator.rs:484 | `x as u32` is x modulo 2^32, the identity in range |
| Words.AsU8 | src/emulator.rs:184 | `x as u8` is x modulo 256, the identity in range |
| Words.AsI64 | src/emulator.rs:146-148 | `x as i64` reads the same 64 bits signed: casting back gives x, and it is negative exactly when bit 63 is set |
| Words.AsI32 | src/emulator.rs:211 | `x as i32` is congruent to x modulo 2^32 and negative exactly when bit 31 of the low word is set |
| Words.Shr | src/emulator.rs:318 | a logical right shift never increases the value |
| Words.LittleEndian | src/emulator.rs:172-174 | the value that `load` sums from n bytes is below 256^n |
| Words.ToBytes | src/emulator.rs:183-185 | `store` writes exactly w bytes |
| Words.LittleEndianToBytes | src/emulator.rs:172-185 | storing v in w bytes and summing them back gives v modulo 2^(8w) |
| Words.ToBytesLittleEndian | src/emulator.rs:172-185 | summing bytes and storing the value back in as many bytes reproduces them |
| Primitives.RegNew | src/primitives.rs:19-58 | `Reg::new(reg)` is defined exactly for reg < 32 (the panic otherwise), and `reg_index` of its result is reg |
| Primitives.RegIndex | src/primitives.rs:60-104 | every register number `reg_index` returns is below 32 |
| Primitives.Index | src/primitives.rs:60-104 | a well-formed register's number is below 32 and `Reg::new` maps it back to the register |
| Primitives.RegIndexRoundTrip | src/primitives.rs:19-104 | `Reg::new(reg_index(r)) == r` for every well-formed register |
| Primitives.RegIndexDefined | src/primitives.rs:60-104 | `reg_index` is defined exactly for T(0..6), S(0..11), A(0..7) and the named registers |
| Primitives.AbiNumbering | src/primitives.rs:67-101 | A(k) is x(10 + k) for k < 8, T(k) is x(5 + k) for k < 3 |
| Primitives.RegNewInjective | src/primitives.rs:19-58 | two numbers below 32 with the same ABI register are equal |
| Primitives.ImmNew | src/primitives.rs:138-144 | `Imm::new(x)` is `Neg` exactly when x < 0; `val_signed` gives back x and `val` gives x modulo 2^64 |
| Primitives.ValSigned | src/primitives.rs:153-158 | `val_signed` has the same 64-bit pattern as `val` |
| Primitives.AccessorsIgnoreTag | src/primitives.rs:146-158 | `val` and `val_signed` do not depend on the tag |
| Primitives.RegsIndex | src/primitives.rs:107-112 | indexing `[u64; 32]` by a register is defined exactly for well-formed registers |
| Primitives.RegsUpdate | src/primitives.rs:114-118 | a mutable index by a register is defined exactly for well-formed registers |
| Primitives.IndexByRegNew | src/primitives.rs:19-112 | indexing by `Reg::new(i)` is indexing by i |
| Primitives.UpdateThenIndex | src/primitives.rs:107-118 | a write through a register changes that register's element only, and reads back the value written |
| Decoding.Opcode | src/decoding.rs:5 | the opcode is below 0x80 |
| Decoding.RdField | src/decoding.rs:9 | rd (bits 11:7) is below 32 |
| Decoding.Funct3 | src/decoding.rs:10 | funct3 (bits 14:12) is below 8 |
| Decoding.Rs1Field | src/decoding.rs:11 | rs1 (bits 19:15) is below 32 |
| Decoding.Rs2Field | src/decoding.rs:12 | rs2 (bits 24:20) is below 32 |
| Decoding.Funct7 | src/decoding.rs:13 | funct7 (bits 31:25) is below 0x80 |
| Decoding.Shamt | src/decoding.rs:77 | the shift amount (bits 25:20) is below 64 |
| Decoding.IImm | src/decoding.rs:74 | the I-type immediate is bits 31:20 read as 12-bit two's complement, in [-2048, 2047] |
| Decoding.SImm | src/decoding.rs:137-147 | the S-type immediate is {bits 31:25, bits 11:7} sign-extended from bit 11, in [-2048, 2047] |
| Decoding.BBits | src/decoding.rs:169-174 | the assembled B-type bits are even and below 2^13 |
| Decoding.BImm | src/decoding.rs:176-180 | the B-type offset is even and in [-4096, 4094] |
| Decoding.JBits | src/decoding.rs:222-227 | the assembled J-type bits are even and below 2^21 |
| Decoding.JImm | src/decoding.rs:229-233 | the J-type offset is even and in [-2^20, 2^20 - 2] |
| Decoding.UImm | src/decoding.rs:199-206 | the U-type immediate is raw with its low 12 bits cleared; its bit 11 is clear, so the `& 0x800` test never fires |
| Decoding.Decode | src/decoding.rs:4-244 | an opcode with no arm panics (the `invalid opcode` fallback); opcode 0x73 always decodes to `Ecall`; every decoded instruction has registers that `reg_index` accepts |
| Decoding.DecodeFailsExactly | src/decoding.rs:4-244 | `decode` panics exactly when the opcode has no arm, or the arm's funct3/funct7 table has no row for the word |
| Decoding.ROpOf | src/decoding.rs:20-66 | an R-type operation exists only for OP/OP-32 with funct7 0, 0x20 or 1; `Sltw` is never decoded |
| Decoding.LoadOpOf | src/decoding.rs:89-98 | a LOAD decodes exactly for funct3 < 7 |
| Decoding.IOpOf | src/decoding.rs:99-127 | an immediate operation exists only for OP-IMM and OP-IMM-32 |
| Decoding.StoreOpOf | src/decoding.rs:155-161 | a STORE decodes exactly for funct3 < 4 |
| Decoding.BranchOpOf | src/decoding.rs:187-195 | a BRANCH decodes exactly for funct3 other than 2 and 3 |
| Encoding.RWord | src/decoding.rs:5-13 | every field of an R-type word reads back as written |
| Encoding.IWord | src/decoding.rs:71-78 | an I-type word reads back its registers, funct3, the 12 immediate bits and the shift amount |
| Encoding.SWord | src/decoding.rs:133-140 | an S-type word reads back its registers and the 12 immediate bits split over two fields |
| Encoding.BWord | src/decoding.rs:165-174 | a B-type word reads back its registers and the scattered offset bits |
| Encoding.UWord | src/decoding.rs:199-200 | a U-type word reads back rd and the upper immediate |
| Encoding.JWord | src/decoding.rs:220-227 | a J-type word reads back rd and the scattered offset bits |
| Encoding.Imm12 | src/decoding.rs:74 | the low 12 bits of an immediate are below 2^12 |
| Encoding.RCode | src/decoding.rs:20-66 | each R-type operation but `Sltw` has an (opcode, funct3, funct7) that the table maps back to it |
| Encoding.ICode | src/decoding.rs:99-127 | each immediate operation has an (opcode, funct3) and a funct7 of 0 or 0x20 |
| Encoding.LoadF3 | src/decoding.rs:89-98 | each load's funct3 decodes back to it |
| Encoding.StoreF3 | src/decoding.rs:155-161 | each store's funct3 decodes back to it |
| Encoding.BranchF3 | src/decoding.rs:187-195 | each branch's funct3 decodes back to it |
| Encoding.Encode | src/decoding.rs:4-244 | the encoder, the independent partner of `decode`: only `Ecall` gets opcode 0x73 |
| Encoding.IImmRoundTrip | src/decoding.rs:74-80 | an I-type immediate in range is recovered from its 12 bits |
| Encoding.SImmRoundTrip | src/decoding.rs:137-147 | an S-type immediate in range is recovered from its two fields |
| Encoding.BImmRoundTrip | src/decoding.rs:169-180 | an even B-type offset in range is recovered from its bits |
| Encoding.JImmRoundTrip | src/decoding.rs:222-233 | an even J-type offset in range is recovered from its bits |
| Encoding.ROpOfExactly | src/decoding.rs:20-66 | an (opcode, funct7, funct3) decodes to an R-type operation if and only if it is that operation's listed code, so every unlisted triple panics |
| Encoding.IOpOfExactly | src/decoding.rs:99-127 | an (opcode, funct3, funct7) decodes to an immediate operation if and only if opcode and funct3 are its listed code, with `fn7 >> 1` matching for SRLI/SRAI and the whole funct7 for SRLIW/SRAIW; everything else panics |
| Encoding.IOpOfICode | src/decoding.rs:99-127 | the immediate table returns the operation for its code; SLLI/SLLIW ignore funct7 and SRLI/SRAI look only at `fn7 >> 1` |
| Encoding.DecodeOpImmWord | src/decoding.rs:69-130 | how `decode` reads an OP-IMM or OP-IMM-32 word: shifts take the `Pos` shift amount, the others the sign-extended immediate |
| Encoding.RoundTripJal | src/decoding.rs:219-239 | a JAL decodes back from its encoding |
| Encoding.RoundTripJalr | src/decoding.rs:114-117 | a JALR decodes back from its encoding |
| Encoding.RoundTripShift | src/decoding.rs:106-124 | an immediate shift decodes back from its encoding |
| Encoding.RoundTripOpImm | src/decoding.rs:99-127 | an immediate arithmetic instruction decodes back from its encoding |
| Encoding.RoundTripOp | src/decoding.rs:7-67 | an R-type instruction decodes back from its encoding |
| Encoding.RoundTripLoad | src/decoding.rs:88-98 | a load decodes back from its encoding |
| Encoding.RoundTripStore | src/decoding.rs:132-162 | a store decodes back from its encoding |
| Encoding.RoundTripBranch | src/decoding.rs:164-196 | a branch decodes back from its encoding |
| Encoding.DecodeEncode | src/decoding.rs:4-244 | `decode(encode(i)) == i` for every instruction the decoder can produce |
| Encoding.ShamtBelow32 | src/decoding.rs:77-78 | with funct7 even the shift amount is below 32 |
| Encoding.OpImmWellFormed | src/decoding.rs:69-130 | every OP-IMM/OP-IMM-32 instruction `decode` returns can be encoded |
| Encoding.DecodeWellFormed | src/decoding.rs:4-244 | everything `decode` returns can be encoded: the range of `decode`, and the domain of the round trip |
| Machine.Default | src/emulator.rs:25-36 | `Emulator::default()`: pc 0, not exiting, exit code 0, empty console, all registers and all memory bytes 0 |
| Machine.Window | src/emulator.rs:87-100 | `memory(offset, len)` gives the bytes [offset, offset + len) exactly when offset + len <= USER_MEMORY_SIZE, and panics otherwise |
| Machine.Splice | src/emulator.rs:105-118 | a write through `memory_mut(start, n)` changes bytes start..start + n to the new bytes and no other byte |
| Machine.WithReg | src/emulator.rs:134-136 | `set(r, v)`: r reads v, no other register changes, and nothing else in the state changes |
| Machine.WithPcAdded | src/emulator.rs:150-152 | `add_pc`: pc plus the immediate's bits modulo 2^64; nothing else changes |
| Machine.Loaded | src/emulator.rs:158-177 | `load`: no panic exactly when the window (address taken modulo 2^32) fits; the value is below 256^bytes; only the exit flag and code may change |
| Machine.Stored | src/emulator.rs:179-190 | `store`: no panic exactly when the window fits; only memory and console may change |
| Machine.OpValue | src/emulator.rs:483-501 | an R-type operation panics exactly for `Div`/`Rem` by a zero low word and `Divw`/`Remw` by a zero register |
| Machine.Quotient | src/emulator.rs:486-488 | unsigned division panics exactly on 0, and otherwise satisfies q*b <= a < (q+1)*b |
| Machine.Remainder | src/emulator.rs:489-491 | unsigned remainder panics exactly on 0, and otherwise is below b with a = q*b + r |
| Machine.SeByte | src/emulator.rs:522-524 | `se_byte` is the byte read as 8-bit two's complement |
| Machine.SeHalf | src/emulator.rs:526-528 | `se_half` is the half word read as 16-bit two's complement |
| Machine.SeWord | src/emulator.rs:530-532 | `se_word` is the word read as 32-bit two's complement |
| Machine.Jumped | src/emulator.rs:376-379 | the `Jal` arm keeps the state well-formed; its pc and link are stated by `MachineProps.PcJal` and `MachineProps.JalLinks` |
| Machine.JumpedReg | src/emulator.rs:380-393 | the `Jalr` arm keeps the state well-formed; its exit is stated by `MachineProps.ExitByJalr` |
| Machine.Branched | src/emulator.rs:394-435 | the branch arms keep the state well-formed; their pc is stated by `MachineProps.PcBranch` |
| Machine.Syscalled | src/emulator.rs:436-457 | the `Ecall` arm keeps the state well-formed; its effects are stated by `MachineProps.ExitBySyscall` and `MachineProps.ConsoleProtocol` |
| Machine.Dispatched | src/emulator.rs:197-502 | the `match instr` of `execute` keeps the state well-formed |
| Machine.Executed | src/emulator.rs:192-519 | `execute`: a register outside the ABI panics; otherwise, if no panic, x0 is 0 afterwards |
| Machine.Stepped | src/emulator.rs:120-132 | `step` keeps the state well-formed |
| Machine.PcFetched | src/emulator.rs:154-156 | `read_pc` is a 4-byte load, so the word is below 2^32 |
| Machine.RanFor | src/emulator.rs:69-82 | `run_for` keeps the state well-formed, and its first fetch succeeded |
| Machine.SteppedThenRan | src/emulator.rs:76-81 | the rest of a `run_for` round after the fetch keeps the state well-formed |
| Machine.Continued | src/emulator.rs:76-81 | the rest of a `run_for` round after the step keeps the state well-formed |
| Machine.RanForFetched | src/emulator.rs:70-78 | a round fetches first; with 0 iterations left it stops right after the fetch, otherwise it steps the fetched word |
| Machine.ContinuedStops | src/emulator.rs:76-78 | a step that returns false ends `run_for` |
| Machine.ContinuedGoesOn | src/emulator.rs:76-80 | a step that returns true continues with one iteration less and counts one instruction more |
| Machine.Flashed | src/emulator.rs:42-55 | `flash_prgm`: no panic exactly when the program fits at offset |
| Emulator.Emulator.constructor | src/emulator.rs:25-36 | the fresh emulator is `Emulator::default()` |
| Emulator.Emulator.Memory | src/emulator.rs:87-100 | returns `Machine.Window` of the current memory |
| Emulator.Emulator.MemoryMut | src/emulator.rs:105-118 | gives the start of the writable slice exactly when it fits, and panics otherwise |
| Emulator.Emulator.Set | src/emulator.rs:134-136 | leaves `WithReg(old state, reg, val)` |
| Emulator.Emulator.SetSigned | src/emulator.rs:138-140 | leaves `WithReg(old state, reg, val as u64)` |
| Emulator.Emulator.Reg | src/emulator.rs:142-144 | returns the register file's element for reg |
| Emulator.Emulator.RegSigned | src/emulator.rs:146-148 | returns the register read as i64 |
| Emulator.Emulator.AddPc | src/emulator.rs:150-152 | leaves `WithPcAdded(old state, offset)` |
| Emulator.Emulator.ReadPc | src/emulator.rs:154-156 | leaves state and word as `PcFetched` says |
| Emulator.Emulator.Load | src/emulator.rs:158-177 | its byte loop leaves state and value as `Loaded` says |
| Emulator.Emulator.Store | src/emulator.rs:179-190 | its byte loop leaves the state that `Stored` says |
| Emulator.Emulator.Execute | src/emulator.rs:192-519 | leaves the state that `Executed` says |
| Emulator.Emulator.ExecAlu | src/emulator.rs:198-343 | the Lui, Auipc, OP-IMM and OP arms leave the state that `Dispatched` says |
| Emulator.Emulator.ExecLoad | src/emulator.rs:344-363 | the load arms leave the state that `Dispatched` says |
| Emulator.Emulator.ExecStore | src/emulator.rs:364-375 | the store arms leave the state that `Dispatched` says |
| Emulator.Emulator.ExecJal | src/emulator.rs:376-379 | the `Jal` arm leaves the state that `Dispatched` says |
| Emulator.Emulator.ExecJalr | src/emulator.rs:380-393 | the `Jalr` arm leaves the state that `Dispatched` says |
| Emulator.Emulator.ExecBranch | src/emulator.rs:394-435 | the branch arms leave the state that `Dispatched` says |
| Emulator.Emulator.ExecEcall | src/emulator.rs:436-457 | the `Ecall` arm leaves the state that `Dispatched` says |
| Emulator.Emulator.Step | src/emulator.rs:120-132 | leaves state and result as `Stepped` says |
| Emulator.Emulator.RunFor | src/emulator.rs:69-82 | its loop leaves the state that `RanFor` says |
| Emulator.Emulator.FlashPrgm | src/emulator.rs:42-55 | its copy loop leaves the state that `Flashed` says |
| MachineProps.Cleared | src/emulator.rs:195 | `execute` starts from a state whose x0 is 0 |
| MachineProps.OnlyDestChanges | src/emulator.rs:192-519 | `execute` changes no register other than x0 and the instruction's destination |
| MachineProps.OnlyStoresWriteMemory | src/emulator.rs:192-519 | only a store instruction changes memory |
| MachineProps.StoredConsole | src/emulator.rs:187-189 | a store to CONSOLE_OFFSET appends exactly the low byte of the stored value; any other store leaves the console alone |
| MachineProps.DispatchedConsole | src/emulator.rs:364-457 | the console only grows, by a console store or by the `write` system call's window |
| MachineProps.ConsoleProtocol | src/emulator.rs:187-189 | one `execute` appends one byte for a store to 0x4, memory[a1 .. a1 + a2] for `write(1, ...)`, and nothing otherwise |
| MachineProps.DispatchedKeepsPc | src/emulator.rs:504-516 | the arms of non-branches leave pc to the final `add_pc(4)` |
| MachineProps.PcAdvances | src/emulator.rs:504-516 | every instruction but a branch or jump advances pc by 4 modulo 2^64 |
| MachineProps.PcBranch | src/emulator.rs:394-435 | a branch adds its offset when taken and 4 otherwise |
| MachineProps.PcJal | src/emulator.rs:376-378 | `Jal` sets pc to pc + offset modulo 2^32 |
| MachineProps.JalLinks | src/emulator.rs:377 | `Jal` writes pc + 4 to its link register |
| MachineProps.StepWhileExiting | src/emulator.rs:120-124 | once exiting, `step` returns false and changes nothing |
| MachineProps.ExitSticky | src/emulator.rs:192-519 | no instruction clears `exiting` |
| MachineProps.ExitByLoad | src/emulator.rs:160-168 | a load from address 0 exits with code 139, a load from 1 with code 0 |
| MachineProps.ExitBySyscall | src/emulator.rs:440-443 | ecall 93 exits with a0 truncated to 32 bits |
| MachineProps.ExitByJalr | src/emulator.rs:380-390 | a `Jalr` whose target word is 0 exits with a0, read after the link is written |
| MachineProps.DispatchedKeepsExit | src/emulator.rs:197-502 | no arm other than those exit conditions touches the exit flag or code |
| MachineProps.ExitOnlyBy | src/emulator.rs:192-519 | `execute` changes the exit flag and code only through a null or exit load, ecall 93 or a `Jalr` to 0 |
| MachineProps.AsI32OfAsI64 | src/emulator.rs:442 | a helper for `ExitBySyscall`: `reg_signed(a0) as i32` equals `reg(a0) as i32` |
| MachineProps.StepFalseOnlyWhenExiting | src/emulator.rs:120-132 | `step` returns false only when already exiting, and then changes nothing |
| MachineProps.RanForBound | src/emulator.rs:69-82 | `run_for(n)` steps at most n instructions, and fewer only when it ends exiting |
| MachineProps.FetchAtZeroTraps | src/emulator.rs:154-168 | with pc 0 the first fetch reads address 0: the null trap sets exit code 139 and nothing runs |
| MachineProps.FlashAtZeroRunsNothing | src/emulator.rs:585-586 | the test harness's `flash_prgm(&data, 0); run_for(...)` on the default machine runs no instruction: the first fetch hits the null trap |
| MachineProps.FlashPastTrapsFetchesProgram | src/emulator.rs:42-82 | a program flashed at any offset from 2 on is reached: the first fetch reads its first word and does not exit |
| MachineProps.StoreThenLoad | src/emulator.rs:158-190 | a load of w bytes right after a store of w bytes at the same address returns the value modulo 2^(8w) |
| MachineProps.LoadThenStore | src/emulator.rs:158-190 | storing back a loaded value at the same address and width leaves memory as it was |
| MachineProps.JalrAddsOffsetTwice | src/emulator.rs:380-392 | `jalr x0, 8(rs)` with rs = 0x1000 jumps to 0x1010 |
| MachineProps.SrliIsArithmetic | src/emulator.rs:245-247 | `Srli` shifts the signed value, so the sign bit is copied in |
| MachineProps.SllMasksAmount | src/emulator.rs:275-277 | `Sll` masks its amount to 5 bits; shifting by 32 changes nothing |
| MachineProps.MulWidths | src/emulator.rs:483-495 | `Mul` multiplies the low words modulo 2^32; `Mulw` multiplies the registers modulo 2^64 |
| MachineProps.LuiZeroExtends | src/decoding.rs:197-217 | `Lui` writes the word with its low 12 bits cleared, zero-extended |
| MachineProps.LuiOfBit31 | src/decoding.rs:197-217 | `lui ra, 0x80000` writes 0x80000000, not its sign extension |
| MachineProps.SeByteKeepsLowBits | src/emulator.rs:522-524 | `se_byte` keeps the low 8 bits and is negative exactly when bit 7 is set |
| MachineProps.SeHalfKeepsLowBits | src/emulator.rs:526-528 | `se_half` keeps the low 16 bits and is negative exactly when bit 15 is set |
| MachineProps.SeWordKeepsLowBits | src/emulator.rs:530-532 | `se_word` keeps the low 32 bits and is negative exactly when bit 31 is set |
| Interface.Bit | src/interface.rs:253-255 | `(byte >> (7 - k)) & 1` is 0 or 1 |
| Interface.Pixel | src/interface.rs:259-270 | a pixel is 4 bytes with alpha FF |
| Interface.PixelRow | src/interface.rs:257-273 | n bits fill 4n bytes |
| Interface.Pixels | src/interface.rs:251-276 | one screen byte expands to 32 bytes |
| Interface.ScreenTexture | src/interface.rs:246-279 | the texture exists exactly when `memory(offset, size / 8)` does not panic |
| Interface.ExpandByte | src/interface.rs:251-276 | the closure's two loops over `bit_field` and `pixels` produce `Pixels(b)` |
| Interface.ScreenToTextureData | src/interface.rs:246-279 | its loop over the screen bytes produces `ScreenTexture` of the emulator's state |
| Interface.TextureLength | src/interface.rs:246-279 | the output has 32 bytes per input byte |
| Interface.TextureChunk | src/interface.rs:246-279 | output chunk j is the expansion of input byte j alone |
| Interface.PixelRowChunk | src/interface.rs:257-273 | pixel k of a row is the pixel of bit 7 - k |
| Interface.PixelOfBit | src/interface.rs:259-270 | a set bit gives FF FF FF FF, a clear bit 00 00 00 FF |
| Interface.BitOrder | src/interface.rs:252-255 | pixel 0 shows the most significant bit and pixel 7 the least |
| Interface.AlphaIsOpaque | src/interface.rs:263-269 | the alpha byte of every output pixel is FF |
| Interface.RowByteOfPixels | src/interface.rs:251-276 | the 8 pixels of a byte show that byte again |
| Interface.TextureRoundTrip | src/interface.rs:246-279 | reading the texture back gives the screen bytes: the expansion is injective |
| SlibMem.Memset | emu/slib.cpp:10-17 | its loop sets the n bytes from s to `(unsigned char)c` and no others |
| SlibMem.Count | emu/slib.cpp:25 | the copy loop runs `bytes` times, or not at all for a negative count |
| SlibMem.Memcpy | emu/slib.cpp:20-28 | its loop copies the first `bytes` source bytes to d and no others |
| SlibMem.SetBytesReads | emu/slib.cpp:10-17 | after `memset` the n bytes read c and the bytes around them are unchanged |
| SlibMem.SetBytesIdempotent | emu/slib.cpp:10-17 | setting the same bytes twice is setting them once; n = 0 changes nothing |
| SlibMem.CopyBytesReads | emu/slib.cpp:20-28 | after `memcpy` the destination reads the source and the bytes around it are unchanged |
| SlibMem.CopyOneByte | emu/slib.cpp:20-28 | copying one byte is writing that byte |
| SlibMem.UCharLowByte | emu/slib.cpp:14 | a helper about the byte `memset` writes: the conversion keeps the low byte and is the identity on bytes |
| SlibHeap.FirstCall | emu/slib.cpp:121-125 | the head reset keeps the chain's length |
| SlibHeap.Walk | emu/slib.cpp:127-132 | the walk stops at the first free header, or at the tail |
| SlibHeap.HeaderOf | emu/slib.cpp:145 | `free` finds the header whose handed-out address is block, and none before it has that address |
| SlibHeap.Heap.constructor | emu/slib.cpp:72 | the heap before any call: the head header alone, all bytes zero |
| SlibHeap.Heap.Allocate | emu/slib.cpp:74-96 | appends the new header after the tail and zeroes the old tail's payload (DEBUG) |
| SlibHeap.Heap.ReuseAllocation | emu/slib.cpp:98-115 | traps exactly when `(uint8_t)bytes` exceeds the payload; otherwise clears only the flag and zeroes the payload |
| SlibHeap.Heap.Malloc | emu/slib.cpp:117-141 | its walk loop leaves the state and result that `MallocS` says |
| SlibHeap.Heap.Free | emu/slib.cpp:143-174 | the corrected `free`: its poison loop, with a counter that reaches the whole payload, leaves the state that `FreeS` says |
| SlibHeap.AlignedBounds | emu/slib.cpp:79 | a helper for `MallocAppends` and `MallocValid`: the payload is a multiple of 4 and strictly larger than the request; a multiple of 4 gets 4 bytes more |
| SlibHeap.Disjoint | emu/slib.cpp:78-95 | each block ends before any later block starts: offsets strictly increase and payloads never overlap |
| SlibHeap.MallocValid | emu/slib.cpp:117-141 | `malloc` keeps the chain invariant |
| SlibHeap.AppendKeepsChain | emu/slib.cpp:78-95 | a block that starts at the tail's end and ends inside the region extends the chain |
| SlibHeap.FreeValid | emu/slib.cpp:143-174 | `free` keeps the chain invariant |
| SlibHeap.MallocFirstCall | emu/slib.cpp:119-139 | on the first call the head becomes offset 0, size 16, occupied, and the first block is appended at offset 16 with address 40 |
| SlibHeap.MallocAppends | emu/slib.cpp:74-96 | with no free header the new header has offset tail.offset + tail.size and size 16 + aligned bytes; it is linked last; the result is HEAP + offset + 16; only the old tail's payload is zeroed |
| SlibHeap.MallocReuses | emu/slib.cpp:98-136 | the first free header is reused: trap exactly when `(uint8_t)bytes` is too big; otherwise it returns the block's old address and clears only the flag |
| SlibHeap.ReuseTruncates | emu/slib.cpp:100 | the reuse check sees the request modulo 256 |
| SlibHeap.FreePoisons | emu/slib.cpp:143-174 | `free` sets only that header's flag, fills its payload with DE AD BE EF by `i % 4`, and changes no other byte |
| SlibHeap.PoisonLoopAsWrittenNeverEnds | emu/slib.cpp:155 | with the `uint8_t` counter as written and a payload of 256 bytes or more, every counter value and its successor pass the loop guard |
| SlibHeap.PoisonLoopAsWrittenExample | emu/slib.cpp:117-155 | `malloc(252)` on a fresh heap gives a block at 40 with a 256-byte payload, on which the counter passes the guard at 255 and wraps to 0 |
| SlibHeap.FreeThenMalloc | emu/slib.cpp:117-174 | freeing a block, then asking for no more than its payload, returns the same address |
| SlibVec.Vec.constructor | emu/slib.cpp:41-43 | a `Vec` with the given capacity, item size and data, and length 0 |
| SlibVec.Vec.Push | emu/slib.cpp:48-56 | leaves the vector and memory that `PushS` says, and keeps len <= cap |
| SlibVec.NewVec | emu/slib.cpp:39-46 | `new_vec`: the heap moves as `malloc(item_size * cap)` says, and the vector has length 0, the given capacity and item size, and that data |
| SlibVec.PushKeepsBound | emu/slib.cpp:48-56 | len <= cap after every push; cap, item size and data never change |
| SlibVec.PushCopiesItem | emu/slib.cpp:48-56 | with room, the item reads back from slot len, no other byte changes, and len grows by one; when full, nothing changes |
| SlibVec.SlotsFollow | emu/slib.cpp:51 | successive pushes fill successive, adjacent slots while the product does not wrap |
| SlibVec.EmuCppNewVec | emu/emu.cpp:20 | `new_vec(1, 4)` on a fresh heap returns data 40 and changes no byte |
| SlibVec.EmuCppPushes | emu/emu.cpp:21-24 | pushing 25 and 69 writes bytes 32 and 33 from HEAP and leaves length 2 |
| SlibVec.EmuCppFree | emu/emu.cpp:25 | `free(v.data)` frees the vector's block and poisons its 8 bytes |
| SlibVec.EmuCppReuse | emu/emu.cpp:25 | a following `malloc(1)` would reuse the block at 40 |
| SlibVec.EmuCpp | emu/emu.cpp:19-26 | the program leaves a vector of length 2, its block freed and poisoned |
| SlibPrint.Console.constructor | emu/slib.cpp:176-178 | nothing has been printed yet |
| SlibPrint.Console.PrintChar | emu/slib.cpp:180-183 | appends the byte to the console |
| SlibPrint.Console.PrintStr | emu/slib.cpp:185-190 | its loop appends every byte up to the terminating NUL |
| SlibPrint.Console.PrintInt | emu/slib.cpp:192-217 | appends "0" for 0, the decimal digits for a positive value, and nothing for a negative one |
| SlibPrint.Console.PrintAddress | emu/slib.cpp:219-236 | the corrected `print_address`: appends "0x" and the lowercase hex digits of addr |
| SlibPrint.Console.PrintAddressAsWritten | emu/slib.cpp:219-236 | `print_address` as written: appends `AddressAsWritten(addr, stack)` |
| SlibPrint.Console.Printf | emu/slib.cpp:238-259 | its loop appends exactly `Format(fmt, args)`, with `%p` through the corrected `print_address` |
| SlibPrint.FillHex | emu/slib.cpp:222-230 | the do-while writes the hex digits of addr, least significant last, ending at buffer[17] before the NUL; the bytes before keep their contents |
| SlibPrint.DigitBuffer | emu/slib.cpp:201-214 | the counting and filling loops leave the digits of i and a NUL |
| SlibPrint.AddressAsWrittenFull | emu/slib.cpp:227-233 | with 16 digits, the code as written prints "0x" and the digits |
| SlibPrint.AddressAsWrittenShort | emu/slib.cpp:227-233 | with fewer digits and a NUL at buffer[2], the code as written prints only "0x" |
| SlibPrint.AddressAsWrittenExample | emu/slib.cpp:219-236 | 0x10 on a zeroed stack prints "0x" where "0x10" was intended |
| CText.Ascii | emu.c:106 | a helper for the string literals of the scenarios: a string literal has as many bytes as characters |
| CText.UntilNul | emu/slib.cpp:185-190 | `print_str` emits a prefix of the string ending at its first NUL, with no NUL in it |
| CText.UntilNulStep | emu/slib.cpp:187-189 | one pass of the `print_str` loop emits a non-NUL byte and goes on with the rest |
| CText.HexCharsTable | emu/slib.cpp:221 | `hex_chars[d]` is the character of digit d |
| CText.Width | emu/slib.cpp:201-206 | the count the digit loop reaches is 0 exactly for 0 |
| CText.Numeral | emu/slib.cpp:211-214 | the numeral has as many digits as the counting loop counts |
| CText.WidthStep | emu/slib.cpp:203-206 | one pass of the counting loop removes the last digit |
| CText.NumeralLast | emu/slib.cpp:211-214 | one pass of the fill loop writes the last digit, `i % base + '0'`, before the digits of i / base |
| CText.DecimalTextParts | emu/slib.cpp:192-217 | `print_int`'s text is the "0" of its first branch followed by the digit buffer |
| CText.HexDigits | emu/slib.cpp:227-230 | the do-while writes at least one digit |
| CText.HexDigitsLast | emu/slib.cpp:227-230 | the first pass writes the last digit, zero included |
| CText.HexTextHasNoNul | emu/slib.cpp:219-236 | "0x" and the digits hold no NUL, so `print_str` prints all of them |
| CText.DigitValueOfChar | emu/slib.cpp:221 | a digit character denotes its place in `hex_chars` |
| CText.NumeralIsCanonical | emu/slib.cpp:211-214 | every character is a digit of the base, none is NUL, and a positive value has no leading zero |
| CText.NumeralRoundTrip | emu/slib.cpp:211-214 | reading the digits back gives the number |
| CText.WidthBound | emu/slib.cpp:222-230 | numbers below base^k have at most k digits |
| CText.WidthOfWords | emu/slib.cpp:222 | a 64-bit address has at most 16 hex digits and a positive `int` at most 10 decimal digits |
| CText.DecimalTextValue | emu/slib.cpp:192-217 | for i >= 0 the text is a decimal numeral of i; for i < 0 it is empty |
| CText.HexTextValue | emu/slib.cpp:219-236 | the text is "0x" followed by a hexadecimal numeral of addr |
| CText.FormatVerbatim | emu/slib.cpp:243-257 | a format without `%` is emitted verbatim up to its NUL |
| CText.FormatLiteralPrefix | emu/slib.cpp:253-255 | literal characters are emitted first and in order |
| CText.FormatDirectivePrefix | emu/slib.cpp:244-252 | a directive emits its argument's text and uses up exactly that argument |
| CText.FormatConsumes | emu/slib.cpp:244-252 | directives consume one argument each; extra arguments are ignored |
| CText.FormatStep | emu/slib.cpp:243-257 | one pass of the `printf` loop: a literal emits itself; `%` and a non-directive emit nothing and use no argument; a directive emits its argument's text |
| EmuC.ArrBytes | emu.c:93-95 | the ten `int`s take 40 bytes |
| EmuC.Runtime.constructor | emu.c:13 | nothing allocated, nothing printed |
| EmuC.Runtime.Malloc | emu.c:15-24 | leaves `next_memory` and returns the pointer that `Bump` says |
| EmuC.Runtime.PrintChar | emu.c:29 | appends the byte to the console |
| EmuC.Runtime.PrintStr | emu.c:31-35 | its loop appends every byte up to the NUL |
| EmuC.Runtime.PrintInt | emu.c:37-69 | appends the text of `print_int`, and the heap gains exactly its buffers: "0", NUL for 0, then the digits and a NUL |
| EmuC.Runtime.PrintZero | emu.c:39-46 | takes 2 heap bytes, writes "0" and a NUL there, and prints "0" |
| EmuC.Runtime.PrintDigits | emu.c:48-68 | takes len + 1 heap bytes, writes the digits and a NUL there, and prints the digits |
| EmuC.Runtime.FillDigits | emu.c:62-66 | the fill loop writes the digits of i, most significant first, then a NUL |
| EmuC.Runtime.Printf | emu.c:71-89 | its loop appends `Format(fmt, args)` without `%p`, and the heap gains the buffers of each `%i` |
| EmuC.Runtime.PrintfStep | emu.c:75-87 | one pass of `printf`'s loop moves past what it read and keeps the loop's output and heap invariants |
| EmuC.Runtime.StoreInt | emu.c:94 | `x[i] = v` writes v's four bytes, least significant first |
| EmuC.Runtime.Arr | emu.c:91-98 | `arr()` takes 40 heap bytes, returns their address, and leaves 1..10 in them |
| EmuC.BumpFits | emu.c:15-24 | `malloc` returns NULL exactly when the request does not fit, and then changes nothing; otherwise it returns HEAP + next and advances by bytes, never past MEMORY_SIZE |
| EmuC.BumpContiguous | emu.c:20-21 | successive successful blocks are adjacent and disjoint; a failed one leaves the next block where it would have been |
| EmuC.BumpNullMonotone | emu.c:16-18 | a request that fails makes every larger request fail |
| EmuC.IntBytesText | emu.c:37-69 | the buffers `print_int` leaves read back as its text; they take 3 bytes for 0, width + 1 bytes for a positive value, 1 otherwise |
| EmuC.AllBytesAppend | emu.c:71-89 | the buffers of two runs of `%i` follow one another |
| EmuC.PrintedVerbatim | emu.c:75-87 | a format without `%` prints no integer |
| EmuC.PrintedStep | emu.c:75-87 | one pass of the `printf` scan: only `%i` hands its argument to `print_int` |
| EmuC.PrintedLiteral | emu.c:83-85 | literal bytes print no integer |
| EmuC.IntLERoundTrip | emu.c:94 | an `int` stored and loaded again is the same `int` |
| EmuC.ArrSlot | emu.c:93-95 | element j of the array sits in bytes 4j..4j + 4 and holds j + 1 |
| EmuC.IntLineFormat | emu.c:103 | `printf("%i\n", v)` prints v and a newline, and v is its only integer |
| EmuC.LineOfElement | emu.c:103 | for an element from 1 to 10 the line takes 2 heap bytes, or 3 for 10 |
| EmuC.FormatIntThenStr | emu.c:71-89 | a format "text %i text %s" prints the text, the integer, the text and the string |
| EmuC.SummaryFormat | emu.c:106 | `printf("int: %i, + %s", 69, "Hello, World!")` prints "int: 69, + Hello, World!" and takes 3 heap bytes |
| EmuC.LinesTen | emu.c:102-104 | the loop's ten lines are "1\n" to "10\n" |
| EmuC.MainLine | emu.c:102-104 | one pass of `main`'s loop loads a[i] from the heap and prints it, keeping the array intact |
| EmuC.EmuMain | emu.c:100-108 | `main()` prints "1\n" to "10\n" and then "int: 69, + Hello, World!", uses 64 heap bytes, and leaves the array in the first 40; `assert(6 % 4 == 2)` holds, so address 0 is not read |

## Left out

- `Emulator::run` (src/emulator.rs:58-65) loops without a bound. The model has `run_for`, which is the same loop with an iteration budget.
- The host-side `println!` diagnostics of `flash_prgm` and `execute`, the invalid-syscall message, and `print_emulator` are not modelled. They write to the host's standard output, not to the emulator's state.
- A debug build panics on overflow of plain `+` and `*`. The model wraps, as a release build does.
- `Emulator.Emulator.Load`: requires a width of at most 8 bytes. `load` is only called with 1, 2, 4 and 8, and wider loads would overflow the shift.
- `Emulator.Emulator.Execute` and the other methods require that the matching function does not panic. A panic ends the program, and the pure functions model it as `Panic`.
- Memory is a `seq<u8>`/`array<u8>` of `u32::MAX` bytes. The 4 GiB allocation is not modelled.
- Values of `Reg` with payloads outside the ABI are a panic of `reg_index`. `decode` never builds them.
- The `instruction_set` module is not part of this model. `Instr` is rebuilt from the variants that `decode` and `execute` use. `Sltw` is executed but never decoded.
- The rest of src/interface.rs (Bevy setup, timers, input, `step`), src/main.rs and src/io.rs are not modelled. `SCREEN_OFFSET` and `SCREEN_SIZE` come from a module that is not part of this model, so they are parameters.
- The `#[cfg(test)]` block in src/emulator.rs is not modelled, apart from its harness `run` (src/emulator.rs:584-593), which is under "## Findings".
- The diagnostic `printf` calls inside `allocate`, `reuse_allocation` and `free` are left out. The heap model has no console.
- `print_vec` (emu/slib.cpp:30-37) is not modelled. It is a diagnostic `printf` of the four fields.
- The byte layout of the `Alloc` headers inside the heap region is not modelled. The headers are a sequence of records beside the payload bytes.
- `SlibHeap.Heap.Malloc`: requires that an appended block fits in the 64000-byte region. The code has no such check, and past it the headers would run off the region.
- `SlibHeap.Heap.Malloc`: takes the request as a `nat`. A negative `int` request is not modelled.
- Only the DEBUG=1 behaviour (emu/slib.h:4) is modelled: the zero-fill on append and reuse, and the poison on free.
- `SlibHeap.Heap.Free`: requires a block that `malloc` handed out, after the head. Its poison loop is the corrected one; the never-ending loop as written is under "## Findings".
- `SlibVec.Vec.Push`: requires that, when there is room, the slot lies inside the heap bytes. `push_vec` writes wherever `data` points; a vector from `new_vec` whose block fits meets it.
- `SlibMem.Memcpy`: copies from a value, so overlapping source and destination are not modelled.
- `SlibVec.NewVec`: requires `item_size * init_capacity` (in `uint32_t`) below 2^31. Larger products reach `malloc(int)` negative.
- `SlibPrint.Console.PrintInt`: the out-of-bounds `str[len]` write on a VLA of `len` bytes is undefined behaviour. The model gives the buffer len + 1 bytes.
- `SlibPrint.Console.Printf`: `%p` prints through the corrected `print_address` (see "## Findings"), not the one as written, whose output depends on uninitialised stack bytes.
- `SlibPrint.Console.Printf` and `EmuC.Runtime.Printf` require a format whose `%` is not last and whose arguments match the directives. Anything else is undefined behaviour in C.
- `EmuC.Runtime.PrintInt`: requires that its buffers fit in the heap. When `malloc` returns NULL, the code prints "ON NO" and then writes through NULL, which is undefined behaviour.
- `EmuC.Runtime.Malloc`: takes the request as a `nat`. A negative `int` request and the overflow of `next_memory + bytes` are not modelled.
- `EmuC.Runtime.constructor` and `EmuC.EmuMain` take the heap's initial bytes as a parameter. Nothing in emu.c fixes them.
- The naked `_start` trampolines (emu/slib.cpp:268-273, emu.c:115-118) are not modelled. After `main` they read address 1, which the emulator treats as the exit (`MachineProps.ExitByLoad`).
- The memory-mapped console stores of the guest code are modelled as appends to `out`. The store on the emulator side is `MachineProps.StoredConsole`.

Where the repository's own description and the code disagree, the model follows the code:

- a reuse request too big for the first free block traps (emu/slib.cpp:100); it does not move on along the chain;
- a 0-byte request gets a 4-byte payload (emu/slib.cpp:79).

On an append, `allocate` zeroes the payload of the old tail `a`, a block still in use, not the new block's (emu/slib.cpp:91-93). Zeroing the new block was evidently meant. The model follows the code (`SlibHeap.Heap.Allocate`, `SlibHeap.MallocAppends`).

## Findings

| source | as written | input that shows it | evidently intended | confidence | as-written member | corrected member |
|---|---|---|---|---|---|---|
| emu/slib.cpp:227-235 | the digits are written down from buffer[17] and "0x" goes to buffer[1] and buffer[0]. The bytes between are never written when addr has fewer than 16 hex digits, so `print_str` prints whatever the stack held there, up to its first NUL | addr = 0x10 with a zeroed stack prints "0x" | "0x" immediately followed by the hex digits, "0x10" | not executed | SlibPrint.Console.PrintAddressAsWritten, SlibPrint.AddressAsWrittenExample, SlibPrint.AddressAsWrittenShort | SlibPrint.Console.PrintAddress, SlibPrint.Console.Printf |
| emu/slib.cpp:155 | the poison loop of `free` counts in `uint8_t i` against `a->size - sizeof(Alloc)`. On a payload of 256 bytes or more the counter wraps from 255 to 0 and the guard never fails, so `free` never returns | `free(malloc(252))` on a fresh heap: the payload is 256 bytes | the whole payload poisoned and `free` returns, as for smaller blocks | not executed | SlibHeap.PoisonLoopAsWrittenNeverEnds, SlibHeap.PoisonLoopAsWrittenExample | SlibHeap.Heap.Free |
| src/emulator.rs:585-586 | the test harness flashes each program at address 0 and sets pc there, so the first fetch of `run_for` reads address 0, the null trap. The emulator exits with code 139 before running an instruction, and the register checks that follow see the untouched register file (`lb_rd_offset_rs1` expects x16 = 5) | any test of the module, e.g. `lb_rd_offset_rs1`: `flash_prgm(&data, 0); run_for(data.len() / 4)` | the program runs from its first word | not executed | MachineProps.FlashAtZeroRunsNothing, MachineProps.FetchAtZeroTraps | MachineProps.FlashPastTrapsFetchesProgram |
