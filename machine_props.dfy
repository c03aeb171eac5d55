/** Properties of the emulator's operations (module Machine): what one `execute`
    may change, pc sequencing, the exit and console protocols, `run_for`'s bound,
    the load/store round trip, and the places where the code departs from the
    RISC-V ISA. */
module MachineProps {
  import opened Wrappers
  import opened Words
  import opened Primitives
  import opened Instructions
  import opened Decoding
  import opened Machine

  /** The state `execute` works on once it has cleared x0. */
  function Cleared(s: State): (t: State)
    requires s.Valid()
    ensures t.Valid() && t.regs[0] == 0
  {
    WithReg(s, Zero, 0)
  }

  /** The register an instruction writes, if any. */
  function Dest(i: Instr): Option<Reg>
  {
    match i
    case Lui(d, _) => Some(d)
    case Auipc(d, _) => Some(d)
    case Jal(d, _) => Some(d)
    case Jalr(d, _, _) => Some(d)
    case OpImm(_, d, _, _) => Some(d)
    case Op(_, d, _, _) => Some(d)
    case Load(_, d, _) => Some(d)
    case _ => None
  }

  // ---------------------------------------------------------------------
  // What one execute changes

  /** Apart from x0 and the destination register, the register file is unchanged. */
  lemma OnlyDestChanges(s: State, i: Instr, k: nat)
    requires s.Valid() && Executed(s, i).Ok?
    requires 0 < k < 32 && (Dest(i).None? || k != Index(Dest(i).value))
    ensures Executed(s, i).value.regs[k] == s.regs[k]
  {
    var c := Cleared(s);
    match i
    case Load(op, d, offset) =>
      assert Loaded(c, offset, LoadWidth(op)).value.0.regs == c.regs;
    case Store(op, src, offset) =>
      assert Stored(c, offset, StoreWidth(op), RegValue(c, src)).value.regs == c.regs;
    case Ecall =>
      assert Syscalled(c).value.regs == c.regs;
    case _ =>
  }

  /** Only a store writes memory. */
  lemma OnlyStoresWriteMemory(s: State, i: Instr)
    requires s.Valid() && Executed(s, i).Ok? && !i.Store?
    ensures Executed(s, i).value.memory == s.memory
  {
    var c := Cleared(s);
    match i
    case Load(op, d, offset) =>
      assert Loaded(c, offset, LoadWidth(op)).value.0.memory == c.memory;
    case Ecall =>
      assert Syscalled(c).value.memory == c.memory;
    case _ =>
  }

  /** The value of the byte a store to CONSOLE_OFFSET appends: the low byte of
      the stored register. */
  lemma StoredConsole(s: State, offset: Offset, bytes: nat, val: u64)
    requires s.Valid() && ValidReg(offset.base) && Stored(s, offset, bytes, val).Ok?
    ensures var t := Stored(s, offset, bytes, val).value;
      t.console == if EffectiveAddress(s, offset) == CONSOLE_OFFSET && bytes > 0
                   then s.console + [val % 0x100]
                   else if EffectiveAddress(s, offset) == CONSOLE_OFFSET then s.console + [s.memory[4]]
                   else s.console
  {
    var addr := EffectiveAddress(s, offset);
    if addr == CONSOLE_OFFSET && bytes > 0 {
      var mem := Splice(s.memory, 4, ToBytes(val, bytes));
      assert mem[4] == ToBytes(val, bytes)[0];
      assert ByteAt(val, 0) == val % 0x100;
    }
  }

  /** The console only grows, and only a store to CONSOLE_OFFSET or the write
      system call (a7 = 64, a0 = 1) makes it grow: a store appends the register's low
      byte, the write call appends memory[a1 .. a1 + a2]. Stated of the dispatch
      from the state c with x0 cleared. */
  lemma DispatchedConsole(c: State, i: Instr)
    requires c.Valid() && i.RegsValid() && Dispatched(c, i).Ok?
    ensures var t := Dispatched(c, i).value;
      && (i.Store? && EffectiveAddress(c, i.offset) == CONSOLE_OFFSET ==>
           t.console == c.console + [RegValue(c, i.src) % 0x100])
      && (i.Ecall? && RegValue(c, A(7)) == 64 ==>
           t.console == c.console + Window(c.memory, AsU32(RegValue(c, A(1))), RegValue(c, A(2))).value)
      && ((!(i.Store? && EffectiveAddress(c, i.offset) == CONSOLE_OFFSET) &&
           !(i.Ecall? && RegValue(c, A(7)) == 64)) ==> t.console == c.console)
  {
    match i
    case Store(op, src, offset) =>
      StoredConsole(c, offset, StoreWidth(op), RegValue(c, src));
    case Load(op, d, offset) =>
      assert Loaded(c, offset, LoadWidth(op)).value.0.console == c.console;
    case _ =>
  }

  /** The console protocol of one `execute`. */
  lemma ConsoleProtocol(s: State, i: Instr)
    requires s.Valid() && Executed(s, i).Ok?
    ensures var t := Executed(s, i).value;
      var c := Cleared(s);
      && (i.Store? && EffectiveAddress(c, i.offset) == CONSOLE_OFFSET ==>
           t.console == s.console + [RegValue(c, i.src) % 0x100])
      && (i.Ecall? && RegValue(c, A(7)) == 64 ==>
           t.console == s.console + Window(c.memory, AsU32(RegValue(c, A(1))), RegValue(c, A(2))).value)
      && ((!(i.Store? && EffectiveAddress(c, i.offset) == CONSOLE_OFFSET) &&
           !(i.Ecall? && RegValue(c, A(7)) == 64)) ==> t.console == s.console)
  {
    DispatchedConsole(Cleared(s), i);
  }

  // ---------------------------------------------------------------------
  // pc sequencing (src/emulator.rs:379-438, 504-516)

  /** Every instruction but a branch or jump leaves pc to `execute`'s `add_pc(4)`. */
  lemma DispatchedKeepsPc(s: State, i: Instr)
    requires s.Valid() && i.RegsValid() && Dispatched(s, i).Ok? && !i.IsControlTransfer()
    ensures Dispatched(s, i).value.pc == s.pc
  {
    match i
    case Load(op, d, offset) =>
      assert Loaded(s, offset, LoadWidth(op)).value.0.pc == s.pc;
    case Store(op, src, offset) =>
      assert Stored(s, offset, StoreWidth(op), RegValue(s, src)).value.pc == s.pc;
    case Ecall =>
      assert Syscalled(s).value.pc == s.pc;
    case _ =>
  }

  /** Every instruction but a branch or jump advances pc by 4 (modulo 2^64). */
  lemma PcAdvances(s: State, i: Instr)
    requires s.Valid() && Executed(s, i).Ok? && !i.IsControlTransfer()
    ensures Executed(s, i).value.pc == (s.pc + 4) % TWO_64
  {
    DispatchedKeepsPc(Cleared(s), i);
  }

  /** A branch adds its offset to pc when taken and 4 otherwise (modulo 2^64). */
  lemma PcBranch(s: State, i: Instr)
    requires s.Valid() && Executed(s, i).Ok? && i.Branch?
    ensures var c := Cleared(s);
      Executed(s, i).value.pc ==
        (s.pc + if BranchTaken(i.bop, RegValue(c, i.src1), RegValue(c, i.src2)) then Val(i.imm) else 4) % TWO_64
  {
  }

  /** Jal sets pc to pc + offset modulo 2^32: the sum is taken on `u32`s. */
  lemma PcJal(s: State, i: Instr)
    requires s.Valid() && Executed(s, i).Ok? && i.Jal?
    ensures Executed(s, i).value.pc == (s.pc + Val(i.imm)) % TWO_32
  {
    ModSum32(s.pc, Val(i.imm));
  }

  /** Jal writes pc + 4 to its link register (unless the link is x0). */
  lemma JalLinks(s: State, i: Instr)
    requires s.Valid() && Executed(s, i).Ok? && i.Jal? && i.dst != Zero
    ensures RegValue(Executed(s, i).value, i.dst) == (s.pc + 4) % TWO_64
  {
    assert Index(i.dst) != 0 by {
      RegIndexRoundTrip(i.dst);
    }
  }

  /** (a mod 2^32 + b mod 2^32) mod 2^32 = (a + b) mod 2^32. */
  lemma ModSum32(a: nat, b: nat)
    ensures AsU32(AsU32(a) + AsU32(b)) == (a + b) % TWO_32
  {
    var qa, ra := a / TWO_32, a % TWO_32;
    var qb, rb := b / TWO_32, b % TWO_32;
    assert a + b == (qa + qb) * TWO_32 + (ra + rb);
    if ra + rb < TWO_32 {
      DivModUnique(a + b, TWO_32, qa + qb, ra + rb);
    } else {
      DivModUnique(ra + rb, TWO_32, 1, ra + rb - TWO_32);
      DivModUnique(a + b, TWO_32, qa + qb + 1, ra + rb - TWO_32);
    }
  }

  // ---------------------------------------------------------------------
  // Exiting (src/emulator.rs:120-124, 160-168, 383-396, 439-444)

  /** Once exiting, `step` returns false and changes nothing. */
  lemma StepWhileExiting(s: State, raw: u32)
    requires s.Valid() && s.exiting
    ensures Stepped(s, raw) == Ok((s, false))
  {
  }

  /** The exit conditions of one `execute`, on the state c with x0 cleared: a load
      from NULL or EXIT, the exit system call (a7 = 93), or a Jalr whose target
      word is 0. */
  predicate ExitCondition(c: State, i: Instr)
    requires c.Valid() && i.RegsValid()
  {
    || (i.Load? && EffectiveAddress(c, i.offset) in {NULL, EXIT})
    || (i.Ecall? && RegValue(c, A(7)) == 93)
    || (i.Jalr? && JalrBase(RegValue(WithReg(c, i.dst, AsU64(c.pc + 4)), i.src), i.imm) == 0)
  }

  /** `exiting` is never cleared. */
  lemma ExitSticky(s: State, i: Instr)
    requires s.Valid() && Executed(s, i).Ok? && s.exiting
    ensures Executed(s, i).value.exiting
  {
    var c := Cleared(s);
    match i
    case Load(op, d, offset) =>
      assert Loaded(c, offset, LoadWidth(op)).value.0.exiting;
    case Store(op, src, offset) =>
      assert Stored(c, offset, StoreWidth(op), RegValue(c, src)).value.exiting;
    case _ =>
  }

  /** A load from NULL exits with code 139, a load from EXIT with code 0. */
  lemma ExitByLoad(s: State, i: Instr)
    requires s.Valid() && Executed(s, i).Ok? && i.Load?
    ensures var t, c := Executed(s, i).value, Cleared(s);
      && (EffectiveAddress(c, i.offset) == NULL ==> t.exiting && t.exitCode == 139)
      && (EffectiveAddress(c, i.offset) == EXIT ==> t.exiting && t.exitCode == 0)
  {
    var c := Cleared(s);
    var r := Loaded(c, i.offset, LoadWidth(i.lop)).value.0;
    assert Executed(s, i).value.exiting == r.exiting && Executed(s, i).value.exitCode == r.exitCode;
  }

  /** The exit system call exits with code a0 truncated to 32 bits. */
  lemma ExitBySyscall(s: State, i: Instr)
    requires s.Valid() && Executed(s, i).Ok? && i.Ecall? && RegValue(Cleared(s), A(7)) == 93
    ensures Executed(s, i).value.exiting
    ensures Executed(s, i).value.exitCode == AsI32(RegValue(Cleared(s), A(0)))
  {
    AsI32OfAsI64(RegValue(Cleared(s), A(0)));
  }

  /** A Jalr whose target word is 0 exits with code a0, read after the link
      register is written. */
  lemma ExitByJalr(s: State, i: Instr)
    requires s.Valid() && Executed(s, i).Ok? && i.Jalr?
    requires JalrBase(RegValue(WithReg(Cleared(s), i.dst, AsU64(s.pc + 4)), i.src), i.imm) == 0
    ensures Executed(s, i).value.exiting
    ensures Executed(s, i).value.exitCode == AsI32(RegValue(WithReg(Cleared(s), i.dst, AsU64(s.pc + 4)), A(0)))
  {
  }

  /** No other instruction touches `exiting` or the exit code. */
  lemma DispatchedKeepsExit(c: State, i: Instr)
    requires c.Valid() && i.RegsValid() && Dispatched(c, i).Ok? && !ExitCondition(c, i)
    ensures Dispatched(c, i).value.exiting == c.exiting
    ensures Dispatched(c, i).value.exitCode == c.exitCode
  {
    match i
    case Load(op, d, offset) =>
      var r := Loaded(c, offset, LoadWidth(op)).value.0;
      assert r.exiting == c.exiting && r.exitCode == c.exitCode;
    case Store(op, src, offset) =>
      var r := Stored(c, offset, StoreWidth(op), RegValue(c, src)).value;
      assert r.exiting == c.exiting && r.exitCode == c.exitCode;
    case _ =>
  }

  /** The exit frame of one `execute`. */
  lemma ExitOnlyBy(s: State, i: Instr)
    requires s.Valid() && Executed(s, i).Ok? && !ExitCondition(Cleared(s), i)
    ensures Executed(s, i).value.exiting == s.exiting
    ensures Executed(s, i).value.exitCode == s.exitCode
  {
    DispatchedKeepsExit(Cleared(s), i);
  }

  /** The exit code of the exit call: `reg_signed(a0) as i32` is `reg(a0) as i32`. */
  lemma AsI32OfAsI64(x: u64)
    ensures AsI32(AsI64(x)) == AsI32(x)
  {
    if x >= TWO_63 {
      DivModUnique(x - TWO_64, TWO_32, x / TWO_32 - TWO_32, x % TWO_32);
    }
  }

  // ---------------------------------------------------------------------
  // run_for (src/emulator.rs:69-82)

  /** `step` returns false only when the machine is already exiting, and then it
      changes nothing. */
  lemma StepFalseOnlyWhenExiting(s: State, raw: u32)
    requires s.Valid() && Stepped(s, raw).Ok? && !Stepped(s, raw).value.1
    ensures s.exiting && Stepped(s, raw).value.0 == s
  {
  }

  /** `run_for(n)` steps at most n instructions, and fewer only when the machine
      ends up exiting. */
  lemma {:induction false} RanForBound(s: State, n: nat)
    requires s.Valid() && RanFor(s, n).Ok?
    ensures RanFor(s, n).value.1 <= n
    ensures RanFor(s, n).value.1 < n ==> RanFor(s, n).value.0.exiting
    decreases n
  {
    var s1, raw := PcFetched(s).value.0, PcFetched(s).value.1;
    RanForFetched(s, n, s1, raw);
    if n > 0 {
      var t := Stepped(s1, AsU32(raw));
      if t.value.1 {
        ContinuedGoesOn(t, n, n - 1);
        RanForBound(t.value.0, n - 1);
      } else {
        ContinuedStops(t, n);
        StepFalseOnlyWhenExiting(s1, AsU32(raw));
      }
    }
  }

  /** With pc = 0 and x0 = 0 the very first fetch reads address 0, which is the null
      trap: `run_for` steps nothing and the machine exits with code 139. This is
      the state every test of src/emulator.rs starts from (`flash_prgm(&data, 0)`). */
  lemma FetchAtZeroTraps(s: State, n: nat)
    requires s.Valid() && s.pc == 0 && s.regs[0] == 0
    ensures RanFor(s, n) == Ok((s.(exiting := true, exitCode := 139), 0))
  {
    var s1 := s.(exiting := true, exitCode := 139);
    assert EffectiveAddress(s, Offset(Zero, Pos(0))) == NULL;
    assert Window(s.memory, 0, 4).Ok?;
    assert PcFetched(s).value.0 == s1;
    RanForFetched(s, n, s1, PcFetched(s).value.1);
    if n > 0 {
      StepWhileExiting(s1, AsU32(PcFetched(s).value.1));
      ContinuedStops(Stepped(s1, AsU32(PcFetched(s).value.1)), n);
    }
  }

  /** Flashing a program at address 0 of the default machine, as the tests do,
      leaves `run_for` unable to run any of it. */
  lemma FlashAtZeroRunsNothing(prgm: seq<u8>, n: nat)
    requires |prgm| <= USER_MEMORY_SIZE
    ensures Flashed(Default(), prgm, 0).Ok?
    ensures var t := Flashed(Default(), prgm, 0).value;
      RanFor(t, n) == Ok((t.(exiting := true, exitCode := 139), 0))
  {
    FetchAtZeroTraps(Flashed(Default(), prgm, 0).value, n);
  }

  /** Flashed anywhere past the two trap addresses, the program is reached: the
      first fetch reads its first word and does not exit. */
  lemma FlashPastTrapsFetchesProgram(prgm: seq<u8>, offset: u32)
    requires 2 <= offset && 4 <= |prgm| && offset + |prgm| <= USER_MEMORY_SIZE
    ensures Flashed(Default(), prgm, offset).Ok?
    ensures var t := Flashed(Default(), prgm, offset).value;
      PcFetched(t) == Ok((t, LittleEndian(prgm[..4]))) && !t.exiting
  {
    var t := Flashed(Default(), prgm, offset).value;
    assert EffectiveAddress(t, Offset(Zero, Pos(t.pc))) == offset as u64;
    assert Window(t.memory, offset, 4).value == prgm[..4];
  }

  // ---------------------------------------------------------------------
  // Loads and stores (src/emulator.rs:158-190)

  /** A load of w bytes at the address just stored to returns the stored value
      modulo 2^(8w). */
  lemma StoreThenLoad(s: State, offset: Offset, w: nat, val: u64)
    requires s.Valid() && ValidReg(offset.base) && w <= 8 && Stored(s, offset, w, val).Ok?
    ensures var t := Stored(s, offset, w, val).value;
      Loaded(t, offset, w).Ok? && Loaded(t, offset, w).value.1 == val % Pow256(w)
  {
    var t := Stored(s, offset, w, val).value;
    var start := AsU32(EffectiveAddress(s, offset));
    assert EffectiveAddress(t, offset) == EffectiveAddress(s, offset);
    var bs := ToBytes(val, w);
    assert t.memory == Splice(s.memory, start, bs);
    assert Window(t.memory, start, w).value == bs;
    LittleEndianToBytes(val, w);
  }

  /** Storing back the value just loaded, with the same width and address, leaves
      memory as it was. */
  lemma LoadThenStore(s: State, offset: Offset, w: nat)
    requires s.Valid() && ValidReg(offset.base) && w <= 8 && Loaded(s, offset, w).Ok?
    ensures var (s1, v) := Loaded(s, offset, w).value;
      Stored(s1, offset, w, v).Ok? && Stored(s1, offset, w, v).value.memory == s.memory
  {
    var (s1, v) := Loaded(s, offset, w).value;
    var start := AsU32(EffectiveAddress(s, offset));
    assert EffectiveAddress(s1, offset) == EffectiveAddress(s, offset);
    var bs := Window(s.memory, start, w).value;
    assert v == LittleEndian(bs);
    ToBytesLittleEndian(bs);
    var mem := Splice(s.memory, start, ToBytes(v, w));
    assert mem == s.memory;
  }

  // ---------------------------------------------------------------------
  // Where the code departs from the ISA

  /** Jalr adds the offset twice: the target of `jalr rd, 8(rs)` with rs = 0x1000 is
      0x1010, not 0x1008 (src/emulator.rs:385, 394). */
  lemma JalrAddsOffsetTwice(s: State, src: Reg)
    requires s.Valid() && ValidReg(src) && src != Zero && RegValue(s, src) == 0x1000
    ensures Executed(s, Jalr(Zero, src, Pos(8))).Ok?
    ensures Executed(s, Jalr(Zero, src, Pos(8))).value.pc == 0x1010
  {
    RegIndexRoundTrip(src);
    var c := Cleared(s);
    assert RegValue(WithReg(c, Zero, AsU64(s.pc + 4)), src) == 0x1000;
  }

  /** Srli shifts the signed value, so it shifts in copies of the sign bit:
      `srli` by 4 of 2^63 gives 0xF800_0000_0000_0000 (src/emulator.rs:246-248). */
  lemma SrliIsArithmetic()
    ensures OpImmValue(Srli, TWO_63, Pos(4)) == 0xF800_0000_0000_0000
  {
    assert Pow2(4) == 16;
  }

  /** Shift amounts are masked to 5 bits: `sll` by 32 leaves the value unchanged
      (src/emulator.rs:272-273). */
  lemma SllMasksAmount(a: u64, b: u64)
    ensures OpValue(Sll, a, b) == OpValue(Sll, a, b % 32)
    ensures OpValue(Sll, a, 32) == Ok(a)
  {
    assert (b % 32) % 32 == b % 32;
    assert Shl64(a, 0) == a by {
      assert Pow2(0) == 1;
    }
  }

  /** Mul multiplies the low words, modulo 2^32, so it never reaches 2^32, while
      Mulw multiplies the full registers modulo 2^64 (src/emulator.rs:485-497). */
  lemma MulWidths(a: u64, b: u64)
    ensures OpValue(Mul, a, b).value < TWO_32
    ensures OpValue(Mul, a, b).value == (a * b) % TWO_32
    ensures OpValue(Mulw, a, b).value == (a * b) % TWO_64
    ensures OpValue(Mul, TWO_32, 1) == Ok(0) && OpValue(Mulw, TWO_32, 1) == Ok(TWO_32)
  {
    MulMod(a, b, TWO_32);
  }

  /** (a mod m)(b mod m) mod m = ab mod m. */
  lemma MulMod(a: nat, b: nat, m: nat)
    requires m > 0
    ensures ((a % m) * (b % m)) % m == (a * b) % m
  {
    var qa, ra, qb, rb := a / m, a % m, b / m, b % m;
    assert a * b == ra * b + (qa * b) * m by {
      assert a == qa * m + ra;
      assert a * b == (qa * m + ra) * b;
      assert (qa * m + ra) * b == qa * m * b + ra * b;
      assert qa * m * b == (qa * b) * m;
    }
    ModAddMultiple(ra * b, qa * b, m);
    assert ra * b == ra * rb + (ra * qb) * m by {
      assert b == qb * m + rb;
      assert ra * b == ra * (qb * m + rb);
      assert ra * (qb * m + rb) == ra * (qb * m) + ra * rb;
      assert ra * (qb * m) == (ra * qb) * m;
    }
    ModAddMultiple(ra * rb, ra * qb, m);
  }

  /** Adding a multiple of m does not change a remainder modulo m. */
  lemma ModAddMultiple(x: int, k: int, m: nat)
    requires m > 0
    ensures (x + k * m) % m == x % m
  {
    DivModUnique(x + k * m, m, x / m + k, x % m);
  }

  /** LUI is not sign-extended: the value written is the instruction word with its
      low 12 bits cleared, below 2^32 even when bit 31 is set; `lui ra, 0x80000`
      (0x800000B7) writes 0x8000_0000 (src/decoding.rs:197-217,
      src/emulator.rs:197-199). */
  lemma LuiZeroExtends(raw: u32)
    requires Decode(raw).Some? && Decode(raw).value.Lui?
    ensures LuiValue(Decode(raw).value.imm) == UImm(raw) < TWO_32
  {
    var u := UImm(raw);
    assert Decode(raw).value.imm == Pos(u);
    DivModUnique(u, 0x1000, u / 0x1000, 0);
  }

  lemma LuiOfBit31()
    ensures Decode(0x8000_00B7) == Some(Lui(Ra, Pos(0x8000_0000)))
    ensures LuiValue(Pos(0x8000_0000)) == 0x8000_0000
  {
    assert Opcode(0x8000_00B7) == 0x37;
    assert RdField(0x8000_00B7) == 1;
  }

  // ---------------------------------------------------------------------
  // se_byte, se_half, se_word (src/emulator.rs:522-532)

  /** Sign extension of a byte keeps its 8 bits and copies bit 7 upward. */
  lemma SeByteKeepsLowBits(b: u8)
    ensures AsU64(SeByte(b)) % TWO_8 == b
    ensures SeByte(b) < 0 <==> b >= 0x80
  {
    if b >= 0x80 {
      DivModUnique(TWO_64 + b - 0x100, TWO_8, TWO_64 / TWO_8 - 1, b);
    }
  }

  /** Sign extension of a half word keeps its 16 bits and copies bit 15 upward. */
  lemma SeHalfKeepsLowBits(h: u16)
    ensures AsU64(SeHalf(h)) % TWO_16 == h
    ensures SeHalf(h) < 0 <==> h >= 0x8000
  {
    if h >= 0x8000 {
      DivModUnique(TWO_64 + h - TWO_16, TWO_16, TWO_64 / TWO_16 - 1, h);
    }
  }

  /** Sign extension of a word keeps its 32 bits and copies bit 31 upward. */
  lemma SeWordKeepsLowBits(w: u32)
    ensures AsU64(SeWord(w)) % TWO_32 == w
    ensures SeWord(w) < 0 <==> w >= TWO_31
  {
    if w >= TWO_31 {
      DivModUnique(TWO_64 + w - TWO_32, TWO_32, TWO_64 / TWO_32 - 1, w);
    }
  }
}
