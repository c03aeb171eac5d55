/** The state of the emulator of src/emulator.rs as a value, and what each of its
    operations does to that value. A Rust panic is a `Panic` result; the class in
    emulator.dfy runs the same operations in place and is proved to agree with
    these functions. Arithmetic the Rust writes with plain `+` or `*` wraps, as in
    a release build. */
module Machine {
  import opened Wrappers
  import opened Words
  import opened Primitives
  import opened Instructions
  import opened Decoding

  const CONSOLE_OFFSET: u64 := 0x4
  const HEAP_OFFSET: u64 := 0x8
  const NULL: u64 := 0x0
  const EXIT: u64 := 0x1
  const DRAM_OFFSET: u64 := 0x4000_0000
  /** `u32::MAX`: the user address space is 0 .. 2^32 - 1 (exclusive). */
  const USER_MEMORY_SIZE: nat := TWO_32 - 1
  const STACK_OFFSET: u64 := USER_MEMORY_SIZE

  /** The fields of `struct Emulator`. */
  datatype State = State(
    regs: seq<u64>,
    memory: seq<u8>,
    pc: u64,
    exiting: bool,
    exitCode: i32,
    console: seq<u8>)
  {
    /** The register file has 32 entries and memory spans the user address space. */
    predicate Valid() { |regs| == 32 && |memory| == USER_MEMORY_SIZE }
  }

  /** `Emulator::default()`. */
  function Default(): (s: State)
    ensures s.Valid() && s.pc == 0 && !s.exiting && s.exitCode == 0 && s.console == []
    ensures forall k :: 0 <= k < 32 ==> s.regs[k] == 0
    ensures forall a :: 0 <= a < USER_MEMORY_SIZE ==> s.memory[a] == 0
  {
    State(seq(32, _ => 0), seq(USER_MEMORY_SIZE, _ => 0), 0, false, 0, [])
  }

  // ---------------------------------------------------------------------
  // Memory (src/emulator.rs:87-118)

  /** `memory(offset, len)`: the bytes [offset, offset + len), or the "SEGFAULT" panic. */
  function Window(mem: seq<u8>, offset: u32, len: nat): (r: Result<seq<u8>>)
    requires |mem| == USER_MEMORY_SIZE
    ensures r.Ok? <==> offset + len <= USER_MEMORY_SIZE
    ensures r.Ok? ==> |r.value| == len && forall k :: 0 <= k < len ==> r.value[k] == mem[offset + k]
  {
    if offset + len <= USER_MEMORY_SIZE then Ok(mem[offset..offset + len]) else Panic("SEGFAULT")
  }

  /** `mem` with the bytes from `start` on overwritten by `bs`; what a write through
      `memory_mut(start, |bs|)` leaves behind. */
  function Splice(mem: seq<u8>, start: nat, bs: seq<u8>): (r: seq<u8>)
    requires start + |bs| <= |mem|
    ensures |r| == |mem|
    ensures forall k :: 0 <= k < |mem| ==> r[k] == if start <= k < start + |bs| then bs[k - start] else mem[k]
  {
    mem[..start] + bs + mem[start + |bs|..]
  }

  // ---------------------------------------------------------------------
  // Registers and pc (src/emulator.rs:134-156)

  /** `reg(r)`. */
  function RegValue(s: State, r: Reg): u64
    requires s.Valid() && ValidReg(r)
  {
    s.regs[Index(r)]
  }

  /** `set(r, v)`. */
  function WithReg(s: State, r: Reg, v: u64): (t: State)
    requires s.Valid() && ValidReg(r)
    ensures t.Valid() && RegValue(t, r) == v
    ensures t == s.(regs := t.regs)
    ensures forall k :: 0 <= k < 32 && k != Index(r) ==> t.regs[k] == s.regs[k]
  {
    s.(regs := s.regs[Index(r) := v])
  }

  /** `add_pc(offset)`: pc plus the immediate's bits, wrapping. */
  function WithPcAdded(s: State, offset: Imm): (t: State)
    ensures t == s.(pc := t.pc)
    ensures t.pc == (s.pc + Val(offset)) % TWO_64
  {
    s.(pc := AsU64(s.pc + Val(offset)))
  }

  // ---------------------------------------------------------------------
  // Loads and stores (src/emulator.rs:154-190)

  /** The address `reg(base).wrapping_add(imm.val())`. */
  function EffectiveAddress(s: State, offset: Offset): u64
    requires s.Valid() && ValidReg(offset.base)
  {
    AsU64(RegValue(s, offset.base) + Val(offset.imm))
  }

  /** `load(offset, bytes)`: the little-endian value of `bytes` bytes at the effective
      address (taken modulo 2^32), with the null trap and the exit address noted first. */
  function Loaded(s: State, offset: Offset, bytes: nat): (r: Result<(State, u64)>)
    requires s.Valid() && ValidReg(offset.base) && bytes <= 8
    ensures r.Ok? <==> AsU32(EffectiveAddress(s, offset)) + bytes <= USER_MEMORY_SIZE
    ensures r.Ok? ==> r.value.0.Valid() && r.value.1 < Pow256(bytes)
    ensures r.Ok? ==> r.value.0 == s.(exiting := r.value.0.exiting, exitCode := r.value.0.exitCode)
  {
    var addr := EffectiveAddress(s, offset);
    var s1 :=
      if addr == NULL then s.(exiting := true, exitCode := 139)
      else if addr == EXIT then s.(exiting := true, exitCode := 0)
      else s;
    match Window(s.memory, AsU32(addr), bytes)
    case Panic(e) => Panic(e)
    case Ok(bs) =>
      Pow256AtMost8(bytes);
      Ok((s1, LittleEndian(bs)))
  }

  lemma Pow256AtMost8(k: nat)
    requires k <= 8
    ensures Pow256(k) <= TWO_64
    decreases 8 - k
  {
    if k < 8 {
      Pow256AtMost8(k + 1);
    }
  }

  /** `store(offset, bytes, val)`: writes byte i of val at the effective address plus i;
      a store to CONSOLE_OFFSET then appends the byte now at that address to the console. */
  function Stored(s: State, offset: Offset, bytes: nat, val: u64): (r: Result<State>)
    requires s.Valid() && ValidReg(offset.base)
    ensures r.Ok? <==> AsU32(EffectiveAddress(s, offset)) + bytes <= USER_MEMORY_SIZE
    ensures r.Ok? ==> r.value.Valid()
    ensures r.Ok? ==> r.value == s.(memory := r.value.memory, console := r.value.console)
  {
    var addr := EffectiveAddress(s, offset);
    var start := AsU32(addr);
    if start + bytes > USER_MEMORY_SIZE then Panic("segfault")
    else
      var mem := Splice(s.memory, start, ToBytes(val, bytes));
      Ok(s.(memory := mem, console := if addr == CONSOLE_OFFSET then s.console + [mem[start]] else s.console))
  }

  // ---------------------------------------------------------------------
  // Values computed by execute (src/emulator.rs:196-342, 461-502)

  /** `((imm.val_signed() as i64) >> 12) << 12`, stored by `set_signed`. */
  function LuiValue(imm: Imm): u64
  {
    AsU64((ValSigned(imm) / 0x1000) * 0x1000)
  }

  /** `self.pc as i64 + (((imm.val_signed() as i64) >> 12) << 12)`. */
  function AuipcValue(pc: u64, imm: Imm): u64
  {
    AsU64(AsI64(pc) + (ValSigned(imm) / 0x1000) * 0x1000)
  }

  /** The value an OP-IMM or OP-IMM-32 instruction writes, given `reg(src)`. */
  function OpImmValue(op: IOp, a: u64, imm: Imm): u64
  {
    match op
    case Addi => AsU64(AsI64(a) + ValSigned(imm))
    case Addiw => AsU64(AsI32(AsU64(a + Val(imm))))
    case Slti => if AsI64(a) < ValSigned(imm) then 1 else 0
    case Sltiu => if a < Val(imm) then 1 else 0
    case Xori => Xor64(a, Val(imm))
    case Ori => Or64(a, Val(imm))
    case Andi => And64(a, Val(imm))
    case Slli => Shl64(a, ValSigned(imm) % 32)
    case Srli => AsU64(Sar(AsI64(a), Val(imm) % 32))
    case Srai => AsU64(Sar(AsI64(a), ValSigned(imm) % 32))
    case Slliw => AsU64(AsI32(Shl32(AsU32(a), Val(imm) % 32)))
    case Srliw => AsU64(AsI32(Shr(AsU32(a), Val(imm) % 32)))
    case Sraiw => AsU64(Sar(AsI32(a), Val(imm) % 32))
  }

  /** The value an OP or OP-32 instruction writes, given `reg(src1)` and `reg(src2)`;
      a division or remainder by zero is Rust's panic. */
  function OpValue(op: ROp, a: u64, b: u64): (r: Result<u64>)
    ensures r.Panic? <==> (op in {Div, Rem} && AsU32(b) == 0) || (op in {Divw, Remw} && b == 0)
  {
    match op
    case Add => Ok(AsU64(AsI64(a) + AsI64(b)))
    case Addw => Ok(AsU64(AsI32(AsU64(a + b))))
    case Sub => Ok(AsU64(AsI64(a) - AsI64(b)))
    case Subw => Ok(AsU64(AsI32(AsI64(a) - AsI64(b))))
    case Sll => Ok(Shl64(a, b % 32))
    case Sllw => Ok(AsU64(AsI32(Shl64(a, b % 32))))
    case Slt => Ok(if AsI64(a) < AsI64(b) then 1 else 0)
    case Sltw => Ok(if AsI64(a) < AsI64(b) then 1 else 0)
    case Sltu => Ok(if a < b then 1 else 0)
    case Xor => Ok(Xor64(a, b))
    case Srl => Ok(Shr(a, b % 32))
    case Srlw => Ok(AsU64(AsI32(Shr(a, b % 32))))
    case Sra => Ok(AsU64(Sar(AsI64(a), AsI64(b) % 32)))
    case Sraw => Ok(AsU64(AsI32(Sar(AsI64(a), AsI64(b) % 32))))
    case Or => Ok(Or64(a, b))
    case And => Ok(And64(a, b))
    case Mul => Ok(AsU32(AsU32(a) * AsU32(b)))
    case Div => Quotient(AsU32(a), AsU32(b))
    case Rem => Remainder(AsU32(a), AsU32(b))
    case Mulw => Ok(AsU64(a * b))
    case Divw => Quotient(a, b)
    case Remw => Remainder(a, b)
  }

  /** Rust's unsigned `a / b`, which panics when b is 0. */
  function Quotient(a: u64, b: u64): (r: Result<u64>)
    ensures r.Panic? <==> b == 0
    ensures r.Ok? ==> r.value * b <= a < (r.value + 1) * b
  {
    if b == 0 then Panic("attempt to divide by zero")
    else
      DivBounds(a, b);
      Ok(a / b)
  }

  /** Rust's unsigned `a % b`, which panics when b is 0. */
  function Remainder(a: u64, b: u64): (r: Result<u64>)
    ensures r.Panic? <==> b == 0
    ensures r.Ok? ==> r.value < b && a == Quotient(a, b).value * b + r.value
  {
    if b == 0 then Panic("attempt to calculate the remainder with a divisor of zero")
    else
      var m: u64 := a % b;
      Ok(m)
  }

  const TWO_56: int := 0x100_0000_0000_0000
  const TWO_48: int := 0x1_0000_0000_0000

  /** `se_byte`: `((byte as i64) << 56) >> 56`. */
  function SeByte(b: u8): (r: i64)
    ensures r == if b < 0x80 then b else b - 0x100
  {
    AsI64(AsU64(b * TWO_56)) / TWO_56
  }

  /** `se_half`: `((byte as i64) << 48) >> 48`. */
  function SeHalf(h: u16): (r: i64)
    ensures r == if h < 0x8000 then h else h - 0x1_0000
  {
    AsI64(AsU64(h * TWO_48)) / TWO_48
  }

  /** `se_word`: `((byte as i64) << 32) >> 32`. */
  function SeWord(w: u32): (r: i64)
    ensures r == if w < TWO_31 then w else w - TWO_32
  {
    AsI64(AsU64(w * TWO_32)) / TWO_32
  }

  /** How many bytes a load reads. */
  function LoadWidth(op: LoadOp): nat
  {
    match op
    case Lb => 1 case Lbu => 1
    case Lh => 2 case Lhu => 2
    case Lw => 4 case Lwu => 4
    case Ld => 8
  }

  /** The register value a load writes for the loaded value v. */
  function LoadResult(op: LoadOp, v: u64): u64
  {
    match op
    case Lb => AsU64(SeByte(v % TWO_8))
    case Lh => AsU64(SeHalf(v % TWO_16))
    case Lw => AsU64(SeWord(AsU32(v)))
    case _ => v
  }

  /** How many bytes a store writes. */
  function StoreWidth(op: StoreOp): nat
  {
    match op
    case Sb => 1
    case Sh => 2
    case Sw => 4
    case Sd => 8
  }

  /** Whether a branch is taken, given `reg(src1)` and `reg(src2)`. */
  function BranchTaken(op: BranchOp, a: u64, b: u64): bool
  {
    match op
    case Beq => a == b
    case Bne => a != b
    case Blt => AsI64(a) < AsI64(b)
    case Bge => AsI64(a) >= AsI64(b)
    case Bltu => a < b
    case Bgeu => a >= b
  }

  // ---------------------------------------------------------------------
  // Control transfer and system calls (src/emulator.rs:379-459)

  /** `Jal`: rd gets pc + 4, then pc becomes `(pc as u32).wrapping_add(offset as u32)`. */
  function Jumped(s: State, dst: Reg, offset: Imm): (t: State)
    requires s.Valid() && ValidReg(dst)
    ensures t.Valid()
  {
    var s1 := WithReg(s, dst, AsU64(s.pc + 4));
    s1.(pc := AsU32(AsU32(s.pc) + AsU32(Val(offset))))
  }

  /** The even word `((reg(src) as u32 + offset as u32) >> 1) << 1` of a `Jalr`. */
  function JalrBase(r: u64, offset: Imm): (ra: u32)
  {
    (AsU32(AsU32(r) + AsU32(Val(offset))) / 2) * 2
  }

  /** `Jalr`: rd gets pc + 4 first (so the source register is read after that write);
      a zero base means "returned from main" and exits with the low 32 bits of a0;
      otherwise pc becomes the base plus the offset once more, modulo 2^32. */
  function JumpedReg(s: State, dst: Reg, src: Reg, offset: Imm): (t: State)
    requires s.Valid() && ValidReg(dst) && ValidReg(src)
    ensures t.Valid()
  {
    var s1 := WithReg(s, dst, AsU64(s.pc + 4));
    var ra := JalrBase(RegValue(s1, src), offset);
    if ra == 0 then s1.(exiting := true, exitCode := AsI32(RegValue(s1, A(0))))
    else s1.(pc := AsU32(ra + AsU32(Val(offset))))
  }

  /** A conditional branch: pc plus the offset when taken, plus 4 otherwise. */
  function Branched(s: State, op: BranchOp, src1: Reg, src2: Reg, offset: Imm): (t: State)
    requires s.Valid() && ValidReg(src1) && ValidReg(src2)
    ensures t.Valid()
  {
    if BranchTaken(op, RegValue(s, src1), RegValue(s, src2)) then WithPcAdded(s, offset)
    else WithPcAdded(s, ImmNew(4))
  }

  /** `Ecall`: a7 = 93 exits with the low 32 bits of a0; a7 = 64 with a0 = 1 appends
      memory[a1 as u32 .. + a2] to the console; a7 = 64 with another a0 is the
      `unimplemented!` panic; any other a7 only prints a diagnostic. */
  function Syscalled(s: State): (r: Result<State>)
    requires s.Valid()
    ensures r.Ok? ==> r.value.Valid()
  {
    var syscall := RegValue(s, A(7));
    if syscall == 93 then Ok(s.(exiting := true, exitCode := AsI32(AsI64(RegValue(s, A(0))))))
    else if syscall == 64 then
      if RegValue(s, A(0)) == 1 then
        match Window(s.memory, AsU32(RegValue(s, A(1))), RegValue(s, A(2)))
        case Ok(bs) => Ok(s.(console := s.console + bs))
        case Panic(e) => Panic(e)
      else Panic("not implemented")
    else Ok(s)
  }

  // ---------------------------------------------------------------------
  // execute, step, run_for, flash_prgm (src/emulator.rs:42-82, 120-132, 192-519)

  /** The `match instr` of `execute`, on a state whose x0 was just cleared. */
  function Dispatched(s: State, i: Instr): (r: Result<State>)
    requires s.Valid() && i.RegsValid()
    ensures r.Ok? ==> r.value.Valid()
  {
    match i
    case Lui(d, imm) => Ok(WithReg(s, d, LuiValue(imm)))
    case Auipc(d, imm) => Ok(WithReg(s, d, AuipcValue(s.pc, imm)))
    case OpImm(op, d, src, imm) => Ok(WithReg(s, d, OpImmValue(op, RegValue(s, src), imm)))
    case Op(op, d, src1, src2) =>
      (match OpValue(op, RegValue(s, src1), RegValue(s, src2))
       case Ok(v) => Ok(WithReg(s, d, v))
       case Panic(e) => Panic(e))
    case Load(op, d, offset) =>
      (match Loaded(s, offset, LoadWidth(op))
       case Ok((s1, v)) => Ok(WithReg(s1, d, LoadResult(op, v)))
       case Panic(e) => Panic(e))
    case Store(op, src, offset) => Stored(s, offset, StoreWidth(op), RegValue(s, src))
    case Jal(d, imm) => Ok(Jumped(s, d, imm))
    case Jalr(d, src, imm) => Ok(JumpedReg(s, d, src, imm))
    case Branch(op, src1, src2, imm) => Ok(Branched(s, op, src1, src2, imm))
    case Ecall => Syscalled(s)
  }

  /** pc + 4 after every instruction that does not set pc itself. */
  function Sequenced(s: State, i: Instr): (t: State)
  {
    if i.IsControlTransfer() then s else WithPcAdded(s, ImmNew(4))
  }

  /** `execute(instr)`: clear x0, run the instruction, advance pc, clear x0 again.
      A register outside the ABI is the panic of `reg_index`. */
  function Executed(s: State, i: Instr): (r: Result<State>)
    requires s.Valid()
    ensures r.Ok? ==> r.value.Valid() && r.value.regs[0] == 0
  {
    if !i.RegsValid() then Panic("reg_index")
    else
      match Dispatched(WithReg(s, Zero, 0), i)
      case Ok(s1) => Ok(WithReg(Sequenced(s1, i), Zero, 0))
      case Panic(e) => Panic(e)
  }

  /** `step(raw)`: false and no change once exiting; otherwise decode (an unknown
      encoding panics) and execute, and true. */
  function Stepped(s: State, raw: u32): (r: Result<(State, bool)>)
    requires s.Valid()
    ensures r.Ok? ==> r.value.0.Valid()
  {
    if s.exiting then Ok((s, false))
    else
      match Decode(raw)
      case None => Panic("unknown instruction")
      case Some(i) =>
        match Executed(s, i)
        case Ok(t) => Ok((t, true))
        case Panic(e) => Panic(e)
  }

  /** `read_pc()`: a 4-byte load from `Offset(Zero, Pos(pc))`. */
  function PcFetched(s: State): (r: Result<(State, u64)>)
    requires s.Valid()
    ensures r.Ok? ==> r.value.0.Valid() && r.value.1 < TWO_32
  {
    Loaded(s, Offset(Zero, Pos(s.pc)), 4)
  }

  /** `run_for(n)`: the final state and how many instructions were stepped. Each
      round fetches first (so the fetch's traps apply even when n is 0), then stops
      at 0 iterations or when `step` returns false. The round is split over three
      mutually recursive functions so that unfolding one does not unfold the
      decoder. */
  function RanFor(s: State, n: nat): (r: Result<(State, nat)>)
    requires s.Valid()
    ensures r.Ok? ==> r.value.0.Valid() && PcFetched(s).Ok?
    decreases n, 2
  {
    var f := PcFetched(s);
    if f.Panic? then Panic(f.reason)
    else if n == 0 then Ok((f.value.0, 0))
    else SteppedThenRan(f.value.0, f.value.1, n)
  }

  /** A round of `run_for` after the fetch: step the fetched word. */
  function SteppedThenRan(s1: State, raw: u64, n: nat): (r: Result<(State, nat)>)
    requires s1.Valid() && n > 0
    ensures r.Ok? ==> r.value.0.Valid()
    decreases n, 1
  {
    Continued(Stepped(s1, AsU32(raw)), n)
  }

  /** A round of `run_for` after the step: stop when `step` returned false, go on
      with n - 1 rounds otherwise. */
  function Continued(t: Result<(State, bool)>, n: nat): (r: Result<(State, nat)>)
    requires n > 0 && (t.Ok? ==> t.value.0.Valid())
    ensures r.Ok? ==> r.value.0.Valid()
    decreases n, 0
  {
    if t.Panic? then Panic(t.reason)
    else if !t.value.1 then Ok((t.value.0, 0))
    else
      var rest := RanFor(t.value.0, n - 1);
      if rest.Panic? then Panic(rest.reason)
      else Ok((rest.value.0, rest.value.1 + 1))
  }

  /** The fetch of a round of `run_for`: with n = 0 the round ends there, otherwise
      the fetched word is stepped. */
  lemma RanForFetched(s: State, n: nat, s1: State, raw: u64)
    requires s.Valid()
    requires PcFetched(s).Ok? && PcFetched(s).value.0 == s1 && PcFetched(s).value.1 == raw
    ensures s1.Valid()
    ensures n == 0 ==> RanFor(s, n) == Ok((s1, 0))
    ensures n > 0 ==> RanFor(s, n) == Continued(Stepped(s1, AsU32(raw)), n)
  {
    if n > 0 {
      assert RanFor(s, n) == SteppedThenRan(s1, raw, n);
    }
  }

  /** A round whose step returned false ends the run with the stepped state. */
  lemma ContinuedStops(t: Result<(State, bool)>, n: nat)
    requires n > 0 && t.Ok? && t.value.0.Valid() && !t.value.1
    ensures Continued(t, n) == Ok((t.value.0, 0))
  {
  }

  /** A round whose step returned true goes on with `run_for(n - 1)` from the
      stepped state, and counts one more instruction. */
  lemma ContinuedGoesOn(t: Result<(State, bool)>, n: nat, m: nat)
    requires n == m + 1 && t.Ok? && t.value.0.Valid() && t.value.1 && Continued(t, n).Ok?
    ensures RanFor(t.value.0, m).Ok?
    ensures Continued(t, n).value.0 == RanFor(t.value.0, m).value.0
    ensures Continued(t, n).value.1 == RanFor(t.value.0, m).value.1 + 1
  {
  }

  /** `flash_prgm(prgm, offset)`: copy the program to memory at offset, pc := offset;
      a program that does not fit is the "segfault" panic of `memory_mut`. */
  function Flashed(s: State, prgm: seq<u8>, offset: u32): (r: Result<State>)
    requires s.Valid()
    ensures r.Ok? <==> offset + |prgm| <= USER_MEMORY_SIZE
    ensures r.Ok? ==> r.value.Valid()
  {
    if offset + |prgm| <= USER_MEMORY_SIZE then Ok(s.(memory := Splice(s.memory, offset, prgm), pc := offset))
    else Panic("segfault")
  }
}
