/** `struct Emulator` of src/emulator.rs with its fields updated in place. Every
    method is proved to leave the abstract state `State()` where the matching
    function of module Machine says; a method is only called where that function
    does not panic, since a panic ends the emulator. */
module Emulator {
  import opened Wrappers
  import opened Words
  import opened Primitives
  import opened Instructions
  import opened Decoding
  import opened Machine

  class Emulator {
    /** `regs: [u64; 32]`. */
    const regs: array<u64>
    /** `memory: Vec<u8>`, fixed at USER_MEMORY_SIZE bytes. */
    const memory: array<u8>
    var pc: u64
    var exiting: bool
    var exitCode: i32
    var console: seq<u8>

    predicate Valid()
    {
      regs.Length == 32 && memory.Length == USER_MEMORY_SIZE
    }

    /** The emulator as a value of Machine.State. */
    function State(): (s: Machine.State)
      reads this, regs, memory
      requires Valid()
      ensures s.Valid()
    {
      Machine.State(regs[..], memory[..], pc, exiting, exitCode, console)
    }

    /** `Emulator::default()`. */
    constructor ()
      ensures Valid() && fresh(regs) && fresh(memory)
      ensures State() == Default()
    {
      regs := new u64[32](_ => 0);
      memory := new u8[USER_MEMORY_SIZE](_ => 0);
      pc := 0;
      exiting := false;
      exitCode := 0;
      console := [];
      new;
      assert regs[..] == Default().regs;
      assert memory[..] == Default().memory;
    }

    /** `memory(offset, len)`: a copy of the bytes, or the "SEGFAULT" panic. */
    method Memory(offset: u32, len: nat) returns (r: Result<seq<u8>>)
      requires Valid()
      ensures r == Window(memory[..], offset, len)
    {
      var start := offset;
      var end := offset + len;
      if end <= USER_MEMORY_SIZE {
        r := Ok(memory[start..end]);
      } else {
        r := Panic("SEGFAULT");
      }
    }

    /** `memory_mut(offset, len)`: the start in `memory` of the writable slice
        [offset, offset + len), or the "segfault" panic. */
    method MemoryMut(offset: u32, len: nat) returns (r: Result<nat>)
      requires Valid()
      ensures r.Ok? <==> offset + len <= USER_MEMORY_SIZE
      ensures r.Ok? ==> r.value == offset && r.value + len <= memory.Length
    {
      var start := offset;
      var end := offset + len;
      if end <= USER_MEMORY_SIZE {
        r := Ok(start);
      } else {
        r := Panic("segfault");
      }
    }

    method Set(reg: Reg, val: u64)
      requires Valid() && ValidReg(reg)
      modifies regs
      ensures State() == WithReg(old(State()), reg, val)
    {
      regs[Index(reg)] := val;
    }

    method SetSigned(reg: Reg, val: i64)
      requires Valid() && ValidReg(reg)
      modifies regs
      ensures State() == WithReg(old(State()), reg, AsU64(val))
    {
      regs[Index(reg)] := AsU64(val);
    }

    method Reg(reg: Reg) returns (v: u64)
      requires Valid() && ValidReg(reg)
      ensures RegsIndex(regs[..], reg) == Some(v)
      ensures v == RegValue(State(), reg)
    {
      v := regs[Index(reg)];
    }

    method RegSigned(reg: Reg) returns (v: i64)
      requires Valid() && ValidReg(reg)
      ensures AsU64(v) == RegValue(State(), reg)
    {
      v := AsI64(regs[Index(reg)]);
    }

    method AddPc(offset: Imm)
      requires Valid()
      modifies this
      ensures State() == WithPcAdded(old(State()), offset)
    {
      pc := AsU64(pc + Val(offset));
    }

    method ReadPc() returns (v: u64)
      requires Valid() && PcFetched(State()).Ok?
      modifies this
      ensures State() == PcFetched(old(State())).value.0
      ensures v == PcFetched(old(State())).value.1
    {
      v := Load(Offset(Zero, Pos(pc)), 4);
    }

    /** `load(offset, bytes)`: sums byte i << 8i over the window (the shift cannot
        overflow since at most 8 bytes are read). */
    method Load(offset: Offset, bytes: nat) returns (v: u64)
      requires Valid() && ValidReg(offset.base) && bytes <= 8
      requires Loaded(State(), offset, bytes).Ok?
      modifies this
      ensures State() == Loaded(old(State()), offset, bytes).value.0
      ensures v == Loaded(old(State()), offset, bytes).value.1
    {
      var base := Reg(offset.base);
      var addr := AsU64(base + Val(offset.imm));
      assert addr == EffectiveAddress(State(), offset);
      if addr == NULL {
        exiting := true;
        exitCode := 139;
      } else if addr == EXIT {
        exiting := true;
        exitCode := 0;
      }
      var window := Memory(AsU32(addr), bytes);
      var bs := window.value;
      var acc: nat := 0;
      var i := 0;
      while i < |bs|
        modifies {}
        invariant 0 <= i <= |bs|
        invariant acc == LittleEndian(bs[..i])
      {
        LittleEndianPrefix(bs, i);
        acc := acc + bs[i] * Pow256(i);
        i := i + 1;
      }
      assert bs[..i] == bs;
      Pow256AtMost8(bytes);
      v := acc;
    }

    /** `store(offset, bytes, val)`: byte i of the window gets `(val >> 8i) as u8`. */
    method Store(offset: Offset, bytes: nat, val: u64)
      requires Valid() && ValidReg(offset.base)
      requires Stored(State(), offset, bytes, val).Ok?
      modifies this, memory
      ensures State() == Stored(old(State()), offset, bytes, val).value
    {
      var base := Reg(offset.base);
      var addr := AsU64(base + Val(offset.imm));
      var slice := MemoryMut(AsU32(addr), bytes);
      var start := slice.value;
      var i := 0;
      while i < bytes
        modifies memory
        invariant 0 <= i <= bytes
        invariant forall k :: 0 <= k < memory.Length ==>
          memory[k] == if start <= k < start + i then ByteAt(val, k - start) else old(memory[k])
      {
        memory[start + i] := ByteAt(val, i);
        i := i + 1;
      }
      assert memory[..] == Splice(old(memory[..]), start, ToBytes(val, bytes));
      if addr == CONSOLE_OFFSET {
        var b := Memory(AsU32(addr), 1);
        console := console + [b.value[0]];
      }
    }

    /** `execute(instr)`: clears x0, runs the arm for the instruction, advances pc
        unless the instruction is a branch or jump, and clears x0 again. */
    method Execute(instr: Instr)
      requires Valid() && Executed(State(), instr).Ok?
      modifies this, regs, memory
      ensures State() == Executed(old(State()), instr).value
    {
      Set(Zero, 0);
      match instr {
        case Lui(_, _) => ExecAlu(instr);
        case Auipc(_, _) => ExecAlu(instr);
        case OpImm(_, _, _, _) => ExecAlu(instr);
        case Op(_, _, _, _) => ExecAlu(instr);
        case Load(_, _, _) => ExecLoad(instr);
        case Store(_, _, _) => ExecStore(instr);
        case Jal(_, _) => ExecJal(instr);
        case Jalr(_, _, _) => ExecJalr(instr);
        case Branch(_, _, _, _) => ExecBranch(instr);
        case Ecall => ExecEcall(instr);
      }
      if !instr.IsControlTransfer() {
        AddPc(ImmNew(4));
      }
      Set(Zero, 0);
    }

    /** The arms of `execute` that compute a value into `dst`: Lui, Auipc and the
        register-immediate and register-register arithmetic. Each value is the
        function of module Machine that names it. */
    method ExecAlu(instr: Instr)
      requires Valid() && instr.RegsValid() && Dispatched(State(), instr).Ok?
      requires instr.Lui? || instr.Auipc? || instr.OpImm? || instr.Op?
      modifies regs
      ensures State() == Dispatched(old(State()), instr).value
    {
      match instr {
        case Lui(d, imm) =>
          Set(d, LuiValue(imm));
        case Auipc(d, imm) =>
          Set(d, AuipcValue(pc, imm));
        case OpImm(op, d, src, imm) =>
          var a := Reg(src);
          Set(d, OpImmValue(op, a, imm));
        case Op(op, d, src1, src2) =>
          var a := Reg(src1);
          var b := Reg(src2);
          var v := OpValue(op, a, b);
          Set(d, v.value);
      }
    }

    /** The load arms: Lb, Lh, Lw sign-extend; Ld, Lbu, Lhu, Lwu do not. */
    method ExecLoad(instr: Instr)
      requires Valid() && instr.Load? && instr.RegsValid() && Dispatched(State(), instr).Ok?
      modifies this, regs
      ensures State() == Dispatched(old(State()), instr).value
    {
      var v := Load(instr.offset, LoadWidth(instr.lop));
      Set(instr.dst, LoadResult(instr.lop, v));
    }

    /** The store arms Sb, Sh, Sw, Sd. */
    method ExecStore(instr: Instr)
      requires Valid() && instr.Store? && instr.RegsValid() && Dispatched(State(), instr).Ok?
      modifies this, memory
      ensures State() == Dispatched(old(State()), instr).value
    {
      var v := Reg(instr.src);
      Store(instr.offset, StoreWidth(instr.sop), v);
    }

    /** The `Jal` arm. */
    method ExecJal(instr: Instr)
      requires Valid() && instr.Jal? && instr.RegsValid()
      modifies this, regs
      ensures State() == Dispatched(old(State()), instr).value
    {
      Set(instr.dst, AsU64(pc + 4));
      pc := AsU32(AsU32(pc) + AsU32(Val(instr.imm)));
    }

    /** The `Jalr` arm. */
    method ExecJalr(instr: Instr)
      requires Valid() && instr.Jalr? && instr.RegsValid()
      modifies this, regs
      ensures State() == Dispatched(old(State()), instr).value
    {
      ghost var s := State();
      Set(instr.dst, AsU64(pc + 4));
      ghost var s1 := State();
      assert s1 == WithReg(s, instr.dst, AsU64(s.pc + 4));
      var r := Reg(instr.src);
      var ra := JalrBase(r, instr.imm);
      assert ra == JalrBase(RegValue(s1, instr.src), instr.imm);
      if ra == 0 {
        exiting := true;
        var a0 := Reg(A(0));
        exitCode := AsI32(a0);
      } else {
        pc := AsU32(ra + AsU32(Val(instr.imm)));
      }
    }

    /** The six branch arms. */
    method ExecBranch(instr: Instr)
      requires Valid() && instr.Branch? && instr.RegsValid()
      modifies this
      ensures State() == Dispatched(old(State()), instr).value
    {
      var a := Reg(instr.src1);
      var b := Reg(instr.src2);
      if BranchTaken(instr.bop, a, b) {
        AddPc(instr.imm);
      } else {
        AddPc(ImmNew(4));
      }
    }

    /** The `Ecall` arm: exit (93) and write to fd 1 (64). */
    method ExecEcall(instr: Instr)
      requires Valid() && instr.Ecall? && Dispatched(State(), instr).Ok?
      modifies this
      ensures State() == Dispatched(old(State()), instr).value
    {
      var syscall := Reg(A(7));
      if syscall == 93 {
        exiting := true;
        var a0 := RegSigned(A(0));
        exitCode := AsI32(a0);
      } else if syscall == 64 {
        var fd := Reg(A(0));
        if fd == 1 {
          var bufAddr := Reg(A(1));
          var bufLen := Reg(A(2));
          var bytes := Memory(AsU32(bufAddr), bufLen);
          console := console + bytes.value;
        }
      }
    }

    /** `step(raw_instr)`. */
    method Step(raw: u32) returns (cont: bool)
      requires Valid() && Stepped(State(), raw).Ok?
      modifies this, regs, memory
      ensures State() == Stepped(old(State()), raw).value.0
      ensures cont == Stepped(old(State()), raw).value.1
    {
      if exiting {
        return false;
      }
      var instr := Decode(raw).value;
      Execute(instr);
      cont := true;
    }

    /** `run_for(iterations)`. */
    method RunFor(n: nat)
      requires Valid() && RanFor(State(), n).Ok?
      modifies this, regs, memory
      ensures State() == RanFor(old(State()), n).value.0
    {
      ghost var target := RanFor(State(), n).value.0;
      var iterations := n;
      while true
        invariant Valid() && RanFor(State(), iterations).Ok?
        invariant RanFor(State(), iterations).value.0 == target
        decreases iterations
      {
        ghost var s := State();
        var raw := ReadPc();
        ghost var s1 := State();
        RanForFetched(s, iterations, s1, raw);
        if iterations == 0 {
          return;
        }
        ghost var t := Stepped(s1, AsU32(raw));
        var cont := Step(AsU32(raw));
        if !cont {
          ContinuedStops(t, iterations);
          return;
        }
        var rest := iterations - 1;
        ContinuedGoesOn(t, iterations, rest);
        iterations := rest;
      }
    }

    /** `flash_prgm(prgm, offset)`. */
    method FlashPrgm(prgm: seq<u8>, offset: u32)
      requires Valid() && Flashed(State(), prgm, offset).Ok?
      modifies this, memory
      ensures State() == Flashed(old(State()), prgm, offset).value
    {
      var slice := MemoryMut(offset, |prgm|);
      var start := slice.value;
      var i := 0;
      while i < |prgm|
        modifies memory
        invariant 0 <= i <= |prgm|
        invariant forall k :: 0 <= k < memory.Length ==>
          memory[k] == if start <= k < start + i then prgm[k - start] else old(memory[k])
      {
        memory[start + i] := prgm[i];
        i := i + 1;
      }
      assert memory[..] == Splice(old(memory[..]), start, prgm);
      pc := offset;
    }
  }
}
