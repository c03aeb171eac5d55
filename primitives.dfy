/** Registers, immediates and the register file index of src/primitives.rs. */
module Primitives {
  import opened Wrappers
  import opened Words

  /** ABI register names; T, S and A carry the number in their ABI name
      (the Rust payload is a `usize`, here a `nat`). */
  datatype Reg = Zero | Ra | Sp | Gp | Tp | T(t: nat) | S(s: nat) | A(a: nat)

  /** An immediate whose tag records the sign of the value it was built from;
      both tags hold the value's 64-bit two's complement pattern. */
  datatype Imm = Pos(bits: u64) | Neg(bits: u64)

  /** A base register plus an immediate displacement (a load or store address). */
  datatype Offset = Offset(base: Reg, imm: Imm)

  /** `Reg::new`: the ABI name of register x`reg`; `None` is the panic for reg >= 32. */
  function RegNew(reg: u32): (r: Option<Reg>)
    ensures r.Some? <==> reg < 32
    ensures r.Some? ==> RegIndex(r.value) == Some(reg as nat)
  {
    match reg
    case 0 => Some(Zero)
    case 1 => Some(Ra)
    case 2 => Some(Sp)
    case 3 => Some(Gp)
    case 4 => Some(Tp)
    case 5 => Some(T(0))
    case 6 => Some(T(1))
    case 7 => Some(T(2))
    case 8 => Some(S(0))
    case 9 => Some(S(1))
    case 10 => Some(A(0))
    case 11 => Some(A(1))
    case 12 => Some(A(2))
    case 13 => Some(A(3))
    case 14 => Some(A(4))
    case 15 => Some(A(5))
    case 16 => Some(A(6))
    case 17 => Some(A(7))
    case 18 => Some(S(2))
    case 19 => Some(S(3))
    case 20 => Some(S(4))
    case 21 => Some(S(5))
    case 22 => Some(S(6))
    case 23 => Some(S(7))
    case 24 => Some(S(8))
    case 25 => Some(S(9))
    case 26 => Some(S(10))
    case 27 => Some(S(11))
    case 28 => Some(T(3))
    case 29 => Some(T(4))
    case 30 => Some(T(5))
    case 31 => Some(T(6))
    case _ => None
  }

  /** `Reg::reg_index`: the register number; `None` is the panic on a T, S or A
      payload outside the ABI (T above 6, S above 11, A above 7). */
  function RegIndex(r: Reg): (i: Option<nat>)
    ensures i.Some? ==> i.value < 32
  {
    match r
    case Zero => Some(0)
    case Ra => Some(1)
    case Sp => Some(2)
    case Gp => Some(3)
    case Tp => Some(4)
    case T(k) =>
      if k <= 2 then Some(5 + k)
      else if k <= 6 then Some(25 + k)
      else None
    case S(k) =>
      if k <= 1 then Some(8 + k)
      else if k <= 11 then Some(16 + k)
      else None
    case A(k) =>
      if k <= 7 then Some(10 + k)
      else None
  }

  /** A register the register file can be indexed with. */
  predicate ValidReg(r: Reg)
  {
    RegIndex(r).Some?
  }

  /** The number of a well-formed register. */
  function Index(r: Reg): (i: nat)
    requires ValidReg(r)
    ensures i < 32 && RegNew(i as u32) == Some(r)
  {
    RegIndexRoundTrip(r);
    RegIndex(r).value
  }

  /** `Reg::new` undoes `reg_index` on every well-formed register. */
  lemma RegIndexRoundTrip(r: Reg)
    requires ValidReg(r)
    ensures RegNew(RegIndex(r).value as u32) == Some(r)
  {
  }

  /** `reg_index` is defined exactly on the ABI payload ranges. */
  lemma RegIndexDefined(r: Reg)
    ensures ValidReg(r) <==> match r
                             case T(k) => k <= 6
                             case S(k) => k <= 11
                             case A(k) => k <= 7
                             case _ => true
  {
  }

  /** The argument registers a0..a7 are x10..x17; the temporaries t0..t2 are x5..x7. */
  lemma AbiNumbering(k: nat)
    ensures k < 8 ==> RegIndex(A(k)) == Some(10 + k)
    ensures k < 3 ==> RegIndex(T(k)) == Some(5 + k)
  {
  }

  /** Two register numbers with the same ABI name are the same number. */
  lemma RegNewInjective(i: u32, j: u32)
    requires i < 32 && j < 32 && RegNew(i) == RegNew(j)
    ensures i == j
  {
    assert RegIndex(RegNew(i).value) == Some(i as nat);
    assert RegIndex(RegNew(j).value) == Some(j as nat);
  }

  /** `Imm::new`: the tag records the sign, the payload is `imm as u64`. */
  function ImmNew(imm: i64): (r: Imm)
    ensures r.Neg? <==> imm < 0
    ensures ValSigned(r) == imm
    ensures Val(r) == AsU64(imm)
  {
    if imm < 0 then Neg(AsU64(imm)) else Pos(AsU64(imm))
  }

  /** `Imm::val`: the payload, whatever the tag. */
  function Val(i: Imm): u64
  {
    i.bits
  }

  /** `Imm::val_signed`: the payload read as i64, whatever the tag. */
  function ValSigned(i: Imm): (v: i64)
    ensures AsU64(v) == Val(i)
  {
    AsI64(i.bits)
  }

  /** Neither accessor looks at the tag. */
  lemma AccessorsIgnoreTag(x: u64)
    ensures Val(Pos(x)) == Val(Neg(x)) && ValSigned(Pos(x)) == ValSigned(Neg(x))
  {
  }

  /** `impl Index<Reg> for [u64; 32]`: the element at the register's number. */
  function RegsIndex(regs: seq<u64>, r: Reg): (v: Option<u64>)
    requires |regs| == 32
    ensures v.Some? <==> ValidReg(r)
  {
    match RegIndex(r)
    case Some(i) => Some(regs[i])
    case None => None
  }

  /** `impl IndexMut<Reg> for [u64; 32]` followed by an assignment. */
  function RegsUpdate(regs: seq<u64>, r: Reg, v: u64): (s: Option<seq<u64>>)
    requires |regs| == 32
    ensures s.Some? <==> ValidReg(r)
  {
    match RegIndex(r)
    case Some(i) => Some(regs[i := v])
    case None => None
  }

  /** Indexing by `Reg::new(i)` is indexing by i. */
  lemma IndexByRegNew(regs: seq<u64>, i: u32)
    requires |regs| == 32 && i < 32
    ensures RegsIndex(regs, RegNew(i).value) == Some(regs[i])
  {
  }

  /** An update through a register changes that register's element and no other,
      and reading it back gives the value written. */
  lemma UpdateThenIndex(regs: seq<u64>, r: Reg, q: Reg, v: u64)
    requires |regs| == 32 && ValidReg(r) && ValidReg(q)
    ensures RegsIndex(RegsUpdate(regs, r, v).value, q)
         == if Index(q) == Index(r) then Some(v) else RegsIndex(regs, q)
  {
  }
}
