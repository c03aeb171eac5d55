/** `decode` of src/decoding.rs: a 32-bit instruction word to an `Instr`, following
    the base formats of section 2.2 and the immediate variants of section 2.3 of
    the RISC-V Unprivileged ISA (20191213), plus the RV64I W-instructions of
    chapter 5 and the M extension of chapter 7, with this decoder's departures.
    `None` is a `panic!`. Shifts and masks are written as division and remainder
    by powers of two: `(raw >> k) & (2^n - 1)` is `(raw / 2^k) % 2^n`. */
module Decoding {
  import opened Wrappers
  import opened Words
  import opened Primitives
  import opened Instructions

  // -------------------------------------------------------------------------
  // Fields (src/decoding.rs:5, 9-13, 71-73, 77-78, 134-135, 166-167)

  /** `raw & 0b1111111`: selects the format. */
  function Opcode(raw: u32): (r: nat)
    ensures r < 0x80
  {
    raw % 0x80
  }

  /** `(raw >> 7) & 0b11111`: bits [11:7]. */
  function RdField(raw: u32): (r: u32)
    ensures r < 32
  {
    (raw / 0x80) % 0x20
  }

  /** `(raw >> 12) & 0b111`: bits [14:12]. */
  function Funct3(raw: u32): (r: nat)
    ensures r < 8
  {
    (raw / 0x1000) % 8
  }

  /** `(raw >> 15) & 0b11111`: bits [19:15]. */
  function Rs1Field(raw: u32): (r: u32)
    ensures r < 32
  {
    (raw / 0x8000) % 0x20
  }

  /** `(raw >> 20) & 0b11111`: bits [24:20]. */
  function Rs2Field(raw: u32): (r: u32)
    ensures r < 32
  {
    (raw / 0x10_0000) % 0x20
  }

  /** `raw >> 25`: bits [31:25]. */
  function Funct7(raw: u32): (r: nat)
    ensures r < 0x80
  {
    raw / 0x200_0000
  }

  /** `(raw >> 20) & 0x3f`: the 6-bit RV64I shift amount, bits [25:20]. */
  function Shamt(raw: u32): (r: nat)
    ensures r < 0x40
  {
    (raw / 0x10_0000) % 0x40
  }

  // -------------------------------------------------------------------------
  // Immediates

  /** I-type: `((raw as i32) >> 20) as i64`, bits [31:20] sign-extended (src/decoding.rs:74). */
  function IImm(raw: u32): (v: i64)
    ensures -0x800 <= v < 0x800
    ensures var hi := raw / 0x10_0000; v == if hi >= 0x800 then hi - 0x1000 else hi
  {
    AsI32(raw) / 0x10_0000
  }

  /** S-type: {bits[31:25], bits[11:7]} shifted up to bit 63 and arithmetically
      back down, i.e. sign-extended from bit 11 (src/decoding.rs:137-147). */
  function SImm(raw: u32): (v: i64)
    ensures -0x800 <= v < 0x800
    ensures var lo := Funct7(raw) * 0x20 + RdField(raw);
            v == if lo >= 0x800 then lo - 0x1000 else lo
  {
    var imm12 := ((raw / 0x200_0000) % 0x80) * 0x20 + (raw / 0x80) % 0x20;
    AsI64(AsU64(imm12 * 0x10_0000_0000_0000)) / 0x10_0000_0000_0000
  }

  /** B-type: imm[12|10:5] from bits [31:25] and imm[4:1|11] from bits [11:7]
      (src/decoding.rs:169-174). */
  function BBits(raw: u32): (imm: nat)
    ensures imm < 0x2000 && imm % 2 == 0
  {
    ((raw / 0x8000_0000) % 2) * 0x1000
    + ((raw / 0x80) % 2) * 0x800
    + ((raw / 0x200_0000) % 0x40) * 0x20
    + ((raw / 0x100) % 0x10) * 2
  }

  /** The B-type offset: the `| 0xFFFFFFFFFFFFE000` on a value below 0x2000
      with bit 12 set subtracts 0x2000 (src/decoding.rs:176-180). */
  function BImm(raw: u32): (v: i64)
    ensures -0x1000 <= v <= 0xFFE && v % 2 == 0
  {
    var imm := BBits(raw);
    TopBit(imm, 0x1000);
    if (imm / 0x1000) % 2 == 1 then imm - 0x2000 else imm
  }

  /** J-type: imm[20|10:1|11|19:12] from bits [31:12] (src/decoding.rs:222-227). */
  function JBits(raw: u32): (imm: nat)
    ensures imm < 0x20_0000 && imm % 2 == 0
  {
    ((raw / 0x8000_0000) % 2) * 0x10_0000
    + ((raw / 0x1000) % 0x100) * 0x1000
    + ((raw / 0x10_0000) % 2) * 0x800
    + ((raw / 0x20_0000) % 0x400) * 2
  }

  /** The J-type offset: the `| 0xFFFFFFFFFFF00000` subtracts 0x200000
      (src/decoding.rs:229-233). */
  function JImm(raw: u32): (v: i64)
    ensures -0x10_0000 <= v <= 0xF_FFFE && v % 2 == 0
  {
    var imm := JBits(raw);
    TopBit(imm, 0x10_0000);
    if (imm / 0x10_0000) % 2 == 1 then imm - 0x20_0000 else imm
  }

  /** U-type: `(raw >> 12) << 12`, raw with its low 12 bits cleared. Bit 11 of
      that value is always clear, so the `imm & 0x800` test of the source never
      fires and the immediate is always `Pos`, zero-extended: no sign extension
      to 64 bits (src/decoding.rs:200-206). */
  function UImm(raw: u32): (v: u32)
    ensures v % 0x1000 == 0 && v <= raw < v + 0x1000
    ensures (v / 0x800) % 2 == 0
  {
    (raw / 0x1000) * 0x1000
  }

  // -------------------------------------------------------------------------
  // decode (src/decoding.rs:4-245)

  /** The twelve major opcodes `decode` has an arm for; any other opcode reaches
      `panic!("invalid opcode")` (src/decoding.rs:242). */
  predicate KnownOpcode(opcode: nat)
  {
    opcode in {0x33, 0x3b, 0x03, 0x67, 0x13, 0x1b, 0x23, 0x63, 0x37, 0x17, 0x6f, 0x73}
  }

  function Decode(raw: u32): (r: Option<Instr>)
    ensures !KnownOpcode(Opcode(raw)) ==> r == None
    ensures Opcode(raw) == 0x73 ==> r == Some(Ecall)
    ensures r.Some? ==> r.value.RegsValid()
  {
    var opcode := Opcode(raw);
    var rd := RegNew(RdField(raw)).value;
    var rs1 := RegNew(Rs1Field(raw)).value;
    var rs2 := RegNew(Rs2Field(raw)).value;
    var f3 := Funct3(raw);
    if opcode == 0x33 || opcode == 0x3b then
      // R-type (src/decoding.rs:7-67)
      match ROpOf(opcode, Funct7(raw), f3)
      case Some(op) => Some(Op(op, rd, rs1, rs2))
      case None => None
    else if opcode == 0x03 || opcode == 0x67 || opcode == 0x13 || opcode == 0x1b then
      // I-type (src/decoding.rs:69-130)
      var imm := ImmNew(IImm(raw));
      if opcode == 0x03 then
        match LoadOpOf(f3)
        case Some(op) => Some(Load(op, rd, Offset(rs1, imm)))
        case None => None
      else if opcode == 0x67 then
        if f3 == 0 then Some(Jalr(rd, rs1, imm)) else None
      else
        match IOpOf(opcode, f3, Funct7(raw))
        case Some(op) => Some(OpImm(op, rd, rs1, if op.IsShift() then Pos(Shamt(raw)) else imm))
        case None => None
    else if opcode == 0x23 then
      // S-type (src/decoding.rs:132-162)
      match StoreOpOf(f3)
      case Some(op) => Some(Store(op, rs2, Offset(rs1, ImmNew(SImm(raw)))))
      case None => None
    else if opcode == 0x63 then
      // B-type (src/decoding.rs:164-196)
      match BranchOpOf(f3)
      case Some(op) => Some(Branch(op, rs1, rs2, ImmNew(BImm(raw))))
      case None => None
    else if opcode == 0x37 then Some(Lui(rd, Pos(UImm(raw))))
    else if opcode == 0x17 then Some(Auipc(rd, Pos(UImm(raw))))
    else if opcode == 0x6f then Some(Jal(rd, ImmNew(JImm(raw))))
    else if opcode == 0x73 then Some(Ecall)
    else None
  }

  /** `decode` panics exactly when the opcode has no arm or the arm's table has no
      row for the word's funct3 (and funct7): the `val => panic!` arms of
      src/decoding.rs:20-196 and the opcode fallback at line 242. */
  lemma DecodeFailsExactly(raw: u32)
    ensures Decode(raw) == None <==>
      var opcode, f3, f7 := Opcode(raw), Funct3(raw), Funct7(raw);
      || !KnownOpcode(opcode)
      || ((opcode == 0x33 || opcode == 0x3b) && ROpOf(opcode, f7, f3) == None)
      || (opcode == 0x03 && LoadOpOf(f3) == None)
      || (opcode == 0x67 && f3 != 0)
      || ((opcode == 0x13 || opcode == 0x1b) && IOpOf(opcode, f3, f7) == None)
      || (opcode == 0x23 && StoreOpOf(f3) == None)
      || (opcode == 0x63 && BranchOpOf(f3) == None)
  {
  }

  /** The R-type table: OP (0x33) or OP-32 (0x3b), then funct7, then funct3
      (src/decoding.rs:14-66). OP-32 has no SLT, so `Sltw` is never decoded. */
  function ROpOf(opcode: nat, f7: nat, f3: nat): (r: Option<ROp>)
    ensures r.Some? ==> (opcode == 0x33 || opcode == 0x3b) && (f7 == 0 || f7 == 0x20 || f7 == 1)
    ensures r != Some(Sltw)
  {
    if opcode == 0x33 then
      if f7 == 0 then
        if f3 == 0 then Some(Add)
        else if f3 == 1 then Some(Sll)
        else if f3 == 2 then Some(Slt)
        else if f3 == 3 then Some(Sltu)
        else if f3 == 4 then Some(Xor)
        else if f3 == 5 then Some(Srl)
        else if f3 == 6 then Some(Or)
        else if f3 == 7 then Some(And)
        else None
      else if f7 == 0x20 then
        if f3 == 0 then Some(Sub)
        else if f3 == 5 then Some(Sra)
        else None
      else if f7 == 1 then
        if f3 == 0 then Some(Mul)
        else if f3 == 4 then Some(Div)
        else if f3 == 6 then Some(Rem)
        else None
      else None
    else if opcode == 0x3b then
      if f7 == 0 then
        if f3 == 0 then Some(Addw)
        else if f3 == 1 then Some(Sllw)
        else if f3 == 5 then Some(Srlw)
        else None
      else if f7 == 0x20 then
        if f3 == 0 then Some(Subw)
        else if f3 == 5 then Some(Sraw)
        else None
      else if f7 == 1 then
        if f3 == 0 then Some(Mulw)
        else if f3 == 4 then Some(Divw)
        else if f3 == 6 then Some(Remw)
        else None
      else None
    else None
  }

  /** The LOAD table by funct3 (src/decoding.rs:88-96); 0b111 is rejected. */
  function LoadOpOf(f3: nat): (r: Option<LoadOp>)
    ensures r.Some? <==> f3 < 7
  {
    if f3 == 0 then Some(Lb)
    else if f3 == 1 then Some(Lh)
    else if f3 == 2 then Some(Lw)
    else if f3 == 3 then Some(Ld)
    else if f3 == 4 then Some(Lbu)
    else if f3 == 5 then Some(Lhu)
    else if f3 == 6 then Some(Lwu)
    else None
  }

  /** The OP-IMM (0x13) and OP-IMM-32 (0x1b) tables by funct3; SRLI/SRAI are told
      apart by `fn7 >> 1`, SRLIW/SRAIW by the whole funct7, and SLLI/SLLIW do not
      look at funct7 (src/decoding.rs:97-109, 114-123). */
  function IOpOf(opcode: nat, f3: nat, f7: nat): (r: Option<IOp>)
    ensures r.Some? ==> opcode == 0x13 || opcode == 0x1b
  {
    if opcode == 0x13 then
      if f3 == 0 then Some(Addi)
      else if f3 == 2 then Some(Slti)
      else if f3 == 3 then Some(Sltiu)
      else if f3 == 4 then Some(Xori)
      else if f3 == 6 then Some(Ori)
      else if f3 == 7 then Some(Andi)
      else if f3 == 1 then Some(Slli)
      else if f3 == 5 then
        if f7 / 2 == 0 then Some(Srli)
        else if f7 / 2 == 0x10 then Some(Srai)
        else None
      else None
    else if opcode == 0x1b then
      if f3 == 0 then Some(Addiw)
      else if f3 == 1 then Some(Slliw)
      else if f3 == 5 then
        if f7 == 0 then Some(Srliw)
        else if f7 == 0x20 then Some(Sraiw)
        else None
      else None
    else None
  }

  /** The STORE table by funct3 (src/decoding.rs:150-156). */
  function StoreOpOf(f3: nat): (r: Option<StoreOp>)
    ensures r.Some? <==> f3 < 4
  {
    if f3 == 0 then Some(Sb)
    else if f3 == 1 then Some(Sh)
    else if f3 == 2 then Some(Sw)
    else if f3 == 3 then Some(Sd)
    else None
  }

  /** The BRANCH table by funct3 (src/decoding.rs:184-191); 0b010 and 0b011 are
      rejected. */
  function BranchOpOf(f3: nat): (r: Option<BranchOp>)
    ensures r.Some? <==> f3 < 8 && f3 != 2 && f3 != 3
  {
    if f3 == 0 then Some(Beq)
    else if f3 == 1 then Some(Bne)
    else if f3 == 4 then Some(Blt)
    else if f3 == 5 then Some(Bge)
    else if f3 == 6 then Some(Bltu)
    else if f3 == 7 then Some(Bgeu)
    else None
  }
}
