/** The encoder that `decode` inverts: the base formats of section 2.2 and the
    immediate layouts of section 2.3 of the RISC-V Unprivileged ISA (20191213),
    with the opcode/funct3/funct7 values the decoder of src/decoding.rs accepts.
    It is the reference against which the decoder is proved: every
    well-formed instruction survives an encode-decode round trip. */
module Encoding {
  import opened Wrappers
  import opened Words
  import opened Primitives
  import opened Instructions
  import opened Decoding

  // -------------------------------------------------------------------------
  // Which instructions have an encoding

  /** The tag is the sign of the payload, as `Imm::new` makes it. */
  predicate Canonical(imm: Imm)
  {
    imm == ImmNew(ValSigned(imm))
  }

  /** A canonical immediate whose signed value lies in [lo, hi]. */
  predicate SignedIn(imm: Imm, lo: int, hi: int)
  {
    Canonical(imm) && lo <= ValSigned(imm) <= hi
  }

  /** A shift amount as the decoder builds it: `Pos` and below `bound`. */
  predicate ShiftIn(imm: Imm, bound: nat)
  {
    imm.Pos? && imm.bits < bound
  }

  /** The instructions the decoder can produce: valid registers and immediates
      within their format's field. `Sltw` has no encoding in the decoder. */
  predicate Encodable(i: Instr)
  {
    i.RegsValid() &&
    match i
    case Lui(_, imm) => imm.Pos? && imm.bits < TWO_32 && imm.bits % 0x1000 == 0
    case Auipc(_, imm) => imm.Pos? && imm.bits < TWO_32 && imm.bits % 0x1000 == 0
    case Jal(_, imm) => SignedIn(imm, -0x10_0000, 0xF_FFFE) && ValSigned(imm) % 2 == 0
    case Jalr(_, _, imm) => SignedIn(imm, -0x800, 0x7FF)
    case OpImm(op, _, _, imm) =>
      if op.Srliw? || op.Sraiw? then ShiftIn(imm, 32)
      else if op.IsShift() then ShiftIn(imm, 64)
      else SignedIn(imm, -0x800, 0x7FF)
    case Op(op, _, _, _) => op != Sltw
    case Load(_, _, o) => SignedIn(o.imm, -0x800, 0x7FF)
    case Store(_, _, o) => SignedIn(o.imm, -0x800, 0x7FF)
    case Branch(_, _, _, imm) => SignedIn(imm, -0x1000, 0xFFE) && ValSigned(imm) % 2 == 0
    case Ecall => true
  }

  // -------------------------------------------------------------------------
  // Word layouts

  /** The R-type layout; I- and S-type words are R-type words whose rs2/funct7
      (I) or rd/funct7 (S) fields hold the pieces of the immediate. */
  function RWord(opcode: nat, rd: nat, f3: nat, rs1: nat, rs2: nat, f7: nat): (w: u32)
    requires opcode < 0x80 && rd < 32 && f3 < 8 && rs1 < 32 && rs2 < 32 && f7 < 0x80
    ensures Opcode(w) == opcode && RdField(w) == rd && Funct3(w) == f3
    ensures Rs1Field(w) == rs1 && Rs2Field(w) == rs2 && Funct7(w) == f7
  {
    var w := opcode + rd * 0x80 + f3 * 0x1000 + rs1 * 0x8000 + rs2 * 0x10_0000 + f7 * 0x200_0000;
    Field(w, 0x80, 0x20, f3 + rs1 * 8 + rs2 * 0x100 + f7 * 0x2000, rd, opcode);
    Field(w, 0x1000, 8, rs1 + rs2 * 0x20 + f7 * 0x400, f3, opcode + rd * 0x80);
    Field(w, 0x8000, 0x20, rs2 + f7 * 0x20, rs1, opcode + rd * 0x80 + f3 * 0x1000);
    Field(w, 0x10_0000, 0x20, f7, rs2, opcode + rd * 0x80 + f3 * 0x1000 + rs1 * 0x8000);
    Field(w, 0x200_0000, 0x80, 0, f7, opcode + rd * 0x80 + f3 * 0x1000 + rs1 * 0x8000 + rs2 * 0x10_0000);
    w
  }

  /** Reading the field of width `width` at position `p` of a number made of a
      high part, that field and a low part. */
  lemma Field(w: int, p: int, width: int, hi: int, f: int, lo: int)
    requires p > 0 && width > 0 && 0 <= lo < p && 0 <= f < width && hi >= 0
    requires w == (hi * width + f) * p + lo
    ensures w / p == hi * width + f && (w / p) % width == f
  {
    DivModUnique(w, p, hi * width + f, lo);
    DivModUnique(hi * width + f, width, hi, f);
  }

  /** The low twelve bits of a signed immediate. */
  function Imm12(imm: Imm): (u: nat)
    ensures u < 0x1000
  {
    ValSigned(imm) % 0x1000
  }

  /** I-type: imm[11:0] in bits [31:20]. */
  function IWord(opcode: nat, rd: nat, f3: nat, rs1: nat, imm12: nat): (w: u32)
    requires opcode < 0x80 && rd < 32 && f3 < 8 && rs1 < 32 && imm12 < 0x1000
    ensures Opcode(w) == opcode && RdField(w) == rd && Funct3(w) == f3 && Rs1Field(w) == rs1
    ensures w / 0x10_0000 == imm12 && Shamt(w) == imm12 % 0x40
    ensures Funct7(w) == imm12 / 0x20
  {
    var w := RWord(opcode, rd, f3, rs1, imm12 % 0x20, imm12 / 0x20);
    var low := opcode + rd * 0x80 + f3 * 0x1000 + rs1 * 0x8000;
    Field(w, 0x10_0000, 0x1000, 0, imm12, low);
    Field(w, 0x10_0000, 0x40, imm12 / 0x40, imm12 % 0x40, low);
    w
  }

  /** S-type: imm[11:5] in bits [31:25], imm[4:0] in bits [11:7]. */
  function SWord(f3: nat, rs1: nat, rs2: nat, imm12: nat): (w: u32)
    requires f3 < 8 && rs1 < 32 && rs2 < 32 && imm12 < 0x1000
    ensures Opcode(w) == 0x23 && Funct3(w) == f3 && Rs1Field(w) == rs1 && Rs2Field(w) == rs2
    ensures Funct7(w) * 0x20 + RdField(w) == imm12
  {
    RWord(0x23, imm12 % 0x20, f3, rs1, rs2, imm12 / 0x20)
  }

  /** B-type: imm[12|10:5] in bits [31:25] and imm[4:1|11] in bits [11:7] of a
      word whose thirteen-bit offset is u. */
  function BWord(f3: nat, rs1: nat, rs2: nat, u: nat): (w: u32)
    requires f3 < 8 && rs1 < 32 && rs2 < 32 && u < 0x2000
    requires u % 2 == 0
    ensures Opcode(w) == 0x63 && Funct3(w) == f3 && Rs1Field(w) == rs1 && Rs2Field(w) == rs2
    ensures BBits(w) == u
  {
    var b12, b11, b10_5, b4_1 := u / 0x1000, (u / 0x800) % 2, (u / 0x20) % 0x40, (u / 2) % 0x10;
    var w := RWord(0x63, b4_1 * 2 + b11, f3, rs1, rs2, b10_5 + b12 * 0x40);
    var regs := f3 * 0x1000 + rs1 * 0x8000 + rs2 * 0x10_0000;
    Field(w, 0x8000_0000, 2, 0, b12, 0x63 + (b4_1 * 2 + b11) * 0x80 + regs + b10_5 * 0x200_0000);
    Field(w, 0x80, 2, b4_1 + f3 * 0x10 + rs1 * 0x80 + rs2 * 0x1000 + (b10_5 + b12 * 0x40) * 0x2_0000, b11, 0x63);
    Field(w, 0x200_0000, 0x40, b12, b10_5, 0x63 + (b4_1 * 2 + b11) * 0x80 + regs);
    Field(w, 0x100, 0x10, f3 + rs1 * 8 + rs2 * 0x100 + (b10_5 + b12 * 0x40) * 0x2000, b4_1, 0x63 + b11 * 0x80);
    BPieces(u);
    w
  }

  /** U-type: imm[31:12] in bits [31:12]. */
  function UWord(opcode: nat, rd: nat, v: nat): (w: u32)
    requires opcode < 0x80 && rd < 32 && v < TWO_32 && v % 0x1000 == 0
    ensures Opcode(w) == opcode && RdField(w) == rd && UImm(w) == v
  {
    var w := opcode + rd * 0x80 + v;
    Field(w, 0x80, 0x20, v / 0x1000, rd, opcode);
    Field(w, 0x1000, v / 0x1000 + 1, 0, v / 0x1000, opcode + rd * 0x80);
    w
  }

  /** J-type: imm[20|10:1|11|19:12] in bits [31:12] of a word whose
      twenty-one-bit offset is u. */
  function JWord(rd: nat, u: nat): (w: u32)
    requires rd < 32 && u < 0x20_0000 && u % 2 == 0
    ensures Opcode(w) == 0x6f && RdField(w) == rd && JBits(w) == u
  {
    var b20, b19_12, b11, b10_1 := u / 0x10_0000, (u / 0x1000) % 0x100, (u / 0x800) % 2, (u / 2) % 0x400;
    var w := 0x6f + rd * 0x80 + b19_12 * 0x1000 + b11 * 0x10_0000 + b10_1 * 0x20_0000 + b20 * 0x8000_0000;
    var low := 0x6f + rd * 0x80;
    Field(w, 0x80, 0x20, b19_12 + b11 * 0x100 + b10_1 * 0x200 + b20 * 0x8_0000, rd, 0x6f);
    Field(w, 0x8000_0000, 2, 0, b20, low + b19_12 * 0x1000 + b11 * 0x10_0000 + b10_1 * 0x20_0000);
    Field(w, 0x1000, 0x100, b11 + b10_1 * 2 + b20 * 0x800, b19_12, low);
    Field(w, 0x10_0000, 2, b10_1 + b20 * 0x400, b11, low + b19_12 * 0x1000);
    Field(w, 0x20_0000, 0x400, b20, b10_1, low + b19_12 * 0x1000 + b11 * 0x10_0000);
    JPieces(u);
    w
  }

  // -------------------------------------------------------------------------
  // The opcode tables the decoder reads, inverted

  /** (opcode, funct3, funct7) of each R-type operation. */
  function RCode(op: ROp): (c: (nat, nat, nat))
    requires op != Sltw
    ensures c.0 < 0x80 && c.1 < 8 && c.2 < 0x80
    ensures ROpOf(c.0, c.2, c.1) == Some(op)
  {
    match op
    case Add => (0x33, 0, 0)
    case Sll => (0x33, 1, 0)
    case Slt => (0x33, 2, 0)
    case Sltu => (0x33, 3, 0)
    case Xor => (0x33, 4, 0)
    case Srl => (0x33, 5, 0)
    case Or => (0x33, 6, 0)
    case And => (0x33, 7, 0)
    case Sub => (0x33, 0, 0x20)
    case Sra => (0x33, 5, 0x20)
    case Mul => (0x33, 0, 1)
    case Div => (0x33, 4, 1)
    case Rem => (0x33, 6, 1)
    case Addw => (0x3b, 0, 0)
    case Sllw => (0x3b, 1, 0)
    case Srlw => (0x3b, 5, 0)
    case Subw => (0x3b, 0, 0x20)
    case Sraw => (0x3b, 5, 0x20)
    case Mulw => (0x3b, 0, 1)
    case Divw => (0x3b, 4, 1)
    case Remw => (0x3b, 6, 1)
  }

  /** (opcode, funct3, funct7 for a shift amount below 32) of each I-type
      operation; the last is 0 for the non-shifts, whose funct7 bits hold
      immediate bits instead. */
  function ICode(op: IOp): (c: (nat, nat, nat))
    ensures c.0 < 0x80 && c.1 < 8 && (c.2 == 0 || c.2 == 0x20)
    ensures !op.IsShift() ==> c.2 == 0
  {
    match op
    case Addi => (0x13, 0, 0)
    case Slti => (0x13, 2, 0)
    case Sltiu => (0x13, 3, 0)
    case Xori => (0x13, 4, 0)
    case Ori => (0x13, 6, 0)
    case Andi => (0x13, 7, 0)
    case Slli => (0x13, 1, 0)
    case Srli => (0x13, 5, 0)
    case Srai => (0x13, 5, 0x20)
    case Addiw => (0x1b, 0, 0)
    case Slliw => (0x1b, 1, 0)
    case Srliw => (0x1b, 5, 0)
    case Sraiw => (0x1b, 5, 0x20)
  }

  function LoadF3(op: LoadOp): (f3: nat)
    ensures f3 < 8 && LoadOpOf(f3) == Some(op)
  {
    match op
    case Lb => 0
    case Lh => 1
    case Lw => 2
    case Ld => 3
    case Lbu => 4
    case Lhu => 5
    case Lwu => 6
  }

  function StoreF3(op: StoreOp): (f3: nat)
    ensures f3 < 8 && StoreOpOf(f3) == Some(op)
  {
    match op
    case Sb => 0
    case Sh => 1
    case Sw => 2
    case Sd => 3
  }

  function BranchF3(op: BranchOp): (f3: nat)
    ensures f3 < 8 && BranchOpOf(f3) == Some(op)
  {
    match op
    case Beq => 0
    case Bne => 1
    case Blt => 4
    case Bge => 5
    case Bltu => 6
    case Bgeu => 7
  }

  // -------------------------------------------------------------------------
  // Encode

  /** The instruction word of a well-formed instruction. */
  function Encode(i: Instr): (w: u32)
    requires Encodable(i)
    ensures Opcode(w) == 0x73 <==> i.Ecall?
  {
    match i
    case Lui(d, imm) => UWord(0x37, Index(d), imm.bits)
    case Auipc(d, imm) => UWord(0x17, Index(d), imm.bits)
    case Jal(d, imm) =>
      EvenResidue(ValSigned(imm), 0x10_0000);
      JWord(Index(d), ValSigned(imm) % 0x20_0000)
    case Jalr(d, s, imm) => IWord(0x67, Index(d), 0, Index(s), Imm12(imm))
    case OpImm(op, d, s, imm) =>
      var (opcode, f3, f7) := ICode(op);
      IWord(opcode, Index(d), f3, Index(s), if op.IsShift() then f7 * 0x20 + imm.bits else Imm12(imm))
    case Op(op, d, s1, s2) =>
      var (opcode, f3, f7) := RCode(op);
      RWord(opcode, Index(d), f3, Index(s1), Index(s2), f7)
    case Load(op, d, o) => IWord(0x03, Index(d), LoadF3(op), Index(o.base), Imm12(o.imm))
    case Store(op, s, o) => SWord(StoreF3(op), Index(o.base), Index(s), Imm12(o.imm))
    case Branch(op, s1, s2, imm) =>
      EvenResidue(ValSigned(imm), 0x1000);
      BWord(BranchF3(op), Index(s1), Index(s2), ValSigned(imm) % 0x2000)
    case Ecall => 0x73
  }

  // -------------------------------------------------------------------------
  // Immediates survive the round trip

  lemma IImmRoundTrip(w: u32, imm: Imm)
    requires SignedIn(imm, -0x800, 0x7FF) && w / 0x10_0000 == Imm12(imm)
    ensures ImmNew(IImm(w)) == imm
  {
  }

  lemma SImmRoundTrip(w: u32, imm: Imm)
    requires SignedIn(imm, -0x800, 0x7FF) && Funct7(w) * 0x20 + RdField(w) == Imm12(imm)
    ensures ImmNew(SImm(w)) == imm
  {
  }

  /** An even thirteen-bit number is the sum of its B-type pieces. */
  lemma BPieces(u: nat)
    requires u < 0x2000 && u % 2 == 0
    ensures u == (u / 0x1000) * 0x1000 + ((u / 0x800) % 2) * 0x800
               + ((u / 0x20) % 0x40) * 0x20 + ((u / 2) % 0x10) * 2
  {
    DivDiv(u, 0x800, 2);
    DivDiv(u, 0x20, 0x40);
    DivDiv(u, 2, 0x10);
  }

  lemma BImmRoundTrip(w: u32, imm: Imm)
    requires SignedIn(imm, -0x1000, 0xFFE) && BBits(w) == ValSigned(imm) % 0x2000
    ensures ImmNew(BImm(w)) == imm
  {
    SignExtendMod(ValSigned(imm), 0x1000);
  }

  /** An even twenty-one-bit number is the sum of its J-type pieces. */
  lemma JPieces(u: nat)
    requires u < 0x20_0000 && u % 2 == 0
    ensures u == (u / 0x10_0000) * 0x10_0000 + ((u / 0x1000) % 0x100) * 0x1000
               + ((u / 0x800) % 2) * 0x800 + ((u / 2) % 0x400) * 2
  {
    DivDiv(u, 0x1000, 0x100);
    DivDiv(u, 0x800, 2);
    DivDiv(u, 2, 0x400);
  }

  lemma JImmRoundTrip(w: u32, imm: Imm)
    requires SignedIn(imm, -0x10_0000, 0xF_FFFE) && JBits(w) == ValSigned(imm) % 0x20_0000
    ensures ImmNew(JImm(w)) == imm
  {
    SignExtendMod(ValSigned(imm), 0x10_0000);
  }

  /** An even number stays even modulo an even modulus. */
  lemma EvenResidue(s: int, m: int)
    requires m > 0 && s % 2 == 0
    ensures (s % (2 * m)) % 2 == 0
  {
    var q, r := s / (2 * m), s % (2 * m);
    assert s == q * (2 * m) + r;
    assert q * (2 * m) == 2 * (m * q);
    assert s == 2 * (s / 2);
    DivModUnique(r, 2, s / 2 - m * q, 0);
  }

  /** A value in [-m, m) is recovered from its residue modulo 2m by the
      sign-bit test the decoder applies. */
  lemma SignExtendMod(s: int, m: int)
    requires m > 0 && -m <= s < m
    ensures var u := s % (2 * m);
      && ((u / m) % 2 == 1 <==> s < 0)
      && (if (u / m) % 2 == 1 then u - 2 * m else u) == s
  {
    var u := s % (2 * m);
    if s < 0 {
      DivModUnique(s, 2 * m, -1, s + 2 * m);
      DivModUnique(u, m, 1, u - m);
    } else {
      DivModUnique(s, 2 * m, 0, s);
      DivModUnique(u, m, 0, u);
    }
  }

  /** The I-type table returns the operation whatever funct7 holds, except
      that a shift needs its own funct7 with at most bit 0 (shift amount bit 5)
      set, and SRLIW/SRAIW need exactly their funct7. */
  lemma IOpOfICode(op: IOp, f7: nat)
    requires op.IsShift() ==> f7 == ICode(op).2 || (f7 == ICode(op).2 + 1 && !op.Srliw? && !op.Sraiw?)
    ensures IOpOf(ICode(op).0, ICode(op).1, f7) == Some(op)
  {
  }

  /** The R-type table holds exactly the rows `RCode` lists: a triple decodes to an
      operation if and only if it is that operation's code, so every unlisted
      (opcode, funct7, funct3) reaches a `panic!` arm (src/decoding.rs:20-66). */
  lemma ROpOfExactly(opcode: nat, f7: nat, f3: nat, op: ROp)
    ensures ROpOf(opcode, f7, f3) == Some(op) <==> op != Sltw && RCode(op) == (opcode, f3, f7)
  {
  }

  /** The I-type tables hold exactly the rows `ICode` lists: (opcode, funct3) must
      be the operation's, SRLI/SRAI also need `fn7 >> 1` to match, SRLIW/SRAIW
      need the whole funct7, and the others ignore funct7; anything else reaches a
      `panic!` arm (src/decoding.rs:99-127). */
  lemma IOpOfExactly(opcode: nat, f3: nat, f7: nat, op: IOp)
    ensures IOpOf(opcode, f3, f7) == Some(op) <==>
      && opcode == ICode(op).0 && f3 == ICode(op).1
      && ((op.Srli? || op.Srai?) ==> f7 / 2 == ICode(op).2 / 2)
      && ((op.Srliw? || op.Sraiw?) ==> f7 == ICode(op).2)
  {
  }

  // -------------------------------------------------------------------------
  // decode inverts Encode, constructor by constructor

  lemma RoundTripJal(i: Instr)
    requires Encodable(i) && i.Jal?
    ensures Decode(Encode(i)) == Some(i)
  {
    JImmRoundTrip(Encode(i), i.imm);
  }

  lemma RoundTripJalr(i: Instr)
    requires Encodable(i) && i.Jalr?
    ensures Decode(Encode(i)) == Some(i)
  {
    IImmRoundTrip(Encode(i), i.imm);
  }

  /** How `decode` reads an OP-IMM or OP-IMM-32 word. */
  lemma DecodeOpImmWord(w: u32)
    requires Opcode(w) == 0x13 || Opcode(w) == 0x1b
    ensures Decode(w) == match IOpOf(Opcode(w), Funct3(w), Funct7(w))
                         case Some(op) =>
                           Some(OpImm(op, RegNew(RdField(w)).value, RegNew(Rs1Field(w)).value,
                                      if op.IsShift() then Pos(Shamt(w)) else ImmNew(IImm(w))))
                         case None => None
  {
  }

  lemma RoundTripShift(i: Instr)
    requires Encodable(i) && i.OpImm? && i.iop.IsShift()
    ensures Decode(Encode(i)) == Some(i)
  {
    var (opcode, f3, f7) := ICode(i.iop);
    var imm12 := f7 * 0x20 + i.imm.bits;
    var w := IWord(opcode, Index(i.dst), f3, Index(i.src), imm12);
    assert Encode(i) == w;
    var hi := if f7 == 0 then 0 else 0x10;
    assert imm12 == hi * 0x40 + i.imm.bits;
    DivModUnique(imm12, 0x40, hi, i.imm.bits);
    DivModUnique(imm12, 0x20, f7 + i.imm.bits / 0x20, i.imm.bits % 0x20);
    IOpOfICode(i.iop, Funct7(w));
    DecodeOpImmWord(w);
  }

  lemma RoundTripOpImm(i: Instr)
    requires Encodable(i) && i.OpImm? && !i.iop.IsShift()
    ensures Decode(Encode(i)) == Some(i)
  {
    var (opcode, f3, f7) := ICode(i.iop);
    var w := IWord(opcode, Index(i.dst), f3, Index(i.src), Imm12(i.imm));
    assert Encode(i) == w;
    IImmRoundTrip(w, i.imm);
    IOpOfICode(i.iop, Funct7(w));
    DecodeOpImmWord(w);
  }

  lemma RoundTripOp(i: Instr)
    requires Encodable(i) && i.Op?
    ensures Decode(Encode(i)) == Some(i)
  {
  }

  lemma RoundTripLoad(i: Instr)
    requires Encodable(i) && i.Load?
    ensures Decode(Encode(i)) == Some(i)
  {
    IImmRoundTrip(Encode(i), i.offset.imm);
  }

  lemma RoundTripStore(i: Instr)
    requires Encodable(i) && i.Store?
    ensures Decode(Encode(i)) == Some(i)
  {
    SImmRoundTrip(Encode(i), i.offset.imm);
  }

  lemma RoundTripBranch(i: Instr)
    requires Encodable(i) && i.Branch?
    ensures Decode(Encode(i)) == Some(i)
  {
    BImmRoundTrip(Encode(i), i.imm);
  }

  /** Every instruction the decoder can produce is decoded back from its encoding. */
  lemma DecodeEncode(i: Instr)
    requires Encodable(i)
    ensures Decode(Encode(i)) == Some(i)
  {
    match i
    case Lui(_, _) =>
    case Auipc(_, _) =>
    case Jal(_, _) => RoundTripJal(i);
    case Jalr(_, _, _) => RoundTripJalr(i);
    case OpImm(op, _, _, _) =>
      if op.IsShift() {
        RoundTripShift(i);
      } else {
        RoundTripOpImm(i);
      }
    case Op(_, _, _, _) => RoundTripOp(i);
    case Load(_, _, _) => RoundTripLoad(i);
    case Store(_, _, _) => RoundTripStore(i);
    case Branch(_, _, _, _) => RoundTripBranch(i);
    case Ecall =>
  }

  /** Bit 25 is bit 5 of the shift amount and bit 0 of funct7: with funct7
      even the shift amount is below 32. */
  lemma ShamtBelow32(raw: u32)
    requires Funct7(raw) % 2 == 0
    ensures Shamt(raw) < 32
  {
    var t := raw / 0x10_0000;
    DivDiv(raw, 0x10_0000, 0x20);
    DivModUnique(t, 0x40, t / 0x40, t % 0x40);
    DivDiv(t, 0x20, 2);
  }

  lemma OpImmWellFormed(raw: u32)
    requires Opcode(raw) == 0x13 || Opcode(raw) == 0x1b
    requires Decode(raw).Some?
    ensures Encodable(Decode(raw).value)
  {
    DecodeOpImmWord(raw);
    if Opcode(raw) == 0x1b && Funct3(raw) == 5 {
      ShamtBelow32(raw);
    }
  }

  /** Everything the decoder produces is well-formed: this is the range of
      `decode`, and Encode is defined on all of it. */
  lemma DecodeWellFormed(raw: u32)
    requires Decode(raw).Some?
    ensures Encodable(Decode(raw).value)
  {
    if Opcode(raw) == 0x13 || Opcode(raw) == 0x1b {
      OpImmWellFormed(raw);
    }
  }
}
