/** The instruction enum. Its own source file (`instruction_set`) is not part of
    this model; the type is rebuilt from the variants that src/decoding.rs builds
    and src/emulator.rs executes. The Rust enum is flat; here the variants that
    share an operand shape are grouped under one constructor with an operation
    tag, so `Instr::Add(rd, rs1, rs2)` is `Op(Add, rd, rs1, rs2)` and
    `Instr::Lw(rd, Offset(rs1, imm))` is `Load(Lw, rd, Offset(rs1, imm))`.
    Operand order is the Rust one. */
module Instructions {
  import opened Primitives

  /** Register-register operations (R-type, opcodes OP and OP-32). */
  datatype ROp =
    | Add | Sub | Sll | Slt | Sltu | Xor | Srl | Sra | Or | And
    | Mul | Div | Rem
    | Addw | Subw | Sllw | Srlw | Sraw | Sltw | Mulw | Divw | Remw

  /** Register-immediate operations (I-type, opcodes OP-IMM and OP-IMM-32). */
  datatype IOp =
    | Addi | Slti | Sltiu | Xori | Ori | Andi | Slli | Srli | Srai
    | Addiw | Slliw | Srliw | Sraiw
  {
    /** The shifts, whose immediate is the shift amount. */
    predicate IsShift() { Slli? || Srli? || Srai? || Slliw? || Srliw? || Sraiw? }
  }

  datatype LoadOp = Lb | Lh | Lw | Ld | Lbu | Lhu | Lwu

  datatype StoreOp = Sb | Sh | Sw | Sd

  datatype BranchOp = Beq | Bne | Blt | Bge | Bltu | Bgeu

  datatype Instr =
    | Lui(dst: Reg, imm: Imm)
    | Auipc(dst: Reg, imm: Imm)
    | Jal(dst: Reg, imm: Imm)
    | Jalr(dst: Reg, src: Reg, imm: Imm)
    | OpImm(iop: IOp, dst: Reg, src: Reg, imm: Imm)
    | Op(rop: ROp, dst: Reg, src1: Reg, src2: Reg)
    | Load(lop: LoadOp, dst: Reg, offset: Offset)
    | Store(sop: StoreOp, src: Reg, offset: Offset)
    | Branch(bop: BranchOp, src1: Reg, src2: Reg, imm: Imm)
    | Ecall
  {
    /** The instructions that set pc themselves instead of falling through by 4
        (src/emulator.rs:504-516). */
    predicate IsControlTransfer() { Branch? || Jal? || Jalr? }

    /** Every register operand is one `reg_index` accepts. */
    predicate RegsValid() {
      match this
      case Lui(d, _) => ValidReg(d)
      case Auipc(d, _) => ValidReg(d)
      case Jal(d, _) => ValidReg(d)
      case Jalr(d, s, _) => ValidReg(d) && ValidReg(s)
      case OpImm(_, d, s, _) => ValidReg(d) && ValidReg(s)
      case Op(_, d, s1, s2) => ValidReg(d) && ValidReg(s1) && ValidReg(s2)
      case Load(_, d, o) => ValidReg(d) && ValidReg(o.base)
      case Store(_, s, o) => ValidReg(s) && ValidReg(o.base)
      case Branch(_, s1, s2, _) => ValidReg(s1) && ValidReg(s2)
      case Ecall => true
    }
  }
}
