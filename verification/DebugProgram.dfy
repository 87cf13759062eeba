/** Abstract commands compiled to short instruction sequences (riscv/debug_module.cc, riscv/opcodes.h), and
    what a hart does when it executes them. Section 3.6 of RISC-V External Debug Support, version 0.13.2. */
module DebugProgram {
  import opened Wrappers

  const W64 := 0x1_0000_0000_0000_0000
  const W32 := 0x1_0000_0000
  const ZERO := 0
  const S0 := 8
  const FFLAGS := 0x001
  const FRM := 0x002
  const FCSR := 0x003
  const MSTATUS := 0x300
  const DSCRATCH0 := 0x7b2
  const DSCRATCH1 := 0x7b3
  const MSTATUS_FS := 0x6000
  const DATA_START := 0x380
  const ABSTRACT_SIZE := 12

  // ----- instructions and their words

  /** The instructions that an abstract command uses. Loads and stores are relative to register zero. */
  datatype Instr =
    | Csrrw(rd: nat, rs: nat, csr: nat)
    | Csrrs(rd: nat, rs: nat, csr: nat)
    | Lui(rd: nat, imm: nat)
    | Load(width: nat, rd: nat, offset: nat)
    | Store(width: nat, rs: nat, offset: nat)
    | Fload(width: nat, rd: nat, offset: nat)
    | Fstore(width: nat, rs: nat, offset: nat)
    | Jal(offset: nat)
    | Ebreak

  predicate InstrOk(i: Instr) {
    match i
    case Csrrw(rd, rs, csr) => rd < 32 && rs < 32 && csr < 0x1000
    case Csrrs(rd, rs, csr) => rd < 32 && rs < 32 && csr < 0x1000
    case Lui(rd, imm) => rd < 32 && imm < 0x100000
    case Load(w, rd, o) => 2 <= w <= 3 && rd < 32 && o < 0x1000
    case Store(w, rs, o) => 2 <= w <= 3 && rs < 32 && o < 0x1000
    case Fload(w, rd, o) => 2 <= w <= 3 && rd < 32 && o < 0x1000
    case Fstore(w, rs, o) => 2 <= w <= 3 && rs < 32 && o < 0x1000
    case Jal(o) => o < 0x100000 && o % 2 == 0
    case Ebreak => true
  }

  /** A word from its fields: they do not overlap, so their union is their sum. */
  function Fields(imm: nat, rs1: nat, f3: nat, rd: nat, op: nat): (w: nat) {
    imm * 0x100000 + rs1 * 0x8000 + f3 * 0x1000 + rd * 0x80 + op
  }

  lemma FieldsOf(imm: nat, rs1: nat, f3: nat, rd: nat, op: nat)
    requires imm < 0x1000 && rs1 < 32 && f3 < 8 && rd < 32 && op < 0x80
    ensures var w := Fields(imm, rs1, f3, rd, op);
            && w < W32
            && w % 0x80 == op && w / 0x80 % 32 == rd && w / 0x1000 % 8 == f3 && w / 0x8000 % 32 == rs1 && w / 0x100000 == imm
  {
    var w := Fields(imm, rs1, f3, rd, op);
    var a := imm * 32 + rs1;
    var b := a * 8 + f3;
    var c := b * 32 + rd;
    assert w == c * 0x80 + op;
    assert w / 0x80 == c && w % 0x80 == op;
    assert c / 32 == b && c % 32 == rd;
    assert w == b * 0x1000 + (rd * 0x80 + op);
    assert w / 0x1000 == b && b % 8 == f3 && b / 8 == a;
    assert w == a * 0x8000 + (f3 * 0x1000 + rd * 0x80 + op);
    assert w / 0x8000 == a && a % 32 == rs1 && a / 32 == imm;
    assert w == imm * 0x100000 + (rs1 * 0x8000 + f3 * 0x1000 + rd * 0x80 + op);
  }

  /** The words of riscv/opcodes.h. */
  function Encode(i: Instr): (w: nat)
    requires InstrOk(i)
  {
    match i
    case Csrrw(rd, rs, csr) => Fields(csr, rs, 1, rd, 0x73)
    case Csrrs(rd, rs, csr) => Fields(csr, rs, 2, rd, 0x73)
    case Lui(rd, imm) => Fields(imm / 0x100, imm / 8 % 32, imm % 8, rd, 0x37)
    case Load(w, rd, o) => Fields(o, 0, w, rd, 0x03)
    case Store(w, rs, o) => Fields(o / 32 * 32 + rs, 0, w, o % 32, 0x23)
    case Fload(w, rd, o) => Fields(o, 0, w, rd, 0x07)
    case Fstore(w, rs, o) => Fields(o / 32 * 32 + rs, 0, w, o % 32, 0x27)
    case Jal(o) => Fields(o / 2 % 0x400 * 2 + o / 0x800 % 2, o / 0x8000, o / 0x1000 % 8, 0, 0x6f)
    case Ebreak => Fields(1, 0, 0, 0, 0x73)
  }

  /** How a hart reads a word. */
  function Decode(w: nat): (i: Option<Instr>) {
    var op, rd, f3, rs1, imm := w % 0x80, w / 0x80 % 32, w / 0x1000 % 8, w / 0x8000 % 32, w / 0x100000;
    if op == 0x73 && f3 == 1 then Some(Csrrw(rd, rs1, imm))
    else if op == 0x73 && f3 == 2 then Some(Csrrs(rd, rs1, imm))
    else if op == 0x73 && f3 == 0 && imm == 1 && rs1 == 0 && rd == 0 then Some(Ebreak)
    else if op == 0x37 then Some(Lui(rd, imm * 0x100 + rs1 * 8 + f3))
    else if op == 0x03 && 2 <= f3 <= 3 && rs1 == 0 then Some(Load(f3, rd, imm))
    else if op == 0x07 && 2 <= f3 <= 3 && rs1 == 0 then Some(Fload(f3, rd, imm))
    else if op == 0x23 && 2 <= f3 <= 3 && rs1 == 0 then Some(Store(f3, imm % 32, imm / 32 * 32 + rd))
    else if op == 0x27 && 2 <= f3 <= 3 && rs1 == 0 then Some(Fstore(f3, imm % 32, imm / 32 * 32 + rd))
    else if op == 0x6f && rd == 0 && imm < 0x800 then Some(Jal(imm / 2 * 2 + imm % 2 * 0x800 + (rs1 * 8 + f3) * 0x1000))
    else None
  }

  lemma LuiBits(imm: nat)
    requires imm < 0x100000
    ensures imm / 0x100 < 0x1000 && imm / 0x100 * 0x100 + imm / 8 % 32 * 8 + imm % 8 == imm
  {
  }

  lemma StoreBits(o: nat, rs: nat)
    requires o < 0x1000 && rs < 32
    ensures var imm := o / 32 * 32 + rs; imm < 0x1000 && imm % 32 == rs && imm / 32 * 32 + o % 32 == o
  {
  }

  lemma JalBits(o: nat)
    requires o < 0x100000 && o % 2 == 0
    ensures var imm := o / 2 % 0x400 * 2 + o / 0x800 % 2;
            imm < 0x800 && o / 0x8000 < 32 && imm / 2 * 2 + imm % 2 * 0x800 + (o / 0x8000 * 8 + o / 0x1000 % 8) * 0x1000 == o
  {
    var a, b, c := o / 2 % 0x400, o / 0x800, o / 0x1000;
    assert o / 2 == b * 0x400 + a;
    assert b == c * 2 + b % 2;
    assert c == c / 8 * 8 + c % 8 && c / 8 == o / 0x8000;
    var imm := a * 2 + b % 2;
    assert imm / 2 == a && imm % 2 == b % 2;
  }

  /** The words emitted are read back as the instructions meant. */
  lemma DecodeEncode(i: Instr)
    requires InstrOk(i)
    ensures Encode(i) < W32 && Decode(Encode(i)) == Some(i)
  {
    hide Fields;
    match i
    case Csrrw(rd, rs, csr) => FieldsOf(csr, rs, 1, rd, 0x73);
    case Csrrs(rd, rs, csr) => FieldsOf(csr, rs, 2, rd, 0x73);
    case Lui(_, _) => DecodeLui(i);
    case Load(w, rd, o) => FieldsOf(o, 0, w, rd, 0x03);
    case Store(_, _, _) => DecodeStore(i);
    case Fload(w, rd, o) => FieldsOf(o, 0, w, rd, 0x07);
    case Fstore(_, _, _) => DecodeStore(i);
    case Jal(o) => DecodeJal(o);
    case Ebreak => FieldsOf(1, 0, 0, 0, 0x73);
  }

  lemma DecodeLui(i: Instr)
    requires InstrOk(i) && i.Lui?
    ensures Encode(i) < W32 && Decode(Encode(i)) == Some(i)
  {
    hide Fields;
    LuiBits(i.imm);
    FieldsOf(i.imm / 0x100, i.imm / 8 % 32, i.imm % 8, i.rd, 0x37);
  }

  lemma DecodeStore(i: Instr)
    requires InstrOk(i) && (i.Store? || i.Fstore?)
    ensures Encode(i) < W32 && Decode(Encode(i)) == Some(i)
  {
    hide Fields;
    StoreBits(i.offset, i.rs);
    FieldsOf(i.offset / 32 * 32 + i.rs, 0, i.width, i.offset % 32, if i.Store? then 0x23 else 0x27);
  }

  lemma DecodeJal(o: nat)
    requires InstrOk(Jal(o))
    ensures Encode(Jal(o)) < W32 && Decode(Encode(Jal(o))) == Some(Jal(o))
  {
    hide Fields;
    JalBits(o);
    FieldsOf(o / 2 % 0x400 * 2 + o / 0x800 % 2, o / 0x8000, o / 0x1000 % 8, 0, 0x6f);
  }
}
