/** Decoding the bit-fields of an encoded instruction gives back its operands. */
module Decoding {
  import opened CIntegers
  import opened Fields
  import Isa

  lemma Powers()
    ensures Pow2(1) == 2 && Pow2(3) == 8 && Pow2(4) == 0x10 && Pow2(5) == 0x20 && Pow2(6) == 0x40
    ensures Pow2(7) == 0x80 && Pow2(8) == 0x100 && Pow2(10) == 0x400 && Pow2(11) == 0x800 && Pow2(12) == 0x1000
    ensures Pow2(13) == 0x2000 && Pow2(15) == 0x8000 && Pow2(20) == 0x10_0000 && Pow2(21) == 0x20_0000
    ensures Pow2(25) == 0x200_0000 && Pow2(31) == 0x8000_0000
  {
    Pow2Add(10, 10);
    Pow2Add(20, 5);
    Pow2Add(16, 15);
  }

  /** The field v between the digits `high` above it and `rest` below it. */
  lemma FieldOf(w: u32, low: nat, width: nat, d: nat, m: nat, high: nat, v: nat, rest: nat)
    requires d == Pow2(low) && m == Pow2(width)
    requires w == (high * m + v) * d + rest && v < m && rest < d
    ensures Shr(w, low) == high * m + v
    ensures Field(w, low, width) == v
  {
    DivModUnique(w, d, high * m + v, rest);
    DivModUnique(high * m + v, m, high, v);
  }

  /** The fields that every layout shares. */
  lemma Shared(w: u32, top: nat, rs2: nat, rs1: nat, f3: nat, rd: nat, op: nat)
    requires w == Isa.RType(top, rs2, rs1, f3, rd, op)
    requires rs2 < 32 && rs1 < 32 && f3 < 8 && rd < 32 && op < 0x80
    ensures Opcode(w) == op && Rd(w) == rd == Field(w, 7, 5) && Sel(w) == f3
    ensures Rs1(w) == rs1 && Rs2(w) == rs2 == Shamt(w) && Special(w) == top
    ensures SignBit(w) <==> top >= 0x40
  {
    Powers();
    var h7 := top * 0x4_0000 + rs2 * 0x2000 + rs1 * 0x100 + f3 * 0x20 + rd;
    DivModUnique(w, 0x80, h7, op);
    AndMask(w, 7);
    FieldOf(w, 7, 5, 0x80, 0x20, top * 0x2000 + rs2 * 0x100 + rs1 * 8 + f3, rd, op);
    AndMask(Shr(w, 7), 5);
    FieldOf(w, 12, 3, 0x1000, 8, top * 0x400 + rs2 * 0x20 + rs1, f3, rd * 0x80 + op);
    var low15 := f3 * 0x1000 + rd * 0x80 + op;
    FieldOf(w, 15, 5, 0x8000, 0x20, top * 0x20 + rs2, rs1, low15);
    FieldOf(w, 20, 5, 0x10_0000, 0x20, top, rs2, rs1 * 0x8000 + low15);
    AndMask(Shr(w, 20), 5);
    var low25 := rs2 * 0x10_0000 + rs1 * 0x8000 + low15;
    FieldOf(w, 25, 7, 0x200_0000, 0x80, 0, top, low25);
    SignOf(w, top / 0x40, (top % 0x40) * 0x200_0000 + low25);
  }

  lemma SignOf(w: u32, s: nat, rest: nat)
    requires w == s * 0x8000_0000 + rest && rest < 0x8000_0000
    ensures Field(w, 31, 1) == s && s <= 1
    ensures SignBit(w) <==> s == 1
  {
    Powers();
    FieldOf(w, 31, 1, 0x8000_0000, 2, 0, s, rest);
    AndMask(Shr(w, 31), 1);
  }

  /** Clearing the lowest bit rounds down to an even number. */
  lemma ClearLowBit(t: u32)
    ensures And(t, 0xffff_fffe) == t - t % 2 && ToU32(t - t % 2) == t - t % 2
  {
    hide And, Pow2;
    Powers();
    AndHigh(t, 0x7fff_ffff, 1);
    AndMask(t / 2, 31);
  }

  // ----- filling up with ones above a negative immediate -----

  lemma Extend12(w: u32, u: nat, imm: i32)
    requires u < 0x1000 && (if SignBit(w) then u == imm + 0x1000 else u == imm)
    ensures SignExtended(w, u, 0xffff_f000) == imm
  {
    Powers();
    if SignBit(w) {
      OrDisjoint(u, 0xf_ffff, 12);
      ToI32Is(u + 0xffff_f000, imm, 1);
    } else {
      ToI32Is(u, imm, 0);
    }
  }

  lemma Extend13(top: bool, u: nat, imm: i32)
    requires u < 0x2000 && (if top then u == imm + 0x2000 else u == imm)
    ensures ToI32(if top then Or(u, 0xffff_e000) else u) == imm
  {
    Powers();
    if top {
      OrDisjoint(u, 0x7_ffff, 13);
      ToI32Is(u + 0xffff_e000, imm, 1);
    } else {
      ToI32Is(u, imm, 0);
    }
  }

  lemma Extend21(w: u32, u: nat, imm: i32)
    requires u < 0x20_0000 && (if SignBit(w) then u == imm + 0x20_0000 else u == imm)
    ensures SignExtended(w, u, 0xffe0_0000) == imm
  {
    Powers();
    if SignBit(w) {
      OrDisjoint(u, 0x7ff, 21);
      ToI32Is(u + 0xffe0_0000, imm, 1);
    } else {
      ToI32Is(u, imm, 0);
    }
  }

  // ----- the or of the shifted pieces is their sum -----

  lemma JoinB(i12: nat, i11: nat, i10_5: nat, i4_1: nat)
    requires i12 < 2 && i11 < 2 && i10_5 < 0x40 && i4_1 < 0x10
    ensures Or(Or(Or(i4_1 * 2, i10_5 * 0x20), i11 * 0x800), i12 * 0x1000)
         == i12 * 0x1000 + i11 * 0x800 + i10_5 * 0x20 + i4_1 * 2
  {
    Powers();
    OrDisjoint(i4_1 * 2, i10_5, 5);
    var a := i4_1 * 2 + i10_5 * 0x20;
    OrDisjoint(a, i11, 11);
    OrDisjoint(a + i11 * 0x800, i12, 12);
  }

  lemma JoinJ(i20: nat, i19_12: nat, i11: nat, i10_1: nat)
    requires i20 < 2 && i19_12 < 0x100 && i11 < 2 && i10_1 < 0x400
    ensures Or(Or(Or(i10_1 * 2, i11 * 0x800), i19_12 * 0x1000), i20 * 0x10_0000)
         == i20 * 0x10_0000 + i19_12 * 0x1000 + i11 * 0x800 + i10_1 * 2
  {
    Powers();
    OrDisjoint(i10_1 * 2, i11, 11);
    var a := i10_1 * 2 + i11 * 0x800;
    OrDisjoint(a, i19_12, 12);
    OrDisjoint(a + i19_12 * 0x1000, i20, 20);
  }

  // ----- each immediate, recovered from its pieces -----

  /** The two's complement of imm in its lowest 12, 13 or 21 digits, split as the format splits it. */
  lemma Residue(imm: int, m: nat)
    requires m in {0x1000, 0x2000, 0x20_0000} && 0 - m <= 2 * imm < m
    ensures imm % m == if imm < 0 then imm + m else imm
  {
    DivModUnique(imm, m, if imm < 0 then -1 else 0, if imm < 0 then imm + m else imm);
  }

  lemma ImmediateI(w: u32, imm: int, rest: nat)
    requires Isa.Imm12(imm) && rest < 0x10_0000
    requires w == (imm % 0x1000) * 0x10_0000 + rest
    ensures ImmI(w) == imm
  {
    Powers();
    Residue(imm, 0x1000);
    var u := imm % 0x1000;
    FieldOf(w, 20, 12, 0x10_0000, 0x1000, 0, u, rest);
    SignOf(w, u / 0x800, (u % 0x800) * 0x10_0000 + rest);
    Extend12(w, u, imm);
  }

  lemma ImmediateS(w: u32, imm: int, rs2: nat, rs1: nat, f3: nat, op: nat)
    requires Isa.Imm12(imm) && rs2 < 32 && rs1 < 32 && f3 < 8 && op < 0x80
    requires w == Isa.SType(imm, rs2, rs1, f3, op)
    ensures ImmS(w) == imm
  {
    Powers();
    Residue(imm, 0x1000);
    var u := imm % 0x1000;
    Shared(w, u / 0x20, rs2, rs1, f3, u % 0x20, op);
    OrDisjoint(u % 0x20, u / 0x20, 5);
    Extend12(w, u, imm);
  }

  lemma FieldsB(w: u32, rest: nat, low7: nat, i12: nat, i11: nat, i10_5: nat, i4_1: nat)
    requires i12 < 2 && i11 < 2 && i10_5 < 0x40 && i4_1 < 0x10 && rest < 0x2000 && low7 < 0x80
    requires w == (i12 * 0x40 + i10_5) * 0x200_0000 + rest * 0x1000 + (i4_1 * 2 + i11) * 0x80 + low7
    ensures Field(w, 25, 6) == i10_5 && Field(w, 8, 4) == i4_1
    ensures Field(w, 7, 1) == i11 && Field(w, 31, 1) == i12
  {
    Powers();
    hide Pow2, Field, Shr;
    var low25 := rest * 0x1000 + (i4_1 * 2 + i11) * 0x80 + low7;
    FieldOf(w, 25, 6, 0x200_0000, 0x40, i12, i10_5, low25);
    SignOf(w, i12, i10_5 * 0x200_0000 + low25);
    var h12 := (i12 * 0x40 + i10_5) * 0x2000 + rest;
    FieldOf(w, 8, 4, 0x100, 0x10, h12, i4_1, i11 * 0x80 + low7);
    FieldOf(w, 7, 1, 0x80, 2, h12 * 0x10 + i4_1, i11, low7);
  }

  lemma ImmediateB(w: u32, imm: i32, rest: nat, low7: nat, i12: nat, i11: nat, i10_5: nat, i4_1: nat)
    requires i12 < 2 && i11 < 2 && i10_5 < 0x40 && i4_1 < 0x10 && rest < 0x2000 && low7 < 0x80
    requires -0x1000 <= imm < 0x1000
    requires imm + (if imm < 0 then 0x2000 else 0) == i12 * 0x1000 + i11 * 0x800 + i10_5 * 0x20 + i4_1 * 2
    requires w == (i12 * 0x40 + i10_5) * 0x200_0000 + rest * 0x1000 + (i4_1 * 2 + i11) * 0x80 + low7
    ensures ImmB(w) == imm
  {
    hide Field, Or, ToI32;
    FieldsB(w, rest, low7, i12, i11, i10_5, i4_1);
    JoinB(i12, i11, i10_5, i4_1);
    Extend13(i12 == 1, i12 * 0x1000 + i11 * 0x800 + i10_5 * 0x20 + i4_1 * 2, imm);
  }

  lemma FieldsJ(w: u32, low12: nat, i20: nat, i19_12: nat, i11: nat, i10_1: nat)
    requires i20 < 2 && i19_12 < 0x100 && i11 < 2 && i10_1 < 0x400 && low12 < 0x1000
    requires w == i20 * 0x8000_0000 + i10_1 * 0x20_0000 + i11 * 0x10_0000 + i19_12 * 0x1000 + low12
    ensures Field(w, 21, 10) == i10_1 && Field(w, 20, 1) == i11
    ensures Field(w, 12, 8) == i19_12 && Field(w, 31, 1) == i20
    ensures SignBit(w) <==> i20 == 1
  {
    Powers();
    FieldOf(w, 12, 8, 0x1000, 0x100, i20 * 0x800 + i10_1 * 2 + i11, i19_12, low12);
    FieldOf(w, 20, 1, 0x10_0000, 2, i20 * 0x400 + i10_1, i11, i19_12 * 0x1000 + low12);
    FieldOf(w, 21, 10, 0x20_0000, 0x400, i20, i10_1, i11 * 0x10_0000 + i19_12 * 0x1000 + low12);
    SignOf(w, i20, i10_1 * 0x20_0000 + i11 * 0x10_0000 + i19_12 * 0x1000 + low12);
  }

  lemma ImmediateJ(w: u32, imm: i32, low12: nat, i20: nat, i19_12: nat, i11: nat, i10_1: nat)
    requires i20 < 2 && i19_12 < 0x100 && i11 < 2 && i10_1 < 0x400 && low12 < 0x1000
    requires imm + (if imm < 0 then 0x20_0000 else 0) == i20 * 0x10_0000 + i19_12 * 0x1000 + i11 * 0x800 + i10_1 * 2
    requires -0x10_0000 <= imm < 0x10_0000
    requires w == i20 * 0x8000_0000 + i10_1 * 0x20_0000 + i11 * 0x10_0000 + i19_12 * 0x1000 + low12
    ensures ImmJ(w) == imm
  {
    hide Field, Or, ToI32;
    FieldsJ(w, low12, i20, i19_12, i11, i10_1);
    JoinJ(i20, i19_12, i11, i10_1);
    Extend21(w, i20 * 0x10_0000 + i19_12 * 0x1000 + i11 * 0x800 + i10_1 * 2, imm);
  }

  lemma ImmediateU(w: u32, upper: nat, rest: nat)
    requires w == upper * 0x1000 + rest && rest < 0x1000
    ensures ImmU(w) == upper * 0x1000
  {
    Powers();
    DivModUnique(w, 0x1000, upper, rest);
    AndHigh(w, 0xf_ffff, 12);
    AndMask(upper, 20);
  }

  // ----- every encoded instruction decodes to its operands -----

  /** The views of the word that execution of i depends on hold the operands of i. */
  predicate Represents(m: Riscv, i: Isa.Instr)
    requires Isa.Legal(i)
  {
    match i
    case Load(k, rd, rs1, imm) =>
      m.opcode == 0x03 && m.sel == Isa.LoadFunct3(k) && m.rd == rd && m.rs1 == rs1 && m.immI == imm
    case Store(k, rs1, rs2, imm) =>
      m.opcode == 0x23 && m.sel == Isa.StoreFunct3(k) && m.rs1 == rs1 && m.rs2 == rs2 && m.immS == imm
    case OpImm(k, rd, rs1, imm) =>
      m.opcode == 0x13 && m.sel == Isa.ImmFunct3(k) && m.rd == rd && m.rs1 == rs1 && m.immI == imm
    case Shift(k, rd, rs1, shamt) =>
      m.opcode == 0x13 && m.sel == Isa.ShiftFunct3(k) && m.rd == rd && m.rs1 == rs1 && m.shamt == shamt
      && (k.SLLI? || m.special == if k.SRAI? then 0x20 else 0)
    case Op(k, rd, rs1, rs2) =>
      m.opcode == 0x33 && m.sel == Isa.OpFunct3(k) && m.special == Isa.OpFunct7(k)
      && m.rd == rd && m.rs1 == rs1 && m.rs2 == rs2
    case Lui(rd, upper) => m.opcode == 0x37 && m.rd == rd && m.immU == upper * 0x1000
    case Auipc(rd, upper) => m.opcode == 0x17 && m.rd == rd && m.immU == upper * 0x1000
    case Jal(rd, offset) => m.opcode == 0x6f && m.rd == rd && m.immJ == offset
    case Jalr(rd, rs1, imm) => m.opcode == 0x67 && m.rd == rd && m.rs1 == rs1 && m.immI == imm
    case Branch(k, rs1, rs2, offset) =>
      m.opcode == 0x63 && m.sel == Isa.BranchFunct3(k) && m.rs1 == rs1 && m.rs2 == rs2 && m.immB == offset
    case Fence(_) => m.opcode == 0x0f
  }

  lemma DecodeIType(w: u32, imm: int, rs1: nat, f3: nat, rd: nat, op: nat)
    requires 0 <= imm < 0x1000 || Isa.Imm12(imm)
    requires rs1 < 32 && f3 < 8 && rd < 32 && op < 0x80
    requires w == Isa.IType(imm, rs1, f3, rd, op)
    ensures Opcode(w) == op && Rd(w) == rd && Sel(w) == f3 && Rs1(w) == rs1
    ensures Isa.Imm12(imm) ==> ImmI(w) == imm
  {
    var u := imm % 0x1000;
    var a, b := u / 0x20, u % 0x20;
    assert u == a * 0x20 + b;
    Shared(w, a, b, rs1, f3, rd, op);
    if Isa.Imm12(imm) {
      ImmediateI(w, imm, rs1 * 0x8000 + f3 * 0x1000 + rd * 0x80 + op);
    }
  }

  lemma DecodeSType(w: u32, imm: int, rs2: nat, rs1: nat, f3: nat, op: nat)
    requires Isa.Imm12(imm) && rs2 < 32 && rs1 < 32 && f3 < 8 && op < 0x80
    requires w == Isa.SType(imm, rs2, rs1, f3, op)
    ensures Opcode(w) == op && Sel(w) == f3 && Rs1(w) == rs1 && Rs2(w) == rs2 && ImmS(w) == imm
  {
    var u := imm % 0x1000;
    Shared(w, u / 0x20, rs2, rs1, f3, u % 0x20, op);
    ImmediateS(w, imm, rs2, rs1, f3, op);
  }

  lemma HeadU(w: u32, a: nat, b: nat, c: nat, d: nat, rd: nat, op: nat)
    requires b < 32 && c < 32 && d < 8 && rd < 32 && op < 0x80
    requires w == (a * 0x2000 + b * 0x100 + c * 8 + d) * 0x1000 + rd * 0x80 + op
    ensures Opcode(w) == op && Rd(w) == rd
  {
    Shared(w, a, b, c, d, rd, op);
  }

  lemma SplitU(u: nat)
    ensures u == (u / 0x2000) * 0x2000 + (u / 0x100 % 0x20) * 0x100 + (u / 8 % 0x20) * 8 + u % 8
  {
    assert u / 8 / 0x20 == u / 0x100;
    assert u / 0x100 / 0x20 == u / 0x2000;
  }

  lemma DecodeUType(w: u32, upper: nat, rd: nat, op: nat)
    requires upper < 0x10_0000 && rd < 32 && op < 0x80 && w == Isa.UType(upper, rd, op)
    ensures Opcode(w) == op && Rd(w) == rd && ImmU(w) == upper * 0x1000
  {
    hide Opcode, Rd, ImmU;
    ImmediateU(w, upper, rd * 0x80 + op);
    SplitU(upper);
    HeadU(w, upper / 0x2000, upper / 0x100 % 0x20, upper / 8 % 0x20, upper % 8, rd, op);
  }

  lemma SplitB(u: nat, i12: nat, i11: nat, i10_5: nat, i4_1: nat)
    requires u < 0x2000 && u % 2 == 0
    requires i12 == u / 0x1000 && i11 == u / 0x800 % 2 && i10_5 == u / 0x20 % 0x40 && i4_1 == u / 2 % 0x10
    ensures u == i12 * 0x1000 + i11 * 0x800 + i10_5 * 0x20 + i4_1 * 2
  {
    assert u / 2 / 0x10 == u / 0x20;
    assert u / 0x20 / 0x40 == u / 0x800;
    assert u / 0x800 / 2 == u / 0x1000;
  }

  lemma PiecesB(u: nat)
    requires u < 0x2000
    ensures u / 0x1000 < 2 && u / 0x20 % 0x40 < 0x40 && u / 2 % 0x10 < 0x10 && u / 0x800 % 2 < 2
  {}

  lemma DecodeBResidue(w: u32, imm: int, u: nat, rs2: nat, rs1: nat, f3: nat, op: nat)
    requires -0x1000 <= imm < 0x1000 && u == (if imm < 0 then imm + 0x2000 else imm)
    requires u % 2 == 0 && rs2 < 32 && rs1 < 32 && f3 < 8 && op < 0x80
    requires w == (u / 0x1000) * 0x8000_0000 + (u / 0x20 % 0x40) * 0x200_0000 + rs2 * 0x10_0000 + rs1 * 0x8000
                  + f3 * 0x1000 + (u / 2 % 0x10) * 0x100 + (u / 0x800 % 2) * 0x80 + op
    ensures Opcode(w) == op && Sel(w) == f3 && Rs1(w) == rs1 && Rs2(w) == rs2 && ImmB(w) == imm
  {
    hide Opcode, Sel, Rs1, Rs2, ImmB, Special, Shamt, Rd, Field, SignBit;
    var i12, i10_5, i4_1, i11 := u / 0x1000, u / 0x20 % 0x40, u / 2 % 0x10, u / 0x800 % 2;
    SplitB(u, i12, i11, i10_5, i4_1);
    PiecesB(u);
    Shared(w, i12 * 0x40 + i10_5, rs2, rs1, f3, i4_1 * 2 + i11, op);
    ImmediateB(w, imm, rs2 * 0x100 + rs1 * 8 + f3, op, i12, i11, i10_5, i4_1);
  }

  lemma DecodeBType(w: u32, imm: int, rs2: nat, rs1: nat, f3: nat, op: nat)
    requires -0x1000 <= imm < 0x1000 && imm % 2 == 0 && rs2 < 32 && rs1 < 32 && f3 < 8 && op < 0x80
    requires w == Isa.BType(imm, rs2, rs1, f3, op)
    ensures Opcode(w) == op && Sel(w) == f3 && Rs1(w) == rs1 && Rs2(w) == rs2 && ImmB(w) == imm
  {
    hide Opcode, Sel, Rs1, Rs2, ImmB;
    ResidueB(imm);
    DecodeBResidue(w, imm, imm % 0x2000, rs2, rs1, f3, op);
  }

  lemma ResidueB(imm: int)
    requires -0x1000 <= imm < 0x1000 && imm % 2 == 0
    ensures var u := imm % 0x2000;
      0 <= u < 0x2000 && u % 2 == 0 && u == if imm < 0 then imm + 0x2000 else imm
  {
    Residue(imm, 0x2000);
  }

  lemma SplitJ(u: nat, i20: nat, i19_12: nat, i11: nat, i10_1: nat)
    requires u < 0x20_0000 && u % 2 == 0
    requires i20 == u / 0x10_0000 && i19_12 == u / 0x1000 % 0x100 && i11 == u / 0x800 % 2 && i10_1 == u / 2 % 0x400
    ensures u == i20 * 0x10_0000 + i19_12 * 0x1000 + i11 * 0x800 + i10_1 * 2
  {
    assert u / 2 / 0x400 == u / 0x800;
    assert u / 0x800 / 2 == u / 0x1000;
    assert u / 0x1000 / 0x100 == u / 0x10_0000;
  }

  lemma PiecesJ(u: nat)
    requires u < 0x20_0000
    ensures u / 0x10_0000 < 2 && u / 2 % 0x400 < 0x400 && u / 0x800 % 2 < 2 && u / 0x1000 % 0x100 < 0x100
  {}

  lemma ResidueJ(imm: int)
    requires -0x10_0000 <= imm < 0x10_0000 && imm % 2 == 0
    ensures var u := imm % 0x20_0000;
      0 <= u < 0x20_0000 && u % 2 == 0 && u == if imm < 0 then imm + 0x20_0000 else imm
  {
    Residue(imm, 0x20_0000);
  }

  lemma HeadJ(w: u32, rd: nat, op: nat, i20: nat, i19_12: nat, i11: nat, i10_1: nat)
    requires rd < 32 && op < 0x80 && i20 < 2 && i10_1 < 0x400 && i11 < 2 && i19_12 < 0x100
    requires w == i20 * 0x8000_0000 + i10_1 * 0x20_0000 + i11 * 0x10_0000 + i19_12 * 0x1000 + rd * 0x80 + op
    ensures Opcode(w) == op && Rd(w) == rd
  {
    var a, b, c, d := i10_1 / 0x10, i10_1 % 0x10, i19_12 / 8, i19_12 % 8;
    assert i10_1 == a * 0x10 + b && i19_12 == c * 8 + d;
    Shared(w, i20 * 0x40 + a, b * 2 + i11, c, d, rd, op);
  }

  lemma DecodeJPieces(w: u32, imm: int, u: nat, rd: nat, op: nat, i20: nat, i19_12: nat, i11: nat, i10_1: nat)
    requires -0x10_0000 <= imm < 0x10_0000 && u == (if imm < 0 then imm + 0x20_0000 else imm)
    requires rd < 32 && op < 0x80 && i20 < 2 && i10_1 < 0x400 && i11 < 2 && i19_12 < 0x100
    requires u == i20 * 0x10_0000 + i19_12 * 0x1000 + i11 * 0x800 + i10_1 * 2
    requires w == i20 * 0x8000_0000 + i10_1 * 0x20_0000 + i11 * 0x10_0000 + i19_12 * 0x1000 + rd * 0x80 + op
    ensures Opcode(w) == op && Rd(w) == rd && ImmJ(w) == imm
  {
    hide Opcode, Rd, ImmJ;
    HeadJ(w, rd, op, i20, i19_12, i11, i10_1);
    ImmediateJ(w, imm, rd * 0x80 + op, i20, i19_12, i11, i10_1);
  }

  lemma DecodeJType(w: u32, imm: int, rd: nat, op: nat)
    requires -0x10_0000 <= imm < 0x10_0000 && imm % 2 == 0 && rd < 32 && op < 0x80
    requires w == Isa.JType(imm, rd, op)
    ensures Opcode(w) == op && Rd(w) == rd && ImmJ(w) == imm
  {
    hide Opcode, Rd, ImmJ;
    ResidueJ(imm);
    DecodeJResidue(w, imm, imm % 0x20_0000, rd, op);
  }

  lemma DecodeJResidue(w: u32, imm: int, u: nat, rd: nat, op: nat)
    requires -0x10_0000 <= imm < 0x10_0000 && u == (if imm < 0 then imm + 0x20_0000 else imm)
    requires u % 2 == 0 && rd < 32 && op < 0x80
    requires w == (u / 0x10_0000) * 0x8000_0000 + (u / 2 % 0x400) * 0x20_0000 + (u / 0x800 % 2) * 0x10_0000
                  + (u / 0x1000 % 0x100) * 0x1000 + rd * 0x80 + op
    ensures Opcode(w) == op && Rd(w) == rd && ImmJ(w) == imm
  {
    hide Opcode, Rd, ImmJ;
    var i20, i10_1, i11, i19_12 := u / 0x10_0000, u / 2 % 0x400, u / 0x800 % 2, u / 0x1000 % 0x100;
    SplitJ(u, i20, i19_12, i11, i10_1);
    PiecesJ(u);
    DecodeJPieces(w, imm, u, rd, op, i20, i19_12, i11, i10_1);
  }

  /** Decoding is the inverse of the manual's encoding, scrambled immediates included. */
  lemma DecodeEncode(w: u32, i: Isa.Instr)
    requires Isa.Legal(i) && w == Isa.Encode(i)
    ensures Represents(Decode(w), i)
  {
    match i
    case Load(k, rd, rs1, imm) => DecodeIType(w, imm, rs1, Isa.LoadFunct3(k), rd, 0x03);
    case Store(k, rs1, rs2, imm) => DecodeSType(w, imm, rs2, rs1, Isa.StoreFunct3(k), 0x23);
    case OpImm(k, rd, rs1, imm) => DecodeIType(w, imm, rs1, Isa.ImmFunct3(k), rd, 0x13);
    case Shift(k, rd, rs1, shamt) =>
      Shared(w, if k.SRAI? then 0x20 else 0, shamt, rs1, Isa.ShiftFunct3(k), rd, 0x13);
    case Op(k, rd, rs1, rs2) => Shared(w, Isa.OpFunct7(k), rs2, rs1, Isa.OpFunct3(k), rd, 0x33);
    case Lui(rd, upper) => DecodeUType(w, upper, rd, 0x37);
    case Auipc(rd, upper) => DecodeUType(w, upper, rd, 0x17);
    case Jal(rd, offset) => DecodeJType(w, offset, rd, 0x6f);
    case Jalr(rd, rs1, imm) => DecodeIType(w, imm, rs1, 0, rd, 0x67);
    case Branch(k, rs1, rs2, offset) => DecodeBType(w, offset, rs2, rs1, Isa.BranchFunct3(k), 0x63);
    case Fence(operands) => DecodeIType(w, operands, 0, 0, 0, 0x0f);
  }
}
