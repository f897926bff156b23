/** What the interpreter makes of each of the 2^32 instruction words, read off the digits of the word. */
module InstructionWords {
  import opened CIntegers
  import opened Ram
  import opened Fields
  import opened Machine
  import opened Runs
  import opened HostChannel
  import opened Decoding
  import opened Refinement
  import Isa

  /** An instruction of the manual, one of the SYSTEM words, a word without effect, or one that stops
      the program. */
  datatype Meaning = Plain(i: Isa.Instr) | Ecall | ReadCycle(rd: nat) | Ignored | Rejected(why: Fault)

  /** The signed number with these digits, of which the one worth `half` is the sign. */
  function Sext(n: nat, half: nat): int {
    if n < half then n else n - 2 * half
  }

  function DestOf(w: u32): nat { w / 0x80 % 0x20 }
  function Funct3Of(w: u32): nat { w / 0x1000 % 8 }
  function Source1Of(w: u32): nat { w / 0x8000 % 0x20 }
  function Source2Of(w: u32): nat { w / 0x10_0000 % 0x20 }
  function Funct7Of(w: u32): nat { w / 0x200_0000 }

  function ImmIOf(w: u32): int { Sext(w / 0x10_0000, 0x800) }

  function ImmSOf(w: u32): int { Sext(Funct7Of(w) * 0x20 + DestOf(w), 0x800) }

  function ImmBOf(w: u32): int {
    Sext(w / 0x8000_0000 * 0x1000 + w / 0x80 % 2 * 0x800 + w / 0x200_0000 % 0x40 * 0x20 + w / 0x100 % 0x10 * 2, 0x1000)
  }

  function ImmJOf(w: u32): int {
    Sext(w / 0x8000_0000 * 0x10_0000 + w / 0x1000 % 0x100 * 0x1000 + w / 0x10_0000 % 2 * 0x800
         + w / 0x20_0000 % 0x400 * 2, 0x10_0000)
  }

  /** An undefined operation with rd zero is not looked at. */
  function UndefinedOf(w: u32): Meaning {
    if DestOf(w) == 0 then Ignored else Rejected(AssertionFailure)
  }

  function LoadOf(w: u32, k: Isa.LoadKind): Meaning {
    Plain(Isa.Load(k, DestOf(w), Source1Of(w), ImmIOf(w)))
  }

  function LoadMeaning(w: u32): Meaning {
    match Funct3Of(w)
    case 0 => LoadOf(w, Isa.LB)
    case 1 => LoadOf(w, Isa.LH)
    case 2 => LoadOf(w, Isa.LW)
    case 4 => LoadOf(w, Isa.LBU)
    case 5 => LoadOf(w, Isa.LHU)
    case _ => UndefinedOf(w)
  }

  function StoreOf(w: u32, k: Isa.StoreKind): Meaning {
    Plain(Isa.Store(k, Source1Of(w), Source2Of(w), ImmSOf(w)))
  }

  function StoreMeaning(w: u32): Meaning {
    match Funct3Of(w)
    case 0 => StoreOf(w, Isa.SB)
    case 1 => StoreOf(w, Isa.SH)
    case 2 => StoreOf(w, Isa.SW)
    case _ => Rejected(AssertionFailure)
  }

  function OpImmOf(w: u32, k: Isa.ImmKind): Meaning {
    Plain(Isa.OpImm(k, DestOf(w), Source1Of(w), ImmIOf(w)))
  }

  function ShiftOf(w: u32, k: Isa.ShiftKind): Meaning {
    Plain(Isa.Shift(k, DestOf(w), Source1Of(w), Source2Of(w)))
  }

  /** For SLLI the seven highest digits do not matter. */
  function OpImmMeaning(w: u32): Meaning {
    match Funct3Of(w)
    case 0 => OpImmOf(w, Isa.ADDI)
    case 1 => ShiftOf(w, Isa.SLLI)
    case 2 => OpImmOf(w, Isa.SLTI)
    case 3 => OpImmOf(w, Isa.SLTIU)
    case 4 => OpImmOf(w, Isa.XORI)
    case 5 =>
      if Funct7Of(w) == 0 then ShiftOf(w, Isa.SRLI)
      else if Funct7Of(w) == 0x20 then ShiftOf(w, Isa.SRAI)
      else UndefinedOf(w)
    case 6 => OpImmOf(w, Isa.ORI)
    case _ => OpImmOf(w, Isa.ANDI)
  }

  function OpOf(w: u32, k: Isa.OpKind): Meaning {
    Plain(Isa.Op(k, DestOf(w), Source1Of(w), Source2Of(w)))
  }

  function OpMeaning(w: u32): Meaning {
    match (Funct7Of(w), Funct3Of(w))
    case (0, 0) => OpOf(w, Isa.ADD)
    case (0, 1) => OpOf(w, Isa.SLL)
    case (0, 2) => OpOf(w, Isa.SLT)
    case (0, 3) => OpOf(w, Isa.SLTU)
    case (0, 4) => OpOf(w, Isa.XOR)
    case (0, 5) => OpOf(w, Isa.SRL)
    case (0, 6) => OpOf(w, Isa.OR)
    case (0, 7) => OpOf(w, Isa.AND)
    case (0x20, 0) => OpOf(w, Isa.SUB)
    case (0x20, 5) => OpOf(w, Isa.SRA)
    case (1, 0) => OpOf(w, Isa.MUL)
    case (1, 1) => OpOf(w, Isa.MULH)
    case (1, 2) => OpOf(w, Isa.MULHSU)
    case (1, 3) => OpOf(w, Isa.MULHU)
    case (1, 4) => OpOf(w, Isa.DIV)
    case (1, 5) => OpOf(w, Isa.DIVU)
    case (1, 6) => OpOf(w, Isa.REM)
    case (1, 7) => OpOf(w, Isa.REMU)
    case _ => UndefinedOf(w)
  }

  function BranchOf(w: u32, k: Isa.BranchKind): Meaning {
    Plain(Isa.Branch(k, Source1Of(w), Source2Of(w), ImmBOf(w)))
  }

  function BranchMeaning(w: u32): Meaning {
    match Funct3Of(w)
    case 0 => BranchOf(w, Isa.BEQ)
    case 1 => BranchOf(w, Isa.BNE)
    case 4 => BranchOf(w, Isa.BLT)
    case 5 => BranchOf(w, Isa.BGE)
    case 6 => BranchOf(w, Isa.BLTU)
    case 7 => BranchOf(w, Isa.BGEU)
    case _ => Rejected(AssertionFailure)
  }

  /** CSRRS and CSRRSI of the cycle counter, whatever is to be set in it; EBREAK and the accesses to
      other registers do nothing. */
  function SystemMeaning(w: u32): Meaning {
    if w == 0x73 then Ecall
    else if Funct3Of(w) in {2, 6} && w / 0x10_0000 == 0xc00 then ReadCycle(DestOf(w))
    else Ignored
  }

  /** For JALR funct3, and for FENCE everything but the opcode, does not matter. */
  function MeaningOf(w: u32): Meaning {
    match w % 0x80
    case 0x03 => LoadMeaning(w)
    case 0x0f => Plain(Isa.Fence(w / 0x10_0000))
    case 0x13 => OpImmMeaning(w)
    case 0x17 => Plain(Isa.Auipc(DestOf(w), w / 0x1000))
    case 0x23 => StoreMeaning(w)
    case 0x33 => OpMeaning(w)
    case 0x37 => Plain(Isa.Lui(DestOf(w), w / 0x1000))
    case 0x63 => BranchMeaning(w)
    case 0x67 => Plain(Isa.Jalr(DestOf(w), Source1Of(w), ImmIOf(w)))
    case 0x6f => Plain(Isa.Jal(DestOf(w), ImmJOf(w)))
    case 0x73 => SystemMeaning(w)
    case _ => Rejected(ExitFailure)
  }

  // ----- every word is made of its fields -----

  lemma DivisionStep(w: nat, p: nat, q: nat)
    requires p > 0 && q > 0
    ensures p * q > 0 && w / p == w / (p * q) * q + w / p % q
  {
    DivTwice(w, p, q);
  }

  lemma Whole(w: u32)
    ensures w == Isa.RType(Funct7Of(w), Source2Of(w), Source1Of(w), Funct3Of(w), DestOf(w), w % 0x80)
    ensures w / 0x10_0000 == Funct7Of(w) * 0x20 + Source2Of(w) && w / 0x10_0000 < 0x1000
    ensures w / 0x1000 == w / 0x10_0000 * 0x100 + Source1Of(w) * 8 + Funct3Of(w) && w / 0x1000 < 0x10_0000
  {
    DivisionStep(w, 0x80, 0x20);
    DivisionStep(w, 0x1000, 8);
    DivisionStep(w, 0x8000, 0x20);
    DivisionStep(w, 0x10_0000, 0x20);
  }

  lemma SextIs(n: nat, half: nat)
    requires 0 < half && n < 2 * half
    ensures 0 <= Sext(n, half) + half < 2 * half && Sext(n, half) % (2 * half) == n
  {
    DivModUnique(Sext(n, half), 2 * half, if n < half then 0 else -1, n);
  }

  lemma SextEven(n: nat, half: nat)
    requires n < 2 * half
    ensures var v := Sext(2 * n, 2 * half);
      0 <= v + 2 * half < 4 * half && v % 2 == 0 && v + (if v < 0 then 4 * half else 0) == 2 * n
  {
    DivModUnique(Sext(2 * n, 2 * half), 2, if n < half then n else n - 2 * half, 0);
  }

  /** The fields that do not depend on the format. */
  lemma CommonFields(w: u32)
    ensures var m := Decode(w);
      && m.opcode == w % 0x80 && m.rd == DestOf(w) && m.sel == Funct3Of(w) && m.rs1 == Source1Of(w)
      && m.rs2 == m.shamt == Source2Of(w) && m.special == Funct7Of(w)
  {
    Whole(w);
    hide Opcode, Rd, Sel, Rs1, Rs2, Special, Shamt, ImmI, ImmS, ImmB, ImmJ, ImmU, Shr, And, Pow2, Field;
    Shared(w, Funct7Of(w), Source2Of(w), Source1Of(w), Funct3Of(w), DestOf(w), w % 0x80);
  }

  lemma ImmIField(w: u32)
    ensures Isa.Imm12(ImmIOf(w)) && ImmI(w) == ImmIOf(w)
  {
    Whole(w);
    SextIs(w / 0x10_0000, 0x800);
    hide Opcode, Rd, Sel, Rs1, ImmI, Sext;
    DecodeIType(w, ImmIOf(w), Source1Of(w), Funct3Of(w), DestOf(w), w % 0x80);
  }

  lemma ImmSField(w: u32)
    ensures Isa.Imm12(ImmSOf(w)) && ImmS(w) == ImmSOf(w)
  {
    Whole(w);
    var u := Funct7Of(w) * 0x20 + DestOf(w);
    SextIs(u, 0x800);
    hide Opcode, Rd, Sel, Rs1, Rs2, ImmS, Sext;
    DivModUnique(u, 0x20, Funct7Of(w), DestOf(w));
    DecodeSType(w, ImmSOf(w), Source2Of(w), Source1Of(w), Funct3Of(w), w % 0x80);
  }

  lemma UpperField(w: u32)
    ensures w / 0x1000 < 0x10_0000 && ImmU(w) == w / 0x1000 * 0x1000
  {
    Whole(w);
    hide Opcode, Rd, ImmU;
    var p := w / 0x1000;
    assert w == p * 0x1000 + DestOf(w) * 0x80 + w % 0x80;
    DecodeUType(w, p, DestOf(w), w % 0x80);
  }

  lemma PiecesOfB(w: u32)
    ensures w / 0x8000_0000 < 2
    ensures Funct7Of(w) == w / 0x8000_0000 * 0x40 + w / 0x200_0000 % 0x40
    ensures DestOf(w) == w / 0x100 % 0x10 * 2 + w / 0x80 % 2
  {
    DivisionStep(w, 0x200_0000, 0x40);
    DivisionStep(w, 0x80, 2);
    DivisionStep(w, 0x100, 0x10);
    DivisionStep(w, 0x80, 0x20);
  }

  lemma ImmBField(w: u32)
    ensures -0x1000 <= ImmBOf(w) < 0x1000 && ImmBOf(w) % 2 == 0 && ImmB(w) == ImmBOf(w)
  {
    Whole(w);
    PiecesOfB(w);
    FieldBounds(w);
    ImmBPieces(w, w / 0x8000_0000, w / 0x80 % 2, w / 0x200_0000 % 0x40, w / 0x100 % 0x10);
  }

  lemma ImmBPieces(w: u32, i12: nat, i11: nat, i10_5: nat, i4_1: nat)
    requires i12 < 2 && i11 < 2 && i10_5 < 0x40 && i4_1 < 0x10
    requires w == (i12 * 0x40 + i10_5) * 0x200_0000 + Source2Of(w) * 0x10_0000 + Source1Of(w) * 0x8000
                  + Funct3Of(w) * 0x1000 + (i4_1 * 2 + i11) * 0x80 + w % 0x80
    ensures var v := Sext(i12 * 0x1000 + i11 * 0x800 + i10_5 * 0x20 + i4_1 * 2, 0x1000);
      -0x1000 <= v < 0x1000 && v % 2 == 0 && ImmB(w) == v
  {
    FieldBounds(w);
    hide ImmB, Source1Of, Source2Of, Funct3Of, Sext;
    var u := i12 * 0x1000 + i11 * 0x800 + i10_5 * 0x20 + i4_1 * 2;
    SextEven(i12 * 0x800 + i11 * 0x400 + i10_5 * 0x10 + i4_1, 0x800);
    ImmediateB(w, Sext(u, 0x1000), Source2Of(w) * 0x100 + Source1Of(w) * 8 + Funct3Of(w), w % 0x80,
               i12, i11, i10_5, i4_1);
  }

  lemma FieldBounds(w: u32)
    ensures DestOf(w) < 0x20 && Funct3Of(w) < 8 && Source1Of(w) < 0x20 && Source2Of(w) < 0x20 && Funct7Of(w) < 0x80
  {}

  lemma PiecesOfJ(w: u32)
    ensures w / 0x8000_0000 < 2
    ensures w == w / 0x8000_0000 * 0x8000_0000 + w / 0x20_0000 % 0x400 * 0x20_0000 + w / 0x10_0000 % 2 * 0x10_0000
                 + w / 0x1000 % 0x100 * 0x1000 + w % 0x1000
  {
    DivisionStep(w, 0x1000, 0x100);
    DivisionStep(w, 0x10_0000, 2);
    DivisionStep(w, 0x20_0000, 0x400);
  }

  lemma ImmJField(w: u32)
    ensures -0x10_0000 <= ImmJOf(w) < 0x10_0000 && ImmJOf(w) % 2 == 0 && ImmJ(w) == ImmJOf(w)
  {
    PiecesOfJ(w);
    ImmJPieces(w, w / 0x8000_0000, w / 0x1000 % 0x100, w / 0x10_0000 % 2, w / 0x20_0000 % 0x400);
  }

  lemma ImmJPieces(w: u32, i20: nat, i19_12: nat, i11: nat, i10_1: nat)
    requires i20 < 2 && i19_12 < 0x100 && i11 < 2 && i10_1 < 0x400
    requires w == i20 * 0x8000_0000 + i10_1 * 0x20_0000 + i11 * 0x10_0000 + i19_12 * 0x1000 + w % 0x1000
    ensures var v := Sext(i20 * 0x10_0000 + i19_12 * 0x1000 + i11 * 0x800 + i10_1 * 2, 0x10_0000);
      -0x10_0000 <= v < 0x10_0000 && v % 2 == 0 && ImmJ(w) == v
  {
    hide ImmJ, Sext;
    var u := i20 * 0x10_0000 + i19_12 * 0x1000 + i11 * 0x800 + i10_1 * 2;
    SextEven(i20 * 0x8_0000 + i19_12 * 0x800 + i11 * 0x400 + i10_1, 0x8_0000);
    ImmediateJ(w, Sext(u, 0x10_0000), w % 0x1000, i20, i19_12, i11, i10_1);
  }

  // ----- what decoding makes of a word -----

  lemma Immediates(w: u32)
    ensures var m := Decode(w);
      && m.immI == ImmIOf(w) && m.immS == ImmSOf(w) && m.immB == ImmBOf(w) && m.immJ == ImmJOf(w)
      && m.immU == w / 0x1000 * 0x1000
  {
    hide Opcode, Rd, Sel, Rs1, Rs2, Special, Shamt, ImmI, ImmS, ImmB, ImmJ, ImmU, Shr, And, Pow2, Field;
    hide ImmIOf, ImmSOf, ImmBOf, ImmJOf;
    ImmIField(w);
    ImmSField(w);
    ImmBField(w);
    ImmJField(w);
    UpperField(w);
  }

  lemma ImmediateBounds(w: u32)
    ensures Isa.Imm12(ImmIOf(w)) && Isa.Imm12(ImmSOf(w)) && w / 0x1000 < 0x10_0000 && w / 0x10_0000 < 0x1000
    ensures -0x1000 <= ImmBOf(w) < 0x1000 && ImmBOf(w) % 2 == 0
    ensures -0x10_0000 <= ImmJOf(w) < 0x10_0000 && ImmJOf(w) % 2 == 0
  {
    hide ImmI, ImmS, ImmB, ImmJ, ImmU, ImmIOf, ImmSOf, ImmBOf, ImmJOf;
    ImmIField(w);
    ImmSField(w);
    ImmBField(w);
    ImmJField(w);
    Whole(w);
  }

  lemma MemoryRepresents(w: u32)
    requires MeaningOf(w).Plain? && w % 0x80 in {0x03, 0x23}
    ensures Isa.Legal(MeaningOf(w).i) && Represents(Decode(w), MeaningOf(w).i)
  {
    hide Decode, Funct7Of, Funct3Of, Source1Of, Source2Of, DestOf, ImmIOf, ImmSOf, ImmBOf, ImmJOf;
    CommonFields(w);
    Immediates(w);
    FieldBounds(w);
    ImmediateBounds(w);
  }

  lemma OpImmRepresents(w: u32)
    requires MeaningOf(w).Plain? && w % 0x80 == 0x13
    ensures Isa.Legal(MeaningOf(w).i) && Represents(Decode(w), MeaningOf(w).i)
  {
    hide Decode, Funct7Of, Funct3Of, Source1Of, Source2Of, DestOf, ImmIOf, ImmSOf, ImmBOf, ImmJOf;
    CommonFields(w);
    Immediates(w);
    FieldBounds(w);
    ImmediateBounds(w);
  }

  lemma OpRepresents(w: u32)
    requires MeaningOf(w).Plain? && w % 0x80 == 0x33
    ensures Isa.Legal(MeaningOf(w).i) && Represents(Decode(w), MeaningOf(w).i)
  {
    hide Decode, Funct7Of, Funct3Of, Source1Of, Source2Of, DestOf, ImmIOf, ImmSOf, ImmBOf, ImmJOf;
    CommonFields(w);
    Immediates(w);
    FieldBounds(w);
    ImmediateBounds(w);
  }

  lemma OtherRepresents(w: u32)
    requires MeaningOf(w).Plain? && w % 0x80 !in {0x03, 0x13, 0x23, 0x33}
    ensures Isa.Legal(MeaningOf(w).i) && Represents(Decode(w), MeaningOf(w).i)
  {
    hide Decode, Funct7Of, Funct3Of, Source1Of, Source2Of, DestOf, ImmIOf, ImmSOf, ImmBOf, ImmJOf;
    CommonFields(w);
    Immediates(w);
    FieldBounds(w);
    ImmediateBounds(w);
  }

  /** Decoding gives the operands of the instruction that the digits spell. */
  lemma PlainRepresents(w: u32)
    requires MeaningOf(w).Plain?
    ensures Isa.Legal(MeaningOf(w).i) && Represents(Decode(w), MeaningOf(w).i)
  {
    hide MeaningOf, Decode, Represents;
    if w % 0x80 in {0x03, 0x23} {
      MemoryRepresents(w);
    } else if w % 0x80 == 0x13 {
      OpImmRepresents(w);
    } else if w % 0x80 == 0x33 {
      OpRepresents(w);
    } else {
      OtherRepresents(w);
    }
  }

  lemma SystemFields(w: u32)
    requires w % 0x80 == 0x73
    ensures var m := Decode(w);
      && (m.ecall <==> w == 0x73) && m.csr == w / 0x10_0000 && m.csrOp == Funct3Of(w) % 4
  {
    hide Opcode, Rd, Sel, Rs1, Rs2, Special, Shamt, ImmI, ImmS, ImmB, ImmJ, ImmU, And, Pow2, Field;
    Powers();
    Pow2Add(1, 1);
    AndMask(Shr(w, 12), 2);
    LowTwo(w / 0x1000);
  }

  lemma LowTwo(n: nat)
    ensures n % 8 % 4 == n % 4
  {}

  // ----- what a step makes of a word -----

  /** The outcome of executing a word of this meaning in state s; icnt goes up by one whenever the
      program goes on. */
  predicate Does(o: Outcome, s: State, meaning: Meaning) {
    var counted := s.(icnt := (s.icnt + 1) % 0x1_0000_0000_0000_0000);
    var next := counted.(pc := (s.pc + 4) % 0x1_0000_0000);
    match meaning
    case Plain(i) => Isa.Legal(i) && Obeys(o, s, i)
    case Ecall => o == Running(counted.(brk := true))
    case ReadCycle(rd) => rd < 32 && o == Running(next.(gpr := s.gpr[rd := ToI32(s.icnt)]))
    case Ignored => o == Running(next)
    case Rejected(why) => o == Stuck(why)
  }

  lemma SystemExecutes(s: State, m: Riscv)
    requires m.opcode == 0x73
    ensures Machine.Execute(s, m) ==
      var t := if m.ecall then s.(brk := true)
               else if m.csrOp == 2 && m.csr == 0xc00 then Advance(Set(s, m.rd, ToI32(s.icnt)))
               else Advance(s);
      Running(t.(icnt := (s.icnt + 1) % TWO64))
  {
    hide ToI32, ToU32;
  }

  lemma SystemDoes(s: State, w: u32)
    requires w % 0x80 == 0x73
    ensures Does(Machine.Execute(s, Decode(w)), s, MeaningOf(w))
  {
    hide Decode, Machine.Execute, Funct3Of, DestOf, ToI32;
    CommonFields(w);
    SystemFields(w);
    FieldBounds(w);
    CsrOps(Funct3Of(w));
    SystemExecutes(s, Decode(w));
  }

  lemma CsrOps(f: nat)
    requires f < 8
    ensures f % 4 == 2 <==> f in {2, 6}
  {}

  lemma MemoryDoes(s: State, w: u32)
    requires !MeaningOf(w).Plain? && w % 0x80 in {0x03, 0x23}
    ensures Does(Machine.Execute(s, Decode(w)), s, MeaningOf(w))
  {
    CommonFields(w);
    FieldBounds(w);
    hide Decode, Funct3Of, DestOf, ToI32, OpValue, OpImmValue, ExecJalr, ExecJal, ExecBranch, Load, Store, Extended;
  }

  lemma OpImmDoes(s: State, w: u32)
    requires !MeaningOf(w).Plain? && w % 0x80 == 0x13
    ensures Does(Machine.Execute(s, Decode(w)), s, MeaningOf(w))
  {
    CommonFields(w);
    FieldBounds(w);
    hide Decode, Funct3Of, Funct7Of, DestOf, ToI32, OpValue, ExecJalr, ExecJal, ExecBranch, ExecLoad, ExecStore;
    hide And, Or, Xor, Shr, Pow2;
  }

  lemma OpDoes(s: State, w: u32)
    requires !MeaningOf(w).Plain? && w % 0x80 == 0x33
    ensures Does(Machine.Execute(s, Decode(w)), s, MeaningOf(w))
  {
    CommonFields(w);
    FieldBounds(w);
    hide Decode, Funct3Of, Funct7Of, DestOf, ToI32, OpImmValue, ExecJalr, ExecJal, ExecBranch, ExecLoad, ExecStore;
    hide And, Or, Xor, Shr, Pow2, TruncDiv, TruncRem;
  }

  lemma OtherDoes(s: State, w: u32)
    requires !MeaningOf(w).Plain? && w % 0x80 !in {0x03, 0x13, 0x23, 0x33, 0x73}
    ensures Does(Machine.Execute(s, Decode(w)), s, MeaningOf(w))
  {
    CommonFields(w);
    hide Decode, Funct3Of, ToI32, OpValue, OpImmValue, ExecJalr, ExecJal, ExecLoad, ExecStore;
  }

  lemma WordDoes(s: State, w: u32)
    ensures Does(Machine.Execute(s, Decode(w)), s, MeaningOf(w))
  {
    hide MeaningOf, Decode, Machine.Execute;
    if MeaningOf(w).Plain? {
      PlainRepresents(w);
      ExecuteObeys(s, Decode(w), MeaningOf(w).i);
    } else {
      hide Does;
      if w % 0x80 in {0x03, 0x23} {
        MemoryDoes(s, w);
      } else if w % 0x80 == 0x13 {
        OpImmDoes(s, w);
      } else if w % 0x80 == 0x33 {
        OpDoes(s, w);
      } else if w % 0x80 == 0x73 {
        SystemDoes(s, w);
      } else {
        OtherDoes(s, w);
      }
    }
  }

  /** The little-endian word at pc. */
  function WordAt(s: State): u32
    requires s.pc + 4 <= 0x1_0000_0000
  {
    LoadBound(s.mem, s.pc, 4);
    Pow2Words();
    Load(s.mem, s.pc, 4)
  }

  /** One step, from any state: a fetch past the end of memory stops the program, else the host is attended
      to, and then the word that was at pc before does what its digits say, on the memory the host left. */
  lemma StepOfWord(cfg: Config, host: Host, s: State)
    ensures if s.pc + 4 > 0x1_0000_0000 then Step(cfg, host, s) == Stuck(OutOfRange)
      else match ActionOf(cfg, host(s.icnt), s.mem)
        case Fails(why) => Step(cfg, host, s) == Stuck(why)
        case Goes(m, exit) => Does(Step(cfg, host, s), Ready(s, m, exit), MeaningOf(WordAt(s)))
  {
    hide Step, Decode, Machine.Execute, ActionOf, Does, MeaningOf, Ready, Load;
    StepExecutes(cfg, host, s);
    if s.pc + 4 <= 0x1_0000_0000 {
      match ActionOf(cfg, host(s.icnt), s.mem)
      case Fails(_) =>
      case Goes(m, exit) => WordDoes(Ready(s, m, exit), WordAt(s));
    }
  }

  // ----- the digits of an encoding, and the SYSTEM words -----

  lemma FenceDigits(w: u32, operands: nat)
    requires operands < 0x1000 && w == Isa.Encode(Isa.Fence(operands))
    ensures w / 0x10_0000 == operands
  {
    DivModUnique(operands, 0x1000, 0, operands);
    DivModUnique(w, 0x10_0000, operands, 0x0f);
  }

  lemma RepresentedKind(w: u32, i: Isa.Instr)
    requires Isa.Legal(i) && Represents(Decode(w), i) && !i.Fence?
    ensures MeaningOf(w) == Plain(i)
  {
    hide Decode, Funct7Of, Funct3Of, Source1Of, Source2Of, DestOf, ImmIOf, ImmSOf, ImmBOf, ImmJOf;
    CommonFields(w);
    Immediates(w);
  }

  /** The digits of the manual's encoding of an instruction spell that instruction. */
  lemma MeaningOfEncode(w: u32, i: Isa.Instr)
    requires Isa.Legal(i) && w == Isa.Encode(i)
    ensures MeaningOf(w) == Plain(i)
  {
    if i.Fence? {
      FenceDigits(w, i.operands);
      DivModUnique(w, 0x80, i.operands * 0x2000, 0x0f);
    } else {
      hide MeaningOf, Represents, Decode, Isa.Encode;
      DecodeEncode(w, i);
      RepresentedKind(w, i);
    }
  }

  /** No request is pending and the word at pc is w. */
  predicate Finds(cfg: Config, s: State, w: u32) {
    s.pc + 4 <= 0x1_0000_0000 && Load(s.mem, s.pc, 4) == w && Load(s.mem, cfg.tohostAddr, 4) == 0
  }

  lemma QuietStep(cfg: Config, host: Host, s: State, w: u32)
    requires Finds(cfg, s, w)
    ensures Does(Step(cfg, host, s), s.(lastPc := s.pc), MeaningOf(w))
  {
    hide Step, Does, MeaningOf, Load;
    StepOfWord(cfg, host, s);
  }

  lemma SystemDigits(w: u32, csr: nat, field: nat, op: nat, rd: nat)
    requires csr < 0x1000 && field < 0x20 && op < 8 && rd < 0x20
    requires w == csr * 0x10_0000 + field * 0x8000 + op * 0x1000 + rd * 0x80 + 0x73
    ensures w % 0x80 == 0x73 && DestOf(w) == rd && Funct3Of(w) == op && w / 0x10_0000 == csr
  {
    var low := field * 0x8000 + op * 0x1000 + rd * 0x80 + 0x73;
    DivModUnique(w, 0x80, csr * 0x2000 + field * 0x100 + op * 0x20 + rd, 0x73);
    DivModUnique(w, 0x1000, csr * 0x100 + field * 8 + op, rd * 0x80 + 0x73);
    DivModUnique(w, 0x10_0000, csr, low);
    DivModUnique(w / 0x80, 0x20, csr * 0x100 + field * 8 + op, rd);
    DivModUnique(w / 0x1000, 8, csr * 0x20 + field, op);
  }

  /** RDCYCLE, that is csrrs rd,cycle,zero, puts the low word of icnt into rd, whatever rd is. */
  lemma ReadCycleStep(cfg: Config, host: Host, s: State, rd: nat)
    requires rd < 32 && Finds(cfg, s, 0xc000_2073 + 0x80 * rd)
    ensures Step(cfg, host, s) ==
      Running(s.(lastPc := s.pc, pc := (s.pc + 4) % 0x1_0000_0000, gpr := s.gpr[rd := ToI32(s.icnt)],
                 icnt := (s.icnt + 1) % 0x1_0000_0000_0000_0000))
  {
    hide Step, Finds, DestOf, Funct3Of, ToI32;
    SystemDigits(0xc000_2073 + 0x80 * rd, 0xc00, 0, 2, rd);
    QuietStep(cfg, host, s, 0xc000_2073 + 0x80 * rd);
  }

  lemma EcallMeaning()
    ensures MeaningOf(0x73) == Ecall
  {}

  /** ECALL sets brk and stays where it is. */
  lemma EcallStep(cfg: Config, host: Host, s: State)
    requires Finds(cfg, s, 0x73)
    ensures Step(cfg, host, s) ==
      Running(s.(lastPc := s.pc, brk := true, icnt := (s.icnt + 1) % 0x1_0000_0000_0000_0000))
  {
    hide Step, Finds, Obeys;
    EcallMeaning();
    hide MeaningOf;
    QuietStep(cfg, host, s, 0x73);
  }

  /** EBREAK (csr 1, everything else zero) and every other access to a control register, including a
      write of the cycle counter, does nothing. */
  lemma OtherSystemStep(cfg: Config, host: Host, s: State, csr: nat, field: nat, op: nat, rd: nat)
    requires csr < 0x1000 && field < 0x20 && op < 8 && rd < 0x20
    requires !(csr == 0 && field == 0 && op == 0 && rd == 0) && !(csr == 0xc00 && op in {2, 6})
    requires Finds(cfg, s, csr * 0x10_0000 + field * 0x8000 + op * 0x1000 + rd * 0x80 + 0x73)
    ensures Step(cfg, host, s) ==
      Running(s.(lastPc := s.pc, pc := (s.pc + 4) % 0x1_0000_0000, icnt := (s.icnt + 1) % 0x1_0000_0000_0000_0000))
  {
    hide Step, Finds, DestOf, Funct3Of;
    var w: u32 := csr * 0x10_0000 + field * 0x8000 + op * 0x1000 + rd * 0x80 + 0x73;
    SystemDigits(w, csr, field, op, rd);
    QuietStep(cfg, host, s, w);
  }
}
