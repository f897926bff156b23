/** RV32IM without its SYSTEM instructions, as the RISC-V Unprivileged ISA manual (20191213) defines
    it: instruction formats (section 2.2), integer computation, control transfer, loads and stores
    (2.4 to 2.7) and the M extension (7.1, 7.2). Everything here is integer arithmetic on unsigned register
    values; nothing refers to the interpreter. */
module Isa {
  import opened CIntegers

  const XLEN_VALUES := 0x1_0000_0000

  type Word = n: int | 0 <= n < XLEN_VALUES

  datatype LoadKind = LB | LH | LW | LBU | LHU
  datatype StoreKind = SB | SH | SW
  datatype ImmKind = ADDI | SLTI | SLTIU | XORI | ORI | ANDI
  datatype ShiftKind = SLLI | SRLI | SRAI
  datatype OpKind = ADD | SUB | SLL | SLT | SLTU | XOR | SRL | SRA | OR | AND
                  | MUL | MULH | MULHSU | MULHU | DIV | DIVU | REM | REMU
  datatype BranchKind = BEQ | BNE | BLT | BGE | BLTU | BGEU

  datatype Instr =
    | Load(load: LoadKind, rd: nat, rs1: nat, imm: int)
    | Store(store: StoreKind, rs1: nat, rs2: nat, imm: int)
    | OpImm(immOp: ImmKind, rd: nat, rs1: nat, imm: int)
    | Shift(shift: ShiftKind, rd: nat, rs1: nat, shamt: nat)
    | Op(op: OpKind, rd: nat, rs1: nat, rs2: nat)
    | Lui(rd: nat, upper: nat)
    | Auipc(rd: nat, upper: nat)
    | Jal(rd: nat, offset: int)
    | Jalr(rd: nat, rs1: nat, imm: int)
    | Branch(cond: BranchKind, rs1: nat, rs2: nat, offset: int)
    | Fence(operands: nat)

  predicate Imm12(n: int) { -2048 <= n < 2048 }

  /** Register numbers and immediates that the formats can hold. */
  predicate Legal(i: Instr) {
    match i
    case Load(_, rd, rs1, imm) => rd < 32 && rs1 < 32 && Imm12(imm)
    case Store(_, rs1, rs2, imm) => rs1 < 32 && rs2 < 32 && Imm12(imm)
    case OpImm(_, rd, rs1, imm) => rd < 32 && rs1 < 32 && Imm12(imm)
    case Shift(_, rd, rs1, shamt) => rd < 32 && rs1 < 32 && shamt < 32
    case Op(_, rd, rs1, rs2) => rd < 32 && rs1 < 32 && rs2 < 32
    case Lui(rd, upper) => rd < 32 && upper < 0x10_0000
    case Auipc(rd, upper) => rd < 32 && upper < 0x10_0000
    case Jal(rd, offset) => rd < 32 && -0x10_0000 <= offset < 0x10_0000 && offset % 2 == 0
    case Jalr(rd, rs1, imm) => rd < 32 && rs1 < 32 && Imm12(imm)
    case Branch(_, rs1, rs2, offset) => rs1 < 32 && rs2 < 32 && -0x1000 <= offset < 0x1000 && offset % 2 == 0
    case Fence(operands) => operands < 0x1000
  }

  // ----- instruction formats, section 2.2 and 2.3 -----

  function RType(funct7: nat, rs2: nat, rs1: nat, funct3: nat, rd: nat, opcode: nat): nat {
    funct7 * 0x200_0000 + rs2 * 0x10_0000 + rs1 * 0x8000 + funct3 * 0x1000 + rd * 0x80 + opcode
  }

  function IType(imm: int, rs1: nat, funct3: nat, rd: nat, opcode: nat): nat {
    (imm % 0x1000) * 0x10_0000 + rs1 * 0x8000 + funct3 * 0x1000 + rd * 0x80 + opcode
  }

  function SType(imm: int, rs2: nat, rs1: nat, funct3: nat, opcode: nat): nat {
    var u := imm % 0x1000;
    RType(u / 0x20, rs2, rs1, funct3, u % 0x20, opcode)
  }

  function BType(imm: int, rs2: nat, rs1: nat, funct3: nat, opcode: nat): nat {
    var u := imm % 0x2000;
    (u / 0x1000) * 0x8000_0000 + (u / 0x20 % 0x40) * 0x200_0000 + rs2 * 0x10_0000 + rs1 * 0x8000
    + funct3 * 0x1000 + (u / 2 % 0x10) * 0x100 + (u / 0x800 % 2) * 0x80 + opcode
  }

  function UType(upper: nat, rd: nat, opcode: nat): nat {
    upper * 0x1000 + rd * 0x80 + opcode
  }

  function JType(imm: int, rd: nat, opcode: nat): nat {
    var u := imm % 0x20_0000;
    (u / 0x10_0000) * 0x8000_0000 + (u / 2 % 0x400) * 0x20_0000 + (u / 0x800 % 2) * 0x10_0000
    + (u / 0x1000 % 0x100) * 0x1000 + rd * 0x80 + opcode
  }

  function LoadFunct3(k: LoadKind): nat {
    match k case LB => 0 case LH => 1 case LW => 2 case LBU => 4 case LHU => 5
  }

  function StoreFunct3(k: StoreKind): nat {
    match k case SB => 0 case SH => 1 case SW => 2
  }

  function ImmFunct3(k: ImmKind): nat {
    match k case ADDI => 0 case SLTI => 2 case SLTIU => 3 case XORI => 4 case ORI => 6 case ANDI => 7
  }

  function ShiftFunct3(k: ShiftKind): nat {
    match k case SLLI => 1 case SRLI => 5 case SRAI => 5
  }

  function OpFunct3(k: OpKind): nat {
    match k
    case ADD => 0 case SUB => 0 case SLL => 1 case SLT => 2 case SLTU => 3
    case XOR => 4 case SRL => 5 case SRA => 5 case OR => 6 case AND => 7
    case MUL => 0 case MULH => 1 case MULHSU => 2 case MULHU => 3
    case DIV => 4 case DIVU => 5 case REM => 6 case REMU => 7
  }

  function OpFunct7(k: OpKind): nat {
    if k in {SUB, SRA} then 0x20
    else if k in {ADD, SLL, SLT, SLTU, XOR, SRL, OR, AND} then 0
    else 1
  }

  function BranchFunct3(k: BranchKind): nat {
    match k case BEQ => 0 case BNE => 1 case BLT => 4 case BGE => 5 case BLTU => 6 case BGEU => 7
  }

  function Encode(i: Instr): nat {
    match i
    case Load(k, rd, rs1, imm) => IType(imm, rs1, LoadFunct3(k), rd, 0x03)
    case Store(k, rs1, rs2, imm) => SType(imm, rs2, rs1, StoreFunct3(k), 0x23)
    case OpImm(k, rd, rs1, imm) => IType(imm, rs1, ImmFunct3(k), rd, 0x13)
    case Shift(k, rd, rs1, shamt) => RType(if k.SRAI? then 0x20 else 0, shamt, rs1, ShiftFunct3(k), rd, 0x13)
    case Op(k, rd, rs1, rs2) => RType(OpFunct7(k), rs2, rs1, OpFunct3(k), rd, 0x33)
    case Lui(rd, upper) => UType(upper, rd, 0x37)
    case Auipc(rd, upper) => UType(upper, rd, 0x17)
    case Jal(rd, offset) => JType(offset, rd, 0x6f)
    case Jalr(rd, rs1, imm) => IType(imm, rs1, 0, rd, 0x67)
    case Branch(k, rs1, rs2, offset) => BType(offset, rs2, rs1, BranchFunct3(k), 0x63)
    case Fence(operands) => IType(operands, 0, 0, 0, 0x0f)
  }

  // ----- architectural state -----

  /** pc, the 32 registers by unsigned value, and byte-addressed memory. */
  datatype IsaState = IsaState(pc: Word, x: seq<Word>, mem: seq<u8>)

  predicate Valid(st: IsaState) {
    |st.x| == 32 && |st.mem| == XLEN_VALUES
  }

  /** Reading x0 gives zero because it is zero at the start and no instruction changes it. */
  function Read(st: IsaState, r: nat): Word
    requires Valid(st) && r < 32
  {
    st.x[r]
  }

  /** Writes to x0 have no effect. */
  function Write(st: IsaState, r: nat, v: Word): IsaState
    requires Valid(st) && r < 32
  {
    if r == 0 then st else st.(x := st.x[r := v])
  }

  function Signed(v: Word): int {
    if v < 0x8000_0000 then v else v - XLEN_VALUES
  }

  function Trunc(n: int): Word {
    n % XLEN_VALUES
  }

  // ----- results, bit by bit where the manual speaks of bits -----

  /** The number whose binary digits 0 to n - 1 are given by f. */
  function FromBits(f: nat -> bool, n: nat): (v: nat)
    ensures v < Pow2(n)
  {
    if n == 0 then 0 else FromBits(f, n - 1) + (if f(n - 1) then Pow2(n - 1) else 0)
  }

  function OfBits(f: nat -> bool): Word {
    Pow2Words();
    FromBits(f, 32)
  }

  function XorBits(a: Word, b: Word): nat -> bool { (i: nat) => Bit(a, i) != Bit(b, i) }
  function OrBits(a: Word, b: Word): nat -> bool { (i: nat) => Bit(a, i) || Bit(b, i) }
  function AndBits(a: Word, b: Word): nat -> bool { (i: nat) => Bit(a, i) && Bit(b, i) }
  function LeftBits(a: Word, k: nat): nat -> bool { (i: nat) => i >= k && Bit(a, i - k) }
  function RightBits(a: Word, k: nat): nat -> bool { (i: nat) => i + k < 32 && Bit(a, i + k) }
  function ArithmeticBits(a: Word, k: nat): nat -> bool { (i: nat) => Bit(a, if i + k < 32 then i + k else 31) }

  function Truth(b: bool): Word { if b then 1 else 0 }

  function ImmResult(k: ImmKind, a: Word, imm: int): Word {
    var b := Trunc(imm);
    match k
    case ADDI => Trunc(a + imm)
    case SLTI => Truth(Signed(a) < imm)
    case SLTIU => Truth(a < b)
    case XORI => OfBits(XorBits(a, b))
    case ORI => OfBits(OrBits(a, b))
    case ANDI => OfBits(AndBits(a, b))
  }

  function ShiftResult(k: ShiftKind, a: Word, shamt: nat): Word {
    match k
    case SLLI => OfBits(LeftBits(a, shamt))
    case SRLI => OfBits(RightBits(a, shamt))
    case SRAI => OfBits(ArithmeticBits(a, shamt))
  }

  function Abs(n: int): nat { if n < 0 then -n else n }

  /** Signed division rounding towards zero, for a non-zero divisor. */
  function Quotient(a: int, b: int): int
    requires b != 0
  {
    if (a < 0) == (b < 0) then Abs(a) / Abs(b) else -(Abs(a) / Abs(b))
  }

  /** The remainder has the sign of the dividend. */
  function Remainder(a: int, b: int): int
    requires b != 0
  {
    if a < 0 then -(Abs(a) % Abs(b)) else Abs(a) % Abs(b)
  }

  /** Including the results for division by zero and signed overflow of section 7.2. */
  function OpResult(k: OpKind, a: Word, b: Word): Word {
    var sa, sb := Signed(a), Signed(b);
    var overflow := sa == -0x8000_0000 && sb == -1;
    match k
    case ADD => Trunc(a + b)
    case SUB => Trunc(a - b)
    case SLL => OfBits(LeftBits(a, b % 32))
    case SLT => Truth(sa < sb)
    case SLTU => Truth(a < b)
    case XOR => OfBits(XorBits(a, b))
    case SRL => OfBits(RightBits(a, b % 32))
    case SRA => OfBits(ArithmeticBits(a, b % 32))
    case OR => OfBits(OrBits(a, b))
    case AND => OfBits(AndBits(a, b))
    case MUL => Trunc(a * b)
    case MULH => Trunc(sa * sb / XLEN_VALUES)
    case MULHSU => Trunc(sa * b / XLEN_VALUES)
    case MULHU => Trunc(a * b / XLEN_VALUES)
    case DIV => if b == 0 then Trunc(-1) else if overflow then a else Trunc(Quotient(sa, sb))
    case DIVU => if b == 0 then Trunc(-1) else Trunc(a / b)
    case REM => if b == 0 then a else if overflow then 0 else Trunc(Remainder(sa, sb))
    case REMU => if b == 0 then a else a % b
  }

  function Taken(k: BranchKind, a: Word, b: Word): bool {
    match k
    case BEQ => a == b
    case BNE => a != b
    case BLT => Signed(a) < Signed(b)
    case BGE => Signed(a) >= Signed(b)
    case BLTU => a < b
    case BGEU => a >= b
  }

  // ----- memory, section 2.6: little-endian, and the address space wraps around -----

  function LoadLe(mem: seq<u8>, a: nat, k: nat): nat
    requires |mem| == XLEN_VALUES
    decreases k
  {
    if k == 0 then 0 else mem[a % XLEN_VALUES] + 0x100 * LoadLe(mem, a + 1, k - 1)
  }

  function StoreLe(mem: seq<u8>, a: nat, v: nat, k: nat): (mem': seq<u8>)
    requires |mem| == XLEN_VALUES
    ensures |mem'| == XLEN_VALUES
    decreases k
  {
    if k == 0 then mem else StoreLe(mem[a % XLEN_VALUES := v % 0x100], a + 1, v / 0x100, k - 1)
  }

  function LoadResult(k: LoadKind, mem: seq<u8>, a: Word): Word
    requires |mem| == XLEN_VALUES
  {
    match k
    case LB => var v := LoadLe(mem, a, 1); Trunc(if v < 0x80 then v else v - 0x100)
    case LH => var v := LoadLe(mem, a, 2); Trunc(if v < 0x8000 then v else v - 0x1_0000)
    case LW => Trunc(LoadLe(mem, a, 4))
    case LBU => Trunc(LoadLe(mem, a, 1))
    case LHU => Trunc(LoadLe(mem, a, 2))
  }

  function LoadBytes(k: LoadKind): nat {
    match k case LB => 1 case LH => 2 case LW => 4 case LBU => 1 case LHU => 2
  }

  function StoreBytes(k: StoreKind): nat {
    match k case SB => 1 case SH => 2 case SW => 4
  }

  // ----- execution -----

  /** A retired instruction, or the instruction-address-misaligned exception of section 2.5, with the
      state that the jump would otherwise have led to. */
  datatype IsaOutcome = Retired(st: IsaState) | MisalignedTarget(jumped: IsaState)

  function Next(st: IsaState): IsaOutcome {
    Retired(st.(pc := Trunc(st.pc + 4)))
  }

  function Jump(st: IsaState, target: Word): IsaOutcome {
    var jumped := st.(pc := target);
    if target % 4 == 0 then Retired(jumped) else MisalignedTarget(jumped)
  }

  function Execute(i: Instr, st: IsaState): IsaOutcome
    requires Legal(i) && Valid(st)
  {
    match i
    case Load(k, rd, rs1, imm) => Next(Write(st, rd, LoadResult(k, st.mem, Trunc(Read(st, rs1) + imm))))
    case Store(k, rs1, rs2, imm) =>
      Next(st.(mem := StoreLe(st.mem, Trunc(Read(st, rs1) + imm), Read(st, rs2), StoreBytes(k))))
    case OpImm(k, rd, rs1, imm) => Next(Write(st, rd, ImmResult(k, Read(st, rs1), imm)))
    case Shift(k, rd, rs1, shamt) => Next(Write(st, rd, ShiftResult(k, Read(st, rs1), shamt)))
    case Op(k, rd, rs1, rs2) => Next(Write(st, rd, OpResult(k, Read(st, rs1), Read(st, rs2))))
    case Lui(rd, upper) => Next(Write(st, rd, Trunc(upper * 0x1000)))
    case Auipc(rd, upper) => Next(Write(st, rd, Trunc(st.pc + upper * 0x1000)))
    case Jal(rd, offset) => Jump(Write(st, rd, Trunc(st.pc + 4)), Trunc(st.pc + offset))
    case Jalr(rd, rs1, imm) =>
      var sum := Trunc(Read(st, rs1) + imm);
      Jump(Write(st, rd, Trunc(st.pc + 4)), sum - sum % 2)
    case Branch(k, rs1, rs2, offset) =>
      if Taken(k, Read(st, rs1), Read(st, rs2)) then Jump(st, Trunc(st.pc + offset)) else Next(st)
    case Fence(_) => Next(st)
  }

  /** The state after an instruction, or after the jump that raised the exception. */
  function Reached(o: IsaOutcome): IsaState {
    match o
    case Retired(st) => st
    case MisalignedTarget(jumped) => jumped
  }

  /** x0 is hardwired: every instruction leaves it as it is. */
  lemma ZeroIsHardwired(i: Instr, st: IsaState)
    requires Legal(i) && Valid(st)
    ensures Valid(Reached(Execute(i, st))) && Reached(Execute(i, st)).x[0] == st.x[0]
  {
    hide OpResult, ImmResult, ShiftResult, LoadResult, Taken;
  }

  // ----- a number below 2^n is determined by its binary digits -----

  lemma {:induction false} FromBitsUnique(v: nat, f: nat -> bool, n: nat)
    requires v < Pow2(n)
    requires forall i :: 0 <= i < n ==> Bit(v, i) == f(i)
    ensures v == FromBits(f, n)
  {
    if n > 0 {
      var p := Pow2(n - 1);
      var low := if v < p then v else v - p;
      TopBit(v, n - 1);
      forall i | 0 <= i < n - 1
        ensures Bit(low, i) == f(i)
      {
        DivModUnique(v, p, if v < p then 0 else 1, low);
        ModPow2Bit(v, n - 1, i);
      }
      FromBitsUnique(low, f, n - 1);
    }
  }

  lemma TopBit(v: nat, k: nat)
    requires v < Pow2(k + 1)
    ensures Bit(v, k) == (v >= Pow2(k))
  {
    var p := Pow2(k);
    DivModUnique(v, p, if v < p then 0 else 1, if v < p then v else v - p);
    ShrBit(v, k, 0);
  }
}
