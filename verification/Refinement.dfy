/** The interpreter refines RV32IM: executing an encoded instruction commutes with the integer
    semantics of the ISA manual, exactly when the interpreter supports it. */
module Refinement {
  import opened CIntegers
  import opened Ram
  import opened Fields
  import opened Machine
  import opened Decoding
  import opened Runs
  import opened HostChannel
  import Alu
  import Isa

  /** The architectural state held by a machine state. */
  function View(s: State): (st: Isa.IsaState)
    ensures Isa.Valid(st)
  {
    Isa.IsaState(s.pc, seq(32, i requires 0 <= i < 32 => ToU32(s.gpr[i])), s.mem)
  }

  /** The register operations the interpreter computes, and on which signed operands. */
  predicate Computable(k: Isa.OpKind, a: int, b: int) {
    match k
    case MULHSU => false
    case DIV => b != 0 && !(a == -TWO31 && b == -1)
    case REM => b != 0 && !(a == -TWO31 && b == -1)
    case DIVU => b != 0
    case REMU => b != 0
    case _ => true
  }

  /** The instructions and operands that do not stop the interpreter. */
  predicate Defined(i: Isa.Instr, st: Isa.IsaState)
    requires Isa.Legal(i) && Isa.Valid(st)
  {
    match i
    case Load(k, rd, rs1, imm) => rd == 0 || Isa.Trunc(Isa.Read(st, rs1) + imm) + Isa.LoadBytes(k) <= 0x1_0000_0000
    case Store(k, rs1, rs2, imm) => Isa.Trunc(Isa.Read(st, rs1) + imm) + Isa.StoreBytes(k) <= 0x1_0000_0000
    case Op(k, rd, rs1, rs2) =>
      var a, b := Isa.Signed(Isa.Read(st, rs1)), Isa.Signed(Isa.Read(st, rs2));
      rd == 0 || Computable(k, a, b)
    case _ => true
  }

  /** How the interpreter stops on an instruction that is not defined. */
  function FaultOf(i: Isa.Instr): Fault {
    if i.Op? then if i.op.MULHSU? then AssertionFailure else UndefinedDivision
    else OutOfRange
  }

  /** Nothing but pc, registers and memory changed, and x0 is what it was. */
  predicate OnlyArchitectural(s: State, t: State) {
    t == s.(pc := t.pc, gpr := t.gpr, mem := t.mem) && t.gpr[0] == s.gpr[0]
  }

  /** A step that agrees with the manual; where the manual raises the misaligned-target exception,
      which the interpreter does not have, it has made that jump, link register included. */
  predicate Agrees(s: State, o: Outcome, io: Isa.IsaOutcome) {
    o.Running? && OnlyArchitectural(s, o.s) &&
    match io
    case Retired(st) => View(o.s) == st
    case MisalignedTarget(jumped) => View(o.s) == jumped
  }

  /** The statement proved for each kind of instruction. */
  predicate Simulates(s: State, m: Riscv, i: Isa.Instr)
    requires Isa.Legal(i)
  {
    if Defined(i, View(s)) then Agrees(s, Dispatch(s, m), Isa.Execute(i, View(s)))
    else Dispatch(s, m) == Stuck(FaultOf(i))
  }

  // ----- moving between the two states -----

  lemma ViewRead(s: State, r: nat)
    requires r < 32
    ensures Isa.Read(View(s), r) == ToU32(s.gpr[r])
    ensures Isa.Signed(Isa.Read(View(s), r)) == s.gpr[r]
  {
    Alu.SignedView(s.gpr[r]);
  }

  lemma ViewSet(s: State, rd: nat, v: i32)
    requires 0 < rd < 32
    ensures View(Set(s, rd, v)) == Isa.Write(View(s), rd, ToU32(v))
  {
    assert View(Set(s, rd, v)).x == View(s).x[rd := ToU32(v)];
  }

  lemma Writeback(s: State, rd: nat, v: Value, w: Isa.Word)
    requires rd < 32
    requires rd == 0 || (v.Value? && ToU32(v.v) == w)
    ensures Agrees(s, ExecValue(s, rd, v), Isa.Next(Isa.Write(View(s), rd, w)))
  {
    if rd != 0 {
      ViewSet(s, rd, v.v);
    }
  }

  // ----- integer computation -----

  lemma ImmValue(m: Riscv, k: Isa.ImmKind, a: i32, imm: int)
    requires Isa.Imm12(imm) && m.sel == Isa.ImmFunct3(k) && m.immI == imm
    ensures OpImmValue(m, a).Value?
    ensures ToU32(OpImmValue(m, a).v) == Isa.ImmResult(k, ToU32(a), imm)
  {
    hide And, Or, Xor, Shr, Pow2, Isa.OfBits;
    var i: i32 := imm;
    match k
    case ADDI => Alu.Additive(a, i);
    case SLTI => Alu.SignedView(a);
    case SLTIU =>
    case XORI => Alu.XorResult(ToU32(a), ToU32(i));
    case ORI => Alu.OrResult(ToU32(a), ToU32(i));
    case ANDI => Alu.AndResult(ToU32(a), ToU32(i));
  }

  lemma ShiftValue(m: Riscv, k: Isa.ShiftKind, a: i32, shamt: nat)
    requires m.sel == Isa.ShiftFunct3(k) && m.shamt == shamt < 32
    requires k.SLLI? || m.special == if k.SRAI? then 0x20 else 0
    ensures OpImmValue(m, a).Value?
    ensures ToU32(OpImmValue(m, a).v) == Isa.ShiftResult(k, ToU32(a), shamt)
  {
    hide And, Or, Xor, Shr, Pow2, Isa.OfBits;
    match k
    case SLLI => Alu.LeftShift(a, shamt);
    case SRLI => Alu.RightShift(ToU32(a), shamt);
    case SRAI => Alu.SignShift(a, shamt);
  }

  lemma OpImmRefines(s: State, m: Riscv, i: Isa.Instr)
    requires i.OpImm? && Isa.Legal(i) && Represents(m, i)
    ensures Simulates(s, m, i)
  {
    hide OpImmValue, Isa.ImmResult, View, Isa.Read, Isa.Write;
    ViewRead(s, i.rs1);
    var a: i32 := s.gpr[i.rs1];
    ImmValue(m, i.immOp, a, i.imm);
    Writeback(s, i.rd, OpImmValue(m, a), Isa.ImmResult(i.immOp, ToU32(a), i.imm));
  }

  lemma ShiftRefines(s: State, m: Riscv, i: Isa.Instr)
    requires i.Shift? && Isa.Legal(i) && Represents(m, i)
    ensures Simulates(s, m, i)
  {
    hide OpImmValue, Isa.ShiftResult, View, Isa.Read, Isa.Write;
    ViewRead(s, i.rs1);
    var a: i32 := s.gpr[i.rs1];
    ShiftValue(m, i.shift, a, i.shamt);
    Writeback(s, i.rd, OpImmValue(m, a), Isa.ShiftResult(i.shift, ToU32(a), i.shamt));
  }

  lemma AddValue(m: Riscv, k: Isa.OpKind, a: i32, b: i32)
    requires k in {Isa.ADD, Isa.SUB}
    requires m.sel == Isa.OpFunct3(k) && m.special == Isa.OpFunct7(k)
    ensures OpValue(m, a, b).Value? && ToU32(OpValue(m, a, b).v) == Isa.OpResult(k, ToU32(a), ToU32(b))
  {
    hide And, Or, Xor, Shr, Pow2, Isa.OfBits, Isa.Signed, TruncDiv, TruncRem, Isa.Quotient, Isa.Remainder;
    Alu.Additive(a, b);
  }

  lemma CompareValue(m: Riscv, k: Isa.OpKind, a: i32, b: i32)
    requires k in {Isa.SLT, Isa.SLTU}
    requires m.sel == Isa.OpFunct3(k) && m.special == Isa.OpFunct7(k)
    ensures OpValue(m, a, b).Value? && ToU32(OpValue(m, a, b).v) == Isa.OpResult(k, ToU32(a), ToU32(b))
  {
    hide And, Or, Xor, Shr, Pow2, Isa.OfBits, TruncDiv, TruncRem, Isa.Quotient, Isa.Remainder;
    Alu.SignedView(a);
    Alu.SignedView(b);
  }

  lemma ProductValue(m: Riscv, k: Isa.OpKind, a: i32, b: i32)
    requires k in {Isa.MUL, Isa.MULH, Isa.MULHU}
    requires m.sel == Isa.OpFunct3(k) && m.special == Isa.OpFunct7(k)
    ensures OpValue(m, a, b).Value? && ToU32(OpValue(m, a, b).v) == Isa.OpResult(k, ToU32(a), ToU32(b))
  {
    hide And, Or, Xor, Shr, Pow2, Isa.OfBits;
    if k.MUL? {
      Alu.Product(a, b);
    } else if k.MULH? {
      Alu.SignedView(a);
      Alu.SignedView(b);
      Alu.UnsignedOfSigned(a * b / TWO32);
    } else {
      Alu.UnsignedOfSigned(ToU32(a) * ToU32(b) / TWO32);
    }
  }

  lemma BitwiseValue(m: Riscv, k: Isa.OpKind, a: i32, b: i32)
    requires k in {Isa.XOR, Isa.OR, Isa.AND}
    requires m.sel == Isa.OpFunct3(k) && m.special == Isa.OpFunct7(k)
    ensures OpValue(m, a, b).Value? && ToU32(OpValue(m, a, b).v) == Isa.OpResult(k, ToU32(a), ToU32(b))
  {
    hide And, Or, Xor, Shr, Pow2, Isa.OfBits;
    if k.XOR? {
      Alu.XorResult(ToU32(a), ToU32(b));
    } else if k.OR? {
      Alu.OrResult(ToU32(a), ToU32(b));
    } else {
      Alu.AndResult(ToU32(a), ToU32(b));
    }
  }

  lemma RegisterShiftValue(m: Riscv, k: Isa.OpKind, a: i32, b: i32)
    requires k in {Isa.SLL, Isa.SRL, Isa.SRA}
    requires m.sel == Isa.OpFunct3(k) && m.special == Isa.OpFunct7(k)
    ensures OpValue(m, a, b).Value? && ToU32(OpValue(m, a, b).v) == Isa.OpResult(k, ToU32(a), ToU32(b))
  {
    hide And, Or, Xor, Shr, Pow2, Isa.OfBits;
    Powers();
    AndMask(ToU32(b), 5);
    var shamt := ToU32(b) % 32;
    if k.SLL? {
      Alu.LeftShift(a, shamt);
    } else if k.SRL? {
      Alu.RightShift(ToU32(a), shamt);
    } else {
      Alu.SignShift(a, shamt);
    }
  }

  lemma SignedDivisionValue(m: Riscv, k: Isa.OpKind, a: i32, b: i32)
    requires k in {Isa.DIV, Isa.REM}
    requires m.sel == Isa.OpFunct3(k) && m.special == Isa.OpFunct7(k)
    ensures OpValue(m, a, b).Value? <==> Computable(k, a, b)
    ensures Computable(k, a, b) ==> ToU32(OpValue(m, a, b).v) == Isa.OpResult(k, ToU32(a), ToU32(b))
  {
    hide And, Or, Xor, Shr, Pow2, Isa.OfBits;
    Alu.SignedView(a);
    Alu.SignedView(b);
    if b != 0 {
      Alu.TruncIsQuotient(a, b);
      Alu.UnsignedOfSigned(if k.DIV? then TruncDiv(a, b) else TruncRem(a, b));
    }
  }

  lemma UnsignedDivisionValue(m: Riscv, k: Isa.OpKind, a: i32, b: i32)
    requires k in {Isa.DIVU, Isa.REMU}
    requires m.sel == Isa.OpFunct3(k) && m.special == Isa.OpFunct7(k)
    ensures OpValue(m, a, b).Value? <==> Computable(k, a, b)
    ensures Computable(k, a, b) ==> ToU32(OpValue(m, a, b).v) == Isa.OpResult(k, ToU32(a), ToU32(b))
  {
    hide And, Or, Xor, Shr, Pow2, Isa.OfBits;
    Alu.SignedView(b);
    if b != 0 {
      if k.DIVU? {
        Alu.UnsignedOfSigned(ToU32(a) / ToU32(b));
      } else {
        Alu.Narrow(ToU32(a) % ToU32(b));
      }
    }
  }

  lemma DivisionValue(m: Riscv, k: Isa.OpKind, a: i32, b: i32)
    requires k in {Isa.DIV, Isa.DIVU, Isa.REM, Isa.REMU}
    requires m.sel == Isa.OpFunct3(k) && m.special == Isa.OpFunct7(k)
    ensures OpValue(m, a, b).Value? <==> Computable(k, a, b)
    ensures Computable(k, a, b) ==> ToU32(OpValue(m, a, b).v) == Isa.OpResult(k, ToU32(a), ToU32(b))
  {
    if k in {Isa.DIV, Isa.REM} {
      SignedDivisionValue(m, k, a, b);
    } else {
      UnsignedDivisionValue(m, k, a, b);
    }
  }

  lemma OpRefines(s: State, m: Riscv, i: Isa.Instr)
    requires i.Op? && Isa.Legal(i) && Represents(m, i)
    ensures Simulates(s, m, i)
  {
    hide Isa.OpResult, View, Isa.Read, Isa.Write;
    ViewRead(s, i.rs1);
    ViewRead(s, i.rs2);
    var a: i32, b: i32 := s.gpr[i.rs1], s.gpr[i.rs2];
    if Computable(i.op, a, b) {
      OpValueCorrect(m, i.op, a, b);
      Writeback(s, i.rd, OpValue(m, a, b), Isa.OpResult(i.op, ToU32(a), ToU32(b)));
    } else if i.rd == 0 {
      Writeback(s, 0, OpValue(m, a, b), Isa.OpResult(i.op, ToU32(a), ToU32(b)));
    } else if !i.op.MULHSU? {
      DivisionValue(m, i.op, a, b);
    }
  }

  lemma OpValueCorrect(m: Riscv, k: Isa.OpKind, a: i32, b: i32)
    requires Computable(k, a, b)
    requires m.sel == Isa.OpFunct3(k) && m.special == Isa.OpFunct7(k)
    ensures OpValue(m, a, b).Value? && ToU32(OpValue(m, a, b).v) == Isa.OpResult(k, ToU32(a), ToU32(b))
  {
    if k in {Isa.XOR, Isa.OR, Isa.AND} {
      BitwiseValue(m, k, a, b);
    } else if k in {Isa.SLL, Isa.SRL, Isa.SRA} {
      RegisterShiftValue(m, k, a, b);
    } else if k in {Isa.DIV, Isa.DIVU, Isa.REM, Isa.REMU} {
      DivisionValue(m, k, a, b);
    } else if k in {Isa.MUL, Isa.MULH, Isa.MULHU} {
      ProductValue(m, k, a, b);
    } else if k in {Isa.ADD, Isa.SUB} {
      AddValue(m, k, a, b);
    } else {
      CompareValue(m, k, a, b);
    }
  }

  lemma UpperRefines(s: State, m: Riscv, i: Isa.Instr)
    requires (i.Lui? || i.Auipc?) && Isa.Legal(i) && Represents(m, i)
    ensures Simulates(s, m, i)
  {
    hide Isa.Read, Isa.Write, ToI32;
    Alu.UnsignedOfSigned(i.upper * 0x1000);
    Alu.UnsignedOfSigned(ToU32(s.pc + i.upper * 0x1000));
    if i.Lui? {
      Writeback(s, i.rd, Value(ToI32(m.immU)), Isa.Trunc(i.upper * 0x1000));
    } else {
      Writeback(s, i.rd, Value(ToI32(ToU32(s.pc + m.immU))), Isa.Trunc(s.pc + i.upper * 0x1000));
    }
  }

  lemma FenceRefines(s: State, m: Riscv, i: Isa.Instr)
    requires i.Fence? && Isa.Legal(i) && Represents(m, i)
    ensures Simulates(s, m, i)
  {
  }

  // ----- control transfer -----

  lemma LinkView(s: State, rd: nat)
    requires rd < 32
    ensures View(Link(s, rd)) == Isa.Write(View(s), rd, Isa.Trunc(s.pc + 4))
    ensures OnlyArchitectural(s, Link(s, rd)) && Link(s, rd).pc == s.pc
  {
    Alu.UnsignedOfSigned(ToU32(s.pc + 4));
    if rd != 0 {
      ViewSet(s, rd, ToI32(ToU32(s.pc + 4)));
    }
  }

  lemma JalRefines(s: State, m: Riscv, i: Isa.Instr)
    requires i.Jal? && Isa.Legal(i) && Represents(m, i)
    ensures Simulates(s, m, i)
  {
    hide Isa.Write, Link;
    LinkView(s, i.rd);
  }

  lemma EffectiveAddress(a: i32, imm: i32)
    ensures ToU32(ToI32(imm + a)) == Isa.Trunc(ToU32(a) + imm)
  {
    Alu.Additive(a, imm);
  }

  lemma JalrTarget(a: i32, imm: i32)
    ensures var sum := Isa.Trunc(ToU32(a) + imm);
      ToU32(And(ToU32(ToI32(imm + a)), 0xffff_fffe)) == sum - sum % 2
  {
    hide And, ToI32;
    EffectiveAddress(a, imm);
    var t: u32 := ToU32(ToI32(imm + a));
    ClearLowBit(t);
  }

  lemma JalrRefines(s: State, m: Riscv, i: Isa.Instr)
    requires i.Jalr? && Isa.Legal(i) && Represents(m, i)
    ensures Simulates(s, m, i)
  {
    hide Isa.Write, Link, Isa.Read, And, ToI32;
    ViewRead(s, i.rs1);
    JalrTarget(s.gpr[i.rs1], i.imm);
    LinkView(s, i.rd);
  }

  lemma BranchDecision(k: Isa.BranchKind, a: i32, b: i32)
    ensures BranchTaken(Isa.BranchFunct3(k), a, b) == Decided(Isa.Taken(k, ToU32(a), ToU32(b)))
  {
    Alu.SignedView(a);
    Alu.SignedView(b);
  }

  lemma BranchRefines(s: State, m: Riscv, i: Isa.Instr)
    requires i.Branch? && Isa.Legal(i) && Represents(m, i)
    ensures Simulates(s, m, i)
  {
    hide Isa.Read, BranchTaken, Isa.Taken;
    ViewRead(s, i.rs1);
    ViewRead(s, i.rs2);
    BranchDecision(i.cond, s.gpr[i.rs1], s.gpr[i.rs2]);
  }

  // ----- loads and stores -----

  lemma {:induction false} LoadLeIsLoad(m: Memory, a: nat, k: nat)
    requires InRam(a, k)
    ensures Isa.LoadLe(m, a, k) == Load(m, a, k)
    decreases k
  {
    if k > 0 {
      LoadLeIsLoad(m, a + 1, k - 1);
      assert m[a..a + k][1..] == m[a + 1..a + 1 + (k - 1)];
    }
  }

  lemma {:induction false} StoreLeIsStore(m: Memory, a: nat, v: nat, k: nat)
    requires InRam(a, k)
    ensures Isa.StoreLe(m, a, v, k) == Store(m, a, ToLe(v, k))
    decreases k
  {
    if k > 0 {
      var m1: Memory := m[a := v % 0x100];
      StoreLeIsStore(m1, a + 1, v / 0x100, k - 1);
      assert Store(m1, a + 1, ToLe(v / 0x100, k - 1)) == Store(m, a, ToLe(v, k));
    } else {
      assert Store(m, a, []) == m;
    }
  }

  lemma LoadedValue(k: Isa.LoadKind, m: Memory, ea: u32)
    requires InRam(ea, Isa.LoadBytes(k))
    ensures LoadWidth(Isa.LoadFunct3(k)) == Isa.LoadBytes(k)
    ensures ToU32(Extended(Isa.LoadFunct3(k), Load(m, ea, Isa.LoadBytes(k)))) == Isa.LoadResult(k, m, ea)
  {
    hide Load, Isa.LoadLe;
    var v := Load(m, ea, Isa.LoadBytes(k));
    LoadLeIsLoad(m, ea, Isa.LoadBytes(k));
    Alu.UnsignedOfSigned(v);
    Alu.UnsignedOfSigned(if v < 0x80 then v else (v as int) - 0x100);
    Alu.UnsignedOfSigned(if v < 0x8000 then v else (v as int) - 0x1_0000);
  }

  lemma LoadRefines(s: State, m: Riscv, i: Isa.Instr)
    requires i.Load? && Isa.Legal(i) && Represents(m, i)
    ensures Simulates(s, m, i)
  {
    hide Isa.Read, Load, Isa.LoadResult, Extended, ToI32;
    ViewRead(s, i.rs1);
    EffectiveAddress(s.gpr[i.rs1], i.imm);
    var ea := ToU32(ToI32(i.imm + s.gpr[i.rs1]));
    if i.rd != 0 && InRam(ea, Isa.LoadBytes(i.load)) {
      LoadedValue(i.load, s.mem, ea);
      ViewSet(s, i.rd, Extended(Isa.LoadFunct3(i.load), Load(s.mem, ea, Isa.LoadBytes(i.load))));
    }
  }

  lemma StoreRefines(s: State, m: Riscv, i: Isa.Instr)
    requires i.Store? && Isa.Legal(i) && Represents(m, i)
    ensures Simulates(s, m, i)
  {
    hide Isa.Read, Isa.StoreLe, Store, ToLe, ToI32;
    ViewRead(s, i.rs1);
    ViewRead(s, i.rs2);
    EffectiveAddress(s.gpr[i.rs1], i.imm);
    var ea := ToU32(ToI32(i.imm + s.gpr[i.rs1]));
    if InRam(ea, Isa.StoreBytes(i.store)) {
      StoreLeIsStore(s.mem, ea, ToU32(s.gpr[i.rs2]), Isa.StoreBytes(i.store));
    }
  }

  // ----- the theorem -----

  lemma DispatchRefines(s: State, m: Riscv, i: Isa.Instr)
    requires Isa.Legal(i) && Represents(m, i)
    ensures Simulates(s, m, i)
  {
    hide Simulates, Represents, Isa.Encode;
    match i
    case Load(_, _, _, _) => LoadRefines(s, m, i);
    case Store(_, _, _, _) => StoreRefines(s, m, i);
    case OpImm(_, _, _, _) => OpImmRefines(s, m, i);
    case Shift(_, _, _, _) => ShiftRefines(s, m, i);
    case Op(_, _, _, _) => OpRefines(s, m, i);
    case Lui(_, _) => UpperRefines(s, m, i);
    case Auipc(_, _) => UpperRefines(s, m, i);
    case Jal(_, _) => JalRefines(s, m, i);
    case Jalr(_, _, _) => JalrRefines(s, m, i);
    case Branch(_, _, _, _) => BranchRefines(s, m, i);
    case Fence(_) => FenceRefines(s, m, i);
  }

  /** What one step makes of instruction i in the state s in which it is executed: exactly when it is
      defined there the step completes, with the manual's effect and one instruction counted. */
  predicate Obeys(o: Outcome, s: State, i: Isa.Instr)
    requires Isa.Legal(i)
  {
    if Defined(i, View(s)) then
      && o.Running? && o.s.icnt == (s.icnt + 1) % TWO64
      && Agrees(s.(icnt := o.s.icnt), o, Isa.Execute(i, View(s)))
    else o == Stuck(FaultOf(i))
  }

  /** The state in which the word fetched from s is executed, after the host has been attended to. */
  function Ready(s: State, m: Memory, exit: bool): State {
    s.(mem := m, brk := s.brk || exit, lastPc := s.pc)
  }

  lemma ExecuteObeys(s: State, m: Riscv, i: Isa.Instr)
    requires Isa.Legal(i) && Represents(m, i)
    ensures Obeys(Machine.Execute(s, m), s, i)
  {
    hide Dispatch, Represents, Isa.Execute, Defined, View;
    DispatchRefines(s, m, i);
    if Dispatch(s, m).Running? {
      DispatchFrame(s, m);
      CountKeepsView(Dispatch(s, m).s);
    }
  }

  lemma CountKeepsView(t: State)
    ensures View(t.(icnt := (t.icnt + 1) % TWO64)) == View(t)
  {}

  /** Attending to the host, then executing the word fetched before. */
  lemma StepExecutes(cfg: Config, host: Host, s: State)
    ensures Step(cfg, host, s) ==
      if s.pc + 4 > 0x1_0000_0000 then Stuck(OutOfRange)
      else match ActionOf(cfg, host(s.icnt), s.mem)
        case Fails(why) => Stuck(why)
        case Goes(m, exit) => Machine.Execute(Ready(s, m, exit), Decode(Fetched(s)))
  {
    hide Decode, Machine.Execute, Service, ActionOf, Fetched;
    ServiceIsAction(cfg, host, s);
  }

  /** Every RV32IM instruction, in every state and whatever request is pending: either the host stops the
      program, or the instruction that was at pc before the host was attended to has the effect the
      manual gives it, on the memory the host left. */
  lemma StepRefinesIsa(cfg: Config, host: Host, s: State, i: Isa.Instr)
    requires Isa.Legal(i)
    requires s.pc + 4 <= 0x1_0000_0000 && Load(s.mem, s.pc, 4) == Isa.Encode(i)
    ensures match ActionOf(cfg, host(s.icnt), s.mem)
      case Fails(why) => Step(cfg, host, s) == Stuck(why)
      case Goes(m, exit) => Obeys(Step(cfg, host, s), Ready(s, m, exit), i)
  {
    hide Step, Decode, Machine.Execute, ActionOf, Represents, Obeys, Isa.Encode, Ready;
    StepExecutes(cfg, host, s);
    DecodeEncode(Fetched(s), i);
    match ActionOf(cfg, host(s.icnt), s.mem)
    case Fails(_) =>
    case Goes(m, exit) => ExecuteObeys(Ready(s, m, exit), Decode(Fetched(s)), i);
  }
}
