/** What single instructions do to the machine when no host request is pending. */
module Effects {
  import opened CIntegers
  import opened Ram
  import opened Fields
  import opened Machine
  import opened Decoding
  import Isa

  /** The word at pc is instruction i and no host request is pending. */
  predicate About(cfg: Config, s: State, i: Isa.Instr)
    requires Isa.Legal(i)
  {
    InRam(s.pc, 4) && Load(s.mem, s.pc, 4) == Isa.Encode(i) && Pending(cfg, s.mem) == 0
  }

  /** The state after an instruction that goes on to the next one: memory, registers and pc aside,
      only last_pc and icnt change. */
  function Done(s: State, pc: u32, gpr: Regs, mem: Memory): State {
    s.(lastPc := s.pc, pc := pc, gpr := gpr, mem := mem, icnt := (s.icnt + 1) % TWO64)
  }

  function NextPc(s: State): u32 { ToU32(s.pc + 4) }

  lemma StepIs(cfg: Config, host: Host, s: State, i: Isa.Instr) returns (m: Riscv)
    requires Isa.Legal(i) && About(cfg, s, i)
    ensures Represents(m, i) && Step(cfg, host, s) == Execute(s.(lastPc := s.pc), m)
  {
    hide Decode, Execute, Pending, HandleSyscall, Load, Represents, Isa.Encode;
    m := Decode(Fetched(s));
    DecodeEncode(Fetched(s), i);
  }

  lemma AuipcEffect(cfg: Config, host: Host, s: State, rd: nat, upper: nat)
    requires 0 < rd < 32 && upper < 0x10_0000 && About(cfg, s, Isa.Auipc(rd, upper))
    ensures Step(cfg, host, s)
         == Running(Done(s, NextPc(s), s.gpr[rd := ToI32(ToU32(s.pc + upper * 0x1000))], s.mem))
  {
    hide Step, About, ToU32, ToI32, OpValue, OpImmValue;
    var m := StepIs(cfg, host, s, Isa.Auipc(rd, upper));
  }

  lemma LuiEffect(cfg: Config, host: Host, s: State, rd: nat, upper: nat)
    requires 0 < rd < 32 && upper < 0x10_0000 && About(cfg, s, Isa.Lui(rd, upper))
    ensures Step(cfg, host, s) == Running(Done(s, NextPc(s), s.gpr[rd := ToI32(upper * 0x1000)], s.mem))
  {
    hide Step, About, ToU32, ToI32, OpValue, OpImmValue;
    var m := StepIs(cfg, host, s, Isa.Lui(rd, upper));
  }

  lemma AddiEffect(cfg: Config, host: Host, s: State, rd: nat, rs1: nat, imm: int)
    requires 0 < rd < 32 && rs1 < 32 && Isa.Imm12(imm) && About(cfg, s, Isa.OpImm(Isa.ADDI, rd, rs1, imm))
    ensures Step(cfg, host, s) == Running(Done(s, NextPc(s), s.gpr[rd := ToI32(s.gpr[rs1] + imm)], s.mem))
  {
    hide Step, About, ToU32, ToI32, OpValue;
    var m := StepIs(cfg, host, s, Isa.OpImm(Isa.ADDI, rd, rs1, imm));
  }

  lemma JalrEffect(cfg: Config, host: Host, s: State, rd: nat, rs1: nat, imm: int)
    requires rd < 32 && rs1 < 32 && Isa.Imm12(imm) && About(cfg, s, Isa.Jalr(rd, rs1, imm))
    ensures var target := And(ToU32(ToI32(imm + s.gpr[rs1])), 0xffff_fffe);
      Step(cfg, host, s) == Running(Done(s, ToU32(target),
        if rd == 0 then s.gpr else s.gpr[rd := ToI32(NextPc(s))], s.mem))
  {
    hide Step, About, ToU32, ToI32, OpValue, OpImmValue, And;
    var m := StepIs(cfg, host, s, Isa.Jalr(rd, rs1, imm));
  }

  /** With rd zero nothing is read, so that no address is out of range. */
  lemma LoadEffect(cfg: Config, host: Host, s: State, k: Isa.LoadKind, rd: nat, rs1: nat, imm: int)
    requires rd < 32 && rs1 < 32 && Isa.Imm12(imm) && About(cfg, s, Isa.Load(k, rd, rs1, imm))
    ensures var ea := ToU32(ToI32(imm + s.gpr[rs1]));
      Step(cfg, host, s) ==
        if rd == 0 then Running(Done(s, NextPc(s), s.gpr, s.mem))
        else if !InRam(ea, Isa.LoadBytes(k)) then Stuck(OutOfRange)
        else Running(Done(s, NextPc(s),
               s.gpr[rd := Extended(Isa.LoadFunct3(k), Load(s.mem, ea, Isa.LoadBytes(k)))], s.mem))
  {
    hide Step, About, ToU32, ToI32, OpValue, OpImmValue, Load, Extended;
    var m := StepIs(cfg, host, s, Isa.Load(k, rd, rs1, imm));
  }

  lemma StoreEffect(cfg: Config, host: Host, s: State, k: Isa.StoreKind, rs1: nat, rs2: nat, imm: int)
    requires rs1 < 32 && rs2 < 32 && Isa.Imm12(imm) && About(cfg, s, Isa.Store(k, rs1, rs2, imm))
    ensures var ea := ToU32(ToI32(imm + s.gpr[rs1]));
      Step(cfg, host, s) ==
        if !InRam(ea, Isa.StoreBytes(k)) then Stuck(OutOfRange)
        else Running(Done(s, NextPc(s), s.gpr, Store(s.mem, ea, ToLe(ToU32(s.gpr[rs2]), Isa.StoreBytes(k)))))
  {
    hide Step, About, ToU32, ToI32, OpValue, OpImmValue, Store, ToLe;
    var m := StepIs(cfg, host, s, Isa.Store(k, rs1, rs2, imm));
  }
}
