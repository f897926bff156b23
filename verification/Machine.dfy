/** The interpreter as a function on states: one step, the host call it may service first,
    and the bounded run loop. */
module Machine {
  import opened CIntegers
  import opened Ram
  import opened Fields

  type Regs = g: seq<i32> | |g| == 32 witness seq(32, _ => 0)

  /** state_t */
  datatype State = State(pc: u32, lastPc: u32, gpr: Regs, mem: Memory, brk: bool,
                         badAddr: u8, epc: u32, maxicnt: u64, icnt: u64)

  /** state_t after initState with zeroed memory: everything zero but the instruction limit. */
  function Fresh(maxicnt: u64): State {
    State(0, 0, seq(32, _ => 0), ZEROED, false, 0, 0, maxicnt, 0)
  }

  /** Everything is zero, byte for byte, but the limit. */
  lemma FreshIsZero(maxicnt: u64)
    ensures var s := Fresh(maxicnt);
      && s.pc == 0 && s.lastPc == 0 && s.epc == 0 && s.badAddr == 0 && s.icnt == 0 && !s.brk && s.maxicnt == maxicnt
      && (forall r :: 0 <= r < 32 ==> s.gpr[r] == 0)
      && (forall a :: 0 <= a < 0x1_0000_0000 ==> s.mem[a] == 0)
  {}

  /** Why the program cannot go on: assert(0), exit(-1), a division C leaves undefined,
      or an access past the end of guest memory. */
  datatype Fault = AssertionFailure | ExitFailure | UndefinedDivision | OutOfRange

  datatype Outcome = Running(s: State) | Stuck(why: Fault)

  datatype Value = Value(v: i32) | NoValue(why: Fault)

  // ----- the host channel -----

  datatype Globals = Globals(tohostAddr: u32, fromhostAddr: u32)

  type Config = g: Globals | InRam(g.tohostAddr, 8) && InRam(g.fromhostAddr, 8)
    witness Globals(0, 8)

  /** What the operating system answers: a result word and edits of guest memory. */
  datatype Reply = Reply(result: u64, edits: map<u32, u8>)

  /** The answers of the operating system, by the instruction count at the time of the call. */
  type Host = u64 -> Reply

  const SYS_OPEN := 55
  const SYS_CLOSE := 57
  const SYS_LSEEK := 62
  const SYS_READ := 63
  const SYS_WRITE := 64
  const SYS_STAT := 78
  const SYS_FSTAT := 80
  const SYS_GETTIMEOFDAY := 94
  const SYS_TIMES := 95

  predicate Supported(number: nat) {
    number in {SYS_OPEN, SYS_CLOSE, SYS_LSEEK, SYS_READ, SYS_WRITE,
               SYS_STAT, SYS_FSTAT, SYS_GETTIMEOFDAY, SYS_TIMES}
  }

  /** How many 8-byte words of the request the service reads. */
  function RequestWords(number: nat): nat {
    if number == SYS_STAT then 1
    else if number in {SYS_CLOSE, SYS_TIMES} then 2
    else if number in {SYS_OPEN, SYS_FSTAT, SYS_GETTIMEOFDAY} then 3
    else 4
  }

  /** The services that write guest memory besides the result word. */
  predicate EditsMemory(number: nat) {
    number in {SYS_READ, SYS_FSTAT, SYS_GETTIMEOFDAY, SYS_TIMES}
  }

  function Edit(m: Memory, edits: map<u32, u8>): Memory {
    seq(RAM_SIZE, i requires 0 <= i < RAM_SIZE => if i in edits then edits[i] else m[i])
  }

  /** The value the service returns: zero for stat and for closing a standard descriptor, and the
      operating system's answer otherwise. */
  function ResultWord(m: Memory, request: u32, number: nat, reply: Reply): u64
    requires InRam(request, 8 * RequestWords(number))
  {
    if number == SYS_STAT || (number == SYS_CLOSE && Load(m, request + 8, 8) <= 2) then 0 else reply.result
  }

  /** Guest memory after the service has stored its result in the first request word. */
  function Answered(m: Memory, request: u32, number: nat, reply: Reply): Memory
    requires InRam(request, 8 * RequestWords(number))
  {
    var word := ToLe(ResultWord(m, request, number, reply), 8);
    var edits := if EditsMemory(number) then reply.edits else map[];
    if number == SYS_TIMES then Edit(Store(m, request, word), edits)
    else Store(Edit(m, edits), request, word)
  }

  function Acknowledged(cfg: Config, m: Memory): Memory {
    Store(Store(m, cfg.tohostAddr, ToLe(0, 8)), cfg.fromhostAddr, ToLe(1, 8))
  }

  function HandleSyscall(cfg: Config, host: Host, s: State, tohost: u32): Outcome {
    if And(tohost, 1) != 0 then Running(s.(brk := true))
    else if !InRam(tohost, 8) then Stuck(OutOfRange)
    else
      var number := Load(s.mem, tohost, 8);
      if !Supported(number) then Stuck(ExitFailure)
      else if !InRam(tohost, 8 * RequestWords(number)) then Stuck(OutOfRange)
      else Running(s.(mem := Acknowledged(cfg, Answered(s.mem, tohost, number, host(s.icnt)))))
  }

  /** The low word of tohost, which the interpreter polls before each instruction. */
  function Pending(cfg: Config, m: Memory): u32 {
    var w := Load(m, cfg.tohostAddr, 8);
    AndWord(w);
    And(w, 0xffff_ffff)
  }

  // ----- execution -----

  function Set(s: State, rd: Reg, v: i32): State {
    s.(gpr := s.gpr[rd := v])
  }

  function Advance(s: State): State {
    s.(pc := ToU32(s.pc + 4))
  }

  function Flag(b: bool): i32 { if b then 1 else 0 }

  /** The bytes a load may read: 1, 2 or 4; zero for an undefined selector. */
  function LoadWidth(sel: nat): nat {
    if sel in {0, 4} then 1 else if sel in {1, 5} then 2 else if sel == 2 then 4 else 0
  }

  /** Conversion to int8_t and int16_t for lb and lh; the others are zero-extended. */
  function Extended(sel: nat, v: nat): i32 {
    if sel == 0 then ToI32(if v < 0x80 then v else v - 0x100)
    else if sel == 1 then ToI32(if v < 0x8000 then v else v - 0x1_0000)
    else ToI32(v)
  }

  function ExecLoad(s: State, m: Riscv): Outcome {
    if m.rd == 0 then Running(Advance(s))
    else
      var ea := ToU32(ToI32(m.immI + s.gpr[m.rs1]));
      var k := LoadWidth(m.sel);
      if k == 0 then Stuck(AssertionFailure)
      else if !InRam(ea, k) then Stuck(OutOfRange)
      else Running(Advance(Set(s, m.rd, Extended(m.sel, Load(s.mem, ea, k)))))
  }

  function StoreWidth(sel: nat): nat {
    if sel == 0 then 1 else if sel == 1 then 2 else if sel == 2 then 4 else 0
  }

  function StoreAddress(s: State, m: Riscv): u32 {
    ToU32(ToI32(m.immS + s.gpr[m.rs1]))
  }

  function ExecStore(s: State, m: Riscv): Outcome {
    var ea := StoreAddress(s, m);
    var k := StoreWidth(m.sel);
    if k == 0 then Stuck(AssertionFailure)
    else if !InRam(ea, k) then Stuck(OutOfRange)
    else Running(Advance(s.(mem := Store(s.mem, ea, ToLe(ToU32(s.gpr[m.rs2]), k)))))
  }

  function OpImmValue(m: Riscv, a: i32): Value {
    match m.sel
    case 0 => Value(ToI32(a + m.immI))
    case 1 => Value(ToI32(ToU32(a) * Pow2(m.shamt)))
    case 2 => Value(Flag(a < m.immI))
    case 3 => Value(Flag(ToU32(a) < ToU32(m.immI)))
    case 4 => Value(ToI32(Xor(ToU32(a), ToU32(m.immI))))
    case 5 =>
      if m.special == 0 then Value(ToI32(Shr(ToU32(a), m.shamt)))
      else if m.special == 32 then Value(ToI32(a / Pow2(m.shamt)))
      else NoValue(AssertionFailure)
    case 6 => Value(ToI32(Or(ToU32(a), ToU32(m.immI))))
    case _ => Value(ToI32(And(ToU32(a), ToU32(m.immI))))
  }

  /** Signed division is undefined for a zero divisor and when the quotient overflows. */
  predicate DivisionDefined(a: i32, b: i32) {
    b != 0 && !(a == -TWO31 && b == -1)
  }

  function OpValue(m: Riscv, a: i32, b: i32): Value {
    var ua, ub := ToU32(a), ToU32(b);
    var shamt := And(ub, 31);
    match (m.sel, m.special)
    case (0, 0) => Value(ToI32(a + b))
    case (0, 1) => Value(ToI32(a * b))
    case (0, 32) => Value(ToI32(a - b))
    case (1, 0) => Value(ToI32(a * Pow2(shamt)))
    case (1, 1) => Value(ToI32((a * b) / TWO32))
    case (2, 0) => Value(Flag(a < b))
    case (3, 0) => Value(Flag(ua < ub))
    case (3, 1) => Value(ToI32((ua * ub) / TWO32))
    case (4, 0) => Value(ToI32(Xor(ua, ub)))
    case (4, 1) => if DivisionDefined(a, b) then Value(ToI32(TruncDiv(a, b))) else NoValue(UndefinedDivision)
    case (5, 0) => Value(ToI32(Shr(ua, shamt)))
    case (5, 1) => if ub != 0 then Value(ToI32(ua / ub)) else NoValue(UndefinedDivision)
    case (5, 32) => Value(ToI32(a / Pow2(shamt)))
    case (6, 0) => Value(ToI32(Or(ua, ub)))
    case (6, 1) => if DivisionDefined(a, b) then Value(ToI32(TruncRem(a, b))) else NoValue(UndefinedDivision)
    case (7, 0) => Value(ToI32(And(ua, ub)))
    case (7, 1) => if ub != 0 then Value(ToI32(ua % ub)) else NoValue(UndefinedDivision)
    case _ => NoValue(AssertionFailure)
  }

  /** Writes a computed value to rd and goes on; with rd zero nothing is computed at all. */
  function ExecValue(s: State, rd: Reg, v: Value): Outcome {
    if rd == 0 then Running(Advance(s))
    else match v
      case NoValue(why) => Stuck(why)
      case Value(x) => Running(Advance(Set(s, rd, x)))
  }

  function Link(s: State, rd: Reg): State {
    if rd == 0 then s else Set(s, rd, ToI32(ToU32(s.pc + 4)))
  }

  function ExecJalr(s: State, m: Riscv): Outcome {
    var tgt := ToI32(m.immI + s.gpr[m.rs1]);
    Running(Link(s, m.rd).(pc := ToU32(And(ToU32(tgt), 0xffff_fffe))))
  }

  function ExecJal(s: State, m: Riscv): Outcome {
    Running(Link(s, m.rd).(pc := ToU32(s.pc + m.immJ)))
  }

  datatype Decision = Decided(taken: bool) | Undecided

  function BranchTaken(sel: nat, a: i32, b: i32): Decision {
    match sel
    case 0 => Decided(a == b)
    case 1 => Decided(a != b)
    case 4 => Decided(a < b)
    case 5 => Decided(a >= b)
    case 6 => Decided(ToU32(a) < ToU32(b))
    case 7 => Decided(ToU32(a) >= ToU32(b))
    case _ => Undecided
  }

  function ExecBranch(s: State, m: Riscv): Outcome {
    match BranchTaken(m.sel, s.gpr[m.rs1], s.gpr[m.rs2])
    case Undecided => Stuck(AssertionFailure)
    case Decided(taken) => Running(if taken then s.(pc := ToU32(m.immB + s.pc)) else Advance(s))
  }

  predicate IsEcall(m: Riscv) {
    m.opcode == 0x73 && m.ecall
  }

  /** A read of the cycle counter: the only path that writes rd without testing it for zero. */
  predicate IsCycleRead(m: Riscv) {
    m.opcode == 0x73 && !m.ecall && m.csrOp == 2 && m.csr == 0xc00
  }

  function ExecSystem(s: State, m: Riscv): Outcome {
    if m.ecall then Running(s.(brk := true))
    else if m.csrOp == 2 && m.csr == 0xc00 then Running(Advance(Set(s, m.rd, ToI32(s.icnt))))
    else Running(Advance(s))
  }

  function Dispatch(s: State, m: Riscv): Outcome {
    var rs1, rs2 := s.gpr[m.rs1], s.gpr[m.rs2];
    match m.opcode
    case 0x03 => ExecLoad(s, m)
    case 0x0f => Running(Advance(s))
    case 0x13 => ExecValue(s, m.rd, OpImmValue(m, rs1))
    case 0x23 => ExecStore(s, m)
    case 0x37 => ExecValue(s, m.rd, Value(ToI32(m.immU)))
    case 0x17 => ExecValue(s, m.rd, Value(ToI32(ToU32(s.pc + m.immU))))
    case 0x67 => ExecJalr(s, m)
    case 0x6f => ExecJal(s, m)
    case 0x33 => ExecValue(s, m.rd, OpValue(m, rs1, rs2))
    case 0x63 => ExecBranch(s, m)
    case 0x73 => ExecSystem(s, m)
    case _ => Stuck(ExitFailure)
  }

  /** Executes a fetched and decoded word and counts it. */
  function Execute(s: State, m: Riscv): Outcome {
    match Dispatch(s, m)
    case Stuck(why) => Stuck(why)
    case Running(t) => Running(t.(icnt := (t.icnt + 1) % TWO64))
  }

  function Fetched(s: State): u32
    requires InRam(s.pc, 4)
  {
    LoadBound(s.mem, s.pc, 4);
    Pow2Words();
    Load(s.mem, s.pc, 4)
  }

  /** The host request, if there is one, is serviced after the fetch and before execution. */
  function Service(cfg: Config, host: Host, s: State): Outcome {
    var tohost := Pending(cfg, s.mem);
    if tohost == 0 then Running(s) else HandleSyscall(cfg, host, s, tohost)
  }

  function Step(cfg: Config, host: Host, s: State): Outcome {
    if !InRam(s.pc, 4) then Stuck(OutOfRange)
    else match Service(cfg, host, s)
      case Stuck(why) => Stuck(why)
      case Running(t) => Execute(t.(lastPc := t.pc), Decode(Fetched(s)))
  }

  /** The guard of the run loop. */
  predicate Continues(s: State, limit: u64) {
    !s.brk && s.icnt < s.maxicnt && s.icnt < limit
  }
}
