/** What holds over whole runs of the interpreter. */
module Runs {
  import opened CIntegers
  import opened Ram
  import opened Fields
  import opened Machine

  // ----- what one step leaves alone -----

  lemma DispatchFrame(s: State, m: Riscv)
    requires Dispatch(s, m).Running?
    ensures var t := Dispatch(s, m).s;
      t == s.(pc := t.pc, gpr := t.gpr, mem := t.mem, brk := s.brk || IsEcall(m))
  {
    hide OpValue, OpImmValue, Load, Store, Extended, ToLe, And, BranchTaken;
  }

  predicate ExitRequested(cfg: Config, s: State) {
    Pending(cfg, s.mem) % 2 == 1
  }

  lemma OddMask(n: nat)
    ensures And(n, 1) == n % 2
  {
    AndMask(n, 1);
  }

  /** What a completed step changes: it counts one instruction and never resets brk. */
  lemma StepFrame(cfg: Config, host: Host, s: State)
    requires Step(cfg, host, s).Running?
    ensures var t := Step(cfg, host, s).s;
      && t == s.(pc := t.pc, gpr := t.gpr, mem := t.mem, brk := t.brk, lastPc := s.pc, icnt := (s.icnt + 1) % TWO64)
      && (s.brk ==> t.brk)
  {
    hide Decode, Dispatch, And, Fetched, IsEcall, Answered, Acknowledged, Pending;
    var t := Service(cfg, host, s).s;
    DispatchFrame(t.(lastPc := t.pc), Decode(Fetched(s)));
  }

  /** A step sets brk exactly on an exit request or an ECALL. */
  lemma StepBreaks(cfg: Config, host: Host, s: State)
    requires Step(cfg, host, s).Running?
    ensures Step(cfg, host, s).s.brk <==> s.brk || ExitRequested(cfg, s) || IsEcall(Decode(Fetched(s)))
  {
    hide Decode, Dispatch, And, IsEcall;
    OddMask(Pending(cfg, s.mem));
    var t := Service(cfg, host, s).s;
    DispatchFrame(t.(lastPc := t.pc), Decode(Fetched(s)));
  }

  // ----- the run loop -----

  /** runRiscv: steps until brk is set or a limit is reached. */
  function Run(cfg: Config, host: Host, s: State, limit: u64): Outcome
    decreases if s.icnt < limit then limit - s.icnt else 0
  {
    hide Step;
    if !Continues(s, limit) then Running(s)
    else match Step(cfg, host, s)
      case Stuck(why) => Stuck(why)
      case Running(t) =>
        StepFrame(cfg, host, s);
        Run(cfg, host, t, limit)
  }

  function Min(a: u64, b: u64): u64 { if a < b then a else b }

  /** A run ends, either with brk set or with icnt exactly at the smaller limit. */
  lemma {:induction false} RunStops(cfg: Config, host: Host, s: State, limit: u64)
    requires Run(cfg, host, s, limit).Running?
    ensures var t := Run(cfg, host, s, limit).s;
      && !Continues(t, limit) && t.maxicnt == s.maxicnt && s.icnt <= t.icnt && (s.brk ==> t == s)
      && (Continues(s, limit) ==> s.icnt < t.icnt <= Min(s.maxicnt, limit))
      && (Continues(s, limit) && !t.brk ==> t.icnt == Min(s.maxicnt, limit))
    decreases if s.icnt < limit then limit - s.icnt else 0
  {
    hide Step;
    if Continues(s, limit) {
      StepFrame(cfg, host, s);
      RunStops(cfg, host, Step(cfg, host, s).s, limit);
    }
  }

  function Then(o: Outcome, cfg: Config, host: Host, limit: u64): Outcome {
    match o
    case Stuck(why) => Stuck(why)
    case Running(t) => Run(cfg, host, t, limit)
  }

  /** Running to n1 and from there to n2 is running straight to n2. */
  lemma {:induction false} RunComposes(cfg: Config, host: Host, s: State, n1: u64, n2: u64)
    requires n1 <= n2
    ensures Run(cfg, host, s, n2) == Then(Run(cfg, host, s, n1), cfg, host, n2)
    decreases if s.icnt < n1 then n1 - s.icnt else 0
  {
    hide Step;
    if Continues(s, n1) && Step(cfg, host, s).Running? {
      StepFrame(cfg, host, s);
      RunComposes(cfg, host, Step(cfg, host, s).s, n1, n2);
    }
  }

  /** A run gets stuck exactly as the step does from some state that it reaches. */
  lemma {:induction false} RunStuckAt(cfg: Config, host: Host, s: State, limit: u64) returns (n: u64)
    requires Run(cfg, host, s, limit).Stuck?
    ensures s.icnt <= n < limit && Run(cfg, host, s, n).Running?
    ensures Continues(Run(cfg, host, s, n).s, limit)
    ensures Step(cfg, host, Run(cfg, host, s, n).s) == Run(cfg, host, s, limit)
    decreases if s.icnt < limit then limit - s.icnt else 0
  {
    hide Step;
    n := s.icnt;
    if Step(cfg, host, s).Running? {
      StepFrame(cfg, host, s);
      n := RunStuckAt(cfg, host, Step(cfg, host, s).s, limit);
    }
  }

  /** With brk clear and an instruction left under the limit, running for one more instruction is a step. */
  lemma RunOnce(cfg: Config, host: Host, s: State)
    requires !s.brk && s.icnt < s.maxicnt
    ensures Run(cfg, host, s, s.icnt + 1) == Step(cfg, host, s)
  {
    hide Step;
    if Step(cfg, host, s).Running? {
      StepFrame(cfg, host, s);
    }
  }

  lemma ExitStep(cfg: Config, host: Host, s: State)
    requires ExitRequested(cfg, s)
    ensures Step(cfg, host, s)
         == if InRam(s.pc, 4) then Execute(s.(brk := true, lastPc := s.pc), Decode(Fetched(s))) else Stuck(OutOfRange)
  {
    OddMask(Pending(cfg, s.mem));
    hide Decode, Execute, And;
  }

  /** An odd tohost word seen by the loop lets exactly the instruction at pc retire: the whole run is
      the effect of the word already fetched, with brk set and on memory as the guest left it, whatever
      the limit and the host; it ends with brk set and icnt one higher, or in that word's fault. */
  lemma ExitRetiresOne(cfg: Config, host: Host, s: State, limit: u64)
    requires Continues(s, limit) && ExitRequested(cfg, s)
    ensures Run(cfg, host, s, limit)
         == if InRam(s.pc, 4) then Execute(s.(brk := true, lastPc := s.pc), Decode(Fetched(s))) else Stuck(OutOfRange)
    ensures Run(cfg, host, s, limit).Running? ==>
      Run(cfg, host, s, limit).s.brk && Run(cfg, host, s, limit).s.icnt == s.icnt + 1
  {
    hide Step, Decode, IsEcall, Execute, ExitRequested;
    ExitStep(cfg, host, s);
    if Step(cfg, host, s).Running? {
      StepFrame(cfg, host, s);
      StepBreaks(cfg, host, s);
    }
  }

  // ----- the program counter stays even -----

  lemma OrEven(a: nat, b: nat)
    requires a % 2 == 0 && b % 2 == 0
    ensures Or(a, b) % 2 == 0
  {
    OrBit(a, b, 0);
  }

  lemma Parity(n: int)
    ensures ToI32(n) % 2 == n % 2 && ToU32(n) % 2 == n % 2
  {
    var k, j := (n + TWO31) / TWO32, n / TWO32;
    DivModUnique(ToI32(n), 2, n / 2 - k * 0x8000_0000, n % 2);
    DivModUnique(ToU32(n), 2, n / 2 - j * 0x8000_0000, n % 2);
  }

  lemma EvenJoin(a: nat, b: nat, c: nat, d: nat, ones: nat)
    requires a % 2 == 0 && b % 2 == 0 && c % 2 == 0 && d % 2 == 0 && ones % 2 == 0
    ensures var v := Or(Or(Or(a, b), c), d); v % 2 == 0 && Or(v, ones) % 2 == 0
  {
    hide Or;
    OrEven(a, b);
    OrEven(Or(a, b), c);
    OrEven(Or(Or(a, b), c), d);
    OrEven(Or(Or(Or(a, b), c), d), ones);
  }

  lemma EvenMultiples(a: nat)
    ensures a * 0x2 % 2 == 0 && a * 0x20 % 2 == 0 && a * 0x800 % 2 == 0
    ensures a * 0x1000 % 2 == 0 && a * 0x10_0000 % 2 == 0
  {
    DivModUnique(a * 0x20, 2, a * 0x10, 0);
    DivModUnique(a * 0x800, 2, a * 0x400, 0);
    DivModUnique(a * 0x1000, 2, a * 0x800, 0);
    DivModUnique(a * 0x10_0000, 2, a * 0x8_0000, 0);
  }

  lemma EvenB(inst: u32)
    ensures ImmB(inst) % 2 == 0
  {
    EvenMultiples(Field(inst, 8, 4));
    EvenMultiples(Field(inst, 25, 6));
    EvenMultiples(Field(inst, 7, 1));
    EvenMultiples(Field(inst, 31, 1));
    hide Field, Or, ToI32;
    var b0, b1, b2, b3 := Field(inst, 8, 4) * 0x2, Field(inst, 25, 6) * 0x20,
                          Field(inst, 7, 1) * 0x800, Field(inst, 31, 1) * 0x1000;
    EvenJoin(b0, b1, b2, b3, 0xffff_e000);
    var d := Or(Or(Or(b0, b1), b2), b3);
    Parity(d);
    Parity(Or(d, 0xffff_e000));
  }

  lemma EvenJ(inst: u32)
    ensures ImmJ(inst) % 2 == 0
  {
    EvenMultiples(Field(inst, 21, 10));
    EvenMultiples(Field(inst, 20, 1));
    EvenMultiples(Field(inst, 12, 8));
    EvenMultiples(Field(inst, 31, 1));
    hide Field, Or, ToI32, SignBit;
    var j0, j1, j2, j3 := Field(inst, 21, 10) * 0x2, Field(inst, 20, 1) * 0x800,
                          Field(inst, 12, 8) * 0x1000, Field(inst, 31, 1) * 0x10_0000;
    EvenJoin(j0, j1, j2, j3, 0xffe0_0000);
    var d := Or(Or(Or(j0, j1), j2), j3);
    Parity(d);
    Parity(Or(d, 0xffe0_0000));
  }

  lemma AndEvenMask(t: u32)
    ensures And(t, 0xffff_fffe) % 2 == 0
  {
    AndBit(t, 0xffff_fffe, 0);
  }

  lemma SumEven(a: int, b: int)
    requires a % 2 == 0 && b % 2 == 0
    ensures (a + b) % 2 == 0
  {
    DivModUnique(a + b, 2, a / 2 + b / 2, 0);
  }

  lemma EvenSum(a: int, b: int)
    requires a % 2 == 0 && b % 2 == 0
    ensures ToU32(a + b) % 2 == 0
  {
    hide ToU32;
    Parity(a + b);
    SumEven(a, b);
  }

  lemma AdvanceEven(s: State)
    requires s.pc % 2 == 0
    ensures Advance(s).pc % 2 == 0
  {
    EvenSum(s.pc, 4);
  }

  lemma EvenTarget(t: u32)
    ensures ToU32(And(t, 0xffff_fffe)) % 2 == 0
  {
    AndEvenMask(t);
    hide And, ToU32;
    Parity(And(t, 0xffff_fffe));
  }

  lemma JalrEven(s: State, m: Riscv)
    ensures ExecJalr(s, m).s.pc % 2 == 0
  {
    hide And, ToI32, ToU32, Link;
    EvenTarget(ToU32(ToI32(m.immI + s.gpr[m.rs1])));
  }

  lemma JalEven(s: State, m: Riscv)
    requires s.pc % 2 == 0 && m.immJ % 2 == 0
    ensures ExecJal(s, m).s.pc % 2 == 0
  {
    hide ToU32, Link;
    EvenSum(s.pc, m.immJ);
  }

  lemma BranchEven(s: State, m: Riscv)
    requires s.pc % 2 == 0 && m.immB % 2 == 0 && ExecBranch(s, m).Running?
    ensures ExecBranch(s, m).s.pc % 2 == 0
  {
    AdvanceEven(s);
    hide BranchTaken, Advance, ToU32;
    EvenSum(m.immB, s.pc);
  }

  lemma DispatchEven(s: State, m: Riscv)
    requires s.pc % 2 == 0 && m.immB % 2 == 0 && m.immJ % 2 == 0 && Dispatch(s, m).Running?
    ensures Dispatch(s, m).s.pc % 2 == 0
  {
    hide OpValue, OpImmValue, ExecJalr, ExecJal, ExecBranch, Load, Store, Extended, ToLe, Pow2;
    AdvanceEven(s);
    JalrEven(s, m);
    JalEven(s, m);
    if m.opcode == 0x63 {
      BranchEven(s, m);
    }
  }

  /** pc stays even through a step whatever it executes. */
  lemma StepEven(cfg: Config, host: Host, s: State)
    requires s.pc % 2 == 0 && Step(cfg, host, s).Running?
    ensures Step(cfg, host, s).s.pc % 2 == 0
  {
    EvenB(Fetched(s));
    EvenJ(Fetched(s));
    var m := Decode(Fetched(s));
    hide Decode, Dispatch, ImmB, ImmJ, Fetched, Answered, Acknowledged, Pending, And;
    var u := Service(cfg, host, s).s;
    DispatchEven(u.(lastPc := u.pc), m);
  }

  lemma {:induction false} PcStaysEven(cfg: Config, host: Host, s: State, limit: u64)
    requires s.pc % 2 == 0 && Run(cfg, host, s, limit).Running?
    ensures Run(cfg, host, s, limit).s.pc % 2 == 0
    decreases if s.icnt < limit then limit - s.icnt else 0
  {
    hide Step;
    if Continues(s, limit) {
      StepEven(cfg, host, s);
      StepFrame(cfg, host, s);
      PcStaysEven(cfg, host, Step(cfg, host, s).s, limit);
    }
  }

  // ----- register zero -----

  /** A cycle-counter read into register zero. */
  predicate ClobbersZero(s: State) {
    InRam(s.pc, 4) && IsCycleRead(Decode(Fetched(s))) && Decode(Fetched(s)).rd == 0
  }

  /** One step from a zero register zero leaves it zero exactly when it is not a cycle read into it,
      or the low word of icnt happens to be zero. */
  lemma ZeroAfterStep(cfg: Config, host: Host, s: State)
    requires s.gpr[0] == 0 && Step(cfg, host, s).Running?
    ensures Step(cfg, host, s).s.gpr[0] == if ClobbersZero(s) then ToI32(s.icnt) else 0
    ensures Step(cfg, host, s).s.gpr[0] == 0 <==> !ClobbersZero(s) || s.icnt % TWO32 == 0
  {
    hide Decode, Dispatch, And;
    var u := Service(cfg, host, s).s;
    DispatchZero(u.(lastPc := u.pc), Decode(Fetched(s)));
  }

  lemma DispatchZero(s: State, m: Riscv)
    requires s.gpr[0] == 0 && Dispatch(s, m).Running?
    ensures Dispatch(s, m).s.gpr[0] == if IsCycleRead(m) && m.rd == 0 then ToI32(s.icnt) else 0
  {}

  /** No instruction executed before the run stops is a cycle read into register zero. */
  predicate NeverClobbers(cfg: Config, host: Host, s: State, limit: u64)
    decreases if s.icnt < limit then limit - s.icnt else 0
  {
    hide Step, ClobbersZero;
    Continues(s, limit) ==>
      && !ClobbersZero(s)
      && match Step(cfg, host, s)
         case Stuck(_) => true
         case Running(t) =>
           StepFrame(cfg, host, s);
           NeverClobbers(cfg, host, t, limit)
  }

  lemma {:induction false} ZeroStaysZero(cfg: Config, host: Host, s: State, limit: u64)
    requires s.gpr[0] == 0 && NeverClobbers(cfg, host, s, limit) && Run(cfg, host, s, limit).Running?
    ensures Run(cfg, host, s, limit).s.gpr[0] == 0
    decreases if s.icnt < limit then limit - s.icnt else 0
  {
    hide Step, ClobbersZero;
    if Continues(s, limit) {
      ZeroAfterStep(cfg, host, s);
      StepFrame(cfg, host, s);
      ZeroStaysZero(cfg, host, Step(cfg, host, s).s, limit);
    }
  }

  /** Register zero is zero in every state of the run. */
  predicate AlwaysZero(cfg: Config, host: Host, s: State, limit: u64)
    decreases if s.icnt < limit then limit - s.icnt else 0
  {
    hide Step;
    s.gpr[0] == 0 &&
    (Continues(s, limit) ==>
       match Step(cfg, host, s)
       case Stuck(_) => true
       case Running(t) =>
         StepFrame(cfg, host, s);
         AlwaysZero(cfg, host, t, limit))
  }

  /** Every cycle read into register zero that completes finds the low word of icnt zero. */
  predicate ReadsZero(cfg: Config, host: Host, s: State, limit: u64)
    decreases if s.icnt < limit then limit - s.icnt else 0
  {
    hide Step, ClobbersZero;
    Continues(s, limit) ==>
      match Step(cfg, host, s)
      case Stuck(_) => true
      case Running(t) =>
        StepFrame(cfg, host, s);
        (ClobbersZero(s) ==> s.icnt % TWO32 == 0) && ReadsZero(cfg, host, t, limit)
  }

  /** Over a whole run, register zero is always zero exactly when no cycle read could make it otherwise. */
  lemma {:induction false} AlwaysZeroIff(cfg: Config, host: Host, s: State, limit: u64)
    requires s.gpr[0] == 0
    ensures AlwaysZero(cfg, host, s, limit) <==> ReadsZero(cfg, host, s, limit)
    decreases if s.icnt < limit then limit - s.icnt else 0
  {
    hide Step, ClobbersZero;
    if Continues(s, limit) && Step(cfg, host, s).Running? {
      var t := Step(cfg, host, s).s;
      ZeroAfterStep(cfg, host, s);
      StepFrame(cfg, host, s);
      if t.gpr[0] == 0 {
        AlwaysZeroIff(cfg, host, t, limit);
      }
    }
  }

  // ----- what a step does not look at -----

  /** Equal but for the fields no instruction reads: last_pc, epc and bad_addr. */
  predicate SameGuest(s: State, t: State) {
    t == s.(lastPc := t.lastPc, epc := t.epc, badAddr := t.badAddr)
  }

  predicate SameOutcome(a: Outcome, b: Outcome) {
    match (a, b)
    case (Running(s), Running(t)) => SameGuest(s, t)
    case (Stuck(v), Stuck(w)) => v == w
    case _ => false
  }

  lemma LoadIgnores(s: State, t: State, m: Riscv)
    requires SameGuest(s, t)
    ensures SameOutcome(ExecLoad(s, m), ExecLoad(t, m))
  {
    hide Load, Extended;
  }

  lemma StoreIgnores(s: State, t: State, m: Riscv)
    requires SameGuest(s, t)
    ensures SameOutcome(ExecStore(s, m), ExecStore(t, m))
  {
    hide Store, ToLe;
  }

  lemma ValueIgnores(s: State, t: State, rd: Reg, v: Value)
    requires SameGuest(s, t)
    ensures SameOutcome(ExecValue(s, rd, v), ExecValue(t, rd, v))
  {}

  lemma JumpIgnores(s: State, t: State, m: Riscv)
    requires SameGuest(s, t)
    ensures SameOutcome(ExecJalr(s, m), ExecJalr(t, m)) && SameOutcome(ExecJal(s, m), ExecJal(t, m))
    ensures SameOutcome(ExecBranch(s, m), ExecBranch(t, m)) && SameOutcome(ExecSystem(s, m), ExecSystem(t, m))
  {
    hide And, BranchTaken;
  }

  lemma DispatchIgnores(s: State, t: State, m: Riscv)
    requires SameGuest(s, t)
    ensures SameOutcome(Dispatch(s, m), Dispatch(t, m))
  {
    hide OpValue, OpImmValue, ExecLoad, ExecStore, ExecValue, ExecJalr, ExecJal, ExecBranch, ExecSystem;
    LoadIgnores(s, t, m);
    StoreIgnores(s, t, m);
    JumpIgnores(s, t, m);
    ValueIgnores(s, t, m.rd, OpImmValue(m, s.gpr[m.rs1]));
    ValueIgnores(s, t, m.rd, OpValue(m, s.gpr[m.rs1], s.gpr[m.rs2]));
    ValueIgnores(s, t, m.rd, Value(ToI32(m.immU)));
    ValueIgnores(s, t, m.rd, Value(ToI32(ToU32(s.pc + m.immU))));
  }

  lemma StepIgnores(cfg: Config, host: Host, s: State, t: State)
    requires SameGuest(s, t)
    ensures SameOutcome(Step(cfg, host, s), Step(cfg, host, t))
  {
    hide Decode, Dispatch, And;
    hide OpValue, OpImmValue, Load, Store, And;
    if InRam(s.pc, 4) && Service(cfg, host, s).Running? {
      var a, b := Service(cfg, host, s).s, Service(cfg, host, t).s;
      DispatchIgnores(a.(lastPc := a.pc), b.(lastPc := b.pc), Decode(Fetched(s)));
    }
  }

  lemma {:induction false} RunIgnores(cfg: Config, host: Host, s: State, t: State, limit: u64)
    requires SameGuest(s, t)
    ensures SameOutcome(Run(cfg, host, s, limit), Run(cfg, host, t, limit))
    decreases if s.icnt < limit then limit - s.icnt else 0
  {
    hide Step;
    if Continues(s, limit) {
      StepIgnores(cfg, host, s, t);
      if Step(cfg, host, s).Running? {
        StepFrame(cfg, host, s);
        RunIgnores(cfg, host, Step(cfg, host, s).s, Step(cfg, host, t).s, limit);
      }
    }
  }
}
