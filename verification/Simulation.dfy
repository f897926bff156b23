/** Whole runs of the interpreter are runs of the RV32IM machine of the manual beside a host that may
    change memory between a fetch and its execution, and conversely. */
module Simulation {
  import opened CIntegers
  import opened Ram
  import opened Machine
  import opened Runs
  import opened HostChannel
  import opened Refinement
  import Isa

  /** Instruction i is encoded at pc, the host attends to its channel and lets the guest go on with
      memory m, and i, executed there, retires. */
  predicate Retires(cfg: Config, reply: Reply, st: Isa.IsaState, i: Isa.Instr, m: Memory)
    requires Isa.Valid(st)
  {
    && Isa.Legal(i) && st.pc + 4 <= 0x1_0000_0000 && Isa.LoadLe(st.mem, st.pc, 4) == Isa.Encode(i)
    && ActionOf(cfg, reply, st.mem) == Goes(m, false)
    && Isa.Execute(i, st.(mem := m)).Retired?
  }

  /** The memory in which the word fetched from st.mem is executed. */
  function AfterHost(cfg: Config, reply: Reply, m: Memory): Memory {
    match ActionOf(cfg, reply, m)
    case Goes(m', _) => m'
    case Fails(_) => m
  }

  /** From instruction count n on, the manual's machine executes the instructions of prog one after the
      other and ends in the given state, fetching each from its own memory before the host attends to
      its channel; the interpreter supports each of them where it is executed. */
  predicate Executes(cfg: Config, host: Host, n: u64, st: Isa.IsaState, prog: seq<Isa.Instr>, end: Isa.IsaState)
    decreases |prog|
  {
    Isa.Valid(st) &&
    if prog == [] then end == st
    else
      var i, m := prog[0], AfterHost(cfg, host(n), st.mem);
      && Retires(cfg, host(n), st, i, m) && Defined(i, st.(mem := m))
      && n + 1 < TWO64
      && Executes(cfg, host, n + 1, Isa.Execute(i, st.(mem := m)).st, prog[1..], end)
  }

  lemma ViewWithMemory(s: State, m: Memory, exit: bool)
    ensures View(s).(mem := m) == View(Ready(s, m, exit)) && View(s).mem == s.mem && View(s).pc == s.pc
  {}

  /** One instruction of the manual's machine is one step of the interpreter, and a step that completes
      is one instruction that the interpreter supports. */
  lemma StepFollows(cfg: Config, host: Host, s: State, i: Isa.Instr, m: Memory)
    requires Retires(cfg, host(s.icnt), View(s), i, m)
    ensures Step(cfg, host, s).Running? <==> Defined(i, View(s).(mem := m))
    ensures Step(cfg, host, s).Running? ==>
      var t := Step(cfg, host, s).s;
      && View(t) == Isa.Execute(i, View(s).(mem := m)).st
      && t.brk == s.brk && t.maxicnt == s.maxicnt && t.icnt == (s.icnt + 1) % TWO64
  {
    hide Step, Isa.Execute, Isa.Encode, Isa.LoadLe, Load, ActionOf, Defined, View;
    ViewWithMemory(s, m, false);
    LoadLeIsLoad(s.mem, s.pc, 4);
    StepRefinesIsa(cfg, host, s, i);
  }

  /** Every execution of the manual's machine, of any length, is matched by the interpreter's run of
      that many instructions, whatever host calls it makes. */
  lemma {:induction false} RunRefinesIsa(cfg: Config, host: Host, s: State, prog: seq<Isa.Instr>, end: Isa.IsaState)
    requires !s.brk && s.icnt + |prog| <= s.maxicnt
    requires Executes(cfg, host, s.icnt, View(s), prog, end)
    ensures Run(cfg, host, s, s.icnt + |prog|).Running?
    ensures var t := Run(cfg, host, s, s.icnt + |prog|).s;
      View(t) == end && t.icnt == s.icnt + |prog| && !t.brk
    decreases |prog|
  {
    hide Step, Isa.Execute, Retires, View, ActionOf, Defined, AfterHost;
    if prog != [] {
      StepFollows(cfg, host, s, prog[0], AfterHost(cfg, host(s.icnt), View(s).mem));
      RunRefinesIsa(cfg, host, Step(cfg, host, s).s, prog[1..], end);
    }
  }

  // ----- and back -----

  /** The word at pc is the encoding of an instruction whose jump target, if any, is aligned, and the
      guest is not about to exit; nothing is said about whether the interpreter supports it. */
  ghost predicate Ordinary(cfg: Config, host: Host, s: State) {
    exists i :: Retires(cfg, host(s.icnt), View(s), i, AfterHost(cfg, host(s.icnt), s.mem))
  }

  /** Every step of the run starts from such a state. */
  ghost predicate OrdinaryRun(cfg: Config, host: Host, s: State, limit: u64)
    decreases if s.icnt < limit then limit - s.icnt else 0
  {
    hide Step, Ordinary;
    Continues(s, limit) ==>
      && Ordinary(cfg, host, s)
      && match Step(cfg, host, s)
         case Stuck(_) => true
         case Running(t) =>
           StepFrame(cfg, host, s);
           OrdinaryRun(cfg, host, t, limit)
  }

  /** Every completed run of the interpreter over ordinary instructions is an execution of the manual's
      machine, of one instruction for each step, and every one of them was supported. */
  lemma {:induction false} RunIsExecution(cfg: Config, host: Host, s: State, limit: u64)
    returns (prog: seq<Isa.Instr>)
    requires OrdinaryRun(cfg, host, s, limit) && Run(cfg, host, s, limit).Running?
    ensures var t := Run(cfg, host, s, limit).s;
      |prog| == t.icnt - s.icnt && Executes(cfg, host, s.icnt, View(s), prog, View(t))
    decreases if s.icnt < limit then limit - s.icnt else 0
  {
    hide Step, Isa.Execute, Retires, View, ActionOf, Defined, AfterHost;
    ViewWithMemory(s, s.mem, false);
    prog := [];
    if Continues(s, limit) {
      var m := AfterHost(cfg, host(s.icnt), s.mem);
      var i :| Retires(cfg, host(s.icnt), View(s), i, m);
      StepFollows(cfg, host, s, i, m);
      StepFrame(cfg, host, s);
      var rest := RunIsExecution(cfg, host, Step(cfg, host, s).s, limit);
      prog := [i] + rest;
      assert prog[1..] == rest;
    }
  }
}
