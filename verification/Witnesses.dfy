/** Inputs on which the program departs from what its parts are for, beside the exact conditions
    proved elsewhere. */
module Witnesses {
  import opened CIntegers
  import opened Ram
  import opened Fields
  import opened Machine
  import opened Runs
  import opened Decoding
  import opened Refinement
  import opened Effects
  import opened HostCalls
  import opened Checkpoint
  import opened CheckpointTheorems
  import Isa

  /** About to execute the word w at 0x100, with all registers and all other memory zero. */
  function Holding(w: u32, maxicnt: u64): State {
    var s := Fresh(maxicnt);
    s.(pc := 0x100, mem := Store(s.mem, 0x100, ToLe(w, 4)))
  }

  lemma HoldingIs(cfg: Config, w: u32, maxicnt: u64)
    requires cfg.tohostAddr >= 0x104
    ensures Load(Holding(w, maxicnt).mem, 0x100, 4) == w && Pending(cfg, Holding(w, maxicnt).mem) == 0
  {
    hide ToLe, FromLe;
    WordBack(w);
    LoadStoreSame(ZEROED, 0x100, ToLe(w, 4));
    var t := cfg.tohostAddr;
    FromLeZero(Holding(w, maxicnt).mem[t..t + 8]);
  }

  // ----- instructions whose defined result is not produced -----

  /** div x1,x0,x0 */
  const DIV_BY_ZERO := Isa.Op(Isa.DIV, 1, 0, 0)

  /** mulhsu x1,x0,x0 */
  const MULHSU_OF_ZERO := Isa.Op(Isa.MULHSU, 1, 0, 0)

  lemma OpWord(k: Isa.OpKind)
    ensures Isa.Encode(Isa.Op(k, 1, 0, 0)) < TWO32
  {}

  /** The manual's machine puts -1 in x1 and goes on; the interpreter stops at the division. */
  lemma DivisionByZeroStops(cfg: Config, host: Host)
    requires cfg.tohostAddr >= 0x104
    ensures Isa.Encode(DIV_BY_ZERO) < TWO32
    ensures var s := Holding(Isa.Encode(DIV_BY_ZERO), 1);
      && Isa.Execute(DIV_BY_ZERO, View(s)).Retired? && Isa.Execute(DIV_BY_ZERO, View(s)).st.x[1] == 0xffff_ffff
      && Step(cfg, host, s) == Stuck(UndefinedDivision)
  {
    OpWord(Isa.DIV);
    hide Step, Load, Pending, Isa.Encode, ToLe;
    var s := Holding(Isa.Encode(DIV_BY_ZERO), 1);
    HoldingIs(cfg, Isa.Encode(DIV_BY_ZERO), 1);
    var m := StepIs(cfg, host, s, DIV_BY_ZERO);
  }

  /** The manual's machine puts the high word 0 in x1 and goes on; the interpreter stops. */
  lemma MissingProductStops(cfg: Config, host: Host)
    requires cfg.tohostAddr >= 0x104
    ensures Isa.Encode(MULHSU_OF_ZERO) < TWO32
    ensures var s := Holding(Isa.Encode(MULHSU_OF_ZERO), 1);
      && Isa.Execute(MULHSU_OF_ZERO, View(s)).Retired? && Isa.Execute(MULHSU_OF_ZERO, View(s)).st.x[1] == 0
      && Step(cfg, host, s) == Stuck(AssertionFailure)
  {
    OpWord(Isa.MULHSU);
    hide Step, Load, Pending, Isa.Encode, ToLe;
    var s := Holding(Isa.Encode(MULHSU_OF_ZERO), 1);
    HoldingIs(cfg, Isa.Encode(MULHSU_OF_ZERO), 1);
    var m := StepIs(cfg, host, s, MULHSU_OF_ZERO);
  }

  /** jal x1,2 */
  const JUMP_BY_TWO := Isa.Jal(1, 2)

  lemma JumpWord()
    ensures Isa.Encode(JUMP_BY_TWO) < TWO32
  {}

  /** The manual's machine raises an exception; the interpreter jumps and links. */
  lemma MisalignedJumpRuns(cfg: Config, host: Host)
    requires cfg.tohostAddr >= 0x104
    ensures Isa.Encode(JUMP_BY_TWO) < TWO32
    ensures var s := Holding(Isa.Encode(JUMP_BY_TWO), 1);
      && Isa.Execute(JUMP_BY_TWO, View(s)).MisalignedTarget?
      && Step(cfg, host, s) == Running(Done(s, 0x102, s.gpr[1 := 0x104], s.mem))
  {
    JumpWord();
    hide Step, Load, Pending, Isa.Encode, ToLe;
    var s := Holding(Isa.Encode(JUMP_BY_TWO), 1);
    HoldingIs(cfg, Isa.Encode(JUMP_BY_TWO), 1);
    var m := StepIs(cfg, host, s, JUMP_BY_TWO);
  }

  // ----- a checkpoint taken when the guest has stopped itself -----

  /** An ECALL that is the last instruction before the stop: the run that never stopped has ended there,
      but the resumed one executes the same ECALL once more. */
  lemma EcallRepeats(cfg: Config, host: Host, s: State, stop: u64, limit: u64)
    requires Continues(s, stop) && s.icnt + 1 == stop < limit && stop < s.maxicnt
    requires InRam(s.pc, 4) && Pending(cfg, s.mem) == 0 && IsEcall(Decode(Fetched(s)))
    ensures var u := s.(brk := true, lastPc := s.pc, icnt := stop);
      && Run(cfg, host, s, stop) == Running(u) && Run(cfg, host, s, limit) == Running(u)
      && Run(cfg, host, Resumed(u), limit).Running?
      && Run(cfg, host, Resumed(u), limit).s.brk && Run(cfg, host, Resumed(u), limit).s.icnt == stop + 1
  {
    hide Step, Resumed, Decode, Pending, IsEcall;
    var u := s.(brk := true, lastPc := s.pc, icnt := stop);
    EcallStep(cfg, host, s);
    ResumedIs(u);
    EcallStep(cfg, host, Resumed(u));
  }

  lemma EcallStep(cfg: Config, host: Host, s: State)
    requires InRam(s.pc, 4) && Pending(cfg, s.mem) == 0 && IsEcall(Decode(Fetched(s)))
    ensures Step(cfg, host, s) == Running(s.(brk := true, lastPc := s.pc, icnt := (s.icnt + 1) % TWO64))
  {
    hide Decode, Pending, HandleSyscall;
  }

  const ECALL: u32 := 0x73

  lemma EcallWord(w: u32)
    requires w == ECALL
    ensures IsEcall(Decode(w))
  {
    hide Pow2, ImmI, ImmS, ImmB, ImmJ, ImmU, Opcode, Rd, Sel, Rs1, Rs2, Special, Shamt, And;
    Powers();
    Shared(w, 0, 0, 0, 0, 0, 0x73);
  }

  /** Such a run, with the checkpoint at its first instruction. */
  lemma ResumeDiffers(cfg: Config, host: Host)
    requires cfg.tohostAddr >= 0x104
    ensures var s := Holding(ECALL, 10);
      && Run(cfg, host, s, 1).Running? && Run(cfg, host, s, 10) == Run(cfg, host, s, 1)
      && !SameOutcome(Run(cfg, host, s, 10), Run(cfg, host, Resumed(Run(cfg, host, s, 1).s), 10))
  {
    hide Run, Resumed, Decode, Pending, IsEcall, ToLe, Load;
    var s := Holding(ECALL, 10);
    HoldingIs(cfg, ECALL, 10);
    EcallWord(Fetched(s));
    EcallRepeats(cfg, host, s, 1, 10);
  }

  // ----- a checkpoint loaded over memory in use -----

  /** One byte left in a page that the checkpoint has no record of survives the loading. */
  lemma DirtyPageSurvives(s: State, t: State)
    requires s.mem == ZEROED && t.mem == ZEROED[0x2000 := 1]
    ensures Restore(t, Dump(s)).Running? && Restore(t, Dump(s)).s.mem[0x2000] == 1
    ensures Dump(Restore(t, Dump(s)).s) != Dump(s)
  {
    hide Restore, Dump, Overlay, NzPages;
    RestoreDump(s, t);
    OverlayAt(t.mem, s.mem, 0x2000);
    DumpInjective(Restore(t, Dump(s)).s, s);
  }

  // ----- the host channel -----

  /** times, with its buffer laid over the request: the result 1 is overwritten by a time of zero. */
  lemma TimesOverwritesResult(cfg: Config, m: Memory, request: u32, reply: Reply)
    requires InRam(request, 16) && Apart(request, cfg.tohostAddr) && Apart(request, cfg.fromhostAddr)
    requires reply.result == 1 && request in reply.edits && reply.edits[request] == 0
    ensures ResultWord(m, request, SYS_TIMES, reply) == 1
    ensures Load(Acknowledged(cfg, Answered(m, request, SYS_TIMES, reply)), request, 8) != 1
  {
    hide Load, Answered, Acknowledged;
    ResultDelivered(cfg, m, request, SYS_TIMES, reply);
    assert ToLe(1, 8)[0] == 1;
  }

  /** With both symbols at one address, every reply leaves the guest's next exit request behind. */
  lemma ReplyBecomesExit(cfg: Config, m: Memory)
    requires cfg.fromhostAddr == cfg.tohostAddr
    ensures Pending(cfg, Acknowledged(cfg, m)) == 1
  {
    hide Load, Store, ToLe, FromLe, And, Pending;
    var m1 := Store(m, cfg.tohostAddr, ToLe(0, 8));
    LoadStoreSame(m1, cfg.fromhostAddr, ToLe(1, 8));
    LongBack(1);
    PendingOfOne(cfg, Acknowledged(cfg, m));
  }

  lemma PendingOfOne(cfg: Config, m: Memory)
    requires Load(m, cfg.tohostAddr, 8) == 1
    ensures Pending(cfg, m) == 1
  {
    hide Load;
    AndWord(1);
  }
}
