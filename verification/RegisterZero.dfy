/** A run in which register zero does not stay zero: the one path without the rd test. */
module RegisterZero {
  import opened CIntegers
  import opened Ram
  import opened Fields
  import opened Machine
  import opened Runs
  import opened Decoding

  /** csrrs zero,cycle,zero */
  const READ_CYCLE_TO_ZERO: u32 := 0xc000_2073

  /** One instruction in, about to execute that word at 0x100 in otherwise zero memory. */
  predicate BeforeClobber(s: State) {
    s == Fresh(2).(pc := 0x100, icnt := 1, mem := s.mem) &&
    s.mem == Store(Fresh(2).mem, 0x100, ToLe(READ_CYCLE_TO_ZERO, 4))
  }

  lemma ReadCycleWord(w: u32)
    requires w == READ_CYCLE_TO_ZERO
    ensures IsCycleRead(Decode(w)) && Decode(w).rd == 0
  {
    hide Pow2, ImmI, ImmS, ImmB, ImmJ, ImmU, Opcode, Rd, Sel, Rs1, Rs2, Special, Shamt, And;
    Powers();
    Shared(w, 0x60, 0, 0, 2, 0, 0x73);
    AndMask(Shr(w, 12), 2);
    assert Pow2(2) == 4 by {
      Pow2Add(1, 1);
    }
  }

  /** Wherever tohost lies above the program, the run of one step from this state, in which every
      register is zero, leaves 1 in register zero: the exclusion in the invariant is needed. */
  lemma ZeroClobbered(cfg: Config, host: Host, s: State)
    requires BeforeClobber(s) && cfg.tohostAddr >= 0x104
    ensures s.gpr[0] == 0 && Run(cfg, host, s, 2).Running? && Run(cfg, host, s, 2).s.gpr[0] == 1
    ensures Run(cfg, host, s, 2).s.icnt == s.icnt + 1
  {
    hide Step, Decode, ToLe, FromLe, Pending, IsCycleRead, ToI32, Load, Store;
    WordBack(READ_CYCLE_TO_ZERO);
    LoadStoreSame(Fresh(2).mem, 0x100, ToLe(READ_CYCLE_TO_ZERO, 4));
    NothingPending(cfg, s);
    ReadCycleWord(Fetched(s));
    CycleReadStep(cfg, host, s);
    ZeroAfterStep(cfg, host, s);
    StepFrame(cfg, host, s);
    ToI32Is(1, 1, 0);
  }

  lemma NothingPending(cfg: Config, s: State)
    requires BeforeClobber(s) && cfg.tohostAddr >= 0x104
    ensures Pending(cfg, s.mem) == 0
  {
    hide ToLe;
    var t := cfg.tohostAddr;
    FromLeZero(s.mem[t..t + 8]);
  }

  lemma CycleReadStep(cfg: Config, host: Host, s: State)
    requires InRam(s.pc, 4) && Pending(cfg, s.mem) == 0 && IsCycleRead(Decode(Fetched(s)))
    ensures Step(cfg, host, s).Running?
  {
    hide Decode, Pending, HandleSyscall, OpValue, OpImmValue;
  }
}
