/** The interpreter runs the boot stub from its reset state to the program's entry point. */
module Boot {
  import opened CIntegers
  import opened Ram
  import opened Fields
  import opened Machine
  import opened Runs
  import opened HostCalls
  import opened Decoding
  import opened Effects
  import opened Loader
  import Alu
  import Isa

  /** The stub is loaded, nothing is pending and the machine is about to run it from reset. */
  predicate AtReset(cfg: Config, s: State, entry: u32) {
    s.pc == 0x1000 && (forall r :: 0 <= r < 32 ==> s.gpr[r] == 0) && s.icnt == 0 && !s.brk && s.maxicnt >= 5 &&
    Load(s.mem, cfg.tohostAddr, 4) == 0 && StubAt(s.mem, entry)
  }

  lemma Words(cfg: Config, s: State, entry: u32)
    requires AtReset(cfg, s, entry)
    ensures Load(s.mem, 0x1000, 4) == 0x0000_0297 && Load(s.mem, 0x1004, 4) == 0x0202_8593
    ensures Load(s.mem, 0x1008, 4) == 0xf140_2573 && Load(s.mem, 0x100c, 4) == 0x0182_a283
    ensures Load(s.mem, 0x1010, 4) == 0x0002_8067 && Load(s.mem, 0x1018, 4) == entry
    ensures Pending(cfg, s.mem) == 0
  {
    hide Load, Pending;
    PendingIsLowWord(cfg, s.mem);
  }

  /** csrr a0,mhartid: a CSR the interpreter does not know, so a0 keeps its value. */
  lemma CsrWord(w: u32)
    requires w == 0xf140_2573
    ensures var m := Decode(w); m.opcode == 0x73 && !m.ecall && m.csr == 0xf14
  {
    hide Pow2, ImmI, ImmS, ImmB, ImmJ, ImmU, Opcode, Rd, Sel, Rs1, Rs2, Special, Shamt, And;
    Powers();
    Shared(w, 0x78, 0x14, 0, 2, 10, 0x73);
  }

  lemma CsrStep(cfg: Config, host: Host, s: State)
    requires InRam(s.pc, 4) && Load(s.mem, s.pc, 4) == 0xf140_2573 && Pending(cfg, s.mem) == 0
    ensures Step(cfg, host, s) == Running(Done(s, NextPc(s), s.gpr, s.mem))
  {
    hide Decode, Pending, HandleSyscall, Load, OpValue, OpImmValue, ToU32, And;
    CsrWord(Fetched(s));
    var m := Decode(Fetched(s));
  }

  // ----- the states after each of the five instructions -----

  function After(s: State, n: nat, gpr: Regs): State
    requires 0 < n <= 4
  {
    s.(pc := STUB + 4 * n, lastPc := STUB + 4 * (n - 1), icnt := n, gpr := gpr)
  }

  lemma Step1(cfg: Config, host: Host, s: State, entry: u32)
    requires AtReset(cfg, s, entry)
    ensures Step(cfg, host, s) == Running(After(s, 1, s.gpr[5 := 0x1000]))
  {
    hide Step, Load, Pending;
    Words(cfg, s, entry);
    hide AtReset;
    AuipcEffect(cfg, host, s, 5, 0);
  }

  lemma Step2(cfg: Config, host: Host, s: State, entry: u32)
    requires AtReset(cfg, s, entry)
    ensures Step(cfg, host, After(s, 1, s.gpr[5 := 0x1000])) == Running(After(s, 2, s.gpr[5 := 0x1000][11 := 0x1020]))
  {
    hide Step, Load, Pending;
    Words(cfg, s, entry);
    hide AtReset;
    AddiEffect(cfg, host, After(s, 1, s.gpr[5 := 0x1000]), 11, 5, 32);
  }

  lemma Step3(cfg: Config, host: Host, s: State, entry: u32, g: Regs)
    requires AtReset(cfg, s, entry)
    ensures Step(cfg, host, After(s, 2, g)) == Running(After(s, 3, g))
  {
    hide Step, Load, Pending;
    Words(cfg, s, entry);
    hide AtReset;
    CsrStep(cfg, host, After(s, 2, g));
  }

  lemma Step4(cfg: Config, host: Host, s: State, entry: u32, g: Regs)
    requires AtReset(cfg, s, entry) && g[5] == 0x1000
    ensures Step(cfg, host, After(s, 3, g)) == Running(After(s, 4, g[5 := ToI32(entry)]))
  {
    hide Step, Load, Pending, ToI32;
    Words(cfg, s, entry);
    hide AtReset;
    ToI32Is(24 + 0x1000, 0x1018, 0);
    LoadEffect(cfg, host, After(s, 3, g), Isa.LW, 5, 5, 24);
  }

  lemma Step5(cfg: Config, host: Host, s: State, entry: u32, g: Regs)
    requires AtReset(cfg, s, entry) && g[5] == ToI32(entry)
    ensures Step(cfg, host, After(s, 4, g))
         == Running(s.(pc := entry - entry % 2, lastPc := 0x1010, icnt := 5, gpr := g))
  {
    hide Step, Load, Pending, ToI32, And;
    Words(cfg, s, entry);
    hide AtReset;
    JalrEffect(cfg, host, After(s, 4, g), 0, 5, 0);
    BackToEntry(entry);
  }

  lemma BackToEntry(entry: u32)
    ensures ToU32(And(ToU32(ToI32(0 + ToI32(entry))), 0xffff_fffe)) == entry - entry % 2
  {
    hide And, ToI32;
    ToI32Is(0 + ToI32(entry), ToI32(entry), 0);
    Alu.Narrow(entry);
    ClearLowBit(entry);
  }

  /** From reset exactly five steps reach the entry point, rounded down to an even address: t0 holds
      the entry address, a1 is 0x1020, every other register is still zero and memory is unchanged. */
  lemma BootReachesEntry(cfg: Config, host: Host, s: State, entry: u32)
    requires AtReset(cfg, s, entry)
    ensures Run(cfg, host, s, 5) ==
      Running(s.(pc := entry - entry % 2, lastPc := 0x1010, icnt := 5,
                 gpr := s.gpr[5 := ToI32(entry)][11 := 0x1020]))
    ensures var t := Run(cfg, host, s, 5).s;
      && (t.pc == entry <==> entry % 2 == 0)
      && ToU32(t.gpr[5]) == entry && t.gpr[11] == 0x1020
      && forall r :: 0 <= r < 32 && r != 5 && r != 11 ==> t.gpr[r] == 0
  {
    hide Step, Pending, Load, ToI32;
    var g1 := s.gpr[5 := 0x1000];
    var g2 := g1[11 := 0x1020];
    var g4 := g2[5 := ToI32(entry)];
    Alu.Narrow(entry);
    Step1(cfg, host, s, entry);
    Step2(cfg, host, s, entry);
    Step3(cfg, host, s, entry, g2);
    Step4(cfg, host, s, entry, g2);
    Step5(cfg, host, s, entry, g4);
    var t := s.(pc := entry - entry % 2, lastPc := 0x1010, icnt := 5, gpr := g4);
    assert g4 == s.gpr[5 := ToI32(entry)][11 := 0x1020];
    assert Run(cfg, host, t, 5) == Running(t);
    assert Run(cfg, host, After(s, 4, g4), 5) == Running(t);
    assert Run(cfg, host, After(s, 3, g2), 5) == Running(t);
    assert Run(cfg, host, After(s, 2, g2), 5) == Running(t);
    assert Run(cfg, host, After(s, 1, g1), 5) == Running(t);
  }

  /** Loading an image whose tohost word is clear puts a fresh machine at reset. */
  lemma LoadedAtReset(cfg: Config, maxicnt: u64, headers: seq<Phdr>, file: seq<u8>, entry: u32)
    requires maxicnt >= 5 && LoadElf(Fresh(maxicnt), headers, file, entry).Running?
    requires Load(LoadElf(Fresh(maxicnt), headers, file, entry).s.mem, cfg.tohostAddr, 4) == 0
    ensures AtReset(cfg, LoadElf(Fresh(maxicnt), headers, file, entry).s, entry)
  {
    LoadedMemory(Fresh(maxicnt), headers, file, entry, 0);
    hide LoadSegments, StoreWords, Load, Pending;
  }
}
