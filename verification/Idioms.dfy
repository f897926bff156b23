/** Pairs of instructions that compilers rely on. */
module Idioms {
  import opened CIntegers
  import opened Ram
  import opened Machine
  import opened Effects
  import opened Decoding
  import Alu
  import Isa

  function TwoSteps(cfg: Config, host: Host, s: State): Outcome {
    match Step(cfg, host, s)
    case Stuck(why) => Stuck(why)
    case Running(t) => Step(cfg, host, t)
  }

  /** The state two instructions later. */
  function DoneTwice(s: State, pc: u32, gpr: Regs, mem: Memory): State {
    s.(lastPc := NextPc(s), pc := pc, gpr := gpr, mem := mem, icnt := (s.icnt + 2) % TWO64)
  }

  /** The word after the one at pc is instruction i. */
  predicate Follows(s: State, i: Isa.Instr)
    requires Isa.Legal(i)
  {
    InRam(NextPc(s), 4) && Load(s.mem, NextPc(s), 4) == Isa.Encode(i)
  }

  lemma CountsTwo(n: u64)
    ensures ((n + 1) % TWO64 + 1) % TWO64 == (n + 2) % TWO64
  {}

  // ----- splitting a constant into an upper and a sign-extended lower part -----

  /** The lower 12 bits as a signed number. */
  function LowPart(c: int): (lo: int)
    ensures Isa.Imm12(lo) && (c - lo) % 0x1000 == 0
  {
    (c + 0x800) % 0x1000 - 0x800
  }

  /** The upper 20 bits, rounded so that the lower part can be added. */
  function HighPart(c: int): (hi: nat)
    ensures hi < 0x10_0000
  {
    (c + 0x800) / 0x1000 % 0x10_0000
  }

  lemma PartsAddUp(c: int)
    ensures (HighPart(c) * 0x1000 + LowPart(c)) % TWO32 == c % TWO32
  {
    var u, k := (c + 0x800) / 0x1000, (c + 0x800) / 0x1000 / 0x10_0000;
    assert u == k * 0x10_0000 + HighPart(c);
    assert c == u * 0x1000 + LowPart(c);
    DivModUnique(c, TWO32, c / TWO32, c % TWO32);
    DivModUnique(HighPart(c) * 0x1000 + LowPart(c), TWO32, c / TWO32 - k, c % TWO32);
  }

  lemma WrapDetermined(n: int, m: int)
    requires n % TWO32 == m % TWO32
    ensures ToI32(n) == ToI32(m)
  {
    var k, v := (m + TWO31) / TWO32, ToI32(m);
    assert m == v + k * TWO32;
    hide ToI32;
    ToI32Is(n, v, n / TWO32 - m / TWO32 + k);
  }

  lemma WrapCongruent(n: int)
    ensures ToI32(n) % TWO32 == n % TWO32
  {}

  lemma AddCongruent(n: int, m: int, d: int)
    requires n % TWO32 == m % TWO32
    ensures (n + d) % TWO32 == (m + d) % TWO32
  {
    DivModUnique(n + d, TWO32, (m + d) / TWO32 + n / TWO32 - m / TWO32, (m + d) % TWO32);
  }

  /** For every constant, LUI of its rounded upper part and ADDI of its lower part produce it. */
  lemma LuiAddiMakesConstant(cfg: Config, host: Host, s: State, rd: nat, c: u32)
    requires 0 < rd < 32
    requires About(cfg, s, Isa.Lui(rd, HighPart(c)))
    requires Follows(s, Isa.OpImm(Isa.ADDI, rd, rd, LowPart(c)))
    ensures TwoSteps(cfg, host, s)
         == Running(DoneTwice(s, ToU32(NextPc(s) + 4), s.gpr[rd := ToI32(c)], s.mem))
  {
    hide Step, Load, Pending, Isa.Encode, ToI32, ToU32, HighPart, LowPart;
    var hi, lo := HighPart(c), LowPart(c);
    LuiEffect(cfg, host, s, rd, hi);
    var t := Done(s, NextPc(s), s.gpr[rd := ToI32(hi * 0x1000)], s.mem);
    AddiEffect(cfg, host, t, rd, rd, lo);
    WrapCongruent(hi * 0x1000);
    AddCongruent(ToI32(hi * 0x1000), hi * 0x1000, lo);
    PartsAddUp(c);
    WrapDetermined(ToI32(hi * 0x1000) + lo, c);
    CountsTwo(s.icnt);
  }

  lemma JumpTarget(pc: u32, target: u32, base: i32, hi: nat, lo: int)
    requires base == ToI32(ToU32(pc + hi * 0x1000))
    requires (hi * 0x1000 + lo) % TWO32 == (target - pc) % TWO32
    ensures ToU32(ToI32(lo + base)) == target
  {
    hide ToI32;
    WrapCongruent(ToU32(pc + hi * 0x1000));
    DivModUnique(base, TWO32, base / TWO32, base % TWO32);
    AddCongruent(base, pc + hi * 0x1000, lo);
    AddCongruent(hi * 0x1000 + lo, target - pc, pc);
    WrapDetermined(lo + base, target);
    Alu.Narrow(target);
  }

  lemma SkipTwo(pc: u32)
    ensures ToU32(ToU32(pc + 4) + 4) == ToU32(pc + 8)
  {}

  /** The registers after AUIPC into tmp and JALR linking to rd. */
  function Linked(s: State, tmp: nat, rd: nat, hi: nat): Regs
    requires tmp < 32 && rd < 32
  {
    var g := s.gpr[tmp := ToI32(ToU32(s.pc + hi * 0x1000))];
    if rd == 0 then g else g[rd := ToI32(ToU32(s.pc + 8))]
  }

  function Landed(s: State, tmp: nat, rd: nat, target: u32): State
    requires tmp < 32 && rd < 32
  {
    DoneTwice(s, target - target % 2, Linked(s, tmp, rd, HighPart(target - s.pc)), s.mem)
  }

  lemma AuipcJalrSteps(cfg: Config, host: Host, s: State, tmp: nat, rd: nat, target: u32)
    requires 0 < tmp < 32 && rd < 32
    requires About(cfg, s, Isa.Auipc(tmp, HighPart(target - s.pc)))
    requires Follows(s, Isa.Jalr(rd, tmp, LowPart(target - s.pc)))
    ensures TwoSteps(cfg, host, s) == Running(Landed(s, tmp, rd, target))
  {
    hide Step, Load, Pending, Isa.Encode, ToI32, ToU32, HighPart, LowPart, And;
    SkipTwo(s.pc);
    var hi, lo := HighPart(target - s.pc), LowPart(target - s.pc);
    AuipcEffect(cfg, host, s, tmp, hi);
    var base: i32 := ToI32(ToU32(s.pc + hi * 0x1000));
    var t := Done(s, NextPc(s), s.gpr[tmp := base], s.mem);
    JalrEffect(cfg, host, t, rd, tmp, lo);
    PartsAddUp(target - s.pc);
    JumpTarget(s.pc, target, base, hi, lo);
    ClearLowBit(target);
    CountsTwo(s.icnt);
    Truncate(target - target % 2);
  }

  lemma LinkedRegisters(s: State, tmp: nat, rd: nat, hi: nat)
    requires tmp < 32 && rd < 32
    ensures rd > 0 ==> ToU32(Linked(s, tmp, rd, hi)[rd]) == ToU32(s.pc + 8)
    ensures forall r :: 0 <= r < 32 && r != tmp && (rd == 0 || r != rd) ==> Linked(s, tmp, rd, hi)[r] == s.gpr[r]
  {
    hide ToI32, ToU32;
    Alu.Narrow(ToU32(s.pc + 8));
  }

  lemma Truncate(n: u32)
    ensures ToU32(n) == n
  {}

  /** Two instructions on, at the target; memory and all registers but tmp and the link register are as
      they were. */
  predicate Reached(s: State, t: State, tmp: nat, rd: nat, target: u32)
    requires tmp < 32 && rd < 32
  {
    && t == DoneTwice(s, target - target % 2, t.gpr, s.mem)
    && (t.pc == target <==> target % 2 == 0)
    && (rd > 0 ==> ToU32(t.gpr[rd]) == ToU32(s.pc + 8))
    && forall r :: 0 <= r < 32 && r != tmp && (rd == 0 || r != rd) ==> t.gpr[r] == s.gpr[r]
  }

  /** From every pc, AUIPC and JALR with the parts of the distance reach any even target, and an odd one
      is missed by one. A call leaves the return address in the link register, even where that is tmp;
      a far jump (rd zero) changes no register but tmp. */
  lemma AuipcJalrReaches(cfg: Config, host: Host, s: State, tmp: nat, rd: nat, target: u32)
    requires 0 < tmp < 32 && rd < 32
    requires About(cfg, s, Isa.Auipc(tmp, HighPart(target - s.pc)))
    requires Follows(s, Isa.Jalr(rd, tmp, LowPart(target - s.pc)))
    ensures TwoSteps(cfg, host, s).Running? && Reached(s, TwoSteps(cfg, host, s).s, tmp, rd, target)
  {
    hide TwoSteps, Step, About, Follows, ToI32, ToU32, HighPart, LowPart, Linked, Isa.Encode, Load, Pending;
    AuipcJalrSteps(cfg, host, s, tmp, rd, target);
    LinkedRegisters(s, tmp, rd, HighPart(target - s.pc));
  }

  // ----- a store followed by a load -----

  /** Loads and stores of the same width. */
  predicate SameWidth(store: Isa.StoreKind, load: Isa.LoadKind) {
    match store
    case SB => load in {Isa.LB, Isa.LBU}
    case SH => load in {Isa.LH, Isa.LHU}
    case SW => load == Isa.LW
  }

  /** The low bytes of v, sign- or zero-extended. */
  function Truncated(load: Isa.LoadKind, v: i32): int {
    match load
    case LB => (v + 0x80) % 0x100 - 0x80
    case LBU => v % 0x100
    case LH => (v + 0x8000) % 0x1_0000 - 0x8000
    case LHU => v % 0x1_0000
    case LW => v
  }

  lemma LowBytes(v: i32)
    ensures FromLe(ToLe(ToU32(v), 1)) == v % 0x100
    ensures FromLe(ToLe(ToU32(v), 2)) == v % 0x1_0000
    ensures FromLe(ToLe(ToU32(v), 4)) == ToU32(v)
  {
    hide FromLe, ToLe, Pow2;
    FromLeToLe(ToU32(v), 1);
    FromLeToLe(ToU32(v), 2);
    WordBack(ToU32(v));
    Pow2Words();
    Pow2Sixteen();
    DivModUnique(v, 0x100, ToU32(v) / 0x100 + (v / TWO32) * 0x100_0000, ToU32(v) % 0x100);
    DivModUnique(v, 0x1_0000, ToU32(v) / 0x1_0000 + (v / TWO32) * 0x1_0000, ToU32(v) % 0x1_0000);
  }

  lemma SignByte(n: nat, v: i32)
    requires n == v % 0x100
    ensures (if n < 0x80 then n else n - 0x100) == (v + 0x80) % 0x100 - 0x80
  {
    DivModUnique(v + 0x80, 0x100, v / 0x100 + (if n < 0x80 then 0 else 1), if n < 0x80 then n + 0x80 else n - 0x80);
  }

  lemma SignHalf(n: nat, v: i32)
    requires n == v % 0x1_0000
    ensures (if n < 0x8000 then n else n - 0x1_0000) == (v + 0x8000) % 0x1_0000 - 0x8000
  {
    DivModUnique(v + 0x8000, 0x1_0000, v / 0x1_0000 + (if n < 0x8000 then 0 else 1),
                 if n < 0x8000 then n + 0x8000 else n - 0x8000);
  }

  lemma ExtendedTruncation(store: Isa.StoreKind, load: Isa.LoadKind, v: i32)
    requires SameWidth(store, load)
    ensures Extended(Isa.LoadFunct3(load), FromLe(ToLe(ToU32(v), Isa.StoreBytes(store)))) == Truncated(load, v)
  {
    hide FromLe, ToLe, ToI32;
    LowBytes(v);
    match load
    case LB => SignByte(v % 0x100, v); ToI32Is(Truncated(load, v), Truncated(load, v), 0);
    case LBU => ToI32Is(v % 0x100, v % 0x100, 0);
    case LH => SignHalf(v % 0x1_0000, v); ToI32Is(Truncated(load, v), Truncated(load, v), 0);
    case LHU => ToI32Is(v % 0x1_0000, v % 0x1_0000, 0);
    case LW => ToI32Is(ToU32(v), v, -(v / TWO32));
  }

  lemma Pow2Sixteen()
    ensures Pow2(16) == 0x1_0000
  {
    hide Pow2;
    Pow2Words();
    Pow2Add(8, 8);
  }

  lemma SameAddress(n: int, m: int)
    requires ToU32(n) == ToU32(m)
    ensures ToU32(ToI32(n)) == ToU32(ToI32(m))
  {
    WrapDetermined(n, m);
  }

  /** Storing a register and loading from the same place, by whatever base and displacement, gives back
      its low bytes, extended as the load extends them, as long as the store does not raise a request or
      overwrite the load. */
  lemma StoreThenLoad(cfg: Config, host: Host, s: State, store: Isa.StoreKind, load: Isa.LoadKind,
                      rs1: nat, rs2: nat, imm: int, rd: nat, base: nat, disp: int)
    requires rs1 < 32 && rs2 < 32 && rd < 32 && base < 32 && Isa.Imm12(imm) && Isa.Imm12(disp)
    requires SameWidth(store, load) && ToU32(disp + s.gpr[base]) == ToU32(imm + s.gpr[rs1])
    requires About(cfg, s, Isa.Store(store, rs1, rs2, imm)) && Follows(s, Isa.Load(load, rd, base, disp))
    requires var ea, k := ToU32(ToI32(imm + s.gpr[rs1])), Isa.StoreBytes(store);
      && InRam(ea, k) && (ea + k <= NextPc(s) || NextPc(s) + 4 <= ea)
      && Pending(cfg, Store(s.mem, ea, ToLe(ToU32(s.gpr[rs2]), k))) == 0
    ensures TwoSteps(cfg, host, s).Running?
    ensures var t := TwoSteps(cfg, host, s).s;
      var ea := ToU32(ToI32(imm + s.gpr[rs1]));
      && t == DoneTwice(s, ToU32(NextPc(s) + 4), t.gpr,
                        Store(s.mem, ea, ToLe(ToU32(s.gpr[rs2]), Isa.StoreBytes(store))))
      && (rd > 0 ==> t.gpr[rd] == Truncated(load, s.gpr[rs2]))
      && forall r :: 0 <= r < 32 && (rd == 0 || r != rd) ==> t.gpr[r] == s.gpr[r]
  {
    hide Step, Load, Store, Pending, Isa.Encode, ToI32, ToU32, ToLe, FromLe, Extended, Truncated;
    var ea, bs := ToU32(ToI32(imm + s.gpr[rs1])), ToLe(ToU32(s.gpr[rs2]), Isa.StoreBytes(store));
    var t := Done(s, NextPc(s), s.gpr, Store(s.mem, ea, bs));
    StoreEffect(cfg, host, s, store, rs1, rs2, imm);
    LoadStoreOther(s.mem, ea, bs, NextPc(s), 4);
    SameAddress(imm + s.gpr[rs1], disp + s.gpr[base]);
    LoadEffect(cfg, host, t, load, rd, base, disp);
    CountsTwo(s.icnt);
    LoadStoreSame(s.mem, ea, bs);
    ExtendedTruncation(store, load, s.gpr[rs2]);
    ToI32Is(Truncated(load, s.gpr[rs2]), Extended(Isa.LoadFunct3(load), FromLe(bs)), 0);
  }
}
