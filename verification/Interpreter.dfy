/** The interpreter as the C program runs it: state_t updated in place, instruction by
    instruction, proved against the step and run functions of Machine and Runs. */
module Interpreter {
  import opened CIntegers
  import opened Ram
  import opened Fields
  import opened Machine
  import opened Runs

  datatype Status = Ok | Failed(why: Fault)

  class Core {
    var pc: u32
    var lastPc: u32
    const gpr: array<i32>
    const mem: array<u8>
    var brk: bool
    var badAddr: u8
    var epc: u32
    var maxicnt: u64
    var icnt: u64

    ghost predicate Valid() {
      gpr.Length == 32 && mem.Length == RAM_SIZE && (gpr as object) != (mem as object)
    }

    /** The current contents as a value. */
    ghost function Snapshot(): State
      requires Valid()
      reads this, gpr, mem
    {
      State(pc, lastPc, gpr[..], mem[..], brk, badAddr, epc, maxicnt, icnt)
    }

    constructor (maxicnt: u64)
      ensures Valid() && fresh(gpr) && fresh(mem)
      ensures Snapshot() == Fresh(maxicnt)
      ensures pc == 0 && lastPc == 0 && epc == 0 && badAddr == 0 && icnt == 0 && !brk && this.maxicnt == maxicnt
      ensures forall r :: 0 <= r < 32 ==> gpr[r] == 0
      ensures forall a :: 0 <= a < 0x1_0000_0000 ==> mem[a] == 0
    {
      pc, lastPc, epc, icnt, badAddr, brk := 0, 0, 0, 0, 0, false;
      this.maxicnt := maxicnt;
      gpr := new i32[32](_ => 0);
      mem := new u8[RAM_SIZE](_ => 0);
      new;
      assert gpr[..] == Fresh(maxicnt).gpr;
      assert mem[..] == ZEROED;
    }

    /** A k-byte load through a cast pointer. */
    method Read(a: nat, k: nat) returns (v: nat)
      requires Valid() && InRam(a, k)
      ensures v == Load(mem[..], a, k)
    {
      v := 0;
      var i := k;
      while i > 0
        invariant 0 <= i <= k
        invariant v == FromLe(mem[..][a + i..a + k])
      {
        i := i - 1;
        assert mem[..][a + i..a + k][1..] == mem[..][a + i + 1..a + k];
        v := mem[a + i] + 0x100 * v;
      }
    }

    /** A k-byte store through a cast pointer. */
    method Write(a: nat, n: nat, k: nat)
      requires Valid() && InRam(a, k)
      modifies mem
      ensures mem[..] == Store(old(mem[..]), a, ToLe(n, k))
    {
      var i, v := 0, n;
      ghost var bs := ToLe(n, k);
      while i < k
        invariant 0 <= i <= k
        invariant ToLe(v, k - i) == bs[i..]
        invariant forall j :: 0 <= j < RAM_SIZE ==>
          mem[j] == if a <= j < a + i then bs[j - a] else old(mem[j])
      {
        mem[a + i] := v % 0x100;
        v, i := v / 0x100, i + 1;
      }
      assert mem[..] == Store(old(mem[..]), a, bs);
    }

    /** memcpy into guest memory. */
    method Copy(a: nat, data: seq<u8>)
      requires Valid() && InRam(a, |data|)
      modifies mem
      ensures mem[..] == Store(old(mem[..]), a, data)
    {
      forall i | 0 <= i < |data| {
        mem[a + i] := data[i];
      }
      assert mem[..] == Store(old(mem[..]), a, data);
    }

    /** Copies a service's edits into guest memory. */
    method Patch(edits: map<u32, u8>)
      requires Valid()
      modifies mem
      ensures mem[..] == Edit(old(mem[..]), edits)
    {
      forall a: int | 0 <= a < mem.Length && a in edits {
        mem[a] := edits[a];
      }
      assert mem[..] == Edit(old(mem[..]), edits);
    }

    /** Services the request in tohost, or takes note of an exit. */
    method HandleCall(cfg: Config, host: Host, tohost: u32) returns (status: Status)
      requires Valid()
      modifies this, mem
      ensures status == StatusOf(HandleSyscall(cfg, host, old(Snapshot()), tohost))
      ensures status == Ok ==> Snapshot() == HandleSyscall(cfg, host, old(Snapshot()), tohost).s
    {
      if And(tohost, 1) != 0 {
        brk := true;
        return Ok;
      }
      if !InRam(tohost, 8) {
        return Failed(OutOfRange);
      }
      var number := Read(tohost, 8);
      if !Supported(number) {
        return Failed(ExitFailure);
      }
      if !InRam(tohost, 8 * RequestWords(number)) {
        return Failed(OutOfRange);
      }
      var reply := host(icnt);
      Answer(tohost, number, reply);
      Write(cfg.tohostAddr, 0, 8);
      Write(cfg.fromhostAddr, 1, 8);
      status := Ok;
    }

    /** The service itself: its edits of memory and its result word, in the order of the source. */
    method Answer(tohost: u32, number: nat, reply: Reply)
      requires Valid() && InRam(tohost, 8 * RequestWords(number))
      modifies mem
      ensures mem[..] == Answered(old(mem[..]), tohost, number, reply)
    {
      var result := reply.result;
      if number == SYS_STAT {
        result := 0;
      } else if number == SYS_CLOSE {
        var fd := Read(tohost + 8, 8);
        if fd <= 2 {
          result := 0;
        }
      }
      var edits := if EditsMemory(number) then reply.edits else map[];
      if number == SYS_TIMES {
        Write(tohost, result, 8);
        Patch(edits);
      } else {
        Patch(edits);
        Write(tohost, result, 8);
      }
    }

    method ExecuteLoad(m: Riscv) returns (status: Status)
      requires Valid()
      modifies this, gpr
      ensures status == StatusOf(ExecLoad(old(Snapshot()), m))
      ensures status == Ok ==> Snapshot() == ExecLoad(old(Snapshot()), m).s
    {
      if m.rd != 0 {
        var ea := ToU32(ToI32(m.immI + gpr[m.rs1]));
        var k := LoadWidth(m.sel);
        if k == 0 {
          return Failed(AssertionFailure);
        }
        if !InRam(ea, k) {
          return Failed(OutOfRange);
        }
        var v := Read(ea, k);
        gpr[m.rd] := Extended(m.sel, v);
      }
      pc := ToU32(pc + 4);
      status := Ok;
    }

    method ExecuteStore(m: Riscv) returns (status: Status)
      requires Valid()
      modifies this, mem
      ensures status == StatusOf(ExecStore(old(Snapshot()), m))
      ensures status == Ok ==> Snapshot() == ExecStore(old(Snapshot()), m).s
    {
      var ea := ToU32(ToI32(m.immS + gpr[m.rs1]));
      var k := StoreWidth(m.sel);
      if k == 0 {
        return Failed(AssertionFailure);
      }
      if !InRam(ea, k) {
        return Failed(OutOfRange);
      }
      Write(ea, ToU32(gpr[m.rs2]), k);
      pc := ToU32(pc + 4);
      status := Ok;
    }

    method ExecuteValue(rd: Reg, v: Value) returns (status: Status)
      requires Valid()
      modifies this, gpr
      ensures status == StatusOf(ExecValue(old(Snapshot()), rd, v))
      ensures status == Ok ==> Snapshot() == ExecValue(old(Snapshot()), rd, v).s
    {
      if rd != 0 {
        match v
        case NoValue(why) => return Failed(why);
        case Value(x) => gpr[rd] := x;
      }
      pc := ToU32(pc + 4);
      status := Ok;
    }

    /** JALR and JAL: the target is computed before the link register is written. */
    method ExecuteJump(m: Riscv)
      requires Valid() && (m.opcode == 0x67 || m.opcode == 0x6f)
      modifies this, gpr
      ensures Running(Snapshot())
           == if m.opcode == 0x67 then ExecJalr(old(Snapshot()), m) else ExecJal(old(Snapshot()), m)
    {
      hide And, ToI32;
      var target := if m.opcode == 0x67 then ToU32(And(ToU32(ToI32(m.immI + gpr[m.rs1])), 0xffff_fffe))
                    else ToU32(pc + m.immJ);
      if m.rd != 0 {
        gpr[m.rd] := ToI32(ToU32(pc + 4));
      }
      pc := target;
    }

    method ExecuteBranch(m: Riscv) returns (status: Status)
      requires Valid()
      modifies this
      ensures status == StatusOf(ExecBranch(old(Snapshot()), m))
      ensures status == Ok ==> Snapshot() == ExecBranch(old(Snapshot()), m).s
    {
      match BranchTaken(m.sel, gpr[m.rs1], gpr[m.rs2])
      case Undecided => status := Failed(AssertionFailure);
      case Decided(taken) =>
        pc := if taken then ToU32(m.immB + pc) else ToU32(pc + 4);
        status := Ok;
    }

    method ExecuteSystem(m: Riscv)
      requires Valid()
      modifies this, gpr
      ensures Running(Snapshot()) == ExecSystem(old(Snapshot()), m)
    {
      if m.ecall {
        brk := true;
      } else {
        if m.csrOp == 2 && m.csr == 0xc00 {
          gpr[m.rd] := ToI32(icnt);
        }
        pc := ToU32(pc + 4);
      }
    }

    /** The opcode switch. */
    method ExecuteWord(m: Riscv) returns (status: Status)
      requires Valid()
      modifies this, gpr, mem
      ensures status == StatusOf(Dispatch(old(Snapshot()), m))
      ensures status == Ok ==> Snapshot() == Dispatch(old(Snapshot()), m).s
    {
      hide OpValue, OpImmValue, ExecLoad, ExecStore, ExecValue, ExecJalr, ExecJal, ExecBranch, ExecSystem, And;
      var rs1, rs2 := gpr[m.rs1], gpr[m.rs2];
      status := Ok;
      if m.opcode == 0x03 {
        status := ExecuteLoad(m);
      } else if m.opcode == 0x0f {
        pc := ToU32(pc + 4);
      } else if m.opcode == 0x13 {
        status := ExecuteValue(m.rd, OpImmValue(m, rs1));
      } else if m.opcode == 0x23 {
        status := ExecuteStore(m);
      } else if m.opcode == 0x37 {
        status := ExecuteValue(m.rd, Value(ToI32(m.immU)));
      } else if m.opcode == 0x17 {
        status := ExecuteValue(m.rd, Value(ToI32(ToU32(pc + m.immU))));
      } else if m.opcode == 0x67 || m.opcode == 0x6f {
        ExecuteJump(m);
      } else if m.opcode == 0x33 {
        status := ExecuteValue(m.rd, OpValue(m, rs1, rs2));
      } else if m.opcode == 0x63 {
        status := ExecuteBranch(m);
      } else if m.opcode == 0x73 {
        ExecuteSystem(m);
      } else {
        status := Failed(ExitFailure);
      }
    }

    /** execRiscv: fetch, service a pending request, execute, count. */
    method ExecRiscv(cfg: Config, host: Host) returns (status: Status)
      requires Valid()
      modifies this, gpr, mem
      ensures status == StatusOf(Step(cfg, host, old(Snapshot())))
      ensures status == Ok ==> Snapshot() == Step(cfg, host, old(Snapshot())).s
    {
      hide Decode, Dispatch, HandleSyscall, And;
      if !InRam(pc, 4) {
        return Failed(OutOfRange);
      }
      var inst := Read(pc, 4);
      assert inst == Fetched(Snapshot());
      var word := Read(cfg.tohostAddr, 8);
      AndWord(word);
      var tohost: u32 := And(word, 0xffff_ffff);
      assert tohost == Pending(cfg, mem[..]);
      if tohost != 0 {
        status := HandleCall(cfg, host, tohost);
        if status != Ok {
          return;
        }
      }
      assert Service(cfg, host, old(Snapshot())) == Running(Snapshot());
      lastPc := pc;
      status := ExecuteWord(Decode(inst));
      if status == Ok {
        icnt := (icnt + 1) % TWO64;
      }
    }

    /** runRiscv: the bounded loop computes exactly the run. */
    method RunRiscv(cfg: Config, host: Host, dumpIcnt: u64) returns (status: Status)
      requires Valid()
      modifies this, gpr, mem
      ensures status == StatusOf(Run(cfg, host, old(Snapshot()), dumpIcnt))
      ensures status == Ok ==> Snapshot() == Run(cfg, host, old(Snapshot()), dumpIcnt).s
    {
      hide Step;
      while !brk && icnt < maxicnt && icnt < dumpIcnt
        invariant Run(cfg, host, Snapshot(), dumpIcnt) == Run(cfg, host, old(Snapshot()), dumpIcnt)
        decreases dumpIcnt - icnt
      {
        if Step(cfg, host, Snapshot()).Running? {
          StepFrame(cfg, host, Snapshot());
        }
        status := ExecRiscv(cfg, host);
        if status != Ok {
          return;
        }
      }
      status := Ok;
    }
  }

  function StatusOf(o: Outcome): Status {
    match o
    case Running(_) => Ok
    case Stuck(why) => Failed(why)
  }
}
