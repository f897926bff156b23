/** The checkpoint file is a faithful, compact picture of the guest, and resuming from it is
    the same as never having stopped. */
module CheckpointTheorems {
  import opened CIntegers
  import opened Ram
  import opened Fields
  import opened Machine
  import opened Runs
  import opened HostCalls
  import opened Checkpoint

  // ----- the format -----

  lemma {:induction false} RecordAt(m: Memory, ps: seq<PageNo>, k: nat)
    requires k < |ps|
    ensures Records(m, ps)[RECORD_SIZE * k..RECORD_SIZE * k + RECORD_SIZE] == Record(m, ps[k])
    decreases k
  {
    hide Record;
    var bs := Records(m, ps);
    if k == 0 {
      assert bs[..RECORD_SIZE] == Record(m, ps[0]);
    } else {
      RecordAt(m, ps[1..], k - 1);
      var rest := Records(m, ps[1..]);
      assert bs[RECORD_SIZE..] == rest;
      Subslice(bs, RECORD_SIZE, |bs|, RECORD_SIZE * (k - 1), RECORD_SIZE * (k - 1) + RECORD_SIZE);
    }
  }

  /** The file is one header and, in the order of the list, one record for each page that has a
      non-zero byte. */
  lemma DumpRecords(s: State)
    ensures var ps := NzPages(s.mem, 0);
      && |Dump(s)| == 152 + 4100 * |ps|
      && FromLe(Dump(s)[148..152]) == |ps|
      && (forall q: PageNo :: q in ps <==> PageNonZero(s.mem, q))
      && (forall i, j :: 0 <= i < j < |ps| ==> ps[i] < ps[j])
      && (forall k :: 0 <= k < |ps| ==>
            Dump(s)[152 + 4100 * k..152 + 4100 * k + 4100] == Record(s.mem, ps[k]))
      && (forall k :: 0 <= k < |ps| ==> FromLe(Record(s.mem, ps[k])[..4]) == ps[k] * PAGE_SIZE < TWO32)
  {
    hide Header, Records, NzPages, FromLe, ToLe, PageNonZero, Record;
    var ps := NzPages(s.mem, 0);
    var records := Records(s.mem, ps);
    var file := Dump(s);
    Ascending(s.mem, 0);
    HeaderFields(s, |ps|, records);
    WordBack(|ps|);
    forall q: PageNo
      ensures q in ps <==> PageNonZero(s.mem, q)
    {
      ListsExactly(s.mem, 0, q);
    }
    forall k | 0 <= k < |ps|
      ensures file[152 + 4100 * k..152 + 4100 * k + 4100] == Record(s.mem, ps[k])
    {
      RecordInFile(Header(s, |ps|), s.mem, ps, k);
    }
    forall k | 0 <= k < |ps|
      ensures FromLe(Record(s.mem, ps[k])[..4]) == ps[k] * PAGE_SIZE < TWO32
    {
      RecordAddress(s.mem, ps[k]);
    }
  }

  lemma RecordAddress(m: Memory, p: PageNo)
    ensures FromLe(Record(m, p)[..4]) == p * PAGE_SIZE < TWO32
  {
    hide ToLe, FromLe;
    PageAddress(p);
    assert Record(m, p)[..4] == ToLe(p * PAGE_SIZE, 4);
  }

  lemma RecordInFile(header: seq<u8>, m: Memory, ps: seq<PageNo>, k: nat)
    requires |header| == HEADER_SIZE && k < |ps|
    ensures (header + Records(m, ps))[152 + 4100 * k..152 + 4100 * k + 4100] == Record(m, ps[k])
  {
    hide Records, Record;
    var file := header + Records(m, ps);
    RecordAt(m, ps, k);
    assert file[HEADER_SIZE..] == Records(m, ps);
    Subslice(file, HEADER_SIZE, |file|, RECORD_SIZE * k, RECORD_SIZE * k + RECORD_SIZE);
  }

  // ----- what a restored machine holds -----

  /** Every non-zero byte of t lies in a page that is non-zero in m. */
  predicate ZeroOffPages(t: Memory, m: Memory) {
    forall a :: 0 <= a < RAM_SIZE && t[a] != 0 ==> PageNonZero(m, a / PAGE_SIZE)
  }

  lemma NonZeroByte(m: Memory, a: nat)
    requires a < RAM_SIZE && m[a] != 0
    ensures PageNonZero(m, a / PAGE_SIZE)
  {}

  lemma OverlayAt(t: Memory, m: Memory, a: nat)
    requires a < RAM_SIZE
    ensures Overlay(t, m, NzPages(m, 0))[a] == if PageNonZero(m, a / PAGE_SIZE) then m[a] else t[a]
  {
    ListsExactly(m, 0, a / PAGE_SIZE);
    hide NzPages, PageNonZero;
  }

  /** Memory is restored exactly when the target is zero on the pages that have no record. */
  lemma RestoreExact(s: State, t: State)
    ensures Restore(t, Dump(s)).Running?
    ensures Restore(t, Dump(s)).s == t.(pc := s.pc, gpr := s.gpr, icnt := s.icnt, mem := s.mem)
       <==> ZeroOffPages(t.mem, s.mem)
  {
    RestoreDump(s, t);
    var r := Overlay(t.mem, s.mem, NzPages(s.mem, 0));
    hide Overlay, NzPages, Restore, Dump, PageNonZero;
    forall a | 0 <= a < RAM_SIZE
      ensures r[a] == if PageNonZero(s.mem, a / PAGE_SIZE) then s.mem[a] else t.mem[a]
      ensures s.mem[a] != 0 ==> PageNonZero(s.mem, a / PAGE_SIZE)
    {
      OverlayAt(t.mem, s.mem, a);
      if s.mem[a] != 0 {
        NonZeroByte(s.mem, a);
      }
    }
    if ZeroOffPages(t.mem, s.mem) {
      assert forall a :: 0 <= a < RAM_SIZE ==> r[a] == s.mem[a];
      assert r == s.mem;
    } else {
      var a :| 0 <= a < RAM_SIZE && t.mem[a] != 0 && !PageNonZero(s.mem, a / PAGE_SIZE);
      assert r[a] != s.mem[a];
    }
  }

  lemma RestoreFresh(s: State, maxicnt: u64)
    ensures Restore(Fresh(maxicnt), Dump(s))
         == Running(Fresh(maxicnt).(pc := s.pc, gpr := s.gpr, icnt := s.icnt, mem := s.mem))
  {
    RestoreExact(s, Fresh(maxicnt));
    hide Restore, Dump, PageNonZero;
  }

  /** Two states have the same dump exactly when they agree on pc, registers, icnt and memory. */
  lemma DumpInjective(s: State, t: State)
    ensures Dump(s) == Dump(t) <==> s.pc == t.pc && s.gpr == t.gpr && s.icnt == t.icnt && s.mem == t.mem
  {
    RestoreFresh(s, 0);
    RestoreFresh(t, 0);
    if s.pc == t.pc && s.gpr == t.gpr && s.icnt == t.icnt && s.mem == t.mem {
      assert Header(s, |NzPages(s.mem, 0)|) == Header(t, |NzPages(t.mem, 0)|);
    }
    hide Restore, Header, Records;
  }

  /** Dumping what was restored reproduces the file exactly when the target was zero off its pages. */
  lemma DumpAfterRestore(s: State, t: State)
    ensures Restore(t, Dump(s)).Running?
    ensures Dump(Restore(t, Dump(s)).s) == Dump(s) <==> ZeroOffPages(t.mem, s.mem)
  {
    RestoreDump(s, t);
    RestoreExact(s, t);
    DumpInjective(Restore(t, Dump(s)).s, s);
    hide Restore, Dump, Overlay, NzPages, ZeroOffPages;
  }

  // ----- checkpoint transparency -----

  /** The machine made by loading the checkpoint of s into a new process with the same limit. */
  function Resumed(s: State): State {
    RestoreFresh(s, s.maxicnt);
    Restore(Fresh(s.maxicnt), Dump(s)).s
  }

  lemma ResumedIs(s: State)
    ensures Resumed(s) == Fresh(s.maxicnt).(pc := s.pc, gpr := s.gpr, icnt := s.icnt, mem := s.mem)
  {
    RestoreFresh(s, s.maxicnt);
    hide Restore, Dump;
  }

  /** Stop at one limit, dump, load into a fresh process and run on: every later stop, and every
      way of getting stuck, is that of the run that never stopped, exactly when brk was not set. */
  lemma ResumeIsTransparent(cfg: Config, host: Host, s: State, stop: u64, limit: u64)
    requires stop <= limit && Run(cfg, host, s, stop).Running?
    ensures var u := Run(cfg, host, s, stop).s;
      SameOutcome(Run(cfg, host, s, limit), Run(cfg, host, Resumed(u), limit)) <==> !u.brk
  {
    hide Step, Resumed;
    var u := Run(cfg, host, s, stop).s;
    var v := Resumed(u);
    ResumedIs(u);
    RunComposes(cfg, host, s, stop, limit);
    if u.brk {
      if Run(cfg, host, v, limit).Running? {
        RunStops(cfg, host, v, limit);
      }
    } else {
      assert SameGuest(u, v);
      RunIgnores(cfg, host, u, v, limit);
    }
  }

  // ----- the size of a checkpoint -----

  lemma {:induction false} CountAfterChange(m: Memory, m': Memory, p: nat, q: nat, low: nat)
    requires forall r: PageNo :: r != p && r != q ==> (PageNonZero(m', r) ==> PageNonZero(m, r))
    ensures |NzPages(m', low)| <= |NzPages(m, low)| + One(low <= p) + One(low <= q && q != p)
    decreases N_PAGES - low
  {
    hide PageNonZero;
    if low < N_PAGES {
      CountAfterChange(m, m', p, q, low + 1);
    }
  }

  lemma PageKept(m: Memory, m': Memory, ea: nat, k: nat, r: PageNo)
    requires k <= 4 && forall a :: 0 <= a < RAM_SIZE && !(ea <= a < ea + k) ==> m'[a] == m[a]
    requires k > 0 ==> r != ea / PAGE_SIZE && r != (ea + k - 1) / PAGE_SIZE
    requires PageNonZero(m', r)
    ensures PageNonZero(m, r)
  {
    var a :| r * PAGE_SIZE <= a < r * PAGE_SIZE + PAGE_SIZE && m'[a] != 0;
    assert m[a] != 0;
  }

  /** Changing k <= 4 consecutive bytes adds at most one page, or two when they straddle a boundary. */
  lemma CountAfterStore(m: Memory, m': Memory, ea: nat, k: nat)
    requires k <= 4 && forall a :: 0 <= a < RAM_SIZE && !(ea <= a < ea + k) ==> m'[a] == m[a]
    ensures |NzPages(m', 0)| <= |NzPages(m, 0)| + One(k > 0) + One(ea % PAGE_SIZE + k > PAGE_SIZE)
  {
    var p := ea / PAGE_SIZE;
    var q := if k == 0 then p else (ea + k - 1) / PAGE_SIZE;
    if k == 0 {
      assert m' == m;
    } else {
      forall r: PageNo | r != p && r != q && PageNonZero(m', r)
        ensures PageNonZero(m, r)
      {
        PageKept(m, m', ea, k, r);
      }
      hide PageNonZero, NzPages;
      CountAfterChange(m, m', p, q, 0);
      assert q != p ==> ea % PAGE_SIZE + k > PAGE_SIZE;
    }
  }

  /** How many pages executing m can make non-zero. */
  function StoreGrowth(s: State, m: Riscv): nat {
    if m.opcode != 0x23 then 0
    else 1 + One(StoreAddress(s, m) % PAGE_SIZE + StoreWidth(m.sel) > PAGE_SIZE)
  }

  /** How many pages a step without a host call can make non-zero. */
  function Growth(s: State): nat
    requires InRam(s.pc, 4)
  {
    StoreGrowth(s, Decode(Fetched(s)))
  }

  lemma QuietReady(cfg: Config, host: Host, s: State)
    requires Pending(cfg, s.mem) == 0
    ensures Service(cfg, host, s) == Running(s) && Ready(cfg, host, s) == s.(lastPc := s.pc)
  {
    hide Pending, HandleSyscall;
  }

  lemma DispatchGrowth(s: State, m: Riscv)
    requires Dispatch(s, m).Running?
    ensures |NzPages(Dispatch(s, m).s.mem, 0)| <= |NzPages(s.mem, 0)| + StoreGrowth(s, m)
  {
    hide Dispatch, NzPages, StoreAddress;
    DispatchMemory(s, m);
    if m.opcode == 0x23 {
      CountAfterStore(s.mem, Dispatch(s, m).s.mem, StoreAddress(s, m), StoreWidth(m.sel));
    }
  }

  lemma SameGrowth(s: State, m: Riscv)
    ensures StoreGrowth(s.(lastPc := s.pc), m) == StoreGrowth(s, m)
  {
    hide ToU32, ToI32;
  }

  lemma StepGrowth(cfg: Config, host: Host, s: State)
    requires Pending(cfg, s.mem) == 0 && Step(cfg, host, s).Running?
    ensures |NzPages(Step(cfg, host, s).s.mem, 0)| <= |NzPages(s.mem, 0)| + Growth(s)
  {
    StepMemory(cfg, host, s);
    QuietReady(cfg, host, s);
    var m := Decode(Fetched(s));
    SameGrowth(s, m);
    hide Step, Decode, Dispatch, Fetched, NzPages, Pending, Service, Ready, StoreGrowth;
    DispatchGrowth(s.(lastPc := s.pc), m);
  }

  /** No step of the run finds a host request. */
  predicate Quiet(cfg: Config, host: Host, s: State, limit: u64)
    decreases if s.icnt < limit then limit - s.icnt else 0
  {
    hide Step, Pending;
    Continues(s, limit) ==>
      && Pending(cfg, s.mem) == 0
      && match Step(cfg, host, s)
         case Stuck(_) => true
         case Running(t) =>
           StepFrame(cfg, host, s);
           Quiet(cfg, host, t, limit)
  }

  lemma {:induction false} PagesAfterRun(cfg: Config, host: Host, s: State, limit: u64)
    requires Quiet(cfg, host, s, limit) && Run(cfg, host, s, limit).Running?
    ensures var t := Run(cfg, host, s, limit).s;
      && s.icnt <= t.icnt
      && |NzPages(t.mem, 0)| <= |NzPages(s.mem, 0)| + 2 * (t.icnt - s.icnt)
    decreases if s.icnt < limit then limit - s.icnt else 0
  {
    hide Step, Pending, NzPages, Growth;
    if Continues(s, limit) {
      StepRuns(cfg, host, s);
      StepGrowth(cfg, host, s);
      StepFrame(cfg, host, s);
      PagesAfterRun(cfg, host, Step(cfg, host, s).s, limit);
    }
  }

  /** After n steps without host calls from a state with k non-zero pages, the checkpoint has at
      most k + 2n records. */
  lemma CheckpointSize(cfg: Config, host: Host, s: State, limit: u64)
    requires Quiet(cfg, host, s, limit) && Run(cfg, host, s, limit).Running?
    ensures var t := Run(cfg, host, s, limit).s;
      |Dump(t)| <= 152 + 4100 * (|NzPages(s.mem, 0)| + 2 * (t.icnt - s.icnt))
  {
    hide Run, NzPages, Records, Header, Quiet;
    PagesAfterRun(cfg, host, s, limit);
  }

  lemma StepRuns(cfg: Config, host: Host, s: State)
    requires Step(cfg, host, s).Running?
    ensures InRam(s.pc, 4) && Growth(s) <= 2
  {
    hide Decode, Execute, Service, Fetched;
  }
}
