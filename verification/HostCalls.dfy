/** Every request the guest leaves in tohost is serviced once and then cleared. */
module HostCalls {
  import opened CIntegers
  import opened Ram
  import opened Fields
  import opened Machine
  import opened Runs

  // ----- the request word -----

  /** The 64-bit tohost masked to its low half is the 32-bit word stored there. */
  lemma PendingIsLowWord(cfg: Config, m: Memory)
    ensures Pending(cfg, m) == Load(m, cfg.tohostAddr, 4)
  {
    hide And, Pow2, FromLe;
    var a := cfg.tohostAddr;
    var bs := m[a..a + 8];
    assert bs[..4] == m[a..a + 4];
    AndWord(FromLe(bs));
    FromLeSplit(bs);
    FromLeBound(bs[..4]);
    Pow2Words();
    DivModUnique(FromLe(bs), TWO32, FromLe(bs[4..]), FromLe(bs[..4]));
  }

  /** No request is pending exactly when the four low bytes of tohost are zero. */
  lemma PendingZero(cfg: Config, m: Memory)
    ensures Pending(cfg, m) == 0 <==> forall a :: cfg.tohostAddr <= a < cfg.tohostAddr + 4 ==> m[a] == 0
  {
    PendingIsLowWord(cfg, m);
    var t := cfg.tohostAddr;
    var bs := m[t..t + 4];
    FromLeZero(bs);
    hide Pending, FromLe;
    assert forall a :: t <= a < t + 4 ==> m[a] == bs[a - t];
    assert forall i :: 0 <= i < 4 ==> bs[i] == m[t + i];
  }

  lemma AckBytes()
    ensures forall i :: 0 <= i < 8 ==> ToLe(0, 8)[i] == 0
    ensures forall i :: 0 <= i < 8 ==> ToLe(1, 8)[i] == if i == 0 then 1 else 0
  {
    FromLeToLe(0, 8);
    FromLeZero(ToLe(0, 8));
    FromLeToLe(0, 7);
    FromLeZero(ToLe(0, 7));
    assert ToLe(1, 8) == [1] + ToLe(0, 7);
  }

  /** The host's reply overwrites the low word of tohost exactly when fromhost lies inside it. */
  predicate ReplyHitsRequest(cfg: Config) {
    cfg.tohostAddr <= cfg.fromhostAddr < cfg.tohostAddr + 4
  }

  /** The acknowledgement clears the request if and only if fromhost does not start inside the low
      tohost word. */
  lemma AcknowledgeClears(cfg: Config, m: Memory)
    ensures Pending(cfg, Acknowledged(cfg, m)) == 0 <==> !ReplyHitsRequest(cfg)
  {
    AckBytes();
    var m' := Acknowledged(cfg, m);
    PendingZero(cfg, m');
    hide Pending, ToLe;
    if ReplyHitsRequest(cfg) {
      assert m'[cfg.fromhostAddr] == 1;
    }
  }

  // ----- what the guest finds after a service -----

  predicate Apart(a: nat, b: nat) {
    a + 8 <= b || b + 8 <= a
  }

  /** With the two words apart, the guest finds tohost zero and fromhost one. */
  lemma AcknowledgeSeen(cfg: Config, m: Memory)
    requires Apart(cfg.tohostAddr, cfg.fromhostAddr)
    ensures Load(Acknowledged(cfg, m), cfg.tohostAddr, 8) == 0
    ensures Load(Acknowledged(cfg, m), cfg.fromhostAddr, 8) == 1
  {
    hide Load, Store, ToLe, FromLe;
    var m1 := Store(m, cfg.tohostAddr, ToLe(0, 8));
    LoadStoreSame(m, cfg.tohostAddr, ToLe(0, 8));
    LoadStoreOther(m1, cfg.fromhostAddr, ToLe(1, 8), cfg.tohostAddr, 8);
    LoadStoreSame(m1, cfg.fromhostAddr, ToLe(1, 8));
    LongBack(0);
    LongBack(1);
  }

  /** The edits the operating system makes after the result has been stored, as times does, agree with
      the result wherever they reach its word. */
  predicate EditsSpareResult(m: Memory, request: u32, number: nat, reply: Reply)
    requires InRam(request, 8 * RequestWords(number))
  {
    number == SYS_TIMES ==>
      forall a: u32 :: request <= a < request + 8 && a in reply.edits ==>
        reply.edits[a] == ToLe(ResultWord(m, request, number, reply), 8)[a - request]
  }

  lemma AnsweredWord(m: Memory, request: u32, number: nat, reply: Reply)
    requires InRam(request, 8 * RequestWords(number))
    ensures EditsSpareResult(m, request, number, reply) <==>
      Answered(m, request, number, reply)[request..request + 8] == ToLe(ResultWord(m, request, number, reply), 8)
  {
    hide ToLe, Load, ResultWord;
    var word := ToLe(ResultWord(m, request, number, reply), 8);
    var m1 := Answered(m, request, number, reply);
    var found := m1[request..request + 8];
    assert forall i :: 0 <= i < 8 ==> found[i] == m1[request + i];
    if number != SYS_TIMES {
      assert found == word;
    } else if found == word {
      assert forall a: u32 :: request <= a < request + 8 ==> m1[a] == found[a - request];
    } else {
      var i :| 0 <= i < 8 && found[i] != word[i];
      assert request + i in reply.edits && reply.edits[request + i] != word[request + i - request];
    }
  }

  /** The first request word holds the result if and only if no edit made after storing it disagrees. */
  lemma ResultDelivered(cfg: Config, m: Memory, request: u32, number: nat, reply: Reply)
    requires InRam(request, 8 * RequestWords(number))
    requires Apart(request, cfg.tohostAddr) && Apart(request, cfg.fromhostAddr)
    ensures EditsSpareResult(m, request, number, reply) <==>
      Load(Acknowledged(cfg, Answered(m, request, number, reply)), request, 8) == ResultWord(m, request, number, reply)
  {
    hide Store, ToLe, FromLe, Answered, ResultWord, EditsSpareResult;
    var m1 := Answered(m, request, number, reply);
    LoadStoreOther(m1, cfg.tohostAddr, ToLe(0, 8), request, 8);
    LoadStoreOther(Store(m1, cfg.tohostAddr, ToLe(0, 8)), cfg.fromhostAddr, ToLe(1, 8), request, 8);
    AnsweredWord(m, request, number, reply);
    LongDigits(m1[request..request + 8], ResultWord(m, request, number, reply));
  }

  /** What a guest can see to before the call: a buffer for times that lies apart from the request. */
  lemma TimesDelivered(cfg: Config, m: Memory, request: u32, buf: u32, reply: Reply)
    requires InRam(request, 16) && Apart(request, cfg.tohostAddr) && Apart(request, cfg.fromhostAddr)
    requires forall a :: a in reply.edits ==> buf <= a < buf + 16
    requires buf + 16 <= request || request + 8 <= buf
    ensures Load(Acknowledged(cfg, Answered(m, request, SYS_TIMES, reply)), request, 8) == reply.result
  {
    hide Load, Answered, Acknowledged, ToLe;
    ResultDelivered(cfg, m, request, SYS_TIMES, reply);
  }

  predicate Outside(a: nat, word: nat) {
    a < word || word + 8 <= a
  }

  /** Outside the three words the host writes, memory changes only where the service edits it. */
  lemma RestUntouched(cfg: Config, m: Memory, request: u32, number: nat, reply: Reply, a: nat)
    requires InRam(request, 8 * RequestWords(number)) && a < RAM_SIZE
    requires Outside(a, request) && Outside(a, cfg.tohostAddr) && Outside(a, cfg.fromhostAddr)
    ensures Acknowledged(cfg, Answered(m, request, number, reply))[a] ==
      if EditsMemory(number) && a in reply.edits then reply.edits[a] else m[a]
  {
    hide ToLe, Load;
  }

  // ----- one step -----

  /** The step services a request that is not an exit. */
  predicate Serviced(cfg: Config, host: Host, s: State) {
    InRam(s.pc, 4) && Pending(cfg, s.mem) != 0 && !ExitRequested(cfg, s) && Service(cfg, host, s).Running?
  }

  /** The step executes a store that overlaps the low word of tohost. */
  predicate Touches(cfg: Config, s: State) {
    InRam(s.pc, 4) &&
    var m := Decode(Fetched(s));
    var ea := StoreAddress(s, m);
    m.opcode == 0x23 && ea < cfg.tohostAddr + 4 && cfg.tohostAddr < ea + StoreWidth(m.sel)
  }

  /** Execution changes memory only by a store, and there only the stored bytes. */
  lemma DispatchMemory(s: State, m: Riscv)
    requires Dispatch(s, m).Running?
    ensures m.opcode != 0x23 ==> Dispatch(s, m).s.mem == s.mem
    ensures m.opcode == 0x23 ==>
      forall a :: 0 <= a < RAM_SIZE && !(StoreAddress(s, m) <= a < StoreAddress(s, m) + StoreWidth(m.sel)) ==>
        Dispatch(s, m).s.mem[a] == s.mem[a]
  {
    hide OpValue, OpImmValue, BranchTaken, And, Load, Extended, ToLe, StoreAddress;
  }

  /** After a request has been serviced none is pending until the guest stores one. */
  lemma ServiceClears(cfg: Config, host: Host, s: State)
    requires !ReplyHitsRequest(cfg) && Serviced(cfg, host, s)
    ensures Pending(cfg, Service(cfg, host, s).s.mem) == 0
  {
    OddMask(Pending(cfg, s.mem));
    var tohost := Pending(cfg, s.mem);
    hide Pending, And, Acknowledged, ReplyHitsRequest, Answered;
    AcknowledgeClears(cfg, Answered(s.mem, tohost, Load(s.mem, tohost, 8), host(s.icnt)));
  }

  function One(b: bool): nat { if b then 1 else 0 }

  /** The state in which the fetched word is executed. */
  function Ready(cfg: Config, host: Host, s: State): State
    requires Service(cfg, host, s).Running?
  {
    var u := Service(cfg, host, s).s;
    u.(lastPc := u.pc)
  }

  lemma ServiceKeepsRegisters(cfg: Config, host: Host, s: State, m: Riscv)
    requires Service(cfg, host, s).Running?
    ensures Service(cfg, host, s).s.gpr == s.gpr
    ensures StoreAddress(Ready(cfg, host, s), m) == StoreAddress(s, m)
  {
    hide Pending, Acknowledged, Answered, And, ToU32, ToI32;
  }

  lemma UntouchedStaysClear(cfg: Config, s: State, m: Riscv)
    requires Pending(cfg, s.mem) == 0 && Dispatch(s, m).Running?
    requires var ea := StoreAddress(s, m);
      m.opcode == 0x23 ==> cfg.tohostAddr + 4 <= ea || ea + StoreWidth(m.sel) <= cfg.tohostAddr
    ensures Pending(cfg, Dispatch(s, m).s.mem) == 0
  {
    hide Pending, Dispatch, StoreAddress, StoreWidth;
    PendingZero(cfg, s.mem);
    PendingZero(cfg, Dispatch(s, m).s.mem);
    DispatchMemory(s, m);
  }

  lemma NewRequestTouches(cfg: Config, host: Host, s: State)
    requires Step(cfg, host, s).Running? && !Touches(cfg, s)
    requires Service(cfg, host, s).Running? && Pending(cfg, Service(cfg, host, s).s.mem) == 0
    ensures Pending(cfg, Step(cfg, host, s).s.mem) == 0
  {
    StepMemory(cfg, host, s);
    hide Step, Decode, Dispatch, Pending, Service, Fetched, StoreAddress, StoreWidth;
    ServiceKeepsRegisters(cfg, host, s, Decode(Fetched(s)));
    UntouchedStaysClear(cfg, Ready(cfg, host, s), Decode(Fetched(s)));
  }

  lemma StepMemory(cfg: Config, host: Host, s: State)
    requires Step(cfg, host, s).Running?
    ensures InRam(s.pc, 4) && Service(cfg, host, s).Running?
    ensures var o := Dispatch(Ready(cfg, host, s), Decode(Fetched(s)));
      o.Running? && o.s.mem == Step(cfg, host, s).s.mem
  {
    hide Service, Decode, Dispatch, Fetched;
  }

  /** A step's books: a service consumes a pending request, and only a store makes a new one. */
  lemma StepBalance(cfg: Config, host: Host, s: State)
    requires !ReplyHitsRequest(cfg) && Step(cfg, host, s).Running?
    ensures One(Serviced(cfg, host, s)) + One(Pending(cfg, Step(cfg, host, s).s.mem) != 0)
         <= One(Touches(cfg, s)) + One(Pending(cfg, s.mem) != 0)
  {
    StepMemory(cfg, host, s);
    hide Step, Decode, Dispatch, Pending, Service, ReplyHitsRequest, Fetched, Touches, Ready;
    if Serviced(cfg, host, s) {
      ServiceClears(cfg, host, s);
    } else {
      PendingKept(cfg, host, s);
    }
    hide Serviced;
    if Pending(cfg, Service(cfg, host, s).s.mem) == 0 && !Touches(cfg, s) {
      NewRequestTouches(cfg, host, s);
    }
  }

  /** Without a request to service, or with an exit request, servicing leaves memory alone. */
  lemma PendingKept(cfg: Config, host: Host, s: State)
    requires InRam(s.pc, 4) && Service(cfg, host, s).Running? && !Serviced(cfg, host, s)
    ensures Service(cfg, host, s).s.mem == s.mem
  {
    OddMask(Pending(cfg, s.mem));
    hide Pending, And;
  }

  // ----- whole runs -----

  /** How many of the steps of a run satisfy p. */
  function CountSteps(cfg: Config, host: Host, s: State, limit: u64, p: State -> bool): nat
    decreases if s.icnt < limit then limit - s.icnt else 0
  {
    hide Step;
    if !Continues(s, limit) then 0
    else One(p(s)) +
         match Step(cfg, host, s)
         case Stuck(_) => 0
         case Running(t) =>
           StepFrame(cfg, host, s);
           CountSteps(cfg, host, t, limit, p)
  }

  function Services(cfg: Config, host: Host, s: State, limit: u64): nat {
    CountSteps(cfg, host, s, limit, t => Serviced(cfg, host, t))
  }

  function TouchingStores(cfg: Config, host: Host, s: State, limit: u64): nat {
    CountSteps(cfg, host, s, limit, t => Touches(cfg, t))
  }

  function StillPending(cfg: Config, o: Outcome): nat {
    match o
    case Stuck(_) => 0
    case Running(t) => One(Pending(cfg, t.mem) != 0)
  }

  /** Over any run there are at most as many services as stores touching the request word, plus one
      if a request was pending at the start; a request still pending at the end is not yet counted. */
  lemma {:induction false} ServicedAtMostOnce(cfg: Config, host: Host, s: State, limit: u64)
    requires !ReplyHitsRequest(cfg)
    ensures Services(cfg, host, s, limit) + StillPending(cfg, Run(cfg, host, s, limit))
         <= TouchingStores(cfg, host, s, limit) + One(Pending(cfg, s.mem) != 0)
    decreases if s.icnt < limit then limit - s.icnt else 0
  {
    hide Step, Pending, Touches, ReplyHitsRequest;
    if Continues(s, limit) {
      if Step(cfg, host, s).Running? {
        hide Serviced;
        StepBalance(cfg, host, s);
        StepFrame(cfg, host, s);
        ServicedAtMostOnce(cfg, host, Step(cfg, host, s).s, limit);
      }
    }
  }
}
