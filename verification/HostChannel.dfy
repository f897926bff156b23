/** The host channel as the guest sees it, in numbers and bytes: what an instruction finds in memory
    after a request in tohost has been attended to. Nothing here refers to how the interpreter does it;
    the theorems say that the interpreter does exactly this. */
module HostChannel {
  import opened CIntegers
  import opened Ram
  import opened Fields
  import opened Machine
  import opened Runs
  import opened HostCalls

  /** Execution goes on, with this memory and perhaps for the last time, or the program stops. */
  datatype Action = Goes(mem: Memory, exit: bool) | Fails(why: Fault)

  /** Any two addresses with eight bytes of memory behind them can be those of tohost and fromhost. */
  function Placed(tohost: u32, fromhost: u32): (cfg: Config)
    requires tohost + 8 <= 0x1_0000_0000 && fromhost + 8 <= 0x1_0000_0000
    ensures cfg.tohostAddr == tohost && cfg.fromhostAddr == fromhost
  {
    Globals(tohost, fromhost)
  }

  /** Byte k of a little-endian number. */
  function DigitOf(n: nat, k: nat): u8 {
    DivNonNegative(n, Pow2(8 * k));
    n / Pow2(8 * k) % 0x100
  }

  /** The 8-byte words of a request, by its number. */
  function WordsOf(number: nat): nat {
    if number == 78 then 1
    else if number in {57, 95} then 2
    else if number in {55, 80, 94} then 3
    else 4
  }

  /** stat, and close of a standard descriptor, give 0; the rest is the operating system's answer. */
  function ResultOf(m: Memory, request: nat, number: nat, reply: Reply): u64
    requires request + 8 * WordsOf(number) <= 0x1_0000_0000
  {
    if number == 78 || (number == 57 && Load(m, request + 8, 8) <= 2) then 0 else reply.result
  }

  /** Byte a of memory after the call. Where places overlap, the last one written counts: fromhost,
      tohost, the buffer of times, the result, and then the buffers of read, fstat and gettimeofday. */
  function ByteAfter(cfg: Config, m: Memory, request: nat, number: nat, reply: Reply, a: nat): u8
    requires request + 8 * WordsOf(number) <= 0x1_0000_0000 && a < 0x1_0000_0000
  {
    if cfg.fromhostAddr <= a < cfg.fromhostAddr + 8 then if a == cfg.fromhostAddr then 1 else 0
    else if cfg.tohostAddr <= a < cfg.tohostAddr + 8 then 0
    else if number == 95 && a in reply.edits then reply.edits[a]
    else if request <= a < request + 8 then DigitOf(ResultOf(m, request, number, reply), a - request)
    else if number in {63, 80, 94} && a in reply.edits then reply.edits[a]
    else m[a]
  }

  function MemoryAfter(cfg: Config, m: Memory, request: nat, number: nat, reply: Reply): Memory
    requires request + 8 * WordsOf(number) <= 0x1_0000_0000
  {
    seq(0x1_0000_0000, a requires 0 <= a < 0x1_0000_0000 => ByteAfter(cfg, m, request, number, reply, a))
  }

  /** open 55, close 57, lseek 62, read 63, write 64, stat 78, fstat 80, gettimeofday 94 and times 95 are
      answered; an odd request is an exit, and no request at all changes nothing. */
  function ActionOf(cfg: Config, reply: Reply, m: Memory): Action {
    var request := Load(m, cfg.tohostAddr, 4);
    if request == 0 then Goes(m, false)
    else if request % 2 == 1 then Goes(m, true)
    else if request + 8 > 0x1_0000_0000 then Fails(OutOfRange)
    else
      var number := Load(m, request, 8);
      if number !in {55, 57, 62, 63, 64, 78, 80, 94, 95} then Fails(ExitFailure)
      else if request + 8 * WordsOf(number) > 0x1_0000_0000 then Fails(OutOfRange)
      else Goes(MemoryAfter(cfg, m, request, number, reply), false)
  }

  // ----- the interpreter's service -----

  lemma DivTwice(n: nat, p: nat, q: nat)
    requires p > 0 && q > 0
    ensures p * q > 0 && n / p / q == n / (p * q)
  {
    var a, r := n / p, n % p;
    var b, t := a / q, a % q;
    assert n == a * p + r && a == b * q + t;
    assert n == b * (p * q) + (t * p + r) by {
      assert (b * q + t) * p == b * (p * q) + t * p;
    }
    Scale(t, q - 1, p);
    assert (q - 1) * p == p * q - p;
    DivModUnique(n, p * q, b, t * p + r);
  }

  lemma {:induction false} ToLeDigit(n: nat, k: nat, i: nat)
    requires i < k
    ensures ToLe(n, k)[i] == DigitOf(n, i)
    decreases k
  {
    if i > 0 {
      ToLeDigit(n / 0x100, k - 1, i - 1);
      var p := Pow2(8 * (i - 1));
      Pow2Eight(8 * (i - 1));
      assert Pow2(8 * i) == 0x100 * p;
      DivTwice(n, 0x100, p);
    } else {
      assert Pow2(0) == 1;
    }
  }

  lemma SameNumbers(number: nat)
    ensures Supported(number) <==> number in {55, 57, 62, 63, 64, 78, 80, 94, 95}
    ensures RequestWords(number) == WordsOf(number)
    ensures EditsMemory(number) <==> number in {63, 80, 94, 95}
  {}

  lemma ServicedByte(cfg: Config, m: Memory, request: nat, number: nat, reply: Reply, a: nat)
    requires request + 8 * WordsOf(number) <= 0x1_0000_0000 && a < 0x1_0000_0000
    ensures InRam(request, 8 * RequestWords(number))
    ensures Acknowledged(cfg, Answered(m, request, number, reply))[a] == ByteAfter(cfg, m, request, number, reply, a)
  {
    SameNumbers(number);
    AckBytes();
    hide ToLe, Load, DigitOf;
    if request <= a < request + 8 {
      ToLeDigit(ResultOf(m, request, number, reply), 8, a - request);
    }
  }

  lemma ServicedMemory(cfg: Config, m: Memory, request: nat, number: nat, reply: Reply)
    requires request + 8 * WordsOf(number) <= 0x1_0000_0000
    ensures InRam(request, 8 * RequestWords(number))
    ensures Acknowledged(cfg, Answered(m, request, number, reply)) == MemoryAfter(cfg, m, request, number, reply)
  {
    SameNumbers(number);
    hide Acknowledged, Answered, ByteAfter;
    forall a | 0 <= a < 0x1_0000_0000
      ensures Acknowledged(cfg, Answered(m, request, number, reply))[a] == ByteAfter(cfg, m, request, number, reply, a)
    {
      ServicedByte(cfg, m, request, number, reply, a);
    }
  }

  /** What the interpreter does about tohost is the action, in every state and for every answer of the
      operating system. */
  lemma ServiceIsAction(cfg: Config, host: Host, s: State)
    ensures Service(cfg, host, s) ==
      match ActionOf(cfg, host(s.icnt), s.mem)
      case Fails(why) => Stuck(why)
      case Goes(m, exit) => Running(s.(mem := m, brk := s.brk || exit))
  {
    PendingIsLowWord(cfg, s.mem);
    OddMask(Pending(cfg, s.mem));
    var request := Pending(cfg, s.mem);
    hide Pending, And, Acknowledged, Answered, MemoryAfter, Supported, RequestWords, Load;
    if request != 0 && request % 2 == 0 && request + 8 <= 0x1_0000_0000 {
      var number := Load(s.mem, request, 8);
      SameNumbers(number);
      if request + 8 * WordsOf(number) <= 0x1_0000_0000 {
        ServicedMemory(cfg, s.mem, request, number, host(s.icnt));
      }
    }
  }

  // ----- what the guest finds -----

  /** The bytes that times writes after the result agree with it wherever they reach its word. */
  predicate Spares(reply: Reply, request: nat, result: u64) {
    forall a: u32 :: request <= a < request + 8 && a in reply.edits ==> reply.edits[a] == DigitOf(result, a - request)
  }

  lemma SparesIs(m: Memory, request: u32, number: nat, reply: Reply)
    requires InRam(request, 8 * RequestWords(number))
    requires request + 8 * WordsOf(number) <= 0x1_0000_0000
    ensures EditsSpareResult(m, request, number, reply) <==>
      (number == 95 ==> Spares(reply, request, ResultOf(m, request, number, reply)))
  {
    SameNumbers(number);
    var result := ResultOf(m, request, number, reply);
    assert ResultWord(m, request, number, reply) == result;
    hide ToLe, Load, DigitOf, ResultWord, ResultOf;
    forall k | 0 <= k < 8
      ensures ToLe(result, 8)[k] == DigitOf(result, k)
    {
      ToLeDigit(result, 8, k);
    }
  }

  /** A request whose words lie in memory, apart from both host words. */
  predicate Requests(cfg: Config, m: Memory, request: u32, number: nat) {
    && Load(m, cfg.tohostAddr, 4) == request != 0 && request % 2 == 0
    && request + 8 <= 0x1_0000_0000 && Load(m, request, 8) == number
    && request + 8 * WordsOf(number) <= 0x1_0000_0000
    && Apart(request, cfg.tohostAddr) && Apart(request, cfg.fromhostAddr) && Apart(cfg.tohostAddr, cfg.fromhostAddr)
  }

  predicate Elsewhere(cfg: Config, request: nat, a: nat) {
    Outside(a, request) && Outside(a, cfg.tohostAddr) && Outside(a, cfg.fromhostAddr)
  }

  /** Every such request is served, if its number is known: then the first request word holds the result,
      unless times has written over it, tohost reads zero, fromhost reads one, and everywhere else memory
      holds what the operating system wrote for read, fstat, gettimeofday and times, or what it held. */
  lemma RequestServed(cfg: Config, host: Host, s: State, request: u32, number: nat)
    requires Requests(cfg, s.mem, request, number)
    ensures var o := Service(cfg, host, s);
      if number in {55, 57, 62, 63, 64, 78, 80, 94, 95} then
        var reply, result := host(s.icnt), ResultOf(s.mem, request, number, host(s.icnt));
        && o.Running? && o.s == s.(mem := o.s.mem)
        && (Load(o.s.mem, request, 8) == result <==> (number == 95 ==> Spares(reply, request, result)))
        && Load(o.s.mem, cfg.tohostAddr, 8) == 0 && Load(o.s.mem, cfg.fromhostAddr, 8) == 1
        && forall a :: 0 <= a < 0x1_0000_0000 && Elsewhere(cfg, request, a) ==>
             o.s.mem[a] == if number in {63, 80, 94, 95} && a in reply.edits then reply.edits[a] else s.mem[a]
      else o == Stuck(ExitFailure)
  {
    ServiceIsAction(cfg, host, s);
    if number in {55, 57, 62, 63, 64, 78, 80, 94, 95} {
      var reply := host(s.icnt);
      ServedMemory(cfg, s.mem, request, number, reply);
      hide Service, MemoryAfter, Load, ResultOf, Spares, Answered, Acknowledged;
      ServicedMemory(cfg, s.mem, request, number, reply);
      AcknowledgeSeen(cfg, Answered(s.mem, request, number, reply));
      ResultDelivered(cfg, s.mem, request, number, reply);
      SparesIs(s.mem, request, number, reply);
      SameResult(s.mem, request, number, reply);
    } else {
      hide Service, Load;
    }
  }

  lemma SameResult(m: Memory, request: u32, number: nat, reply: Reply)
    requires request + 8 * WordsOf(number) <= 0x1_0000_0000
    ensures InRam(request, 8 * RequestWords(number))
    ensures ResultWord(m, request, number, reply) == ResultOf(m, request, number, reply)
  {
    SameNumbers(number);
    hide Load;
  }

  lemma ServedMemory(cfg: Config, m: Memory, request: u32, number: nat, reply: Reply)
    requires request + 8 * WordsOf(number) <= 0x1_0000_0000
    ensures forall a :: 0 <= a < 0x1_0000_0000 && Elsewhere(cfg, request, a) ==>
      MemoryAfter(cfg, m, request, number, reply)[a]
      == if number in {63, 80, 94, 95} && a in reply.edits then reply.edits[a] else m[a]
  {
    hide DigitOf, ResultOf;
  }

  /** A guest that keeps the buffer of times apart from its request finds the result. */
  lemma TimesServed(cfg: Config, host: Host, s: State, request: u32, buf: nat)
    requires Requests(cfg, s.mem, request, 95)
    requires forall a :: a in host(s.icnt).edits ==> buf <= a < buf + 16
    requires buf + 16 <= request || request + 8 <= buf
    ensures Service(cfg, host, s).Running?
    ensures Load(Service(cfg, host, s).s.mem, request, 8) == host(s.icnt).result
  {
    hide Service, Load;
    RequestServed(cfg, host, s, request, 95);
  }
}
