/** load_elf: the program headers laid over memory in order, then the boot stub. */
module Loader {
  import opened CIntegers
  import opened Ram
  import opened Machine
  import opened Interpreter

  const SHT_PROGBITS: i32 := 1

  /** The fields of a program header that loading uses, at the widths the code gives them. */
  datatype Phdr = Phdr(kind: i32, offset: i32, vaddr: u32, filesz: i32, memsz: i32)

  predicate Loadable(h: Phdr) {
    h.kind == SHT_PROGBITS && h.memsz != 0
  }

  /** memset and memcpy stay inside guest memory and the file. */
  predicate InRange(h: Phdr, file: seq<u8>) {
    h.memsz >= 0 && InRam(h.vaddr, h.memsz) &&
    h.filesz >= 0 && InRam(h.vaddr, h.filesz) &&
    h.offset >= 0 && h.offset + h.filesz <= |file|
  }

  function Zeros(n: nat): (bs: seq<u8>)
    ensures |bs| == n
  {
    seq(n, _ => 0)
  }

  function LoadSegment(m: Memory, h: Phdr, file: seq<u8>): Memory
    requires Loadable(h) && InRange(h, file)
  {
    Store(Store(m, h.vaddr, Zeros(h.memsz)), h.vaddr, file[h.offset..h.offset + h.filesz])
  }

  datatype Image = Image(mem: Memory) | BadImage

  function LoadSegments(m: Memory, headers: seq<Phdr>, file: seq<u8>): Image
    decreases |headers|
  {
    if headers == [] then Image(m)
    else if !Loadable(headers[0]) then LoadSegments(m, headers[1..], file)
    else if !InRange(headers[0], file) then BadImage
    else LoadSegments(LoadSegment(m, headers[0], file), headers[1..], file)
  }

  // ----- the boot stub -----

  const STUB: u32 := 0x1000

  /** auipc t0,0; addi a1,t0,32; csrr a0,mhartid; lw t0,24(t0); jalr zero,0(t0); entry; entry */
  function StubWords(entry: u32): (ws: seq<u32>)
    ensures |ws| == 7
  {
    [0x0000_0297, 0x0202_8593, 0xf140_2573, 0x0182_a283, 0x0002_8067, entry, entry]
  }

  function StoreWords(m: Memory, a: nat, ws: seq<u32>): Memory
    requires InRam(a, 4 * |ws|)
    decreases |ws|
  {
    if ws == [] then m else StoreWords(Store(m, a, ToLe(ws[0], 4)), a + 4, ws[1..])
  }

  function LoadElf(s: State, headers: seq<Phdr>, file: seq<u8>, entry: u32): Outcome {
    match LoadSegments(s.mem, headers, file)
    case BadImage => Stuck(OutOfRange)
    case Image(m) => Running(s.(mem := StoreWords(m, STUB, StubWords(entry)), pc := STUB))
  }

  /** The seven WRITE_WORDs. */
  method WriteStub(c: Core, entry: u32)
    requires c.Valid()
    modifies c.mem
    ensures c.mem[..] == StoreWords(old(c.mem[..]), STUB, StubWords(entry))
  {
    hide Store, ToLe;
    var words := StubWords(entry);
    var k := 0;
    while k < 7
      invariant 0 <= k <= 7
      invariant StoreWords(c.mem[..], STUB + 4 * k, words[k..]) == StoreWords(old(c.mem[..]), STUB, words)
    {
      assert words[k..][1..] == words[k + 1..];
      c.Write(STUB + 4 * k, words[k], 4);
      k := k + 1;
    }
  }

  /** load_elf, from the entry point and program headers of a checked file on. */
  method LoadElfInto(c: Core, headers: seq<Phdr>, file: seq<u8>, entry: u32) returns (status: Status)
    requires c.Valid()
    modifies c, c.mem
    ensures status == StatusOf(LoadElf(old(c.Snapshot()), headers, file, entry))
    ensures status == Ok ==> c.Snapshot() == LoadElf(old(c.Snapshot()), headers, file, entry).s
  {
    hide Store, ToLe, StoreWords;
    c.pc := entry;
    var i := 0;
    while i < |headers|
      modifies c.mem
      invariant 0 <= i <= |headers|
      invariant LoadSegments(c.mem[..], headers[i..], file) == LoadSegments(old(c.mem[..]), headers, file)
    {
      var h := headers[i];
      assert headers[i..][1..] == headers[i + 1..];
      if Loadable(h) {
        if !InRange(h, file) {
          return Failed(OutOfRange);
        }
        c.Copy(h.vaddr, Zeros(h.memsz));
        c.Copy(h.vaddr, file[h.offset..h.offset + h.filesz]);
      }
      i := i + 1;
    }
    WriteStub(c, c.pc);
    c.pc := STUB;
    status := Ok;
  }

  // ----- what a loaded image holds -----

  /** Only headers of type 1 with a memory size are loaded; they reach as far as their memory size, or
      their file size if that is larger. */
  predicate Covers(h: Phdr, a: nat) {
    h.kind == 1 && h.memsz != 0 && h.vaddr <= a && (a < h.vaddr + h.memsz || a < h.vaddr + h.filesz)
  }

  /** A header of type 1 with a memory size stays inside the 4 GB memory and the file. */
  predicate Bounded(h: Phdr, size: nat) {
    h.kind == 1 && h.memsz != 0 ==>
      && 0 <= h.memsz && h.vaddr + h.memsz <= 0x1_0000_0000
      && 0 <= h.filesz && h.vaddr + h.filesz <= 0x1_0000_0000
      && 0 <= h.offset && h.offset + h.filesz <= size
  }

  /** File bytes first, zeros for the rest. */
  function SegmentByte(h: Phdr, file: seq<u8>, a: nat): u8
    requires Covers(h, a) && Bounded(h, |file|)
  {
    if a - h.vaddr < h.filesz then file[h.offset + (a - h.vaddr)] else 0
  }

  lemma SegmentBytes(m: Memory, h: Phdr, file: seq<u8>, a: nat)
    requires Loadable(h) && InRange(h, file) && a < RAM_SIZE
    ensures Bounded(h, |file|)
    ensures LoadSegment(m, h, file)[a] == if Covers(h, a) then SegmentByte(h, file, a) else m[a]
  {}

  predicate LastCover(headers: seq<Phdr>, a: nat, j: nat) {
    j < |headers| && Covers(headers[j], a) && forall k :: j < k < |headers| ==> !Covers(headers[k], a)
  }

  lemma BoundedIs(h: Phdr, file: seq<u8>)
    ensures Bounded(h, |file|) <==> (Loadable(h) ==> InRange(h, file))
  {}

  /** Loading succeeds exactly when every header of type 1 with a memory size is within bounds. */
  lemma {:induction false} LoadSucceeds(m: Memory, headers: seq<Phdr>, file: seq<u8>)
    ensures LoadSegments(m, headers, file).Image? <==> forall j :: 0 <= j < |headers| ==> Bounded(headers[j], |file|)
    decreases |headers|
  {
    hide LoadSegment, InRange, Loadable, Bounded;
    if headers != [] {
      var h, rest := headers[0], headers[1..];
      BoundedIs(h, file);
      if !Loadable(h) {
        LoadSucceeds(m, rest, file);
      } else if InRange(h, file) {
        LoadSucceeds(LoadSegment(m, h, file), rest, file);
      }
      assert forall j :: 0 < j < |headers| ==> headers[j] == rest[j - 1];
      assert forall j :: 0 <= j < |rest| ==> rest[j] == headers[j + 1];
    }
  }

  /** load_elf as a whole: it only sets memory and pc, and stops exactly on a header out of bounds. */
  lemma LoadElfOutcome(s: State, headers: seq<Phdr>, file: seq<u8>, entry: u32)
    ensures var o := LoadElf(s, headers, file, entry);
      if forall j :: 0 <= j < |headers| ==> Bounded(headers[j], |file|) then
        o.Running? && o.s == s.(pc := 0x1000, mem := o.s.mem)
      else o == Stuck(OutOfRange)
  {
    hide LoadSegments, StoreWords, Bounded;
    LoadSucceeds(s.mem, headers, file);
  }

  /** A byte that no segment covers keeps its value. */
  lemma {:induction false} UncoveredKept(m: Memory, headers: seq<Phdr>, file: seq<u8>, a: nat)
    requires a < RAM_SIZE && LoadSegments(m, headers, file).Image?
    requires forall j :: 0 <= j < |headers| ==> !Covers(headers[j], a)
    ensures LoadSegments(m, headers, file).mem[a] == m[a]
    decreases |headers|
  {
    hide LoadSegment, InRange, Loadable, Covers;
    if headers != [] {
      var h, rest := headers[0], headers[1..];
      assert forall j :: 0 <= j < |rest| ==> rest[j] == headers[j + 1];
      if Loadable(h) {
        SegmentBytes(m, h, file, a);
        UncoveredKept(LoadSegment(m, h, file), rest, file, a);
      } else {
        UncoveredKept(m, rest, file, a);
      }
    }
  }

  /** Every covered byte is that of the last segment covering it. */
  lemma {:induction false} LastSegmentWins(m: Memory, headers: seq<Phdr>, file: seq<u8>, a: nat, j: nat)
    requires a < RAM_SIZE && LoadSegments(m, headers, file).Image? && LastCover(headers, a, j)
    ensures Bounded(headers[j], |file|)
    ensures LoadSegments(m, headers, file).mem[a] == SegmentByte(headers[j], file, a)
    decreases |headers|
  {
    hide LoadSegment, SegmentByte;
    LoadSucceeds(m, headers, file);
    var h, rest := headers[0], headers[1..];
    assert forall k :: 0 <= k < |rest| ==> rest[k] == headers[k + 1];
    var n := if Loadable(h) then LoadSegment(m, h, file) else m;
    if j == 0 {
      SegmentBytes(m, h, file, a);
      UncoveredKept(n, rest, file, a);
    } else {
      LastSegmentWins(n, rest, file, a, j - 1);
    }
  }

  // ----- the stub in memory -----

  lemma {:induction false} StoredWords(m: Memory, a: nat, ws: seq<u32>, k: nat)
    requires InRam(a, 4 * |ws|) && k < |ws|
    ensures Load(StoreWords(m, a, ws), a + 4 * k, 4) == ws[k]
    decreases |ws|
  {
    hide Load, Store, ToLe;
    var m1 := Store(m, a, ToLe(ws[0], 4));
    if k == 0 {
      LoadStoreSame(m, a, ToLe(ws[0], 4));
      WordBack(ws[0]);
      StoredWordsBelow(m1, a + 4, ws[1..], a);
    } else {
      StoredWords(m1, a + 4, ws[1..], k - 1);
    }
  }

  lemma {:induction false} StoredWordsBelow(m: Memory, a: nat, ws: seq<u32>, b: nat)
    requires InRam(a, 4 * |ws|) && b + 4 <= a <= RAM_SIZE
    ensures Load(StoreWords(m, a, ws), b, 4) == Load(m, b, 4)
    decreases |ws|
  {
    hide Load, Store, ToLe;
    if ws != [] {
      LoadStoreOther(m, a, ToLe(ws[0], 4), b, 4);
      StoredWordsBelow(Store(m, a, ToLe(ws[0], 4)), a + 4, ws[1..], b);
    }
  }

  lemma {:induction false} StoredWordsOutside(m: Memory, a: nat, ws: seq<u32>, b: nat)
    requires InRam(a, 4 * |ws|) && b < RAM_SIZE && (b < a || a + 4 * |ws| <= b)
    ensures StoreWords(m, a, ws)[b] == m[b]
    decreases |ws|
  {
    hide ToLe;
    if ws != [] {
      StoredWordsOutside(Store(m, a, ToLe(ws[0], 4)), a + 4, ws[1..], b);
    }
  }

  /** The stub in memory, word for word. */
  predicate StubAt(m: Memory, entry: u32) {
    && Load(m, 0x1000, 4) == 0x0000_0297 && Load(m, 0x1004, 4) == 0x0202_8593 && Load(m, 0x1008, 4) == 0xf140_2573
    && Load(m, 0x100c, 4) == 0x0182_a283 && Load(m, 0x1010, 4) == 0x0002_8067
    && Load(m, 0x1014, 4) == entry && Load(m, 0x1018, 4) == entry
  }

  lemma StubStored(m: Memory, entry: u32)
    ensures StubAt(StoreWords(m, STUB, StubWords(entry)), entry)
  {
    hide StoreWords, Load;
    var ws := StubWords(entry);
    StoredWords(m, STUB, ws, 0);
    StoredWords(m, STUB, ws, 1);
    StoredWords(m, STUB, ws, 2);
    StoredWords(m, STUB, ws, 3);
    StoredWords(m, STUB, ws, 4);
    StoredWords(m, STUB, ws, 5);
    StoredWords(m, STUB, ws, 6);
  }

  /** The byte at a, if segment j is the one that decides it. */
  predicate DecidedBy(m: Memory, h: Phdr, file: seq<u8>, a: nat)
    requires a < 0x1_0000_0000 && h.vaddr <= a
  {
    var k := a - h.vaddr;
    && 0 <= h.offset && h.offset + h.filesz <= |file|
    && m[a] == if k < h.filesz then file[h.offset + k] else 0
  }

  lemma SegmentDecides(m: Memory, headers: seq<Phdr>, file: seq<u8>, a: nat, j: nat)
    requires a < RAM_SIZE && LoadSegments(m, headers, file).Image? && LastCover(headers, a, j)
    ensures DecidedBy(LoadSegments(m, headers, file).mem, headers[j], file, a)
  {
    LastSegmentWins(m, headers, file, a, j);
    hide LoadSegments;
  }

  /** After load_elf into zeroed memory the stub's seven words are in place, and outside the stub each byte
      is that of the last segment covering it, or zero. */
  lemma LoadedMemory(s: State, headers: seq<Phdr>, file: seq<u8>, entry: u32, a: nat)
    requires s.mem == ZEROED && a < 0x1_0000_0000 && LoadElf(s, headers, file, entry).Running?
    ensures var m := LoadElf(s, headers, file, entry).s.mem;
      && StubAt(m, entry)
      && (!(0x1000 <= a < 0x101c) ==>
            if exists j: nat :: LastCover(headers, a, j) then
              forall j: nat :: LastCover(headers, a, j) ==> DecidedBy(m, headers[j], file, a)
            else m[a] == 0)
  {
    var n := LoadSegments(s.mem, headers, file).mem;
    hide LoadSegments, StoreWords, Covers, Load, DecidedBy, StubAt, StubWords;
    StubStored(n, entry);
    if !(0x1000 <= a < 0x101c) {
      OutsideStub(n, entry, a);
      forall j: nat | LastCover(headers, a, j)
        ensures DecidedBy(n, headers[j], file, a)
      {
        SegmentDecides(s.mem, headers, file, a, j);
      }
      DecidedSame(n, StoreWords(n, STUB, StubWords(entry)), headers, file, a);
      if !exists j: nat :: LastCover(headers, a, j) {
        NoCover(headers, a, |headers|);
        UncoveredKept(s.mem, headers, file, a);
      }
    }
  }

  lemma OutsideStub(m: Memory, entry: u32, a: nat)
    requires a < RAM_SIZE && !(0x1000 <= a < 0x101c)
    ensures StoreWords(m, STUB, StubWords(entry))[a] == m[a]
  {
    StoredWordsOutside(m, STUB, StubWords(entry), a);
  }

  lemma DecidedSame(m: Memory, n: Memory, headers: seq<Phdr>, file: seq<u8>, a: nat)
    requires a < RAM_SIZE && m[a] == n[a]
    ensures forall j: nat :: LastCover(headers, a, j) ==>
      (DecidedBy(m, headers[j], file, a) <==> DecidedBy(n, headers[j], file, a))
  {}

  /** The memory image of a segment as the System V ABI describes it. */
  predicate InImage(h: Phdr, a: nat) {
    h.kind == 1 && h.memsz != 0 && h.vaddr <= a < h.vaddr + h.memsz
  }

  predicate LastImage(headers: seq<Phdr>, a: nat, j: nat) {
    j < |headers| && InImage(headers[j], a) && forall k :: j < k < |headers| ==> !InImage(headers[k], a)
  }

  lemma CoversImage(headers: seq<Phdr>, a: nat, j: nat)
    requires forall k :: 0 <= k < |headers| ==> headers[k].filesz <= headers[k].memsz
    ensures LastCover(headers, a, j) <==> LastImage(headers, a, j)
  {
    assert forall k :: 0 <= k < |headers| ==> Covers(headers[k], a) == InImage(headers[k], a);
  }

  /** For headers with p_filesz <= p_memsz, as the System V ABI demands, each byte outside the stub is
      that of the last segment whose memory image holds it: file byte, or zero past the file size. */
  lemma LoadedImage(s: State, headers: seq<Phdr>, file: seq<u8>, entry: u32, a: nat)
    requires s.mem == ZEROED && a < RAM_SIZE && LoadElf(s, headers, file, entry).Running?
    requires forall k :: 0 <= k < |headers| ==> headers[k].filesz <= headers[k].memsz
    requires !(0x1000 <= a < 0x101c)
    ensures var m := LoadElf(s, headers, file, entry).s.mem;
      if exists j: nat :: LastImage(headers, a, j) then
        forall j: nat :: LastImage(headers, a, j) ==> DecidedBy(m, headers[j], file, a)
      else m[a] == 0
  {
    LoadedMemory(s, headers, file, entry, a);
    hide LoadElf, Load, DecidedBy;
    forall j: nat
      ensures LastCover(headers, a, j) <==> LastImage(headers, a, j)
    {
      CoversImage(headers, a, j);
    }
  }

  lemma {:induction false} NoCover(headers: seq<Phdr>, a: nat, n: nat)
    requires n <= |headers| && !exists j: nat :: LastCover(headers, a, j)
    ensures forall j :: |headers| - n <= j < |headers| ==> !Covers(headers[j], a)
  {
    hide Covers;
    if n > 0 {
      NoCover(headers, a, n - 1);
      assert !LastCover(headers, a, |headers| - n);
    }
  }
}
