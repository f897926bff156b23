/** The checkpoint file: a header, then one record for every page with a non-zero byte. */
module Checkpoint {
  import opened CIntegers
  import opened Ram
  import opened Machine

  const MAGIC_NUM := 0xbeef_d00d_1234_5670
  const PAGE_SIZE: nat := 4096
  const N_PAGES: nat := 0x10_0000
  const HEADER_SIZE: nat := 152
  const RECORD_SIZE: nat := 4100

  type PageNo = p: nat | p < N_PAGES

  // ----- dumpState -----

  predicate PageNonZero(m: Memory, p: PageNo) {
    exists a :: p * PAGE_SIZE <= a < p * PAGE_SIZE + PAGE_SIZE && m[a] != 0
  }

  /** The non-zero pages from p on, in ascending order. */
  function NzPages(m: Memory, p: nat): (ps: seq<PageNo>)
    ensures |ps| <= if p < N_PAGES then N_PAGES - p else 0
    ensures forall i :: 0 <= i < |ps| ==> p <= ps[i]
    decreases N_PAGES - p
  {
    if p >= N_PAGES then []
    else if PageNonZero(m, p) then [p] + NzPages(m, p + 1)
    else NzPages(m, p + 1)
  }

  function Registers(g: seq<i32>): (bs: seq<u8>)
    ensures |bs| == 4 * |g|
  {
    if g == [] then [] else ToLe(ToU32(g[0]), 4) + Registers(g[1..])
  }

  /** struct header, packed. */
  function Header(s: State, pages: nat): (bs: seq<u8>)
    ensures |bs| == HEADER_SIZE
  {
    ToLe(MAGIC_NUM, 8) + ToLe(s.pc, 4) + Registers(s.gpr) + ToLe(s.icnt, 8) + ToLe(pages, 4)
  }

  /** struct page, packed. */
  function Record(m: Memory, p: PageNo): (bs: seq<u8>)
    ensures |bs| == RECORD_SIZE
  {
    ToLe(p * PAGE_SIZE, 4) + m[p * PAGE_SIZE..p * PAGE_SIZE + PAGE_SIZE]
  }

  function Records(m: Memory, ps: seq<PageNo>): (bs: seq<u8>)
    ensures |bs| == RECORD_SIZE * |ps|
  {
    if ps == [] then [] else Record(m, ps[0]) + Records(m, ps[1..])
  }

  function Dump(s: State): seq<u8> {
    var ps := NzPages(s.mem, 0);
    Header(s, |ps|) + Records(s.mem, ps)
  }

  // ----- loadState -----

  /** The registers held in the header. */
  function LoadedRegisters(file: seq<u8>): Regs
    requires |file| >= HEADER_SIZE
  {
    seq(32, i requires 0 <= i < 32 => ToI32(FromLe(file[12 + 4 * i..16 + 4 * i])))
  }

  datatype Copied = Copied(mem: Memory) | CopyFailed(why: Fault)

  /** Copies n page records into memory; a short read fails its assertion. */
  function LoadRecords(m: Memory, records: seq<u8>, n: nat): Copied
    decreases n
  {
    if n == 0 then Copied(m)
    else if |records| < RECORD_SIZE then CopyFailed(AssertionFailure)
    else
      var va := FromLe(records[..4]);
      if !InRam(va, PAGE_SIZE) then CopyFailed(OutOfRange)
      else LoadRecords(Store(m, va, records[4..RECORD_SIZE]), records[RECORD_SIZE..], n - 1)
  }

  /** The magic number is not looked at, and pages without a record keep their contents. */
  function Restore(t: State, file: seq<u8>): Outcome {
    if |file| < HEADER_SIZE then Stuck(AssertionFailure)
    else match LoadRecords(t.mem, file[HEADER_SIZE..], FromLe(file[148..152]))
      case CopyFailed(why) => Stuck(why)
      case Copied(m) =>
        Running(t.(pc := FromLe(file[8..12]) % TWO32, gpr := LoadedRegisters(file),
                   icnt := FromLe(file[140..148]) % TWO64, mem := m))
  }

  // ----- the pages listed -----

  lemma {:induction false} ListsExactly(m: Memory, p: nat, q: PageNo)
    requires p <= q
    ensures q in NzPages(m, p) <==> PageNonZero(m, q)
    decreases N_PAGES - p
  {
    if p < N_PAGES {
      hide PageNonZero;
      if p < q {
        ListsExactly(m, p + 1, q);
      }
    }
  }

  lemma {:induction false} Ascending(m: Memory, p: nat)
    ensures forall i, j :: 0 <= i < j < |NzPages(m, p)| ==> NzPages(m, p)[i] < NzPages(m, p)[j]
    decreases N_PAGES - p
  {
    if p < N_PAGES {
      Ascending(m, p + 1);
    }
  }

  // ----- restoring what was dumped -----

  /** Where the source memory has a non-zero page, its contents; elsewhere those of the target. */
  function Overlay(target: Memory, source: Memory, ps: seq<PageNo>): Memory {
    seq(RAM_SIZE, a requires 0 <= a < RAM_SIZE => if a / PAGE_SIZE in ps then source[a] else target[a])
  }

  lemma PageAddress(p: PageNo)
    ensures FromLe(ToLe(p * PAGE_SIZE, 4)) == p * PAGE_SIZE && InRam(p * PAGE_SIZE, PAGE_SIZE)
  {
    WordBack(p * PAGE_SIZE);
  }

  lemma OverlayStep(target: Memory, source: Memory, p: PageNo, ps: seq<PageNo>)
    ensures Overlay(Store(target, p * PAGE_SIZE, source[p * PAGE_SIZE..p * PAGE_SIZE + PAGE_SIZE]), source, ps)
         == Overlay(target, source, [p] + ps)
  {
    var page := source[p * PAGE_SIZE..p * PAGE_SIZE + PAGE_SIZE];
    var t := Store(target, p * PAGE_SIZE, page);
    forall a | 0 <= a < RAM_SIZE
      ensures Overlay(t, source, ps)[a] == Overlay(target, source, [p] + ps)[a]
    {
      if a / PAGE_SIZE == p {
        assert page[a - p * PAGE_SIZE] == source[a];
      } else {
        assert t[a] == target[a];
      }
    }
  }

  lemma FirstRecord(source: Memory, ps: seq<PageNo>)
    requires ps != []
    ensures var records, p := Records(source, ps), ps[0];
      && |records| == RECORD_SIZE * |ps| && records[..4] == ToLe(p * PAGE_SIZE, 4)
      && records[4..RECORD_SIZE] == source[p * PAGE_SIZE..p * PAGE_SIZE + PAGE_SIZE]
      && records[RECORD_SIZE..] == Records(source, ps[1..])
  {
    hide ToLe;
  }

  lemma {:induction false} RecordsRestore(target: Memory, source: Memory, ps: seq<PageNo>)
    ensures LoadRecords(target, Records(source, ps), |ps|) == Copied(Overlay(target, source, ps))
    decreases |ps|
  {
    if ps == [] {
      assert Overlay(target, source, []) == target;
    } else {
      var p, rest := ps[0], ps[1..];
      var records := Records(source, ps);
      FirstRecord(source, ps);
      PageAddress(p);
      hide Record, Records, Overlay, FromLe, ToLe, Store;
      var t := Store(target, p * PAGE_SIZE, records[4..RECORD_SIZE]);
      RecordsRestore(t, source, rest);
      OverlayStep(target, source, p, rest);
      assert [p] + rest == ps;
    }
  }

  lemma {:induction false} RegisterSlot(g: seq<i32>, i: nat)
    requires i < |g|
    ensures Registers(g)[4 * i..4 * i + 4] == ToLe(ToU32(g[i]), 4)
  {
    var first, bs := ToLe(ToU32(g[0]), 4), Registers(g[1..]);
    assert Registers(g) == first + bs;
    hide Registers, ToLe, ToU32;
    if i > 0 {
      RegisterSlot(g[1..], i - 1);
      assert (first + bs)[4 * i..4 * i + 4] == bs[4 * (i - 1)..4 * (i - 1) + 4];
    }
  }

  lemma SignedBack(v: i32)
    ensures ToI32(FromLe(ToLe(ToU32(v), 4))) == v
  {
    hide ToLe, FromLe, ToI32;
    WordBack(ToU32(v));
    ToI32Is(ToU32(v), v, -(v / TWO32));
  }

  lemma HeaderFields(s: State, pages: nat, rest: seq<u8>)
    ensures var file := Header(s, pages) + rest;
      && file[8..12] == ToLe(s.pc, 4) && file[140..148] == ToLe(s.icnt, 8) && file[148..152] == ToLe(pages, 4)
      && file[12..140] == Registers(s.gpr) && file[HEADER_SIZE..] == rest
  {}

  lemma Subslice<T>(s: seq<T>, a: nat, b: nat, c: nat, d: nat)
    requires a <= b <= |s| && c <= d <= b - a
    ensures s[a..b][c..d] == s[a + c..a + d]
  {
    var t := s[a..b];
    forall i | 0 <= i < d - c
      ensures t[c..d][i] == s[a + c..a + d][i]
    {
      assert t[c..d][i] == t[c + i] == s[a + (c + i)];
    }
  }

  lemma RegistersBack(s: State, pages: nat, rest: seq<u8>)
    ensures LoadedRegisters(Header(s, pages) + rest) == s.gpr
  {
    var file := Header(s, pages) + rest;
    HeaderFields(s, pages, rest);
    hide Header, Registers;
    forall i | 0 <= i < 32
      ensures LoadedRegisters(file)[i] == s.gpr[i]
    {
      Subslice(file, 12, 140, 4 * i, 4 * i + 4);
      RegisterSlot(s.gpr, i);
      SignedBack(s.gpr[i]);
    }
  }

  /** Restoring a dump gives back pc, registers, icnt and every non-zero page; all else stays. */
  lemma RestoreDump(s: State, t: State)
    ensures Restore(t, Dump(s)) ==
      Running(t.(pc := s.pc, gpr := s.gpr, icnt := s.icnt, mem := Overlay(t.mem, s.mem, NzPages(s.mem, 0))))
  {
    hide Header, Records, LoadRecords, Overlay, NzPages, LoadedRegisters, FromLe, ToLe;
    var ps := NzPages(s.mem, 0);
    var records := Records(s.mem, ps);
    HeaderFields(s, |ps|, records);
    RegistersBack(s, |ps|, records);
    RecordsRestore(t.mem, s.mem, ps);
    WordBack(s.pc);
    LongBack(s.icnt);
    WordBack(|ps|);
  }
}
