/** dumpState and loadState as the C program runs them, proved against Checkpoint. */
module CheckpointIo {
  import opened CIntegers
  import opened Ram
  import opened Machine
  import opened Checkpoint
  import opened Interpreter

  lemma {:induction false} WordsZero(m: Memory, a: nat, n: nat)
    requires InRam(a, 8 * n) && forall k :: 0 <= k < n ==> Load(m, a + 8 * k, 8) == 0
    ensures forall i :: a <= i < a + 8 * n ==> m[i] == 0
  {
    if n > 0 {
      WordsZero(m, a, n - 1);
      ZeroWord(m, a + 8 * (n - 1));
    }
  }

  lemma ZeroWord(m: Memory, a: nat)
    requires InRam(a, 8)
    ensures Load(m, a, 8) == 0 <==> forall i :: a <= i < a + 8 ==> m[i] == 0
  {
    var bs := m[a..a + 8];
    FromLeZero(bs);
    assert forall i :: a <= i < a + 8 ==> m[i] == bs[i - a];
    assert forall j :: 0 <= j < 8 ==> bs[j] == m[a + j];
  }

  /** The inner marking loop: whether one of the 512 words of the page is non-zero. */
  method ScanPage(c: Core, p: PageNo) returns (nonZero: bool)
    requires c.Valid()
    ensures nonZero == PageNonZero(c.mem[..], p)
  {
    nonZero := false;
    var pp := 0;
    while pp < 512
      invariant 0 <= pp <= 512
      invariant forall k :: 0 <= k < pp ==> Load(c.mem[..], p * PAGE_SIZE + 8 * k, 8) == 0
    {
      var word := c.Read(p * PAGE_SIZE + 8 * pp, 8);
      if word != 0 {
        ZeroWord(c.mem[..], p * PAGE_SIZE + 8 * pp);
        return true;
      }
      pp := pp + 1;
    }
    WordsZero(c.mem[..], p * PAGE_SIZE, 512);
  }

  /** Marks the non-zero pages in a bitset. */
  method MarkPages(c: Core, nz: array<bool>)
    requires c.Valid() && nz.Length == N_PAGES
    modifies nz
    ensures Marks(nz, c.mem[..])
  {
    hide PageNonZero;
    var p := 0;
    while p < N_PAGES
      invariant 0 <= p <= N_PAGES
      invariant forall q: PageNo :: q < p ==> nz[q] == PageNonZero(c.mem[..], q)
    {
      nz[p] := ScanPage(c, p);
      p := p + 1;
    }
  }

  ghost predicate Marks(nz: array<bool>, m: Memory)
    reads nz
  {
    nz.Length == N_PAGES && forall p: PageNo :: nz[p] == PageNonZero(m, p)
  }

  /** dynamic_bitset::count */
  method Count(nz: array<bool>, ghost m: Memory) returns (count: nat)
    requires Marks(nz, m)
    ensures count == |NzPages(m, 0)|
  {
    hide PageNonZero;
    count := 0;
    var p := 0;
    while p < N_PAGES
      invariant 0 <= p <= N_PAGES
      invariant count + |NzPages(m, p)| == |NzPages(m, 0)|
    {
      if nz[p] {
        count := count + 1;
      }
      p := p + 1;
    }
  }

  /** dynamic_bitset::find_first and find_next: the first marked page from p on, or N_PAGES. */
  method FindFrom(nz: array<bool>, p: nat, ghost m: Memory) returns (q: nat)
    requires Marks(nz, m) && p <= N_PAGES
    ensures p <= q <= N_PAGES && (q < N_PAGES ==> PageNonZero(m, q))
    ensures NzPages(m, p) == NzPages(m, q)
  {
    hide PageNonZero;
    q := p;
    while q < N_PAGES && !nz[q]
      invariant p <= q <= N_PAGES
      invariant NzPages(m, p) == NzPages(m, q)
    {
      q := q + 1;
    }
  }

  /** The packed header, field by field. */
  method WriteHeader(c: Core, pages: nat) returns (file: seq<u8>)
    requires c.Valid()
    ensures file == Header(c.Snapshot(), pages)
  {
    hide ToLe;
    file := ToLe(MAGIC_NUM, 8) + ToLe(c.pc, 4);
    ghost var head := file;
    var i := 0;
    while i < 32
      invariant 0 <= i <= 32
      invariant file + Registers(c.gpr[i..]) == head + Registers(c.gpr[..])
    {
      assert c.gpr[i..][0] == c.gpr[i] && c.gpr[i..][1..] == c.gpr[i + 1..];
      Associate(file, ToLe(ToU32(c.gpr[i]), 4), Registers(c.gpr[i + 1..]));
      file := file + ToLe(ToU32(c.gpr[i]), 4);
      i := i + 1;
    }
    assert file == head + Registers(c.gpr[..]);
    file := file + ToLe(c.icnt, 8) + ToLe(pages, 4);
  }

  lemma Associate<T>(a: seq<T>, b: seq<T>, c: seq<T>)
    ensures (a + b) + c == a + (b + c)
  {}

  lemma NextRecord(m: Memory, p: PageNo)
    requires PageNonZero(m, p)
    ensures Records(m, NzPages(m, p)) == Record(m, p) + Records(m, NzPages(m, p + 1))
  {
    hide PageNonZero;
    assert NzPages(m, p)[1..] == NzPages(m, p + 1);
  }

  lemma NoMoreRecords(m: Memory)
    ensures Records(m, NzPages(m, N_PAGES)) == []
  {}

  /** One page record, as the write loop fills it. */
  method PageRecord(c: Core, p: PageNo) returns (record: seq<u8>)
    requires c.Valid()
    ensures record == Record(c.mem[..], p)
  {
    hide ToLe;
    var va := p * PAGE_SIZE;
    record := ToLe(va, 4) + c.mem[va..va + PAGE_SIZE];
  }

  /** The write loop over the marked pages. */
  method PageRecords(c: Core, nz: array<bool>, ghost m: Memory) returns (bs: seq<u8>)
    requires c.Valid() && m == c.mem[..] && Marks(nz, m)
    ensures bs == Records(m, NzPages(m, 0))
  {
    hide PageNonZero, Records, NzPages, Record;
    bs := [];
    ghost var all := Records(m, NzPages(m, 0));
    var i := FindFrom(nz, 0, m);
    while i < N_PAGES
      invariant 0 <= i <= N_PAGES && (i < N_PAGES ==> PageNonZero(m, i))
      invariant bs + Records(m, NzPages(m, i)) == all
      decreases N_PAGES - i
    {
      var record := PageRecord(c, i);
      NextRecord(m, i);
      Associate(bs, record, Records(m, NzPages(m, i + 1)));
      bs := bs + record;
      i := FindFrom(nz, i + 1, m);
    }
    NoMoreRecords(m);
  }

  /** dumpState */
  method DumpState(c: Core) returns (file: seq<u8>)
    requires c.Valid()
    ensures file == Dump(c.Snapshot())
  {
    hide PageNonZero, Header, Records, NzPages;
    ghost var m: Memory := c.mem[..];
    var nz := new bool[N_PAGES](_ => false);
    MarkPages(c, nz);
    var count := Count(nz, m);
    var header := WriteHeader(c, count);
    var records := PageRecords(c, nz, m);
    file := header + records;
  }

  /** loadState */
  method LoadState(c: Core, file: seq<u8>) returns (status: Status)
    requires c.Valid()
    modifies c, c.gpr, c.mem
    ensures status == StatusOf(Restore(old(c.Snapshot()), file))
    ensures status == Ok ==> c.Snapshot() == Restore(old(c.Snapshot()), file).s
  {
    hide FromLe, ToI32, Store;
    if |file| < HEADER_SIZE {
      return Failed(AssertionFailure);
    }
    c.pc := FromLe(file[8..12]) % TWO32;
    forall i | 0 <= i < 32 {
      c.gpr[i] := ToI32(FromLe(file[12 + 4 * i..16 + 4 * i]));
    }
    assert c.gpr[..] == LoadedRegisters(file);
    c.icnt := FromLe(file[140..148]) % TWO64;
    var num := FromLe(file[148..152]);
    assert c.mem[..] == old(c.mem[..]);
    var i, pos := 0, HEADER_SIZE;
    while i < num
      modifies c.mem
      invariant 0 <= i <= num && HEADER_SIZE <= pos <= |file|
      invariant LoadRecords(c.mem[..], file[pos..], num - i) == LoadRecords(old(c.mem[..]), file[HEADER_SIZE..], num)
    {
      var rest := file[pos..];
      if |rest| < RECORD_SIZE {
        return Failed(AssertionFailure);
      }
      var va := FromLe(rest[..4]);
      if !InRam(va, PAGE_SIZE) {
        return Failed(OutOfRange);
      }
      c.Copy(va, rest[4..RECORD_SIZE]);
      assert rest[RECORD_SIZE..] == file[pos + RECORD_SIZE..];
      i, pos := i + 1, pos + RECORD_SIZE;
    }
    status := Ok;
  }
}
