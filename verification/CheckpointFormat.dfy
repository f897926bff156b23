/** The checkpoint file byte by byte: what dumpState writes, and what loadState makes of any file. */
module CheckpointFormat {
  import opened CIntegers
  import opened Ram
  import opened Machine
  import opened Checkpoint
  import opened CheckpointTheorems

  // ----- what is written -----

  /** The pages of m with a non-zero byte, in ascending order. */
  ghost predicate Listed(ps: seq<nat>, m: Memory) {
    && (forall i, j :: 0 <= i < j < |ps| ==> ps[i] < ps[j])
    && (forall k :: 0 <= k < |ps| ==> ps[k] < 0x10_0000)
    && (forall q: nat :: q < 0x10_0000 ==> (q in ps <==> exists a :: q * 4096 <= a < q * 4096 + 4096 && m[a] != 0))
  }

  /** Magic number 0xbeefd00d12345670, pc, registers, icnt and the number of records. */
  predicate HeaderHolds(file: seq<u8>, s: State, n: nat) {
    && |file| == 152 + 4100 * n
    && file[..8] == [0x70, 0x56, 0x34, 0x12, 0x0d, 0xd0, 0xef, 0xbe]
    && FromLe(file[8..12]) == s.pc
    && (forall r :: 0 <= r < 32 ==> FromLe(file[12 + 4 * r..16 + 4 * r]) == ToU32(s.gpr[r]))
    && FromLe(file[140..148]) == s.icnt
    && FromLe(file[148..152]) == n
  }

  /** Record k holds the address of page p and its 4096 bytes. */
  predicate RecordHolds(file: seq<u8>, k: nat, p: nat, m: Memory)
    requires 152 + 4100 * k + 4100 <= |file| && p < 0x10_0000
  {
    && FromLe(file[152 + 4100 * k..156 + 4100 * k]) == 4096 * p
    && file[156 + 4100 * k..156 + 4100 * k + 4096] == m[4096 * p..4096 * p + 4096]
  }

  lemma MagicBytes()
    ensures ToLe(MAGIC_NUM, 8) == [0x70, 0x56, 0x34, 0x12, 0x0d, 0xd0, 0xef, 0xbe]
  {
    var bs: seq<u8> := [0x70, 0x56, 0x34, 0x12, 0x0d, 0xd0, 0xef, 0xbe];
    hide ToLe;
    assert bs[7..][1..] == [];
    assert FromLe(bs[7..]) == 0xbe;
    assert FromLe(bs[6..]) == 0xbeef by { assert bs[6..][1..] == bs[7..]; }
    assert FromLe(bs[5..]) == 0xbe_efd0 by { assert bs[5..][1..] == bs[6..]; }
    assert FromLe(bs[4..]) == 0xbeef_d00d by { assert bs[4..][1..] == bs[5..]; }
    assert FromLe(bs[3..]) == 0xbe_efd0_0d12 by { assert bs[3..][1..] == bs[4..]; }
    assert FromLe(bs[2..]) == 0xbeef_d00d_1234 by { assert bs[2..][1..] == bs[3..]; }
    assert FromLe(bs[1..]) == 0xbe_efd0_0d12_3456 by { assert bs[1..][1..] == bs[2..]; }
    assert FromLe(bs) == MAGIC_NUM;
    ToLeFromLe(bs);
  }

  lemma HeaderWritten(s: State)
    ensures HeaderHolds(Dump(s), s, |NzPages(s.mem, 0)|)
  {
    hide Registers, NzPages, Records, FromLe, ToLe, ToU32;
    var ps := NzPages(s.mem, 0);
    var file := Dump(s);
    MagicBytes();
    HeaderFields(s, |ps|, Records(s.mem, ps));
    assert file[..8] == ToLe(MAGIC_NUM, 8);
    WordBack(s.pc);
    LongBack(s.icnt);
    WordBack(|ps|);
    forall r | 0 <= r < 32
      ensures FromLe(file[12 + 4 * r..16 + 4 * r]) == ToU32(s.gpr[r])
    {
      Subslice(file, 12, 140, 4 * r, 4 * r + 4);
      RegisterSlot(s.gpr, r);
      WordBack(ToU32(s.gpr[r]));
    }
  }

  lemma RecordBytes(m: Memory, p: PageNo)
    ensures |Record(m, p)| == 4100 && FromLe(Record(m, p)[..4]) == 4096 * p
    ensures Record(m, p)[4..] == m[4096 * p..4096 * p + 4096]
  {
    hide ToLe, FromLe;
    RecordAddress(m, p);
  }

  lemma RecordWritten(s: State, k: nat)
    requires k < |NzPages(s.mem, 0)|
    ensures |Dump(s)| == 152 + 4100 * |NzPages(s.mem, 0)| && RecordHolds(Dump(s), k, NzPages(s.mem, 0)[k], s.mem)
  {
    hide Header, Records, NzPages, FromLe, Record;
    var ps := NzPages(s.mem, 0);
    var file := Dump(s);
    DumpRecords(s);
    RecordBytes(s.mem, ps[k]);
    var record := file[152 + 4100 * k..152 + 4100 * k + 4100];
    assert record == Record(s.mem, ps[k]);
    Subslice(file, 152 + 4100 * k, 152 + 4100 * k + 4100, 0, 4);
    Subslice(file, 152 + 4100 * k, 152 + 4100 * k + 4100, 4, 4100);
    assert record[4..4100] == record[4..];
  }

  lemma PageListed(m: Memory, q: PageNo)
    ensures q in NzPages(m, 0) <==> exists a :: q * 4096 <= a < q * 4096 + 4096 && m[a] != 0
  {
    hide NzPages;
    ListsExactly(m, 0, q);
  }

  /** The file is the header and, in ascending order of their addresses, one record for each page with a
      non-zero byte: 152 + 4100 n bytes for n pages. */
  lemma DumpFormat(s: State) returns (ps: seq<nat>)
    ensures Listed(ps, s.mem) && HeaderHolds(Dump(s), s, |ps|)
    ensures forall k :: 0 <= k < |ps| ==> RecordHolds(Dump(s), k, ps[k], s.mem)
  {
    ps := NzPages(s.mem, 0);
    HeaderWritten(s);
    hide NzPages, Dump, RecordHolds, HeaderHolds, PageNonZero;
    Ascending(s.mem, 0);
    forall q: nat | q < 0x10_0000
      ensures q in ps <==> exists a :: q * 4096 <= a < q * 4096 + 4096 && s.mem[a] != 0
    {
      PageListed(s.mem, q);
    }
    forall k | 0 <= k < |ps|
      ensures |Dump(s)| == 152 + 4100 * |ps| && RecordHolds(Dump(s), k, ps[k], s.mem)
    {
      RecordWritten(s, k);
    }
  }

  // ----- what is read -----

  predicate Complete(file: seq<u8>, k: nat) {
    152 + 4100 * k + 4100 <= |file|
  }

  /** The address in record k. */
  function AddressAt(file: seq<u8>, k: nat): nat
    requires Complete(file, k)
  {
    FromLe(file[152 + 4100 * k..156 + 4100 * k])
  }

  /** Record k can be read and lies in memory. */
  predicate Usable(file: seq<u8>, k: nat) {
    Complete(file, k) && AddressAt(file, k) + 4096 <= 0x1_0000_0000
  }

  predicate Holds(file: seq<u8>, k: nat, a: nat) {
    Complete(file, k) && AddressAt(file, k) <= a < AddressAt(file, k) + 4096
  }

  function Rest(file: seq<u8>, k: nat): seq<u8>
    requires 152 + 4100 * k <= |file|
  {
    file[152 + 4100 * k..]
  }

  lemma NextRecord(file: seq<u8>, k: nat)
    requires 152 + 4100 * k <= |file|
    ensures Complete(file, k) <==> |Rest(file, k)| >= RECORD_SIZE
    ensures Complete(file, k) ==>
      && FromLe(Rest(file, k)[..4]) == AddressAt(file, k)
      && Rest(file, k)[RECORD_SIZE..] == Rest(file, k + 1)
      && Rest(file, k)[4..RECORD_SIZE] == file[156 + 4100 * k..156 + 4100 * k + 4096]
  {
    hide FromLe;
    if Complete(file, k) {
      var rest := Rest(file, k);
      Subslice(file, 152 + 4100 * k, |file|, 0, 4);
      Subslice(file, 152 + 4100 * k, |file|, 4, 4100);
      Subslice(file, 152 + 4100 * k, |file|, 4100, |rest|);
      assert rest == file[152 + 4100 * k..|file|];
      assert rest[..4] == rest[0..4] == file[152 + 4100 * k..156 + 4100 * k];
      assert rest[4100..] == rest[4100..|rest|];
      assert Rest(file, k + 1) == file[152 + 4100 * k + 4100..|file|];
    }
  }

  /** Record j is the first from k on that is not usable. */
  predicate FirstBad(file: seq<u8>, k: nat, j: nat) {
    k <= j && !Usable(file, j) && forall i :: k <= i < j ==> Usable(file, i)
  }

  function FaultAt(file: seq<u8>, j: nat): Fault {
    if Complete(file, j) then OutOfRange else AssertionFailure
  }

  lemma OneRecord(m: Memory, file: seq<u8>, k: nat, n: nat)
    requires n > 0 && 152 + 4100 * k <= |file|
    ensures LoadRecords(m, Rest(file, k), n) ==
      if Usable(file, k) then
        LoadRecords(Store(m, AddressAt(file, k), file[156 + 4100 * k..156 + 4100 * k + 4096]), Rest(file, k + 1), n - 1)
      else CopyFailed(FaultAt(file, k))
  {
    NextRecord(file, k);
    hide Rest, AddressAt, Store, FromLe;
  }

  /** Reading goes on exactly as long as records are usable, and fails as the first one does that is not. */
  lemma {:induction false} RecordsUsable(m: Memory, file: seq<u8>, k: nat, n: nat)
    requires 152 + 4100 * k <= |file|
    ensures var c := LoadRecords(m, Rest(file, k), n);
      if forall j :: k <= j < k + n ==> Usable(file, j) then c.Copied?
      else exists j: nat :: j < k + n && FirstBad(file, k, j) && c == CopyFailed(FaultAt(file, j))
    decreases n
  {
    hide Rest, AddressAt, Store, Complete, FaultAt, LoadRecords;
    if n == 0 {
      NoRecords(m, Rest(file, k));
    } else {
      OneRecord(m, file, k, n);
      if Usable(file, k) {
        UsableBound(file, k);
        var m' := Store(m, AddressAt(file, k), file[156 + 4100 * k..156 + 4100 * k + 4096]);
        RecordsUsable(m', file, k + 1, n - 1);
        if !forall j :: k <= j < k + n ==> Usable(file, j) {
          var j: nat :| j < k + n && FirstBad(file, k + 1, j)
                   && LoadRecords(m', Rest(file, k + 1), n - 1) == CopyFailed(FaultAt(file, j));
          assert FirstBad(file, k, j);
        }
      } else {
        assert FirstBad(file, k, k);
      }
    }
  }

  lemma NoRecords(m: Memory, rest: seq<u8>)
    ensures LoadRecords(m, rest, 0) == Copied(m)
  {}

  lemma UsableBound(file: seq<u8>, k: nat)
    requires Usable(file, k)
    ensures Complete(file, k) && 156 + 4100 * k + 4096 <= |file| && InRam(AddressAt(file, k), 4096)
  {}

  /** Record j decides byte a: no later one holds it. */
  predicate Decides(file: seq<u8>, n: nat, a: nat, j: nat) {
    j < n && Holds(file, j, a) && forall i :: j < i < n ==> !Holds(file, i, a)
  }

  lemma CopiedRecord(m: Memory, file: seq<u8>, k: nat, a: nat)
    requires 152 + 4100 * k <= |file| && Usable(file, k) && a < RAM_SIZE
    ensures |Rest(file, k)| >= RECORD_SIZE
    ensures Store(m, AddressAt(file, k), Rest(file, k)[4..RECORD_SIZE])[a]
         == if Holds(file, k, a) then file[156 + 4100 * k + (a - AddressAt(file, k))] else m[a]
  {
    NextRecord(file, k);
    hide Rest, AddressAt;
  }

  lemma {:induction false} NotHeld(m: Memory, file: seq<u8>, k: nat, n: nat, a: nat)
    requires 152 + 4100 * k <= |file| && a < RAM_SIZE && LoadRecords(m, Rest(file, k), n).Copied?
    requires forall i :: k <= i < k + n ==> !Holds(file, i, a)
    ensures LoadRecords(m, Rest(file, k), n).mem[a] == m[a]
    decreases n
  {
    hide Rest, AddressAt, Store;
    if n > 0 {
      NextRecord(file, k);
      CopiedRecord(m, file, k, a);
      assert !Holds(file, k, a);
      NotHeld(Store(m, AddressAt(file, k), Rest(file, k)[4..RECORD_SIZE]), file, k + 1, n - 1, a);
    }
  }

  lemma {:induction false} LastHolds(m: Memory, file: seq<u8>, k: nat, n: nat, a: nat, j: nat)
    requires 152 + 4100 * k <= |file| && a < RAM_SIZE && LoadRecords(m, Rest(file, k), n).Copied?
    requires k <= j && Decides(file, k + n, a, j)
    ensures LoadRecords(m, Rest(file, k), n).mem[a] == file[156 + 4100 * j + (a - AddressAt(file, j))]
    decreases n
  {
    hide Rest, AddressAt, Store;
    NextRecord(file, k);
    CopiedRecord(m, file, k, a);
    var m' := Store(m, AddressAt(file, k), Rest(file, k)[4..RECORD_SIZE]);
    if j == k {
      NotHeld(m', file, k + 1, n - 1, a);
    } else {
      LastHolds(m', file, k + 1, n - 1, a, j);
    }
  }

  /** The state after loading, but for memory. */
  predicate Loaded(t: State, file: seq<u8>, r: State)
    requires |file| >= 152
  {
    && r == t.(pc := r.pc, gpr := r.gpr, icnt := r.icnt, mem := r.mem)
    && r.pc == FromLe(file[8..12]) && r.icnt == FromLe(file[140..148])
    && forall i :: 0 <= i < 32 ==> r.gpr[i] == ToI32(FromLe(file[12 + 4 * i..16 + 4 * i]))
  }

  lemma WordIn(bs: seq<u8>)
    ensures |bs| == 4 ==> FromLe(bs) % TWO32 == FromLe(bs)
    ensures |bs| == 8 ==> FromLe(bs) % TWO64 == FromLe(bs)
  {
    hide FromLe, Pow2;
    FromLeBound(bs);
    Pow2Words();
  }

  lemma HeaderLoaded(t: State, file: seq<u8>)
    requires Restore(t, file).Running?
    ensures |file| >= 152 && Loaded(t, file, Restore(t, file).s)
  {
    hide FromLe, ToI32, LoadRecords, LoadedRegisters;
    assert |file| >= 152;
    WordIn(file[8..12]);
    WordIn(file[140..148]);
    RegistersLoaded(file);
  }

  lemma RegistersLoaded(file: seq<u8>)
    requires |file| >= 152
    ensures forall i :: 0 <= i < 32 ==> LoadedRegisters(file)[i] == ToI32(FromLe(file[12 + 4 * i..16 + 4 * i]))
  {
    hide FromLe, ToI32;
  }

  /** loadState on any file: a short header or record fails an assertion, a record outside memory is out of
      range, and otherwise pc, registers and icnt are those of the header, and each byte of memory is that
      of the last record holding it, or what it was. The magic number is not looked at, and what follows
      the last record is not read. */
  lemma RestoreMeaning(t: State, file: seq<u8>)
    ensures var o := Restore(t, file);
      if |file| < 152 then o == Stuck(AssertionFailure)
      else
        var n := FromLe(file[148..152]);
        if forall j :: 0 <= j < n ==> Usable(file, j) then
          && o.Running? && Loaded(t, file, o.s)
          && forall a :: 0 <= a < 0x1_0000_0000 ==>
               && (forall j: nat :: Decides(file, n, a, j) ==>
                     o.s.mem[a] == file[156 + 4100 * j + (a - AddressAt(file, j))])
               && ((forall j: nat :: j < n ==> !Holds(file, j, a)) ==> o.s.mem[a] == t.mem[a])
        else exists j: nat :: j < n && FirstBad(file, 0, j) && o == Stuck(FaultAt(file, j))
  {
    if |file| >= 152 {
      var n := FromLe(file[148..152]);
      hide FromLe, LoadRecords, AddressAt, Complete;
      assert Rest(file, 0) == file[HEADER_SIZE..];
      RecordsUsable(t.mem, file, 0, n);
      if forall j :: 0 <= j < n ==> Usable(file, j) {
        HeaderLoaded(t, file);
        forall a, j: nat | 0 <= a < 0x1_0000_0000 && Decides(file, n, a, j)
          ensures Complete(file, j)
          ensures Restore(t, file).s.mem[a] == file[156 + 4100 * j + (a - AddressAt(file, j))]
        {
          LastHolds(t.mem, file, 0, n, a, j);
        }
        forall a | 0 <= a < 0x1_0000_0000 && forall j: nat :: j < n ==> !Holds(file, j, a)
          ensures Restore(t, file).s.mem[a] == t.mem[a]
        {
          NotHeld(t.mem, file, 0, n, a);
        }
      }
    }
  }
}
