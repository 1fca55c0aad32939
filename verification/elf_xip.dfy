/** The execute-in-place ELF update of src/update_flash_elf.c: loading the
    PT_LOAD segments of the boot partition's ELF image to their physical
    addresses in flash, choosing and ordering the segments of the scattered
    hash, checking that hash against the one in the image header, and the
    error codes of the integrity check. The flash driver, the hash and the
    manifest-header lookup are foreign: their results are parameters. */
module ElfXip {
  import opened Base
  import opened ElfFormat
  import opened ElfLoader

  // ---------------------------------------------------------------------
  // wolfBoot_elf_load_segments
  // ---------------------------------------------------------------------

  /** A flash driver call: `hal_flash_erase(addr, len)` or
      `hal_flash_write(addr, data, |data|)`. */
  datatype FlashCall = Erase(addr: nat, len: nat) | Write(addr: nat, data: seq<uint8>)

  /** The driver calls made, in order, and the value returned. */
  datatype Outcome = Outcome(calls: seq<FlashCall>, ret: int)

  /** The width of `uintptr_t` on the target. */
  datatype PtrWidth = Ptr32 | Ptr64

  /** The boot partition, WOLFBOOT_PARTITION_BOOT_ADDRESS and
      WOLFBOOT_PARTITION_SIZE, on a target whose addresses are `ptr` wide. */
  datatype Partition = Partition(base: nat, size: nat, ptr: PtrWidth)

  /** An address sum as `uintptr_t` computes it. */
  function PtrSum(boot: Partition, a: nat, b: nat): (r: nat)
    ensures r <= a + b
    ensures boot.ptr == Ptr32 ==> r < TWO_32
    ensures boot.ptr == Ptr64 ==> r < TWO_64
  {
    match boot.ptr
    case Ptr32 => Wrap32(a + b)
    case Ptr64 => Wrap64(a + b)
  }

  /** The size of the zero buffer of the tail clearing. */
  const ZERO_CHUNK: nat := 64

  /** The load-bounds test as the source writes it: `paddr + mem_size` is a
      `uintptr_t` sum, so a segment whose end wraps past the top of the
      address space passes it. */
  predicate InBoot(boot: Partition, paddr: nat, memsz: nat) {
    boot.base <= paddr && PtrSum(boot, paddr, memsz) <= boot.base + boot.size
  }

  /** The end of a segment's memory image is representable in `uintptr_t`. */
  predicate NoWrap(boot: Partition, paddr: nat, memsz: nat) {
    PtrSum(boot, paddr, memsz) == paddr + memsz
  }

  /** A call that touches only `[lo, hi)`. */
  predicate CallWithin(c: FlashCall, lo: nat, hi: nat) {
    match c
    case Erase(addr, len) => lo <= addr && addr + len <= hi
    case Write(addr, data) => lo <= addr && addr + |data| <= hi
  }

  /** Whether the driver accepts a write (`hal_flash_write` returns a
      non-negative value). */
  predicate WriteOk(c: FlashCall, writeOk: (nat, seq<uint8>) -> bool) {
    c.Write? ==> writeOk(c.addr, c.data)
  }

  /** The bytes the writes of `calls` carry, in order. */
  function Fill(calls: seq<FlashCall>): (r: seq<uint8>)
    ensures |calls| == 0 ==> r == []
  {
    if |calls| == 0 then []
    else (if calls[0].Write? then calls[0].data else []) + Fill(calls[1..])
  }

  lemma FillCons(c: FlashCall, rest: seq<FlashCall>)
    requires c.Write?
    ensures Fill([c] + rest) == c.data + Fill(rest)
    ensures Contiguous(rest, c.addr + |c.data|) ==> Contiguous([c] + rest, c.addr)
  {
    assert ([c] + rest)[1..] == rest;
  }

  lemma ZerosAppend(a: nat, b: nat)
    ensures Zeros(a) + Zeros(b) == Zeros(a + b)
  {
  }

  /** Writes laid end to end from `start`. */
  predicate Contiguous(calls: seq<FlashCall>, start: nat)
    decreases |calls|
  {
    |calls| == 0 ||
      (calls[0].Write? && calls[0].addr == start && Contiguous(calls[1..], start + |calls[0].data|))
  }

  /** The tail-clearing loop from position `pos`, with `toClear` bytes left:
      writes of at most 64 zero bytes at `start + pos`, stopping with -5 at
      the first write the driver refuses. */
  function ZeroChunks(start: nat, pos: nat, toClear: nat, writeOk: (nat, seq<uint8>) -> bool): (o: Outcome)
    ensures o.ret == 0 || o.ret == -5
    ensures o.ret == -5 ==> |o.calls| > 0 && !WriteOk(o.calls[|o.calls| - 1], writeOk)
    decreases toClear
  {
    if toClear == 0 then Outcome([], 0)
    else
      var chunk := if toClear > ZERO_CHUNK then ZERO_CHUNK else toClear;
      var c := Write(start + pos, Zeros(chunk));
      if !writeOk(c.addr, c.data) then
        var o := Outcome([c], -5);
        assert !WriteOk(o.calls[0], writeOk);
        o
      else
        var rest := ZeroChunks(start, pos + chunk, toClear - chunk, writeOk);
        var o := Outcome([c] + rest.calls, rest.ret);
        assert o.ret == -5 ==> o.calls[|o.calls| - 1] == rest.calls[|rest.calls| - 1];
        o
  }

  /** Zero-chunk writes: each carries 1 to 64 bytes and stays in `[lo, hi)`. */
  predicate ChunkWrites(calls: seq<FlashCall>, lo: nat, hi: nat) {
    forall k :: 0 <= k < |calls| ==>
      calls[k].Write? && 0 < |calls[k].data| <= ZERO_CHUNK && CallWithin(calls[k], lo, hi)
  }

  /** Every call of `calls` touches only `[lo, hi)`. */
  predicate AllWithin(calls: seq<FlashCall>, lo: nat, hi: nat) {
    forall k :: 0 <= k < |calls| ==> CallWithin(calls[k], lo, hi)
  }

  /** Calls inside a range, one after another, stay inside it; and a
      smaller range is inside a larger one. */
  lemma AllWithinAppend(a: seq<FlashCall>, b: seq<FlashCall>, lo: nat, hi: nat)
    requires AllWithin(a, lo, hi) && AllWithin(b, lo, hi)
    ensures AllWithin(a + b, lo, hi)
  {
    assert forall k :: |a| <= k < |a + b| ==> (a + b)[k] == b[k - |a|];
  }

  lemma AllWithinWiden(calls: seq<FlashCall>, lo: nat, hi: nat, lo2: nat, hi2: nat)
    requires AllWithin(calls, lo, hi) && lo2 <= lo && hi <= hi2
    ensures AllWithin(calls, lo2, hi2)
  {
    forall k | 0 <= k < |calls| ensures CallWithin(calls[k], lo2, hi2) {
      assert CallWithin(calls[k], lo, hi);
    }
  }

  /** The driver accepts every write of `calls`. */
  predicate AllAccepted(calls: seq<FlashCall>, writeOk: (nat, seq<uint8>) -> bool) {
    forall k :: 0 <= k < |calls| ==> WriteOk(calls[k], writeOk)
  }

  /** Every write of the tail clearing carries 1 to 64 zero bytes and stays
      within the `toClear` bytes from `start + pos`. */
  lemma {:induction false} ZeroChunksWithin(start: nat, pos: nat, toClear: nat, writeOk: (nat, seq<uint8>) -> bool)
    ensures ChunkWrites(ZeroChunks(start, pos, toClear, writeOk).calls, start + pos, start + pos + toClear)
    decreases toClear
  {
    var o := ZeroChunks(start, pos, toClear, writeOk);
    if toClear > 0 {
      var chunk := if toClear > ZERO_CHUNK then ZERO_CHUNK else toClear;
      var c := Write(start + pos, Zeros(chunk));
      if writeOk(c.addr, c.data) {
        var rest := ZeroChunks(start, pos + chunk, toClear - chunk, writeOk);
        ZeroChunksWithin(start, pos + chunk, toClear - chunk, writeOk);
        assert o.calls == [c] + rest.calls;
        forall k | 0 < k < |o.calls|
          ensures CallWithin(o.calls[k], start + pos, start + pos + toClear)
        {
          assert o.calls[k] == rest.calls[k - 1];
        }
      } else {
        assert o.calls == [c];
      }
    }
  }

  /** The tail clearing succeeds exactly when the driver accepts every
      write it makes. */
  lemma {:induction false} ZeroChunksOk(start: nat, pos: nat, toClear: nat, writeOk: (nat, seq<uint8>) -> bool)
    ensures var o := ZeroChunks(start, pos, toClear, writeOk);
      o.ret == 0 <==> AllAccepted(o.calls, writeOk)
    decreases toClear
  {
    var o := ZeroChunks(start, pos, toClear, writeOk);
    if toClear > 0 {
      var chunk := if toClear > ZERO_CHUNK then ZERO_CHUNK else toClear;
      var c := Write(start + pos, Zeros(chunk));
      if !writeOk(c.addr, c.data) {
        assert !WriteOk(o.calls[0], writeOk);
      } else {
        var rest := ZeroChunks(start, pos + chunk, toClear - chunk, writeOk);
        ZeroChunksOk(start, pos + chunk, toClear - chunk, writeOk);
        assert o.calls == [c] + rest.calls;
        if AllAccepted(rest.calls, writeOk) {
          forall k | 0 <= k < |o.calls| ensures WriteOk(o.calls[k], writeOk) {
            if k > 0 { assert o.calls[k] == rest.calls[k - 1]; }
          }
        }
        if AllAccepted(o.calls, writeOk) {
          forall k | 0 <= k < |rest.calls| ensures WriteOk(rest.calls[k], writeOk) {
            assert o.calls[k + 1] == rest.calls[k];
          }
        }
      }
    }
  }

  /** When the driver accepts every write, the tail clearing writes exactly
      `toClear` zero bytes ... */
  lemma {:induction false} ZeroChunksFill(start: nat, pos: nat, toClear: nat, writeOk: (nat, seq<uint8>) -> bool)
    requires ZeroChunks(start, pos, toClear, writeOk).ret == 0
    ensures Fill(ZeroChunks(start, pos, toClear, writeOk).calls) == Zeros(toClear)
    decreases toClear
  {
    if toClear > 0 {
      var chunk := if toClear > ZERO_CHUNK then ZERO_CHUNK else toClear;
      ZeroChunksStep(start, pos, toClear, writeOk);
      ZeroChunksFill(start, pos + chunk, toClear - chunk, writeOk);
      FillStep(start, pos, toClear, writeOk);
    }
  }

  lemma FillStep(start: nat, pos: nat, toClear: nat, writeOk: (nat, seq<uint8>) -> bool)
    requires toClear > 0 && ZeroChunks(start, pos, toClear, writeOk).ret == 0
    requires var chunk := if toClear > ZERO_CHUNK then ZERO_CHUNK else toClear;
      Fill(ZeroChunks(start, pos + chunk, toClear - chunk, writeOk).calls) == Zeros(toClear - chunk)
    ensures Fill(ZeroChunks(start, pos, toClear, writeOk).calls) == Zeros(toClear)
  {
    var chunk := if toClear > ZERO_CHUNK then ZERO_CHUNK else toClear;
    var c := Write(start + pos, Zeros(chunk));
    var rest := ZeroChunks(start, pos + chunk, toClear - chunk, writeOk);
    ZeroChunksStep(start, pos, toClear, writeOk);
    FillCons(c, rest.calls);
    ZerosAppend(chunk, toClear - chunk);
  }

  /** ... end to end from `start + pos`. */
  lemma {:induction false} ZeroChunksContiguous(start: nat, pos: nat, toClear: nat, writeOk: (nat, seq<uint8>) -> bool)
    requires ZeroChunks(start, pos, toClear, writeOk).ret == 0
    ensures Contiguous(ZeroChunks(start, pos, toClear, writeOk).calls, start + pos)
    decreases toClear
  {
    if toClear > 0 {
      var chunk := if toClear > ZERO_CHUNK then ZERO_CHUNK else toClear;
      ZeroChunksStep(start, pos, toClear, writeOk);
      ZeroChunksContiguous(start, pos + chunk, toClear - chunk, writeOk);
      ContiguousStep(start, pos, toClear, writeOk);
    }
  }

  lemma ContiguousStep(start: nat, pos: nat, toClear: nat, writeOk: (nat, seq<uint8>) -> bool)
    requires toClear > 0 && ZeroChunks(start, pos, toClear, writeOk).ret == 0
    requires var chunk := if toClear > ZERO_CHUNK then ZERO_CHUNK else toClear;
      Contiguous(ZeroChunks(start, pos + chunk, toClear - chunk, writeOk).calls, start + pos + chunk)
    ensures Contiguous(ZeroChunks(start, pos, toClear, writeOk).calls, start + pos)
  {
    var chunk := if toClear > ZERO_CHUNK then ZERO_CHUNK else toClear;
    var c := Write(start + pos, Zeros(chunk));
    var rest := ZeroChunks(start, pos + chunk, toClear - chunk, writeOk);
    ZeroChunksStep(start, pos, toClear, writeOk);
    FillCons(c, rest.calls);
  }

  /** One round of the tail clearing that the driver accepts. */
  lemma ZeroChunksStep(start: nat, pos: nat, toClear: nat, writeOk: (nat, seq<uint8>) -> bool)
    requires toClear > 0 && ZeroChunks(start, pos, toClear, writeOk).ret == 0
    ensures var chunk := if toClear > ZERO_CHUNK then ZERO_CHUNK else toClear;
      var rest := ZeroChunks(start, pos + chunk, toClear - chunk, writeOk);
      && rest.ret == 0
      && ZeroChunks(start, pos, toClear, writeOk).calls == [Write(start + pos, Zeros(chunk))] + rest.calls
  {
  }

  /** A program header the loader writes: PT_LOAD, a non-zero memory size
      and file bytes to copy. Entries with `file_size == 0` are skipped
      entirely, even when their memory size asks for zeros. */
  predicate Loads(ph: ProgHeader) {
    ph.ptype == PT_LOAD && ph.memsz != 0 && ph.filesz > 0
  }

  /** One segment: -4 when it fails the bounds test `InBoot`; otherwise
      erase `mem_size` bytes at `paddr` and write the file bytes there (-3
      when the driver refuses), then clear the rest of the memory image in
      zero chunks. The clearing length is a `uint32_t`. */
  function LoadSegment(img: seq<uint8>, ph: ProgHeader, boot: Partition, writeOk: (nat, seq<uint8>) -> bool)
    : (o: Outcome)
    ensures o.ret in {0, -3, -4, -5}
    ensures o.ret == -4 <==> !InBoot(boot, ph.paddr, ph.memsz)
    ensures o.ret == -4 ==> o.calls == []
    ensures o.ret != -4 ==>
      |o.calls| >= 2 && o.calls[0] == Erase(ph.paddr, ph.memsz)
      && o.calls[1] == Write(ph.paddr, Window(img, ph.offset, ph.filesz))
    ensures o.ret == -3 <==> InBoot(boot, ph.paddr, ph.memsz) && !writeOk(ph.paddr, Window(img, ph.offset, ph.filesz))
    ensures ph.filesz <= ph.memsz ==> AllWithin(o.calls, ph.paddr, ph.paddr + ph.memsz)
  {
    if !InBoot(boot, ph.paddr, ph.memsz) then Outcome([], -4)
    else
      var head := [Erase(ph.paddr, ph.memsz), Write(ph.paddr, Window(img, ph.offset, ph.filesz))];
      if !writeOk(ph.paddr, Window(img, ph.offset, ph.filesz)) then Outcome(head, -3)
      else if ph.memsz > ph.filesz then
        var z := ZeroChunks(ph.paddr + ph.filesz, 0, Wrap32(ph.memsz - ph.filesz), writeOk);
        ZeroChunksWithin(ph.paddr + ph.filesz, 0, Wrap32(ph.memsz - ph.filesz), writeOk);
        var o := Outcome(head + z.calls, z.ret);
        assert forall k :: 2 <= k < |o.calls| ==> o.calls[k] == z.calls[k - 2];
        o
      else Outcome(head, 0)
  }

  /** The program header table as `wolfBoot_elf_load_segments` walks it:
      `ph_entry_count` entries of the file's class. */
  function Table(img: seq<uint8>): (t: seq<ProgHeader>)
    ensures |t| == DecodeHeader(img, ClassOf(img)).phnum
    ensures forall j :: 0 <= j < |t| ==> t[j] == HeaderEntry(img, j)
  {
    seq(DecodeHeader(img, ClassOf(img)).phnum, (j: int) requires 0 <= j => HeaderEntry(img, j as nat))
  }

  /** Entry `j` passes the bounds test. */
  predicate InBootAt(t: seq<ProgHeader>, boot: Partition, j: nat)
    requires j < |t|
  {
    InBoot(boot, t[j].paddr, t[j].memsz)
  }

  /** Entry `j`'s memory image was erased and its file bytes written at its
      physical address. */
  predicate WrittenAt(img: seq<uint8>, t: seq<ProgHeader>, j: nat, calls: seq<FlashCall>)
    requires j < |t|
  {
    Erase(t[j].paddr, t[j].memsz) in calls && Write(t[j].paddr, Window(img, t[j].offset, t[j].filesz)) in calls
  }

  /** Every written segment from entry `i` on passes the bounds test. */
  predicate AllInBoot(t: seq<ProgHeader>, boot: Partition, i: nat) {
    forall j :: i <= j < |t| && Loads(t[j]) ==> InBootAt(t, boot, j)
  }

  /** Every written segment from entry `i` on was written by `calls`. */
  predicate AllWritten(img: seq<uint8>, t: seq<ProgHeader>, i: nat, calls: seq<FlashCall>) {
    forall j :: i <= j < |t| && Loads(t[j]) ==> WrittenAt(img, t, j, calls)
  }

  /** The loop of `wolfBoot_elf_load_segments` from entry `i`: skip the
      entries it does not load, stop at the first segment that fails. A
      success means every segment passed the bounds test and was written;
      -4 means some segment did not pass it. */
  function LoadFrom(img: seq<uint8>, t: seq<ProgHeader>, i: nat, boot: Partition, writeOk: (nat, seq<uint8>) -> bool): (o: Outcome)
    ensures o.ret in {0, -3, -4, -5}
    ensures o.ret == 0 ==> AllInBoot(t, boot, i) && AllWritten(img, t, i, o.calls)
    ensures o.ret == -4 ==> !AllInBoot(t, boot, i)
    decreases |t| - i
  {
    if i >= |t| then Outcome([], 0)
    else if !Loads(t[i]) then
      var o := LoadFrom(img, t, i + 1, boot, writeOk);
      assert AllInBoot(t, boot, i + 1) ==> AllInBoot(t, boot, i);
      assert AllWritten(img, t, i + 1, o.calls) ==> AllWritten(img, t, i, o.calls);
      o
    else
      var s := LoadSegment(img, t[i], boot, writeOk);
      if s.ret != 0 then
        assert s.ret == -4 ==> !InBootAt(t, boot, i);
        s
      else
        var rest := LoadFrom(img, t, i + 1, boot, writeOk);
        var o := Outcome(s.calls + rest.calls, rest.ret);
        assert InBootAt(t, boot, i);
        assert WrittenAt(img, t, i, o.calls) by {
          assert o.calls[0] == s.calls[0] && o.calls[1] == s.calls[1];
        }
        assert AllWritten(img, t, i + 1, rest.calls) ==> AllWritten(img, t, i + 1, o.calls) by {
          assert forall c :: c in rest.calls ==> c in o.calls;
        }
        o
  }

  /** `wolfBoot_elf_load_segments`: -1 without the ELF magic, -2 when the
      file type is not ET_EXEC, otherwise the segment loop. */
  function LoadSegments(img: seq<uint8>, boot: Partition, writeOk: (nat, seq<uint8>) -> bool): (o: Outcome)
    ensures o.ret in {0, -1, -2, -3, -4, -5}
    ensures o.ret == -1 <==> !HasMagic(img)
    ensures o.ret == -2 <==> HasMagic(img) && DecodeHeader(img, ClassOf(img)).etype != ET_EXEC
    ensures o.ret in {-1, -2} ==> o.calls == []
    ensures o.ret == 0 ==> AllInBoot(Table(img), boot, 0) && AllWritten(img, Table(img), 0, o.calls)
    ensures o.ret == -4 ==> !AllInBoot(Table(img), boot, 0)
  {
    if !HasMagic(img) then Outcome([], -1)
    else if DecodeHeader(img, ClassOf(img)).etype != ET_EXEC then Outcome([], -2)
    else LoadFrom(img, Table(img), 0, boot, writeOk)
  }

  /** Segments obey the gABI rule `p_filesz <= p_memsz`. */
  predicate WellSized(t: seq<ProgHeader>) {
    forall j :: 0 <= j < |t| && Loads(t[j]) ==> t[j].filesz <= t[j].memsz
  }

  /** No written segment's end wraps in `uintptr_t`. */
  predicate NoneWraps(t: seq<ProgHeader>, boot: Partition) {
    forall j :: 0 <= j < |t| && Loads(t[j]) ==> NoWrap(boot, t[j].paddr, t[j].memsz)
  }

  /** Every flash call of the loader lies inside the boot partition, as long
      as no segment has more file bytes than memory bytes (the bounds test
      looks at `mem_size` only) and no segment's end wraps (the test's sum
      is a `uintptr_t`); `OversizedFileEscapesBoot` and
      `WrappedSegmentEscapesBoot` show each hypothesis is needed. */
  lemma {:induction false} LoadStaysInBoot(img: seq<uint8>, t: seq<ProgHeader>, i: nat, boot: Partition, writeOk: (nat, seq<uint8>) -> bool)
    requires WellSized(t) && NoneWraps(t, boot)
    ensures AllWithin(LoadFrom(img, t, i, boot, writeOk).calls, boot.base, boot.base + boot.size)
    decreases |t| - i
  {
    if i < |t| {
      LoadStaysInBoot(img, t, i + 1, boot, writeOk);
      if Loads(t[i]) {
        SegmentStaysInBoot(img, t, i, boot, writeOk);
      }
    }
  }

  /** One step of `LoadStaysInBoot`: a written segment. */
  lemma SegmentStaysInBoot(img: seq<uint8>, t: seq<ProgHeader>, i: nat, boot: Partition, writeOk: (nat, seq<uint8>) -> bool)
    requires WellSized(t) && NoneWraps(t, boot) && i < |t| && Loads(t[i])
    requires AllWithin(LoadFrom(img, t, i + 1, boot, writeOk).calls, boot.base, boot.base + boot.size)
    ensures AllWithin(LoadFrom(img, t, i, boot, writeOk).calls, boot.base, boot.base + boot.size)
  {
    var lo, hi := boot.base, boot.base + boot.size;
    var s := LoadSegment(img, t[i], boot, writeOk);
    var rest := LoadFrom(img, t, i + 1, boot, writeOk);
    if s.ret != -4 {
      assert NoWrap(boot, t[i].paddr, t[i].memsz);
      AllWithinWiden(s.calls, t[i].paddr, t[i].paddr + t[i].memsz, lo, hi);
    }
    if s.ret == 0 {
      AllWithinAppend(s.calls, rest.calls, lo, hi);
    }
  }

  /** A segment inside the boot partition loads when the driver accepts
      every write. */
  lemma SegmentSucceeds(img: seq<uint8>, ph: ProgHeader, boot: Partition, writeOk: (nat, seq<uint8>) -> bool)
    requires InBoot(boot, ph.paddr, ph.memsz)
    requires forall a, d :: writeOk(a, d)
    ensures LoadSegment(img, ph, boot, writeOk).ret == 0
  {
    if ph.memsz > ph.filesz {
      var z := ZeroChunks(ph.paddr + ph.filesz, 0, Wrap32(ph.memsz - ph.filesz), writeOk);
      ZeroChunksOk(ph.paddr + ph.filesz, 0, Wrap32(ph.memsz - ph.filesz), writeOk);
      assert AllAccepted(z.calls, writeOk);
    }
  }

  /** Conversely to `LoadFrom`'s contract: with a driver that accepts every
      write, the loop succeeds whenever every written segment lies in the
      boot partition. */
  lemma {:induction false} LoadSucceeds(img: seq<uint8>, t: seq<ProgHeader>, i: nat, boot: Partition, writeOk: (nat, seq<uint8>) -> bool)
    requires AllInBoot(t, boot, i)
    requires forall a, d :: writeOk(a, d)
    ensures LoadFrom(img, t, i, boot, writeOk).ret == 0
    decreases |t| - i
  {
    if i < |t| {
      LoadSucceeds(img, t, i + 1, boot, writeOk);
      if Loads(t[i]) {
        assert InBootAt(t, boot, i);
        SegmentSucceeds(img, t[i], boot, writeOk);
      }
    }
  }

  /** Without the gABI rule the bounds test is not enough: a segment with a
      small memory size and a larger file size passes it and is written
      past the end of the partition. */
  lemma OversizedFileEscapesBoot()
    ensures var boot := Partition(0x1000, 0x100, Ptr32);
      var ph := ProgHeader(PT_LOAD, 0, 0, 0x10F0, 0x10F0, 0x20, 0x10, 0);
      var o := LoadSegment([], ph, boot, (a: nat, d: seq<uint8>) => true);
      o.ret == 0 && !CallWithin(o.calls[1], boot.base, boot.base + boot.size)
  {
    var ph := ProgHeader(PT_LOAD, 0, 0, 0x10F0, 0x10F0, 0x20, 0x10, 0);
    assert |Window([], ph.offset, ph.filesz)| == 0x20;
  }

  /** On a 32-bit target a segment whose end wraps passes the bounds test:
      a 0xFFFF0000-byte segment at the partition start is erased whole, far
      past the partition's end. */
  lemma WrappedSegmentEscapesBoot()
    ensures var boot := Partition(0x10000, 0x20000, Ptr32);
      var ph := ProgHeader(PT_LOAD, 0, 0, 0x10000, 0x10000, 0x100, 0xFFFF_0000, 0);
      var o := LoadSegment([], ph, boot, (a: nat, d: seq<uint8>) => true);
      && InBoot(boot, ph.paddr, ph.memsz) && !NoWrap(boot, ph.paddr, ph.memsz)
      && o.ret != -4 && o.calls[0] == Erase(0x10000, 0xFFFF_0000)
      && !CallWithin(o.calls[0], boot.base, boot.base + boot.size)
  {
    var boot := Partition(0x10000, 0x20000, Ptr32);
    assert PtrSum(boot, 0x10000, 0xFFFF_0000) == 0;
  }
}
