/** The ELF loaders of src/elf.c: opening an image, the size of its headers,
    placing the PT_LOAD segments in memory (`elf_load_image_mmu`) and writing
    them to flash at their physical addresses (`elf_store_image_scattered`).
    Images are byte sequences in memory; the target memory and the flash
    driver are not part of this model, only what is written to them. */
module ElfLoader {
  import opened Base
  import opened ElfFormat

  // ---------------------------------------------------------------------
  // elf_open and elf_hdr_size
  // ---------------------------------------------------------------------

  /** `elf_open`: -1 unless the image starts with the ELF magic; otherwise
      the class, ELF32 exactly when EI_CLASS is ELFCLASS32. */
  function ElfOpen(img: seq<uint8>): (r: Result<ElfClass, int>)
    ensures r.Err? <==> !HasMagic(img)
    ensures r.Err? ==> r.error == -1
    ensures r.Ok? ==> (r.value == Elf32 <==> ByteAt(img, CLASS_OFF) == CLASS_32)
  {
    if !HasMagic(img) then Err(-1) else Ok(ClassOf(img))
  }

  /** `elf_hdr_size`: -1 for an image without the magic, otherwise the size
      of the file header plus one program header per ph_entry_count. */
  function ElfHdrSize(img: seq<uint8>): (r: int)
    ensures r == -1 <==> !HasMagic(img)
    ensures r != -1 ==> HeaderSize(Elf32) <= r <= HeaderSize(Elf64) + 0xFFFF * PhSize(Elf64)
  {
    match ElfOpen(img)
    case Err(_) => -1
    case Ok(cls) =>
      var h := DecodeHeader(img, cls);
      HdrSizeRange(cls, h.phnum);
      HeaderSize(cls) + h.phnum * PhSize(cls)
  }

  /** The header size with at most 0xFFFF program headers. */
  lemma HdrSizeRange(cls: ElfClass, n: nat)
    requires n < 0x1_0000
    ensures HeaderSize(Elf32) <= HeaderSize(cls) + n * PhSize(cls) <= HeaderSize(Elf64) + 0xFFFF * PhSize(Elf64)
  {
    MulMonotone(PhSize(cls), n, 0xFFFF);
    match cls
    case Elf32 =>
      assert n * PhSize(cls) <= 0xFFFF * 32;
    case Elf64 =>
  }

  /** When the program-header table follows the file header directly, the
      header size covers every program header. */
  lemma HdrSizeCoversTable(img: seq<uint8>, i: nat)
    requires HasMagic(img)
    requires var cls := ClassOf(img); DecodeHeader(img, cls).phoff == HeaderSize(cls)
    requires i < DecodeHeader(img, ClassOf(img)).phnum
    ensures var cls := ClassOf(img);
      DecodeHeader(img, cls).phoff + (i + 1) * PhSize(cls) <= ElfHdrSize(img)
  {
    var cls := ClassOf(img);
    MulMonotone(PhSize(cls), i + 1, DecodeHeader(img, cls).phnum);
  }

  // ---------------------------------------------------------------------
  // Segment placement (elf_load_image_mmu)
  // ---------------------------------------------------------------------

  /** The bytes a segment occupies in memory: `file_size` bytes of the image
      from `offset`, then zeros up to `mem_size` when that is larger. */
  function SegmentImage(img: seq<uint8>, ph: ProgHeader): (r: seq<uint8>)
    ensures |r| == Max(ph.filesz, ph.memsz)
    ensures forall k :: 0 <= k < ph.filesz ==> r[k] == ByteAt(img, ph.offset + k)
    ensures forall k :: ph.filesz <= k < |r| ==> r[k] == 0
  {
    Window(img, ph.offset, ph.filesz) + Zeros(if ph.memsz > ph.filesz then ph.memsz - ph.filesz else 0)
  }

  /** Byte `k` of a segment in memory: a file byte below `file_size`, zero
      above. */
  function SegmentByte(img: seq<uint8>, ph: ProgHeader, k: int): uint8 {
    if 0 <= k < ph.filesz then ByteAt(img, ph.offset + k) else 0
  }

  /** One segment copied to memory at `vaddr`; `index` is its program-header
      index. */
  datatype Placement = Placement(index: nat, vaddr: nat, paddr: nat, bytes: seq<uint8>)

  /** The program header `i` of the table at `phoff` with entries `stride`
      bytes apart. */
  function EntryAt(img: seq<uint8>, cls: ElfClass, phoff: nat, stride: nat, i: nat): ProgHeader {
    DecodePh(img, phoff + i * stride, cls)
  }

  /** A program header the MMU loader places: PT_LOAD, a non-zero memory size
      and a mapping the callback accepts. */
  predicate Placed(ph: ProgHeader, mmuOk: (nat, nat, nat) -> bool) {
    ph.ptype == PT_LOAD && ph.memsz != 0 && mmuOk(ph.vaddr, ph.paddr, ph.memsz)
  }

  /** The placement of a program header. */
  function PlacementOf(img: seq<uint8>, cls: ElfClass, h: FileHeader, j: nat): Placement {
    var ph := EntryAt(img, cls, h.phoff, h.phentsize, j);
    Placement(j, ph.vaddr, ph.paddr, SegmentImage(img, ph))
  }

  /** What `elf_load_image_mmu` leaves behind: the placements, in table
      order, and the entry point. */
  datatype Loaded = Loaded(placements: seq<Placement>, entry: nat)

  /** Program header `j` of an image's own table. */
  function HeaderEntry(img: seq<uint8>, j: nat): ProgHeader {
    var cls := ClassOf(img);
    var h := DecodeHeader(img, cls);
    EntryAt(img, cls, h.phoff, h.phentsize, j)
  }

  /** Whether program header `j` of the table is placed. */
  predicate PlacedAt(img: seq<uint8>, cls: ElfClass, h: FileHeader, mmuOk: (nat, nat, nat) -> bool, j: nat) {
    Placed(EntryAt(img, cls, h.phoff, h.phentsize, j), mmuOk)
  }

  /** The indices of the placed program headers, ascending. */
  function PlacedIndices(img: seq<uint8>, cls: ElfClass, h: FileHeader, mmuOk: (nat, nat, nat) -> bool): (r: seq<nat>)
    ensures forall k :: 0 <= k < |r| ==> r[k] < h.phnum && PlacedAt(img, cls, h, mmuOk, r[k])
    ensures forall k, l :: 0 <= k < l < |r| ==> r[k] < r[l]
    ensures forall j :: 0 <= j < h.phnum && PlacedAt(img, cls, h, mmuOk, j) ==> j in r
    ensures |r| <= h.phnum
  {
    var p := (j: nat) => PlacedAt(img, cls, h, mmuOk, j);
    var r := FilterRange(0, h.phnum, p);
    assert forall k :: 0 <= k < |r| ==> p(r[k]);
    r
  }

  /** The placements of the program headers `idx`, in that order. */
  function PlacementsOf(img: seq<uint8>, cls: ElfClass, h: FileHeader, idx: seq<nat>): (r: seq<Placement>)
    ensures |r| == |idx|
    ensures forall k :: 0 <= k < |r| ==> r[k] == PlacementOf(img, cls, h, idx[k]) && r[k].index == idx[k]
  {
    seq(|idx|, k requires 0 <= k < |idx| => PlacementOf(img, cls, h, idx[k]))
  }

  /** `elf_load_image_mmu`: -1 without the ELF magic, -2 when the file type
      is not ET_EXEC; otherwise every PT_LOAD entry with a non-zero memory
      size whose mapping the callback accepts is copied to its virtual
      address and zero-filled, and the header's entry point is returned.
      Program headers are `ph_entry_size` bytes apart. The placement facts
      are stated by `LoadedPlacements`. */
  function LoadImageMmu(img: seq<uint8>, mmuOk: (nat, nat, nat) -> bool): (r: Result<Loaded, int>)
    ensures !HasMagic(img) <==> r == Err(-1)
    ensures HasMagic(img) ==>
      (r == Err(-2) <==> DecodeHeader(img, ClassOf(img)).etype != ET_EXEC)
    ensures r.Ok? ==> r.value.entry == DecodeHeader(img, ClassOf(img)).entry
    ensures r.Ok? ==> |r.value.placements| <= DecodeHeader(img, ClassOf(img)).phnum
  {
    if !HasMagic(img) then Err(-1)
    else
      var cls := ClassOf(img);
      var h := DecodeHeader(img, cls);
      if h.etype != ET_EXEC then Err(-2)
      else
        var idx := PlacedIndices(img, cls, h, mmuOk);
        Ok(Loaded(PlacementsOf(img, cls, h, idx), h.entry))
  }

  /** `ps` are exactly the placed program headers' placements, each once,
      in table order. */
  ghost predicate ExactPlacements(img: seq<uint8>, cls: ElfClass, h: FileHeader, mmuOk: (nat, nat, nat) -> bool,
                                  ps: seq<Placement>) {
    && (forall k, l :: 0 <= k < l < |ps| ==> ps[k].index < ps[l].index)
    && (forall k :: 0 <= k < |ps| ==>
          && ps[k].index < h.phnum
          && PlacedAt(img, cls, h, mmuOk, ps[k].index)
          && ps[k] == PlacementOf(img, cls, h, ps[k].index))
    && (forall j :: 0 <= j < h.phnum && PlacedAt(img, cls, h, mmuOk, j) ==>
          exists k :: 0 <= k < |ps| && ps[k].index == j)
  }

  /** The placements of a successful load are exactly the placed program
      headers, each once, in table order. */
  lemma LoadedPlacements(img: seq<uint8>, mmuOk: (nat, nat, nat) -> bool)
    requires LoadImageMmu(img, mmuOk).Ok?
    ensures ExactPlacements(img, ClassOf(img), DecodeHeader(img, ClassOf(img)), mmuOk,
                            LoadImageMmu(img, mmuOk).value.placements)
  {
    var cls := ClassOf(img);
    var h := DecodeHeader(img, cls);
    var idx := PlacedIndices(img, cls, h, mmuOk);
    assert LoadImageMmu(img, mmuOk).value.placements == PlacementsOf(img, cls, h, idx);
    PlacementsFacts(img, cls, h, mmuOk, idx);
  }

  lemma PlacementsFacts(img: seq<uint8>, cls: ElfClass, h: FileHeader, mmuOk: (nat, nat, nat) -> bool, idx: seq<nat>)
    requires forall k :: 0 <= k < |idx| ==> idx[k] < h.phnum && PlacedAt(img, cls, h, mmuOk, idx[k])
    requires forall k, l :: 0 <= k < l < |idx| ==> idx[k] < idx[l]
    requires forall j :: 0 <= j < h.phnum && PlacedAt(img, cls, h, mmuOk, j) ==> j in idx
    ensures ExactPlacements(img, cls, h, mmuOk, PlacementsOf(img, cls, h, idx))
  {
    var ps := PlacementsOf(img, cls, h, idx);
    assert forall k, l :: 0 <= k < l < |ps| ==> ps[k].index < ps[l].index;
    assert forall k :: 0 <= k < |ps| ==>
      && ps[k].index < h.phnum
      && PlacedAt(img, cls, h, mmuOk, ps[k].index)
      && ps[k] == PlacementOf(img, cls, h, ps[k].index);
    EveryPlacedListed(img, cls, h, mmuOk, idx);
  }

  lemma EveryPlacedListed(img: seq<uint8>, cls: ElfClass, h: FileHeader, mmuOk: (nat, nat, nat) -> bool, idx: seq<nat>)
    requires forall j :: 0 <= j < h.phnum && PlacedAt(img, cls, h, mmuOk, j) ==> j in idx
    ensures forall j :: 0 <= j < h.phnum && PlacedAt(img, cls, h, mmuOk, j) ==>
      exists k :: 0 <= k < |PlacementsOf(img, cls, h, idx)| && PlacementsOf(img, cls, h, idx)[k].index == j
  {
    var ps := PlacementsOf(img, cls, h, idx);
    forall j | 0 <= j < h.phnum && PlacedAt(img, cls, h, mmuOk, j)
      ensures exists k :: 0 <= k < |ps| && ps[k].index == j
    {
      var k :| 0 <= k < |idx| && idx[k] == j;
      assert ps[k].index == j;
    }
  }

  /** One placement of a successful load is its program header's segment. */
  lemma LoadedPlacementAt(img: seq<uint8>, mmuOk: (nat, nat, nat) -> bool, k: nat)
    requires LoadImageMmu(img, mmuOk).Ok? && k < |LoadImageMmu(img, mmuOk).value.placements|
    ensures var ps := LoadImageMmu(img, mmuOk).value.placements;
      ps[k] == PlacementOf(img, ClassOf(img), DecodeHeader(img, ClassOf(img)), ps[k].index)
  {
  }

  /** Memory at `a` after the placements, in order, over initial contents
      `m0`: the last placement covering `a` decides. */
  function MemoryAfter(ps: seq<Placement>, m0: nat -> uint8, a: nat): uint8
    decreases |ps|
  {
    if |ps| == 0 then m0(a)
    else
      var p := ps[|ps| - 1];
      if p.vaddr <= a < p.vaddr + |p.bytes| then p.bytes[a - p.vaddr]
      else MemoryAfter(ps[..|ps| - 1], m0, a)
  }

  predicate Covers(p: Placement, a: nat) {
    p.vaddr <= a < p.vaddr + |p.bytes|
  }

  /** A byte placed by a segment that no later segment overwrites keeps the
      placed value. */
  lemma {:induction false} LastPlacementWins(ps: seq<Placement>, m0: nat -> uint8, a: nat, k: nat)
    requires k < |ps| && Covers(ps[k], a)
    requires forall l :: k < l < |ps| ==> !Covers(ps[l], a)
    ensures MemoryAfter(ps, m0, a) == ps[k].bytes[a - ps[k].vaddr]
    decreases |ps|
  {
    if k < |ps| - 1 {
      var init := ps[..|ps| - 1];
      assert forall l :: k < l < |init| ==> init[l] == ps[l];
      LastPlacementWins(init, m0, a, k);
    }
  }

  /** The segment promise of `elf_load_image_mmu`: for a placed segment that
      no later segment overlaps, memory from `vaddr` holds the segment's file
      bytes and then zeros up to `mem_size`. */
  lemma LoadedSegmentReads(img: seq<uint8>, mmuOk: (nat, nat, nat) -> bool, ps: seq<Placement>,
                           m0: nat -> uint8, k: nat, a: nat)
    requires LoadImageMmu(img, mmuOk) == Ok(Loaded(ps, DecodeHeader(img, ClassOf(img)).entry))
    requires k < |ps| && Covers(ps[k], a) && forall l :: k < l < |ps| ==> !Covers(ps[l], a)
    ensures var ph := HeaderEntry(img, ps[k].index);
      MemoryAfter(ps, m0, a) == SegmentByte(img, ph, a - ph.vaddr)
  {
    LoadedPlacementAt(img, mmuOk, k);
    PlacedSegmentReads(img, ps, m0, k, a);
  }

  /** The same for any placement that is its program header's segment. */
  lemma PlacedSegmentReads(img: seq<uint8>, ps: seq<Placement>, m0: nat -> uint8, k: nat, a: nat)
    requires k < |ps| && Covers(ps[k], a) && forall l :: k < l < |ps| ==> !Covers(ps[l], a)
    requires ps[k] == PlacementOf(img, ClassOf(img), DecodeHeader(img, ClassOf(img)), ps[k].index)
    ensures MemoryAfter(ps, m0, a) == SegmentByte(img, HeaderEntry(img, ps[k].index), a - HeaderEntry(img, ps[k].index).vaddr)
  {
    var j := ps[k].index;
    var ph := HeaderEntry(img, j);
    assert ps[k] == Placement(j, ph.vaddr, ph.paddr, SegmentImage(img, ph));
    LastPlacementWins(ps, m0, a, k);
    var i := a - ph.vaddr;
    assert MemoryAfter(ps, m0, a) == SegmentImage(img, ph)[i];
    assert SegmentImage(img, ph)[i] == SegmentByte(img, ph, i);
  }

  // ---------------------------------------------------------------------
  // elf_store_image_scattered
  // ---------------------------------------------------------------------

  /** What `elf_store_image_scattered` does for one PT_LOAD entry: erase
      `len` bytes at `addr` and write `data` there, on the internal flash or
      (with EXT_FLASH and `ext_flash` set) the external one. */
  datatype SegmentStore = SegmentStore(ext: bool, addr: nat, len: nat, data: seq<uint8>)

  /** What `elf_store_image_scattered` does: the segment stores, in table
      order, and the entry point. */
  datatype Stored = Stored(stores: seq<SegmentStore>, entry: nat)

  function StoreOf(image: seq<uint8>, ph: ProgHeader, ext: bool, flashOffset: nat): SegmentStore {
    SegmentStore(ext, ph.paddr + flashOffset, ph.filesz, Window(image, ph.offset, ph.filesz))
  }

  /** The ELF image inside a signed image: everything after the
      `headerSize`-byte manifest header. */
  function Payload(hdr: seq<uint8>, headerSize: nat): (image: seq<uint8>)
    ensures |image| == if headerSize <= |hdr| then |hdr| - headerSize else 0
    ensures forall i :: 0 <= i < |image| ==> image[i] == hdr[headerSize + i]
  {
    if headerSize <= |hdr| then hdr[headerSize..] else []
  }

  /** Program header `j` as the scattered store reads it: `sizeof` one
      header apart whatever ph_entry_size says. */
  function StoreEntry(image: seq<uint8>, cls: ElfClass, h: FileHeader, j: nat): ProgHeader {
    EntryAt(image, cls, h.phoff, PhSize(cls), j)
  }

  predicate IsLoadAt(image: seq<uint8>, cls: ElfClass, h: FileHeader, j: nat) {
    StoreEntry(image, cls, h, j).ptype == PT_LOAD
  }

  /** The indices of the PT_LOAD entries, ascending. */
  function LoadIndices(image: seq<uint8>, cls: ElfClass, h: FileHeader): (r: seq<nat>)
    ensures |r| <= h.phnum
    ensures forall k :: 0 <= k < |r| ==> r[k] < h.phnum && IsLoadAt(image, cls, h, r[k])
    ensures forall k, l :: 0 <= k < l < |r| ==> r[k] < r[l]
    ensures forall j :: 0 <= j < h.phnum && IsLoadAt(image, cls, h, j) ==> j in r
  {
    var p := (j: nat) => IsLoadAt(image, cls, h, j);
    var r := FilterRange(0, h.phnum, p);
    assert forall j :: 0 <= j < h.phnum && IsLoadAt(image, cls, h, j) ==> p(j);
    r
  }

  /** The stores of the program headers `idx`, in that order. */
  function StoresOf(image: seq<uint8>, cls: ElfClass, h: FileHeader, idx: seq<nat>, ext: bool, flashOffset: nat)
    : (r: seq<SegmentStore>)
    ensures |r| == |idx|
    ensures forall k :: 0 <= k < |r| ==> r[k] == StoreOf(image, StoreEntry(image, cls, h, idx[k]), ext, flashOffset)
  {
    seq(|idx|, k requires 0 <= k < |idx| => StoreOf(image, StoreEntry(image, cls, h, idx[k]), ext, flashOffset))
  }

  /** `elf_store_image_scattered`: the ELF image starts `headerSize` bytes
      into the signed image; -1 without the ELF magic. Otherwise each PT_LOAD
      entry, and only those, is erased and written at its physical address
      plus the flash offset (ARCH_FLASH_OFFSET), and the entry point is
      returned. The file type is not checked. The stores are stated by
      `StoredSegments`. */
  function StoreImageScattered(hdr: seq<uint8>, headerSize: nat, ext: bool, flashOffset: nat)
    : (r: Result<Stored, int>)
    ensures r.Err? <==> !HasMagic(Payload(hdr, headerSize))
    ensures r.Err? ==> r.error == -1
    ensures r.Ok? ==> r.value.entry == DecodeHeader(Payload(hdr, headerSize), ClassOf(Payload(hdr, headerSize))).entry
  {
    var image := Payload(hdr, headerSize);
    match ElfOpen(image)
    case Err(e) => Err(e)
    case Ok(cls) =>
      var h := DecodeHeader(image, cls);
      Ok(Stored(StoresOf(image, cls, h, LoadIndices(image, cls, h), ext, flashOffset), h.entry))
  }

  /** The stores of a successful scattered store: one per PT_LOAD entry, in
      table order, on the selected flash, each writing the segment's file
      bytes over exactly the erased length; nothing for other entries. */
  lemma StoredSegments(hdr: seq<uint8>, headerSize: nat, ext: bool, flashOffset: nat, st: seq<SegmentStore>)
    requires var image := Payload(hdr, headerSize);
      StoreImageScattered(hdr, headerSize, ext, flashOffset)
        == Ok(Stored(st, DecodeHeader(image, ClassOf(image)).entry))
    ensures var image := Payload(hdr, headerSize);
      var cls := ClassOf(image);
      var h := DecodeHeader(image, cls);
      && |st| <= h.phnum
      && (forall k :: 0 <= k < |st| ==>
            && st[k].len == |st[k].data|
            && st[k].ext == ext
            && OfLoadEntry(image, cls, h, st[k], ext, flashOffset))
      && (forall j :: 0 <= j < h.phnum && IsLoadAt(image, cls, h, j) ==>
            StoreOf(image, StoreEntry(image, cls, h, j), ext, flashOffset) in st)
  {
    var image := Payload(hdr, headerSize);
    var cls := ClassOf(image);
    var h := DecodeHeader(image, cls);
    assert ElfOpen(image) == Ok(cls);
    assert st == StoresOf(image, cls, h, LoadIndices(image, cls, h), ext, flashOffset);
    StoresSound(image, cls, h, ext, flashOffset);
    StoresComplete(image, cls, h, ext, flashOffset);
  }

  /** `s` is the store of some PT_LOAD entry of the table. */
  predicate OfLoadEntry(image: seq<uint8>, cls: ElfClass, h: FileHeader, s: SegmentStore, ext: bool, flashOffset: nat) {
    exists j :: 0 <= j < h.phnum && IsLoadAt(image, cls, h, j) && s == StoreOf(image, StoreEntry(image, cls, h, j), ext, flashOffset)
  }

  /** Every store of the PT_LOAD entries is one entry's store. */
  lemma StoresSound(image: seq<uint8>, cls: ElfClass, h: FileHeader, ext: bool, flashOffset: nat)
    ensures var st := StoresOf(image, cls, h, LoadIndices(image, cls, h), ext, flashOffset);
      forall k :: 0 <= k < |st| ==>
        && st[k].len == |st[k].data|
        && st[k].ext == ext
        && OfLoadEntry(image, cls, h, st[k], ext, flashOffset)
  {
    var idx := LoadIndices(image, cls, h);
    var st := StoresOf(image, cls, h, idx, ext, flashOffset);
    forall k | 0 <= k < |st|
      ensures OfLoadEntry(image, cls, h, st[k], ext, flashOffset)
    {
      assert IsLoadAt(image, cls, h, idx[k]);
    }
  }

  /** Every PT_LOAD entry has its store. */
  lemma StoresComplete(image: seq<uint8>, cls: ElfClass, h: FileHeader, ext: bool, flashOffset: nat)
    ensures var st := StoresOf(image, cls, h, LoadIndices(image, cls, h), ext, flashOffset);
      forall j :: 0 <= j < h.phnum && IsLoadAt(image, cls, h, j) ==>
        StoreOf(image, StoreEntry(image, cls, h, j), ext, flashOffset) in st
  {
    var idx := LoadIndices(image, cls, h);
    var st := StoresOf(image, cls, h, idx, ext, flashOffset);
    forall j | 0 <= j < h.phnum && IsLoadAt(image, cls, h, j)
      ensures StoreOf(image, StoreEntry(image, cls, h, j), ext, flashOffset) in st
    {
      var k :| 0 <= k < |idx| && idx[k] == j;
      assert st[k] == StoreOf(image, StoreEntry(image, cls, h, j), ext, flashOffset);
    }
  }
}
