/** The AURIX TC3xx program-flash driver of wolfBoot: unaligned byte writes,
    erases and reads turned into page, burst and sector operations.

    The flash is a map from page index to page state. A page that is absent
    from the map is erased. Reading an erased page over the bus would raise an
    ECC error on the device, so the driver never does it: it erase-verifies
    first and substitutes the erased byte. `ByteAt` is that logical view. */
module AurixFlash {
  import opened Base

  /** PFLASH geometry of the TC3xx (page, burst, wordline) and wolfBoot's
      logical sector. */
  const PAGE: nat := 32
  const BURST: nat := 256
  const WORDLINE: nat := 1024
  const SECTOR: nat := 16384
  const PAGES_PER_BURST: nat := 8
  const PAGES_PER_SECTOR: nat := 512
  /** `uint32_t sectorBuffer[WOLFBOOT_SECTOR_SIZE]` holds four sectors' worth
      of bytes; only the first SECTOR bytes are ever programmed back. */
  const BUFFER_BYTES: nat := 4 * SECTOR

  datatype Page = Erased | Programmed(data: seq<uint8>)

  type Flash = map<nat, Page>

  /** What makes the driver call the panic handler, plus a `memcpy` past the
      end of the sector buffer (undefined behaviour in the source). */
  datatype Fault = BadAddress | Misaligned | NonPositiveLength | BufferOverflow

  function PageAt(f: Flash, k: nat): Page {
    if k in f then f[k] else Erased
  }

  predicate PageErased(f: Flash, k: nat) {
    PageAt(f, k).Erased?
  }

  function PageByte(p: Page, j: nat): uint8 {
    match p
    case Erased => ERASED_BYTE
    case Programmed(d) => if j < |d| then d[j] else ERASED_BYTE
  }

  /** The byte the driver reports for address `a`. */
  function ByteAt(f: Flash, a: nat): uint8 {
    PageByte(PageAt(f, a / PAGE), a % PAGE)
  }

  // ---------------------------------------------------------------------
  // Alignment (GET_PAGE_ADDR, GET_WORDLINE_ADDR, GET_SECTOR_ADDR)
  // ---------------------------------------------------------------------

  lemma Geometry()
    ensures Pow2(5) == PAGE && Pow2(8) == BURST && Pow2(10) == WORDLINE && Pow2(14) == SECTOR
  {
    assert Pow2(1) == 2;
    assert Pow2(2) == 4;
    assert Pow2(3) == 8;
    assert Pow2(4) == 16;
    assert Pow2(5) == 32;
    assert Pow2(6) == 64;
    assert Pow2(7) == 128;
    assert Pow2(8) == 256;
    assert Pow2(9) == 512;
    assert Pow2(10) == 1024;
    assert Pow2(11) == 2048;
    assert Pow2(12) == 4096;
    assert Pow2(13) == 8192;
  }

  function PageAddr(addr: nat): (r: nat)
    ensures r % PAGE == 0 && r <= addr && addr - r < PAGE
  {
    Geometry();
    AlignDownPow2(addr, 5)
  }

  function WordlineAddr(addr: nat): (r: nat)
    ensures r % WORDLINE == 0 && r <= addr && addr - r < WORDLINE
  {
    Geometry();
    AlignDownPow2(addr, 10)
  }

  function SectorAddr(addr: nat): (r: nat)
    ensures r % SECTOR == 0 && r <= addr && addr - r < SECTOR
  {
    Geometry();
    AlignDownPow2(addr, 14)
  }

  /** GET_PAGE_ADDR, GET_WORDLINE_ADDR and GET_SECTOR_ADDR give the largest
      aligned address at or below `addr`. */
  lemma AlignedAddrsLargest(addr: nat, n: nat)
    ensures n % PAGE == 0 && n <= addr ==> n <= PageAddr(addr)
    ensures n % WORDLINE == 0 && n <= addr ==> n <= WordlineAddr(addr)
    ensures n % SECTOR == 0 && n <= addr ==> n <= SectorAddr(addr)
  {
    if n % PAGE == 0 && n <= addr && n > PageAddr(addr) {
      MultiplesApart(PageAddr(addr), n, PAGE);
    }
    if n % WORDLINE == 0 && n <= addr && n > WordlineAddr(addr) {
      MultiplesApart(WordlineAddr(addr), n, WORDLINE);
    }
    if n % SECTOR == 0 && n <= addr && n > SectorAddr(addr) {
      MultiplesApart(SectorAddr(addr), n, SECTOR);
    }
  }

  /** Multiples of a larger geometry unit are multiples of the page. */
  lemma Nested(x: nat, q: nat)
    requires q > 0 && x % (q * PAGE) == 0
    ensures x % PAGE == 0 && (x / PAGE) % q == 0 && x / PAGE == (x / (q * PAGE)) * q
  {
    var n := x / (q * PAGE);
    DivModBasics(x, q * PAGE);
    assert x == (n * q) * PAGE;
    DivModUnique(x, PAGE, n * q, 0);
    DivModUnique(n * q, q, n, 0);
  }

  // ---------------------------------------------------------------------
  // Bank classification (getFlashTypeFromAddr)
  // ---------------------------------------------------------------------

  datatype FlashType = D0 | P0 | P1

  /** Inclusive bounds of the data flash and the two program-flash banks
      (IFXFLASH_*_START / IFXFLASH_*_END). */
  datatype Banks = Banks(dStart: nat, dEnd: nat, p0Start: nat, p0End: nat, p1Start: nat, p1End: nat)

  predicate InBank(b: Banks, t: FlashType, addr: nat) {
    match t
    case D0 => b.dStart <= addr <= b.dEnd
    case P0 => b.p0Start <= addr <= b.p0End
    case P1 => b.p1Start <= addr <= b.p1End
  }

  ghost predicate BanksDisjoint(b: Banks) {
    forall a: nat, t: FlashType, u: FlashType :: InBank(b, t, a) && InBank(b, u, a) ==> t == u
  }

  /** The bank holding `addr`, checked D-flash first, then P0, then P1; any
      other address is the panic. */
  function GetFlashType(b: Banks, addr: nat): (r: Result<FlashType, Fault>)
    ensures r.Ok? ==> InBank(b, r.value, addr)
    ensures r.Err? <==> !InBank(b, D0, addr) && !InBank(b, P0, addr) && !InBank(b, P1, addr)
    ensures r.Err? ==> r.error == BadAddress
    ensures r.Ok? && r.value != D0 ==> !InBank(b, D0, addr)
    ensures r == Ok(P1) ==> !InBank(b, P0, addr)
  {
    if b.dStart <= addr <= b.dEnd then Ok(D0)
    else if b.p0Start <= addr <= b.p0End then Ok(P0)
    else if b.p1Start <= addr <= b.p1End then Ok(P1)
    else Err(BadAddress)
  }

  /** With disjoint banks the order of the checks does not matter: the
      classification is exactly bank membership. */
  lemma ClassifyIsMembership(b: Banks, t: FlashType, addr: nat)
    requires BanksDisjoint(b)
    ensures GetFlashType(b, addr) == Ok(t) <==> InBank(b, t, addr)
  {
    var r := GetFlashType(b, addr);
    if InBank(b, t, addr) {
      assert r.Ok?;
      assert InBank(b, r.value, addr);
    }
  }

  // ---------------------------------------------------------------------
  // Erase verification (flashIsErased, containsErasedPage)
  // ---------------------------------------------------------------------

  /** Every page with index in [lo, hi) is erased. */
  predicate PagesErased(f: Flash, lo: nat, hi: nat) {
    forall k: nat :: lo <= k < hi ==> PageErased(f, k)
  }

  datatype VerifyUnit = SectorUnit | WordlineUnit | PageUnit

  function UnitSize(u: VerifyUnit): nat {
    match u
    case SectorUnit => SECTOR
    case WordlineUnit => WORDLINE
    case PageUnit => PAGE
  }

  function UnitBase(u: VerifyUnit, addr: nat): nat {
    match u
    case SectorUnit => SectorAddr(addr)
    case WordlineUnit => WordlineAddr(addr)
    case PageUnit => PageAddr(addr)
  }

  /** The hardware erase-verify of the unit at `base`: no page in it is
      programmed. */
  predicate UnitErased(f: Flash, u: VerifyUnit, base: nat) {
    PagesErased(f, base / PAGE, base / PAGE + UnitSize(u) / PAGE)
  }

  /** Erase state of the page, wordline or sector containing `address`,
      chosen by `len`; a non-positive length is the panic. */
  function FlashIsErased(f: Flash, address: nat, len: int): (r: Result<bool, Fault>)
    ensures r.Err? <==> len <= 0
    ensures r.Err? ==> r.error == NonPositiveLength
    ensures 0 < len <= PAGE ==> r == Ok(PageErased(f, address / PAGE))
    ensures PAGE < len <= WORDLINE ==> r == Ok(UnitErased(f, WordlineUnit, WordlineAddr(address)))
    ensures WORDLINE < len ==> r == Ok(UnitErased(f, SectorUnit, SectorAddr(address)))
  {
    var u := if len > WORDLINE then SectorUnit else if len > PAGE then WordlineUnit else PageUnit;
    if len <= 0 then Err(NonPositiveLength)
    else
      var base := UnitBase(u, address);
      AlignedBelow(address, PageAddr(address), PAGE);
      Ok(UnitErased(f, u, base))
  }

  /** The pages of a unit of `q` pages at `base` are the indices
      [base / PAGE, base / PAGE + q), and they hold every address of the unit. */
  lemma UnitPages(addr: nat, base: nat, q: nat)
    requires q > 0 && base % PAGE == 0 && base <= addr < base + q * PAGE
    ensures base / PAGE <= addr / PAGE < base / PAGE + q
    ensures (base + q * PAGE) / PAGE == base / PAGE + q
  {
    DivMonotone(base, addr, PAGE);
    DivModBasics(base, PAGE);
    DivModUnique(base + q * PAGE, PAGE, base / PAGE + q, 0);
    DivMonotone(addr, base + q * PAGE, PAGE);
    if addr / PAGE == base / PAGE + q {
      DivModBasics(addr, PAGE);
      assert false;
    }
  }

  /** The wordline of an address lies inside its sector, and its page
      inside its wordline. */
  lemma UnitsNest(address: nat)
    ensures SectorAddr(address) <= WordlineAddr(address) <= PageAddr(address)
    ensures WordlineAddr(address) + WORDLINE <= SectorAddr(address) + SECTOR
    ensures PageAddr(address) + PAGE <= WordlineAddr(address) + WORDLINE
  {
    WordlineInSector(address, SectorAddr(address), WordlineAddr(address));
    PageInWordline(address, WordlineAddr(address), PageAddr(address));
  }

  /** The wordline half of `UnitsNest`. */
  lemma WordlineInSector(address: nat, s: nat, w: nat)
    requires s == SectorAddr(address) && w == WordlineAddr(address)
    ensures s <= w && w + WORDLINE <= s + SECTOR
  {
    DivModBasics(s, SECTOR);
    DivModUnique(s, WORDLINE, (s / SECTOR) * 16, 0);
    DivModUnique(s + SECTOR, WORDLINE, (s / SECTOR) * 16 + 16, 0);
    MultiplesApart(w, s + SECTOR, WORDLINE);
  }

  /** The page half of `UnitsNest`. */
  lemma PageInWordline(address: nat, w: nat, p: nat)
    requires w == WordlineAddr(address) && p == PageAddr(address)
    ensures w <= p && p + PAGE <= w + WORDLINE
  {
    DivModBasics(w, WORDLINE);
    DivModUnique(w, PAGE, (w / WORDLINE) * 32, 0);
    DivModUnique(w + WORDLINE, PAGE, (w / WORDLINE) * 32 + 32, 0);
    if p >= w + WORDLINE {
      assert false;
    }
    MultiplesApart(p, w + WORDLINE, PAGE);
  }

  /** A coarser verification that passes implies every finer one over the
      same address passes: sector, then wordline, then page. */
  lemma VerifyRefines(f: Flash, address: nat, coarse: int, fine: int)
    requires 0 < fine <= coarse
    requires FlashIsErased(f, address, coarse) == Ok(true)
    ensures FlashIsErased(f, address, fine) == Ok(true)
  {
    var s, w, p := SectorAddr(address), WordlineAddr(address), PageAddr(address);
    UnitsNest(address);
    Nested(s, PAGES_PER_SECTOR);
    Nested(w, WORDLINE / PAGE);
    UnitPages(address, s, PAGES_PER_SECTOR);
    UnitPages(address, w, WORDLINE / PAGE);
    UnitPages(w, s, PAGES_PER_SECTOR);
    DivMonotone(w + WORDLINE, s + SECTOR, PAGE);
  }

  /** Index of the last page touched by `size` bytes at `address`, computed
      as GET_PAGE_ADDR(address + size - 1) / PAGE. For `size == 0` this is the
      page before `address` when it is page-aligned and its own page
      otherwise, as in the source. */
  function LastPage(address: nat, size: nat): int {
    (address + size - 1) / PAGE
  }

  /** Whether some page spanned by `[address, address + len)` is erased, by
      page-sized verifies in ascending order with an early exit. */
  method ContainsErasedPage(f: Flash, address: nat, len: nat) returns (r: bool, checked: seq<nat>)
    ensures r <==> exists k: nat :: address / PAGE <= k <= LastPage(address, len) && PageErased(f, k)
    ensures forall i :: 0 <= i < |checked| ==> checked[i] == (address / PAGE + i) * PAGE
  {
    var page := PageAddr(address);
    var endPage := PageAddr(if address + len >= 1 then address + len - 1 else 0);
    PageOf(address);
    checked := [];
    if address + len == 0 {
      // GET_PAGE_ADDR(0 - 1) wraps in 32 bits; the model stops instead.
      return false, [];
    }
    PageOf(address + len - 1);
    while page <= endPage
      invariant page % PAGE == 0 && page / PAGE == address / PAGE + |checked|
      invariant page <= endPage + PAGE
      invariant ConsecutivePages(checked, address / PAGE)
      invariant NoneErased(f, address / PAGE, page / PAGE)
      decreases endPage + PAGE - page
    {
      NextPage(page);
      var e := FlashIsErased(f, page, PAGE);
      assert e.value == PageErased(f, page / PAGE);
      ConsecutivePagesAppend(checked, address / PAGE, page);
      checked := checked + [page];
      if e.value {
        return true, checked;
      }
      NoneErasedExtend(f, address / PAGE, page / PAGE);
      page := page + PAGE;
    }
    LoopEnd(endPage, page);
    return false, checked;
  }

  /** No page with index in `[lo, hi)` is erased. */
  predicate NoneErased(f: Flash, lo: nat, hi: nat) {
    forall k: nat :: lo <= k < hi ==> !PageErased(f, k)
  }

  lemma NoneErasedExtend(f: Flash, lo: nat, hi: nat)
    requires NoneErased(f, lo, hi) && !PageErased(f, hi)
    ensures NoneErased(f, lo, hi + 1)
  {
  }

  /** GET_PAGE_ADDR keeps the page index. */
  lemma PageOf(addr: nat)
    ensures PageAddr(addr) / PAGE == addr / PAGE && PageAddr(addr) == (addr / PAGE) * PAGE
  {
    AlignedBelow(addr, PageAddr(addr), PAGE);
    DivModUnique(PageAddr(addr), PAGE, addr / PAGE, 0);
  }

  /** A page loop that steps past `endPage` stops at the page after it. */
  lemma LoopEnd(endPage: nat, page: nat)
    requires endPage % PAGE == 0 && page % PAGE == 0 && endPage < page <= endPage + PAGE
    ensures page / PAGE == endPage / PAGE + 1
  {
    MultiplesApart(endPage, page, PAGE);
    NextPage(endPage);
  }

  // ---------------------------------------------------------------------
  // Programming (programPage, programBytesToErasedFlash)
  // ---------------------------------------------------------------------

  /** Programs one page. Misalignment is the panic; programming a page that
      is not erased is outside what the device allows, so it is demanded. */
  function ProgramPage(f: Flash, address: nat, buf: seq<uint8>): (r: Result<Flash, Fault>)
    requires |buf| == PAGE && PageErased(f, address / PAGE)
    ensures r.Err? <==> address % PAGE != 0
    ensures r.Err? ==> r.error == Misaligned
    ensures r.Ok? ==> PageAt(r.value, address / PAGE) == Programmed(buf)
    ensures r.Ok? ==> forall k: nat :: k != address / PAGE ==> PageAt(r.value, k) == PageAt(f, k)
  {
    if address % PAGE != 0 then Err(Misaligned)
    else Ok(f[address / PAGE := Programmed(buf)])
  }

  /** The bytes of the page buffer: `chunk` at `offset`, the erased byte
      elsewhere. */
  function Padded(offset: nat, chunk: seq<uint8>): (r: seq<uint8>)
    requires offset + |chunk| <= PAGE
    ensures |r| == PAGE
  {
    seq(PAGE, j requires 0 <= j < PAGE =>
      if offset <= j < offset + |chunk| then chunk[j - offset] else ERASED_BYTE)
  }

  /** The intended contents of page `k` after writing `data` at `address`
      over erased flash: the caller's bytes at their addresses, the erased
      byte elsewhere. */
  function PageImage(address: nat, data: seq<uint8>, k: nat): (r: seq<uint8>)
    ensures |r| == PAGE
  {
    seq(PAGE, j requires 0 <= j < PAGE =>
      var a := k * PAGE + j;
      if address <= a < address + |data| then data[a - address] else ERASED_BYTE)
  }

  /** The byte at `a` once `data` is written at `address`. */
  function Overlay(f: Flash, address: nat, data: seq<uint8>, a: nat): uint8 {
    if address <= a < address + |data| then data[a - address] else ByteAt(f, a)
  }

  /** `f2` is `f` with exactly the pages spanned by `data` programmed with
      their page images. */
  ghost predicate ProgrammedSpan(f: Flash, f2: Flash, address: nat, data: seq<uint8>) {
    forall k: nat :: PageAt(f2, k) == (
      if |data| > 0 && address / PAGE <= k <= LastPage(address, |data|)
      then Programmed(PageImage(address, data, k))
      else PageAt(f, k))
  }

  lemma AlignedPredecessor(addr: nat)
    requires addr % PAGE == 0 && addr > 0
    ensures (addr - 1) / PAGE == addr / PAGE - 1
  {
    DivModBasics(addr, PAGE);
    InUnit(addr - PAGE, PAGE - 1, PAGE);
    DivModUnique(addr - PAGE, PAGE, addr / PAGE - 1, 0);
  }

  /** Page addresses of consecutive pages from index `lo`. */
  predicate ConsecutivePages(addrs: seq<nat>, lo: nat) {
    forall i :: 0 <= i < |addrs| ==> addrs[i] == (lo + i) * PAGE
  }

  lemma ConsecutivePagesAppend(addrs: seq<nat>, lo: nat, next: nat)
    requires ConsecutivePages(addrs, lo) && next == (lo + |addrs|) * PAGE
    ensures ConsecutivePages(addrs + [next], lo)
  {
  }

  /** The first `n` pages from index `lo` hold their page images; the rest of
      the flash is as in `f`. */
  ghost predicate FirstPagesProgrammed(f: Flash, f2: Flash, address: nat, data: seq<uint8>, lo: nat, n: nat) {
    forall k: nat :: PageAt(f2, k) == (
      if lo <= k < lo + n then Programmed(PageImage(address, data, k)) else PageAt(f, k))
  }

  lemma ProgrammedOneMore(f: Flash, f2: Flash, address: nat, data: seq<uint8>, lo: nat, n: nat,
                          pageAddress: nat, buf: seq<uint8>)
    requires FirstPagesProgrammed(f, f2, address, data, lo, n)
    requires pageAddress % PAGE == 0 && pageAddress / PAGE == lo + n
    requires PageErased(f2, lo + n) && buf == PageImage(address, data, lo + n)
    ensures ProgramPage(f2, pageAddress, buf).Ok?
    ensures FirstPagesProgrammed(f, ProgramPage(f2, pageAddress, buf).value, address, data, lo, n + 1)
  {
    var f3 := ProgramPage(f2, pageAddress, buf).value;
    assert forall k: nat :: k != lo + n ==> PageAt(f3, k) == PageAt(f2, k);
  }

  /** The page arithmetic of one iteration of programBytesToErasedFlash, at
      byte `pos` of `len` after `n` pages: the iteration writes page
      `address / PAGE + n`, which the span covers, and leaves the loop state
      for the next one. */
  lemma PageStep(address: nat, len: nat, pos: nat, n: nat, toWrite: nat)
    requires pos < len
    requires 0 < pos ==> (address + pos) % PAGE == 0
    requires pos == 0 ==> n == 0
    requires pos > 0 ==> (address + pos - 1) / PAGE == address / PAGE + n - 1
    requires toWrite == if PAGE - (address + pos) % PAGE > len - pos then len - pos else PAGE - (address + pos) % PAGE
    ensures var pk := (address + pos) / PAGE;
      && pk == address / PAGE + n && PageAddr(address + pos) == pk * PAGE
      && PageAddr(address + pos) / PAGE == pk && PageAddr(address + pos) % PAGE == 0
      && address / PAGE <= pk <= LastPage(address, len)
      && pk * PAGE + (address + pos) % PAGE == address + pos
      && (address + pos + toWrite - 1) / PAGE == pk
      && (pos + toWrite < len ==> (address + pos + toWrite) % PAGE == 0)
  {
    var addr := address + pos;
    if pos > 0 {
      AlignedPredecessor(addr);
    }
    DivMonotone(addr, address + len - 1, PAGE);
    PageSpan(addr, toWrite);
  }

  /** A write of `toWrite` bytes from `addr` that stays inside its page. */
  lemma PageSpan(addr: nat, toWrite: nat)
    requires 0 < toWrite <= PAGE - addr % PAGE
    ensures var pk := addr / PAGE;
      && PageAddr(addr) == pk * PAGE && PageAddr(addr) / PAGE == pk && PageAddr(addr) % PAGE == 0
      && pk * PAGE + addr % PAGE == addr
      && (addr + toWrite - 1) / PAGE == pk
      && (addr % PAGE + toWrite == PAGE ==> (addr + toWrite) % PAGE == 0)
  {
    var pageAddress := PageAddr(addr);
    var offset := addr % PAGE;
    var pk := addr / PAGE;
    PageOf(addr);
    DivModBasics(addr, PAGE);
    InUnit(pageAddress, offset + toWrite - 1, PAGE);
    if offset + toWrite == PAGE {
      DivModUnique(pageAddress + PAGE, PAGE, pk + 1, 0);
    }
  }

  /** One iteration's page buffer is the page image of the page it writes. */
  lemma StepImage(address: nat, data: seq<uint8>, pos: nat, pk: nat, offset: nat, toWrite: nat)
    requires pk * PAGE + offset == address + pos && offset < PAGE
    requires 0 < toWrite && offset + toWrite <= PAGE && pos + toWrite <= |data|
    requires pos == 0 || offset == 0
    requires offset + toWrite == PAGE || pos + toWrite == |data|
    ensures Padded(offset, data[pos .. pos + toWrite]) == PageImage(address, data, pk)
  {
    var l, r := Padded(offset, data[pos .. pos + toWrite]), PageImage(address, data, pk);
    forall j | 0 <= j < PAGE
      ensures l[j] == r[j]
    {
      var a := pk * PAGE + j;
      if offset <= j < offset + toWrite {
        assert a - address == pos + (j - offset);
      }
    }
  }

  /** One iteration of the page loop: programs the page holding byte `pos`
      of `data` with as many bytes as fit in it. */
  method ProgramNextPage(f: Flash, f2: Flash, address: nat, data: seq<uint8>, pos: nat, n: nat)
    returns (f3: Flash, pageAddress: nat, toWrite: nat)
    requires forall k: nat :: address / PAGE <= k <= LastPage(address, |data|) ==> PageErased(f, k)
    requires pos < |data| && (0 < pos ==> (address + pos) % PAGE == 0)
    requires pos == 0 ==> n == 0
    requires pos > 0 ==> (address + pos - 1) / PAGE == address / PAGE + n - 1
    requires FirstPagesProgrammed(f, f2, address, data, address / PAGE, n)
    ensures 0 < toWrite <= |data| - pos
    ensures pageAddress == (address / PAGE + n) * PAGE
    ensures (address + pos + toWrite - 1) / PAGE == address / PAGE + n
    ensures pos + toWrite < |data| ==> (address + pos + toWrite) % PAGE == 0
    ensures FirstPagesProgrammed(f, f3, address, data, address / PAGE, n + 1)
  {
    var offset := (address + pos) % PAGE;
    pageAddress := PageAddr(address + pos);
    toWrite := PAGE - offset;
    if toWrite > |data| - pos {
      toWrite := |data| - pos;
    }
    NextPageFacts(address, data, pos, n, toWrite);
    NextPageErased(f, f2, address, data, n);
    var buf := Padded(offset, data[pos .. pos + toWrite]);
    ProgrammedOneMore(f, f2, address, data, address / PAGE, n, pageAddress, buf);
    var res := ProgramPage(f2, pageAddress, buf);
    f3 := res.value;
  }

  /** What one iteration of the page loop relies on: the page it programs
      is the next one, still erased, and its buffer is that page's image. */
  lemma NextPageFacts(address: nat, data: seq<uint8>, pos: nat, n: nat, toWrite: nat)
    requires pos < |data| && (0 < pos ==> (address + pos) % PAGE == 0)
    requires pos == 0 ==> n == 0
    requires pos > 0 ==> (address + pos - 1) / PAGE == address / PAGE + n - 1
    requires toWrite == if PAGE - (address + pos) % PAGE > |data| - pos then |data| - pos else PAGE - (address + pos) % PAGE
    ensures 0 < toWrite <= |data| - pos && (address + pos) % PAGE + toWrite <= PAGE
    ensures PageAddr(address + pos) == (address / PAGE + n) * PAGE
    ensures PageAddr(address + pos) / PAGE == address / PAGE + n && PageAddr(address + pos) % PAGE == 0
    ensures (address + pos + toWrite - 1) / PAGE == address / PAGE + n
    ensures pos + toWrite < |data| ==> (address + pos + toWrite) % PAGE == 0
    ensures address / PAGE + n <= LastPage(address, |data|)
    ensures Padded((address + pos) % PAGE, data[pos .. pos + toWrite]) == PageImage(address, data, address / PAGE + n)
  {
    var addr := address + pos;
    var pk := addr / PAGE;
    PageStep(address, |data|, pos, n, toWrite);
    StepImage(address, data, pos, pk, addr % PAGE, toWrite);
  }

  /** The next page of the span is still erased when the loop reaches it. */
  lemma NextPageErased(f: Flash, f2: Flash, address: nat, data: seq<uint8>, n: nat)
    requires forall k: nat :: address / PAGE <= k <= LastPage(address, |data|) ==> PageErased(f, k)
    requires FirstPagesProgrammed(f, f2, address, data, address / PAGE, n)
    requires address / PAGE + n <= LastPage(address, |data|)
    ensures PageErased(f2, address / PAGE + n)
  {
    var pk := address / PAGE + n;
    assert PageErased(f, pk);
    assert PageAt(f2, pk) == PageAt(f, pk);
  }

  /** Writes `data` page by page over erased flash, padding each page buffer
      with the erased byte. `pageAddrs` and `chunks` record each
      `programPage` address and the number of caller bytes it consumed. */
  method ProgramBytesToErasedFlash(f: Flash, address: nat, data: seq<uint8>)
    returns (f2: Flash, pageAddrs: seq<nat>, chunks: seq<nat>)
    requires forall k: nat :: address / PAGE <= k <= LastPage(address, |data|) ==> PageErased(f, k)
    ensures |pageAddrs| == |chunks| && Sum(chunks) == |data|
    ensures forall i :: 0 <= i < |pageAddrs| ==> pageAddrs[i] == (address / PAGE + i) * PAGE
    ensures |data| > 0 ==> |pageAddrs| == LastPage(address, |data|) - address / PAGE + 1
    ensures |data| == 0 ==> pageAddrs == []
    ensures ProgrammedSpan(f, f2, address, data)
  {
    var lo := address / PAGE;
    var addr := address;
    var pos := 0;
    f2, pageAddrs, chunks := f, [], [];
    while pos < |data|
      invariant 0 <= pos <= |data| && addr == address + pos
      invariant 0 < pos < |data| ==> addr % PAGE == 0
      invariant Sum(chunks) == pos && |pageAddrs| == |chunks|
      invariant pos == 0 ==> pageAddrs == []
      invariant pos > 0 ==> (addr - 1) / PAGE == lo + |pageAddrs| - 1
      invariant ConsecutivePages(pageAddrs, lo)
      invariant FirstPagesProgrammed(f, f2, address, data, lo, |pageAddrs|)
    {
      var pageAddress, toWrite;
      f2, pageAddress, toWrite := ProgramNextPage(f, f2, address, data, pos, |pageAddrs|);
      ConsecutivePagesAppend(pageAddrs, lo, pageAddress);
      var written: seq<nat> := [pageAddress];
      pageAddrs := pageAddrs + written;
      SumAppend(chunks, toWrite);
      chunks := chunks + [toWrite];
      pos := pos + toWrite;
      addr := addr + toWrite;
    }
  }

  /** Over erased pages, the programmed span reads back as the overlay of
      `data` on the old contents. */
  lemma ProgrammedSpanReads(f: Flash, f2: Flash, address: nat, data: seq<uint8>, a: nat)
    requires forall k: nat :: address / PAGE <= k <= LastPage(address, |data|) ==> PageErased(f, k)
    requires ProgrammedSpan(f, f2, address, data)
    ensures ByteAt(f2, a) == Overlay(f, address, data, a)
  {
    var k := a / PAGE;
    DivModBasics(a, PAGE);
    if address <= a < address + |data| {
      DivMonotone(a, address + |data| - 1, PAGE);
      DivMonotone(address, a, PAGE);
    }
    if |data| > 0 && address / PAGE <= k <= LastPage(address, |data|) {
      var j := a % PAGE;
      assert k * PAGE + j == a;
      assert PageErased(f, k);
      assert ByteAt(f, a) == ERASED_BYTE;
      assert ByteAt(f2, a) == PageImage(address, data, k)[j];
    }
  }

  // ---------------------------------------------------------------------
  // Sector read-modify-write (cacheSector, programCachedSector)
  // ---------------------------------------------------------------------

  /** The bytes of a programmed page as read over the bus (readPage32). An
      erased page must never be read this way. */
  function ReadPage32(f: Flash, pageAddr: nat): (r: seq<uint8>)
    requires !PageErased(f, pageAddr / PAGE)
    ensures |r| == PAGE
  {
    seq(PAGE, j requires 0 <= j < PAGE => PageByte(PageAt(f, pageAddr / PAGE), j))
  }

  /** The logical contents of the sector at `sa`. */
  function SectorImage(f: Flash, sa: nat): (r: seq<uint8>)
    ensures |r| == SECTOR
  {
    seq(SECTOR, i requires 0 <= i < SECTOR => ByteAt(f, sa + i))
  }

  /** The page-sized slice `j` of a sector buffer. */
  function SectorSlice(buf: seq<uint8>, j: nat): seq<uint8>
    requires j < PAGES_PER_SECTOR && |buf| >= SECTOR
  {
    buf[j * PAGE .. j * PAGE + PAGE]
  }

  /** The page bounds of the sector at an aligned address. */
  lemma SectorPages(sa: nat)
    requires sa % SECTOR == 0
    ensures sa % PAGE == 0 && PageAddr(sa) == sa
    ensures PageAddr(sa + SECTOR - 1) == sa + SECTOR - PAGE
    ensures (sa + SECTOR) / PAGE == sa / PAGE + PAGES_PER_SECTOR
    ensures sa == (sa / PAGE) * PAGE
    ensures SectorAddr(sa) == sa
  {
    SectorStart(sa);
    SectorEnd(sa);
  }

  lemma SectorStart(sa: nat)
    requires sa % SECTOR == 0
    ensures sa % PAGE == 0 && PageAddr(sa) == sa && sa == (sa / PAGE) * PAGE
    ensures SectorAddr(sa) == sa
  {
    AlignedBelow(sa, SectorAddr(sa), SECTOR);
    DivModBasics(sa, SECTOR);
    Nested(sa, PAGES_PER_SECTOR);
    DivModBasics(sa, PAGE);
    AlignedBelow(sa, PageAddr(sa), PAGE);
  }

  lemma SectorEnd(sa: nat)
    requires sa % PAGE == 0 && sa == (sa / PAGE) * PAGE
    ensures PageAddr(sa + SECTOR - 1) == sa + SECTOR - PAGE
    ensures (sa + SECTOR) / PAGE == sa / PAGE + PAGES_PER_SECTOR
  {
    var e := sa + SECTOR - PAGE;
    DivModUnique(e, PAGE, sa / PAGE + PAGES_PER_SECTOR - 1, 0);
    AlignedBelow(sa + SECTOR - 1, e, PAGE);
    AlignedBelow(sa + SECTOR - 1, PageAddr(sa + SECTOR - 1), PAGE);
    DivModUnique(sa + SECTOR, PAGE, sa / PAGE + PAGES_PER_SECTOR, 0);
  }

  /** The buffer `page` cacheSector stores for one page: the erased byte
      throughout if the page verifies erased, its bus contents otherwise. */
  function CachedPage(f: Flash, page: nat): (r: seq<uint8>)
    requires page % PAGE == 0
    ensures |r| == PAGE
    ensures forall j :: 0 <= j < PAGE ==> r[j] == ByteAt(f, page + j)
  {
    var erased := FlashIsErased(f, page, PAGE);
    InUnit(page, 0, PAGE);
    var r := if erased.value then seq(PAGE, _ => ERASED_BYTE) else ReadPage32(f, page);
    assert forall j :: 0 <= j < PAGE ==> r[j] == ByteAt(f, page + j) by {
      forall j | 0 <= j < PAGE
        ensures r[j] == ByteAt(f, page + j)
      {
        InUnit(page, j, PAGE);
      }
    }
    r
  }

  /** Appending the next page keeps the cache equal to a prefix of the
      sector's logical contents. */
  lemma CacheGrows(f: Flash, sa: nat, buf: seq<uint8>, page: nat)
    requires page % PAGE == 0 && sa <= page && |buf| == page - sa && ReadsBack(f, sa, buf)
    ensures |buf + CachedPage(f, page)| == page + PAGE - sa
    ensures ReadsBack(f, sa, buf + CachedPage(f, page))
  {
    var c := CachedPage(f, page);
    var b := buf + c;
    forall i | 0 <= i < |b|
      ensures b[i] == ByteAt(f, sa + i)
    {
      if i < |buf| {
        assert b[i] == buf[i];
      } else {
        assert b[i] == c[i - |buf|];
        assert sa + i == page + (i - |buf|);
      }
    }
  }

  /** The page after an aligned page address. */
  lemma NextPage(page: nat)
    requires page % PAGE == 0
    ensures (page / PAGE) * PAGE == page
    ensures (page + PAGE) % PAGE == 0 && (page + PAGE) / PAGE == page / PAGE + 1
  {
    DivModBasics(page, PAGE);
    DivModUnique(page + PAGE, PAGE, page / PAGE + 1, 0);
  }

  /** Reads the sector at `sectorAddress` into RAM page by page: a page that
      verifies erased is filled with the erased byte, any other page is read
      over the bus. `busReads` lists the page addresses read over the bus. */
  method CacheSector(f: Flash, sectorAddress: nat) returns (buf: seq<uint8>, busReads: seq<nat>)
    requires sectorAddress % SECTOR == 0
    ensures buf == SectorImage(f, sectorAddress)
    ensures forall i :: 0 <= i < |busReads| ==> !PageErased(f, busReads[i] / PAGE)
    ensures forall k: nat :: (sectorAddress / PAGE <= k < sectorAddress / PAGE + PAGES_PER_SECTOR && !PageErased(f, k)
      ==> k * PAGE in busReads)
  {
    SectorPages(sectorAddress);
    buf, busReads := CachePages(f, PageAddr(sectorAddress), PageAddr(sectorAddress + SECTOR - 1));
    IsSectorImage(f, sectorAddress, buf);
  }

  lemma IsSectorImage(f: Flash, sa: nat, buf: seq<uint8>)
    requires |buf| == SECTOR && forall i :: 0 <= i < |buf| ==> buf[i] == ByteAt(f, sa + i)
    ensures buf == SectorImage(f, sa)
  {
  }

  /** The page loop of `CacheSector`, from page address `first` through
      page address `last`. */
  method CachePages(f: Flash, first: nat, last: nat) returns (buf: seq<uint8>, busReads: seq<nat>)
    requires first % PAGE == 0 && last % PAGE == 0 && first <= last
    ensures |buf| == last + PAGE - first
    ensures forall i :: 0 <= i < |buf| ==> buf[i] == ByteAt(f, first + i)
    ensures forall i :: 0 <= i < |busReads| ==> !PageErased(f, busReads[i] / PAGE)
    ensures forall k: nat :: (first / PAGE <= k < (last + PAGE) / PAGE && !PageErased(f, k) ==> k * PAGE in busReads)
  {
    var page := first;
    buf, busReads := [], [];
    while page <= last
      invariant first <= page <= last + PAGE && page % PAGE == 0
      invariant |buf| == page - first && ReadsBack(f, first, buf) && BusPages(f, busReads)
      invariant forall k: nat :: (first / PAGE <= k < page / PAGE && !PageErased(f, k) ==> k * PAGE in busReads)
      decreases last + PAGE - page
    {
      NextPage(page);
      if !PageErased(f, page / PAGE) {
        busReads := busReads + [page];
      }
      CacheGrows(f, first, buf, page);
      buf := buf + CachedPage(f, page);
      page := page + PAGE;
    }
    MultiplesApart(last, page, PAGE);
  }

  /** Programs consecutive erased pages from index `first`, one page-sized
      slice of `data` each. */
  function ProgramRun(f: Flash, first: nat, data: seq<uint8>): (r: Flash)
    requires |data| % PAGE == 0
    requires PagesErased(f, first, first + |data| / PAGE)
    ensures forall k: nat :: PageAt(r, k) == (
              if first <= k < first + |data| / PAGE
              then Programmed(data[(k - first) * PAGE .. (k - first) * PAGE + PAGE])
              else PageAt(f, k))
    decreases |data|
  {
    if |data| == 0 then f
    else
      DivModUnique(|data|, PAGE, |data| / PAGE, 0);
      DivModUnique(|data| - PAGE, PAGE, |data| / PAGE - 1, 0);
      var f1 := f[first := Programmed(data[..PAGE])];
      assert PagesErased(f1, first + 1, first + |data| / PAGE) by {
        forall k: nat | first + 1 <= k < first + |data| / PAGE
          ensures PageErased(f1, k)
        {
          assert PageErased(f, k);
          assert PageAt(f1, k) == PageAt(f, k);
        }
      }
      var r := ProgramRun(f1, first + 1, data[PAGE..]);
      assert forall k: nat | first + 1 <= k < first + |data| / PAGE ::
        PageAt(r, k) == Programmed(data[(k - first) * PAGE .. (k - first) * PAGE + PAGE]) by {
        forall k: nat | first + 1 <= k < first + |data| / PAGE
          ensures PageAt(r, k) == Programmed(data[(k - first) * PAGE .. (k - first) * PAGE + PAGE])
        {
          assert data[PAGE..][(k - (first + 1)) * PAGE .. (k - (first + 1)) * PAGE + PAGE]
            == data[(k - first) * PAGE .. (k - first) * PAGE + PAGE];
        }
      }
      r
  }

  /** One burst write: eight consecutive erased pages programmed at once. */
  function WriteBurst(f: Flash, address: nat, data: seq<uint8>): (r: Flash)
    requires |data| == BURST && address % PAGE == 0
    requires PagesErased(f, address / PAGE, address / PAGE + PAGES_PER_BURST)
    ensures forall k: nat :: PageAt(r, k) == (
              if address / PAGE <= k < address / PAGE + PAGES_PER_BURST
              then Programmed(data[(k - address / PAGE) * PAGE .. (k - address / PAGE) * PAGE + PAGE])
              else PageAt(f, k))
  {
    ProgramRun(f, address / PAGE, data)
  }

  /** The 32-bit word `w` of the sector buffer, as its four bytes. */
  function Word(buf: seq<uint8>, w: nat): seq<uint8>
    requires 4 * w + 4 <= |buf|
  {
    buf[4 * w .. 4 * w + 4]
  }

  /** Loading the next pair of words extends the burst by eight bytes. */
  lemma BurstGrows(buf: seq<uint8>, i: nat, offset: nat)
    requires i * BURST + offset * 8 + 8 <= |buf|
    ensures var w := i * (BURST / 4) + offset * 2;
      buf[i * BURST .. i * BURST + (offset + 1) * 8]
      == buf[i * BURST .. i * BURST + offset * 8] + Word(buf, w) + Word(buf, w + 1)
  {
    var a := i * BURST;
    var w := i * (BURST / 4) + offset * 2;
    assert 4 * w == a + offset * 8;
    SliceSplit(buf, a, a + offset * 8, a + offset * 8 + 4, a + offset * 8 + 8);
  }

  lemma SliceSplit<T>(s: seq<T>, a: nat, b: nat, c: nat, d: nat)
    requires a <= b <= c <= d <= |s|
    ensures s[a..d] == s[a..b] + s[b..c] + s[c..d]
  {
    var l := s[a..b] + s[b..c] + s[c..d];
    assert |l| == d - a;
    forall x | 0 <= x < d - a
      ensures s[a..d][x] == l[x]
    {
      if x < b - a {
      } else if x < c - a {
        assert l[x] == s[b..c][x - (b - a)];
      } else {
        assert l[x] == s[c..d][x - (c - a)];
      }
    }
  }

  /** Page `j` of burst `i` is page `8 i + j` of the sector buffer. */
  lemma BurstSlice(buf: seq<uint8>, i: nat, j: nat)
    requires i < SECTOR / BURST && j < PAGES_PER_BURST && |buf| >= SECTOR
    ensures buf[i * BURST .. i * BURST + BURST][j * PAGE .. j * PAGE + PAGE]
      == SectorSlice(buf, i * PAGES_PER_BURST + j)
  {
    var a := i * BURST;
    var b := j * PAGE;
    assert (i * PAGES_PER_BURST + j) * PAGE == a + b;
    assert b + PAGE <= BURST && a + BURST <= SECTOR;
    var inner := buf[a .. a + BURST];
    var page := inner[b .. b + PAGE];
    var direct := buf[a + b .. a + b + PAGE];
    forall x | 0 <= x < PAGE ensures page[x] == direct[x] {
      assert inner[b + x] == buf[a + b + x];
    }
    assert page == direct;
  }

  /** The inner loop of programCachedSector: loads burst `i` as 32 pairs of
      buffer words. `loaded` is the order the words are loaded. */
  method LoadBurst(buf: seq<uint8>, i: nat) returns (burst: seq<uint8>, loaded: seq<int>)
    requires i < SECTOR / BURST && |buf| >= SECTOR
    ensures burst == buf[i * BURST .. i * BURST + BURST]
    ensures loaded == Range(i * (BURST / 4), (i + 1) * (BURST / 4))
  {
    burst, loaded := [], [];
    var offset := 0;
    while offset < BURST / 8
      invariant 0 <= offset <= BURST / 8
      invariant burst == buf[i * BURST .. i * BURST + offset * 8]
      invariant |loaded| == offset * 2
      invariant forall x :: 0 <= x < |loaded| ==> loaded[x] == i * (BURST / 4) + x
    {
      var bufferIndex := i * (BURST / 4) + offset * 2;
      BurstGrows(buf, i, offset);
      burst := burst + Word(buf, bufferIndex) + Word(buf, bufferIndex + 1);
      loaded := loaded + [bufferIndex, bufferIndex + 1];
      offset := offset + 1;
    }
  }

  lemma RangeConcat(lo: int, mid: int, hi: int)
    requires lo <= mid <= hi
    ensures Range(lo, mid) + Range(mid, hi) == Range(lo, hi)
  {
    var l, r := Range(lo, mid) + Range(mid, hi), Range(lo, hi);
    assert |l| == |r|;
    forall x | 0 <= x < |l|
      ensures l[x] == r[x]
    {
      if x >= mid - lo {
        assert l[x] == Range(mid, hi)[x - (mid - lo)];
      }
    }
  }

  /** `f2` is `f` with the first `n` pages of the sector at page `base`
      programmed from `buf`. */
  ghost predicate SectorProgrammedUpTo(f: Flash, f2: Flash, buf: seq<uint8>, base: nat, n: nat)
    requires |buf| >= SECTOR && n <= PAGES_PER_SECTOR
  {
    forall k: nat :: PageAt(f2, k) == (
      if base <= k < base + n then Programmed(SectorSlice(buf, k - base)) else PageAt(f, k))
  }

  lemma BurstStillErased(f: Flash, f2: Flash, buf: seq<uint8>, base: nat, i: nat)
    requires |buf| >= SECTOR && i < SECTOR / BURST
    requires PagesErased(f, base, base + PAGES_PER_SECTOR)
    requires SectorProgrammedUpTo(f, f2, buf, base, i * PAGES_PER_BURST)
    ensures PagesErased(f2, base + i * PAGES_PER_BURST, base + i * PAGES_PER_BURST + PAGES_PER_BURST)
  {
    var pb := base + i * PAGES_PER_BURST;
    forall k: nat | pb <= k < pb + PAGES_PER_BURST
      ensures PageErased(f2, k)
    {
      assert PageAt(f2, k) == PageAt(f, k);
      assert PageErased(f, k);
    }
  }

  lemma BurstStep(f: Flash, f2: Flash, f3: Flash, buf: seq<uint8>, base: nat, i: nat)
    requires |buf| >= SECTOR && i < SECTOR / BURST
    requires SectorProgrammedUpTo(f, f2, buf, base, i * PAGES_PER_BURST)
    requires var pb := base + i * PAGES_PER_BURST; var burst := buf[i * BURST .. i * BURST + BURST];
      forall k: nat :: PageAt(f3, k) == (
        if pb <= k < pb + PAGES_PER_BURST
        then Programmed(burst[(k - pb) * PAGE .. (k - pb) * PAGE + PAGE])
        else PageAt(f2, k))
    ensures SectorProgrammedUpTo(f, f3, buf, base, (i + 1) * PAGES_PER_BURST)
  {
    var pb := base + i * PAGES_PER_BURST;
    forall k: nat
      ensures PageAt(f3, k) == (
        if base <= k < base + (i + 1) * PAGES_PER_BURST then Programmed(SectorSlice(buf, k - base)) else PageAt(f, k))
    {
      if pb <= k < pb + PAGES_PER_BURST {
        BurstSlice(buf, i, k - pb);
      }
    }
  }

  /** Programs the first SECTOR bytes of the sector buffer into the erased
      sector at `sectorAddress`, one burst at a time, loading the buffer as
      pairs of 32-bit words. `words` is the order the buffer words are loaded. */
  method ProgramCachedSector(f: Flash, sectorAddress: nat, buf: seq<uint8>) returns (f2: Flash, words: seq<int>)
    requires sectorAddress % SECTOR == 0 && |buf| >= SECTOR
    requires PagesErased(f, sectorAddress / PAGE, sectorAddress / PAGE + PAGES_PER_SECTOR)
    ensures words == Range(0, SECTOR / 4)
    ensures forall k: nat :: PageAt(f2, k) == (
              if sectorAddress / PAGE <= k < sectorAddress / PAGE + PAGES_PER_SECTOR
              then Programmed(SectorSlice(buf, k - sectorAddress / PAGE))
              else PageAt(f, k))
  {
    SectorPages(sectorAddress);
    var base := sectorAddress / PAGE;
    var pageAddr := sectorAddress;
    f2, words := f, [];
    var i := 0;
    while i < SECTOR / BURST
      invariant 0 <= i <= SECTOR / BURST && pageAddr == sectorAddress + i * BURST
      invariant words == Range(0, i * (BURST / 4))
      invariant SectorProgrammedUpTo(f, f2, buf, base, i * PAGES_PER_BURST)
    {
      var burst, loaded := LoadBurst(buf, i);
      RangeConcat(0, i * (BURST / 4), (i + 1) * (BURST / 4));
      words := words + loaded;
      var pb := base + i * PAGES_PER_BURST;
      DivModUnique(pageAddr, PAGE, pb, 0);
      BurstStillErased(f, f2, buf, base, i);
      var f3 := WriteBurst(f2, pageAddr, burst);
      BurstStep(f, f2, f3, buf, base, i);
      f2 := f3;
      pageAddr := pageAddr + BURST;
      i := i + 1;
    }
  }

  // ---------------------------------------------------------------------
  // Erase (hal_flash_erase)
  // ---------------------------------------------------------------------

  /** Removes every page of `n` sectors starting at sector index `first`. */
  function EraseSectors(f: Flash, first: nat, n: nat): (r: Flash)
    ensures forall k: nat :: PageAt(r, k) == (
              if first * PAGES_PER_SECTOR <= k < (first + n) * PAGES_PER_SECTOR then Erased else PageAt(f, k))
  {
    map k | k in f && !(first * PAGES_PER_SECTOR <= k < (first + n) * PAGES_PER_SECTOR) :: f[k]
  }

  /** How many sectors an erase of `len` bytes at `address` covers: as the
      source computes it (`1 + len / SECTOR`), or the sectors the byte range
      actually touches. */
  datatype EraseCount = AsWritten | Covering

  /** `len` is the C `int`: the source divides it with C's division, which
      truncates toward zero, and stores `1 + len / SECTOR` in a 32-bit
      `size_t`, so a length of `-2 * SECTOR` or below wraps to a huge count.
      The corrected count erases nothing for a length that is not positive. */
  function SectorCount(address: nat, len: int32, count: EraseCount): nat {
    if len == 0 then 0
    else match count
      case AsWritten => Wrap32(1 + CDiv(len, SECTOR))
      case Covering => if len < 0 then 0 else (address + len - 1) / SECTOR - address / SECTOR + 1
  }

  /** C's signed division by a positive divisor: rounds toward zero. */
  function CDiv(a: int, b: nat): (q: int)
    requires b > 0
    ensures a >= 0 ==> q == a / b
    ensures a < 0 ==> q == -((-a) / b)
  {
    if a >= 0 then a / b else -((-a) / b)
  }

  /** The lengths the source accepts as `int` but no caller means: a negative
      length above `-SECTOR` still erases one sector, and `-2 * SECTOR` wraps
      the count to 2^32 - 1 sectors. */
  lemma NegativeLengths(address: nat, len: int32)
    requires len < 0 && 0 < len + SECTOR
    ensures SectorCount(address, len, AsWritten) == 1
    ensures SectorCount(address, len, Covering) == 0
    ensures SectorCount(address, -2 * (SECTOR as int), AsWritten) == TWO_32 - 1
  {
    assert CDiv(len, SECTOR) == 0 by {
      assert 0 < -len < SECTOR;
      DivModUnique(-len, SECTOR, 0, -len);
    }
    assert CDiv(-2 * (SECTOR as int), SECTOR) == -2 by {
      DivModUnique(2 * SECTOR, SECTOR, 2, 0);
    }
  }

  /** The counts for one sector's length: two sectors as written, one from
      a sector boundary under the corrected count. */
  lemma SectorLengthCount(sa: nat)
    ensures SectorCount(sa, SECTOR, AsWritten) == 2
    ensures sa % SECTOR == 0 ==> SectorCount(sa, SECTOR, Covering) == 1
  {
    assert CDiv(SECTOR, SECTOR) == 1;
    if sa % SECTOR == 0 {
      DivModBasics(sa, SECTOR);
      DivModUnique(sa + SECTOR - 1, SECTOR, sa / SECTOR, SECTOR - 1);
    }
  }

  /** Erases `SectorCount` sectors from the sector holding `address`; an
      address outside every bank is the panic, before anything is erased. */
  function HalFlashErase(f: Flash, banks: Banks, address: nat, len: int32, count: EraseCount): (r: Result<Flash, Fault>)
    ensures r.Err? <==> GetFlashType(banks, address).Err?
    ensures r.Err? ==> r.error == BadAddress
    ensures r.Ok? ==> forall k: nat :: PageAt(r.value, k) == (
                        if SectorAddr(address) / PAGE <= k < SectorAddr(address) / PAGE + SectorCount(address, len, count) * PAGES_PER_SECTOR
                        then Erased else PageAt(f, k))
  {
    var sectorAddr := SectorAddr(address);
    var numSectors := SectorCount(address, len, count);
    match GetFlashType(banks, address)
    case Err(e) => Err(e)
    case Ok(_) =>
      Nested(sectorAddr, PAGES_PER_SECTOR);
      Ok(EraseSectors(f, sectorAddr / SECTOR, numSectors))
  }

  /** The corrected count erases exactly the sectors the range touches: the
      first is the sector of `address`, the last that of the last byte, and
      every byte of the range lies in between. */
  lemma CoveringIsExact(address: nat, len: int32, a: nat)
    requires len > 0
    ensures address / SECTOR + SectorCount(address, len, Covering) - 1 == (address + len - 1) / SECTOR
    ensures address <= a < address + len ==>
      address / SECTOR <= a / SECTOR < address / SECTOR + SectorCount(address, len, Covering)
  {
    DivMonotone(address, address + len - 1, SECTOR);
    if address <= a < address + len {
      DivMonotone(address, a, SECTOR);
      DivMonotone(a, address + len - 1, SECTOR);
    }
  }

  /** From a sector boundary both counts agree except at a positive exact
      multiple of SECTOR, where the source's count is one sector too many. */
  lemma CountsDiffer(address: nat, len: int32)
    requires address % SECTOR == 0
    ensures len % SECTOR == 0 && len > 0 ==> SectorCount(address, len, AsWritten) == SectorCount(address, len, Covering) + 1
    ensures len >= 0 && (len % SECTOR != 0 || len == 0) ==> SectorCount(address, len, AsWritten) == SectorCount(address, len, Covering)
    ensures len < 0 ==> SectorCount(address, len, Covering) == 0
  {
    if len > 0 {
      DivModBasics(address, SECTOR);
      DivModBasics(len, SECTOR);
      assert len / SECTOR <= len;
      var q := address / SECTOR;
      if len % SECTOR == 0 {
        DivModUnique(address + len - 1, SECTOR, q + len / SECTOR - 1, SECTOR - 1);
      } else {
        DivModUnique(address + len - 1, SECTOR, q + len / SECTOR, len % SECTOR - 1);
      }
    }
  }

  /** The source's count erases a sector outside the requested range: one
      sector's worth of bytes from a sector boundary also erases the next
      sector. */
  lemma AsWrittenOverErases(f: Flash, banks: Banks, sa: nat)
    requires sa % SECTOR == 0 && GetFlashType(banks, sa).Ok?
    ensures var r := HalFlashErase(f, banks, sa, SECTOR, AsWritten);
      r.Ok? && PagesErased(r.value, (sa + SECTOR) / PAGE, (sa + SECTOR) / PAGE + PAGES_PER_SECTOR)
    ensures var r := HalFlashErase(f, banks, sa, SECTOR, Covering);
      r.Ok? && forall k: nat :: k >= (sa + SECTOR) / PAGE ==> PageAt(r.value, k) == PageAt(f, k)
  {
    SectorPages(sa);
    AlignedBelow(sa, SectorAddr(sa), SECTOR);
    DivModUnique(sa + SECTOR - 1, SECTOR, sa / SECTOR, SECTOR - 1);
  }

  /** The source's count can also erase too little: two bytes straddling a
      sector boundary erase only the first sector. */
  lemma AsWrittenUnderErases(f: Flash, banks: Banks)
    requires GetFlashType(banks, SECTOR - 1).Ok?
    ensures var r := HalFlashErase(f, banks, SECTOR - 1, 2, AsWritten);
      r.Ok? && PageAt(r.value, SECTOR / PAGE) == PageAt(f, SECTOR / PAGE)
    ensures var r := HalFlashErase(f, banks, SECTOR - 1, 2, Covering);
      r.Ok? && PageErased(r.value, SECTOR / PAGE)
  {
    AlignedBelow(SECTOR - 1, SectorAddr(SECTOR - 1), SECTOR);
  }

  // ---------------------------------------------------------------------
  // hal_flash_write
  // ---------------------------------------------------------------------

  datatype WritePath = Direct | ReadModifyWrite

  /** The sector buffer after `memcpy(sectorBuffer + off, data, |data|)`,
      truncated to the SECTOR bytes that are programmed back. */
  function Merge(buf: seq<uint8>, off: nat, data: seq<uint8>): (r: seq<uint8>)
    requires |buf| == SECTOR
    ensures |r| == SECTOR
  {
    seq(SECTOR, i requires 0 <= i < SECTOR => if off <= i < off + |data| then data[i - off] else buf[i])
  }

  /** The flash after a read-modify-write of `data` at `address`: the sector
      holds the merged buffer, the remaining erased sectors are blank and
      everything else is unchanged. */
  ghost predicate RmwResult(f: Flash, f2: Flash, address: nat, data: seq<uint8>, count: EraseCount) {
    var sa := SectorAddr(address);
    var merged := Merge(SectorImage(f, sa), address - sa, data);
    forall k: nat :: PageAt(f2, k) == (
      if sa / PAGE <= k < sa / PAGE + PAGES_PER_SECTOR then Programmed(SectorSlice(merged, k - sa / PAGE))
      else if sa / PAGE <= k < sa / PAGE + SectorCount(sa, SECTOR, count) * PAGES_PER_SECTOR then Erased
      else PageAt(f, k))
  }

  /** Byte `i` of an aligned sector sits in page `i / PAGE` of the sector at
      offset `i % PAGE`. */
  lemma SectorByte(sa: nat, i: nat)
    requires sa % PAGE == 0 && i < SECTOR
    ensures (sa + i) / PAGE == sa / PAGE + i / PAGE && (sa + i) % PAGE == i % PAGE
    ensures i / PAGE < PAGES_PER_SECTOR && (i / PAGE) * PAGE + i % PAGE == i
  {
    DivModBasics(i, PAGE);
    DivModBasics(sa, PAGE);
    DivModUnique(sa + i, PAGE, sa / PAGE + i / PAGE, i % PAGE);
  }

  /** Addresses outside an aligned sector lie in pages outside it. */
  lemma OutsideSector(sa: nat, a: nat)
    requires sa % SECTOR == 0 && !(sa <= a < sa + SECTOR)
    ensures !(sa / PAGE <= a / PAGE < sa / PAGE + PAGES_PER_SECTOR)
  {
    SectorPages(sa);
    if a >= sa + SECTOR {
      DivMonotone(sa + SECTOR, a, PAGE);
    } else {
      DivMonotone(a, sa - 1, PAGE);
      AlignedPredecessor(sa);
    }
  }

  /** Inside the sector, the merged buffer is what reads back. */
  lemma RmwReadsInside(f: Flash, f2: Flash, address: nat, data: seq<uint8>, a: nat)
    requires RmwResult(f, f2, address, data, Covering)
    requires SectorAddr(address) <= a < SectorAddr(address) + SECTOR
    ensures ByteAt(f2, a) == Overlay(f, address, data, a)
  {
    var sa := SectorAddr(address);
    var i := a - sa;
    Nested(sa, PAGES_PER_SECTOR);
    SectorByte(sa, i);
    var merged := Merge(SectorImage(f, sa), address - sa, data);
    var j := i / PAGE;
    RmwSectorPage(f, f2, address, data, j, a / PAGE);
    ByteOfSlice(f2, a, merged, j);
    MergeIsOverlay(f, address, data, a);
  }

  /** A byte of a page programmed with slice `j` of a sector buffer. */
  lemma ByteOfSlice(f2: Flash, a: nat, buf: seq<uint8>, j: nat)
    requires j < PAGES_PER_SECTOR && |buf| == SECTOR
    requires PageAt(f2, a / PAGE) == Programmed(SectorSlice(buf, j))
    ensures j * PAGE + a % PAGE < SECTOR && ByteAt(f2, a) == buf[j * PAGE + a % PAGE]
  {
    SliceByte(buf, j, a % PAGE);
  }

  /** The merged buffer holds the overlay of `data` on the sector. */
  lemma MergeIsOverlay(f: Flash, address: nat, data: seq<uint8>, a: nat)
    requires SectorAddr(address) <= a < SectorAddr(address) + SECTOR
    ensures var sa := SectorAddr(address);
      Merge(SectorImage(f, sa), address - sa, data)[a - sa] == Overlay(f, address, data, a)
  {
  }

  /** Page `j` of the sector holds slice `j` of the merged buffer. */
  lemma RmwSectorPage(f: Flash, f2: Flash, address: nat, data: seq<uint8>, j: nat, k: nat)
    requires RmwResult(f, f2, address, data, Covering) && j < PAGES_PER_SECTOR
    requires k == SectorAddr(address) / PAGE + j
    ensures var sa := SectorAddr(address);
      PageAt(f2, k) == Programmed(SectorSlice(Merge(SectorImage(f, sa), address - sa, data), j))
  {
  }

  /** Byte `o` of slice `j` is byte `j * PAGE + o` of the buffer. */
  lemma SliceByte(buf: seq<uint8>, j: nat, o: nat)
    requires j < PAGES_PER_SECTOR && |buf| >= SECTOR && o < PAGE
    ensures j * PAGE + o < |buf| && SectorSlice(buf, j)[o] == buf[j * PAGE + o]
  {
  }

  /** Outside the sector, with the corrected count, nothing changes. */
  lemma RmwReadsOutside(f: Flash, f2: Flash, address: nat, data: seq<uint8>, a: nat)
    requires RmwResult(f, f2, address, data, Covering)
    requires !(SectorAddr(address) <= a < SectorAddr(address) + SECTOR)
    ensures ByteAt(f2, a) == ByteAt(f, a)
  {
    var sa := SectorAddr(address);
    SectorLengthCount(sa);
    OutsideSector(sa, a);
    assert PageAt(f2, a / PAGE) == PageAt(f, a / PAGE);
  }

  /** With the corrected erase count, a read-modify-write of data that fits
      in its sector reads back as the overlay of `data` on the old contents. */
  lemma RmwReads(f: Flash, f2: Flash, address: nat, data: seq<uint8>, a: nat)
    requires RmwResult(f, f2, address, data, Covering)
    requires address - SectorAddr(address) + |data| <= SECTOR
    ensures ByteAt(f2, a) == Overlay(f, address, data, a)
  {
    if SectorAddr(address) <= a < SectorAddr(address) + SECTOR {
      RmwReadsInside(f, f2, address, data, a);
    } else {
      RmwReadsOutside(f, f2, address, data, a);
    }
  }

  // ---------------------------------------------------------------------
  // hal_flash_write, ext_flash_read
  // ---------------------------------------------------------------------

  /** Every page from GET_PAGE_ADDR(address) to GET_PAGE_ADDR(address + size - 1)
      is erased. */
  predicate SpanErased(f: Flash, address: nat, size: nat) {
    forall k: nat :: address / PAGE <= k <= LastPage(address, size) ==> PageErased(f, k)
  }

  /** As written, a read-modify-write also erases the whole following
      sector and never restores it: data stored there is lost. */
  lemma RmwWipesNextSector(f: Flash, f2: Flash, address: nat, data: seq<uint8>)
    requires RmwResult(f, f2, address, data, AsWritten)
    ensures var next := (SectorAddr(address) + SECTOR) / PAGE;
      PagesErased(f2, next, next + PAGES_PER_SECTOR)
  {
    var sa := SectorAddr(address);
    SectorPages(sa);
    SectorLengthCount(sa);
    var next := (sa + SECTOR) / PAGE;
    forall k: nat | next <= k < next + PAGES_PER_SECTOR
      ensures PageErased(f2, k)
    {
      assert PageAt(f2, k) == Erased;
    }
  }

  /** The page check of hal_flash_write: erase-verifies the touched pages in
      ascending order and stops at the first one that is not erased. */
  method NeedsSectorRmw(f: Flash, address: nat, size: nat) returns (needs: bool)
    ensures needs <==> !SpanErased(f, address, size)
  {
    needs := false;
    if address + size == 0 {
      // GET_PAGE_ADDR(0 - 1) wraps in 32 bits; the model checks no page.
      return;
    }
    var page := PageAddr(address);
    var endPage := PageAddr(address + size - 1);
    PageOf(address);
    PageOf(address + size - 1);
    while page <= endPage
      invariant page % PAGE == 0 && page <= endPage + PAGE && address / PAGE <= page / PAGE
      invariant PagesErased(f, address / PAGE, page / PAGE)
      decreases endPage + PAGE - page
    {
      NextPage(page);
      var erased := FlashIsErased(f, page, PAGE);
      assert erased.value == PageErased(f, page / PAGE);
      if !erased.value {
        DivMonotone(page, endPage, PAGE);
        return true;
      }
      PagesErasedExtend(f, address / PAGE, page / PAGE);
      page := page + PAGE;
    }
    LoopEnd(endPage, page);
  }

  lemma PagesErasedExtend(f: Flash, lo: nat, hi: nat)
    requires PagesErased(f, lo, hi) && PageErased(f, hi)
    ensures PagesErased(f, lo, hi + 1)
  {
  }

  /** The read-modify-write path: cache the sector, erase it, merge the new
      bytes into the buffer and program the whole sector back. */
  method SectorReadModifyWrite(f: Flash, banks: Banks, address: nat, data: seq<uint8>, count: EraseCount)
    returns (r: Result<Flash, Fault>)
    ensures r.Ok? <==> GetFlashType(banks, SectorAddr(address)).Ok?
                       && address - SectorAddr(address) + |data| <= BUFFER_BYTES
    ensures r.Err? ==> r.error == (if GetFlashType(banks, SectorAddr(address)).Err? then BadAddress else BufferOverflow)
    ensures r.Ok? ==> RmwResult(f, r.value, address, data, count)
  {
    var sectorAddress := SectorAddr(address);
    SectorPages(sectorAddress);
    var buf, _ := CacheSector(f, sectorAddress);
    var erased := HalFlashErase(f, banks, sectorAddress, SECTOR, count);
    if erased.Err? {
      return Err(BadAddress);
    }
    var offsetInSector := address - sectorAddress;
    if offsetInSector + |data| > BUFFER_BYTES {
      return Err(BufferOverflow);
    }
    var merged := Merge(buf, offsetInSector, data);
    SectorLengthCount(sectorAddress);
    var f2, _ := ProgramCachedSector(erased.value, sectorAddress, merged);
    RmwComposes(f, erased.value, f2, address, data, count, sectorAddress, merged);
    return Ok(f2);
  }

  /** The erase of the sector run followed by the programming of the merged
      sector is the state `RmwResult` describes. */
  lemma RmwComposes(f: Flash, fe: Flash, f2: Flash, address: nat, data: seq<uint8>, count: EraseCount,
                    sa: nat, merged: seq<uint8>)
    requires sa == SectorAddr(address) && sa % SECTOR == 0 && SectorAddr(sa) == sa
    requires address - sa + |data| <= BUFFER_BYTES
    requires merged == Merge(SectorImage(f, sa), address - sa, data)
    requires SectorCount(sa, SECTOR, count) >= 1
    requires forall k: nat :: PageAt(fe, k) == (
               if sa / PAGE <= k < sa / PAGE + SectorCount(sa, SECTOR, count) * PAGES_PER_SECTOR
               then Erased else PageAt(f, k))
    requires forall k: nat :: PageAt(f2, k) == (
               if sa / PAGE <= k < sa / PAGE + PAGES_PER_SECTOR
               then Programmed(SectorSlice(merged, k - sa / PAGE))
               else PageAt(fe, k))
    ensures RmwResult(f, f2, address, data, count)
  {
  }

  /** Writes `data` at `address`: directly when every touched page is
      erased, otherwise by a read-modify-write of the sector holding
      `address`. `count` selects the erase count of the nested
      hal_flash_erase call. */
  method HalFlashWrite(f: Flash, banks: Banks, address: nat, data: seq<uint8>, count: EraseCount)
    returns (r: Result<Flash, Fault>, path: WritePath)
    ensures GetFlashType(banks, address).Err? ==> r == Err(BadAddress)
    ensures GetFlashType(banks, address).Ok? ==> (path == Direct <==> SpanErased(f, address, |data|))
    ensures GetFlashType(banks, address).Ok? && path == Direct ==>
      r.Ok? && ProgrammedSpan(f, r.value, address, data)
    ensures GetFlashType(banks, address).Ok? && path == ReadModifyWrite ==>
      (r.Ok? <==> GetFlashType(banks, SectorAddr(address)).Ok?
                  && address - SectorAddr(address) + |data| <= BUFFER_BYTES)
    ensures r.Ok? && path == ReadModifyWrite ==> RmwResult(f, r.value, address, data, count)
    ensures r.Err? ==> r.error == BadAddress || r.error == BufferOverflow
    ensures r.Ok? && count == Covering && address - SectorAddr(address) + |data| <= SECTOR ==>
      forall a: nat :: ByteAt(r.value, a) == Overlay(f, address, data, a)
  {
    var t := GetFlashType(banks, address);
    if t.Err? {
      return Err(BadAddress), Direct;
    }
    var needsSectorRmw := NeedsSectorRmw(f, address, |data|);
    if needsSectorRmw {
      r := SectorReadModifyWrite(f, banks, address, data, count);
      path := ReadModifyWrite;
      if r.Ok? && count == Covering && address - SectorAddr(address) + |data| <= SECTOR {
        forall a: nat
          ensures ByteAt(r.value, a) == Overlay(f, address, data, a)
        {
          RmwReads(f, r.value, address, data, a);
        }
      }
    } else {
      var f2, _, _ := ProgramBytesToErasedFlash(f, address, data);
      forall a: nat
        ensures ByteAt(f2, a) == Overlay(f, address, data, a)
      {
        ProgrammedSpanReads(f, f2, address, data, a);
      }
      r, path := Ok(f2), Direct;
    }
  }

  /** The byte of a programmed page as read over the bus. */
  function RawByte(f: Flash, a: nat): (r: uint8)
    requires !PageErased(f, a / PAGE)
  {
    PageByte(PageAt(f, a / PAGE), a % PAGE)
  }

  /** `bs` holds the bytes the driver reports from `at` on. */
  predicate ReadsBack(f: Flash, at: nat, bs: seq<uint8>) {
    forall i :: 0 <= i < |bs| ==> bs[i] == ByteAt(f, at + i)
  }

  lemma ReadsBackAppend(f: Flash, at: nat, bs: seq<uint8>, b: uint8)
    requires ReadsBack(f, at, bs) && b == ByteAt(f, at + |bs|)
    ensures ReadsBack(f, at, bs + [b])
  {
  }

  /** A byte of an aligned page reads as the erased byte when the page is
      erased, and as the bus reads it otherwise. */
  lemma ByteInPage(f: Flash, pageAddress: nat, offset: nat)
    requires pageAddress % PAGE == 0 && offset < PAGE
    ensures (pageAddress + offset) / PAGE == pageAddress / PAGE
    ensures PageErased(f, pageAddress / PAGE) ==> ByteAt(f, pageAddress + offset) == ERASED_BYTE
    ensures !PageErased(f, pageAddress / PAGE) ==> RawByte(f, pageAddress + offset) == ByteAt(f, pageAddress + offset)
  {
    InUnit(pageAddress, offset, PAGE);
  }

  /** Every address in `fetched` lies in a page that is not erased. */
  predicate BusPages(f: Flash, fetched: seq<nat>) {
    forall i :: 0 <= i < |fetched| ==> !PageErased(f, fetched[i] / PAGE)
  }

  /** One byte of an aligned page: the erased byte without a bus access if
      the page is erased, the bus read (recorded in `fetched`) otherwise. */
  method FetchByte(f: Flash, pageAddress: nat, offset: nat, erased: bool, fetched: seq<nat>)
    returns (b: uint8, fetched2: seq<nat>)
    requires pageAddress % PAGE == 0 && offset < PAGE
    requires erased == PageErased(f, pageAddress / PAGE) && BusPages(f, fetched)
    ensures b == ByteAt(f, pageAddress + offset) && BusPages(f, fetched2)
    ensures erased ==> fetched2 == fetched
    ensures !erased ==> fetched2 == fetched + [pageAddress + offset]
  {
    ByteInPage(f, pageAddress, offset);
    fetched2 := fetched;
    if erased {
      b := ERASED_BYTE;
    } else {
      b := RawByte(f, pageAddress + offset);
      fetched2 := fetched + [pageAddress + offset];
    }
  }

  /** The inner loop of extFlashRead: the bytes from `addr` up to the end
      of its page, at most `want` of them. */
  method ReadInPage(f: Flash, addr: nat, want: nat) returns (bytes: seq<uint8>, fetched: seq<nat>)
    requires want > 0
    ensures |bytes| == if want < PAGE - addr % PAGE then want else PAGE - addr % PAGE
    ensures forall i :: 0 <= i < |bytes| ==> bytes[i] == ByteAt(f, addr + i)
    ensures forall i :: 0 <= i < |fetched| ==> !PageErased(f, fetched[i] / PAGE)
  {
    var pageAddress := PageAddr(addr);
    var offset := addr % PAGE;
    AlignedBelow(addr, pageAddress, PAGE);
    InUnit(pageAddress, 0, PAGE);
    var isErased := FlashIsErased(f, pageAddress, PAGE);
    bytes, fetched := [], [];
    var a := addr;
    while offset < PAGE && |bytes| < want
      invariant pageAddress % PAGE == 0 && a == pageAddress + offset && offset <= PAGE
      invariant a == addr + |bytes| && |bytes| <= want && offset == addr % PAGE + |bytes|
      invariant ReadsBack(f, addr, bytes) && BusPages(f, fetched)
      decreases PAGE - offset
    {
      var b: uint8;
      b, fetched := FetchByte(f, pageAddress, offset, isErased.value, fetched);
      ReadsBackAppend(f, addr, bytes, b);
      bytes := bytes + [b];
      a := a + 1;
      offset := offset + 1;
    }
  }

  /** Reads `len` bytes at `address` page by page: an erased page yields the
      erased byte without a bus access, any other page is read over the bus.
      `busReads` lists the addresses read over the bus. */
  method ExtFlashRead(f: Flash, banks: Banks, address: nat, len: int)
    returns (r: Result<seq<uint8>, Fault>, busReads: seq<nat>)
    ensures r.Err? <==> GetFlashType(banks, address).Err?
    ensures r.Err? ==> r.error == BadAddress
    ensures r.Ok? ==> |r.value| == (if len > 0 then len else 0)
    ensures r.Ok? ==> forall i :: 0 <= i < |r.value| ==> r.value[i] == ByteAt(f, address + i)
    ensures forall i :: 0 <= i < |busReads| ==> !PageErased(f, busReads[i] / PAGE)
  {
    busReads := [];
    var t := GetFlashType(banks, address);
    if t.Err? {
      return Err(BadAddress), busReads;
    }
    var data: seq<uint8> := [];
    while |data| < len
      invariant len > 0 ==> |data| <= len
      invariant len <= 0 ==> data == []
      invariant forall i :: 0 <= i < |data| ==> data[i] == ByteAt(f, address + i)
      invariant forall i :: 0 <= i < |busReads| ==> !PageErased(f, busReads[i] / PAGE)
      decreases len - |data|
    {
      var bytes, fetched := ReadInPage(f, address + |data|, len - |data|);
      data := data + bytes;
      busReads := busReads + fetched;
    }
    return Ok(data), busReads;
  }
}
