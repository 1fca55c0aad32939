/** The decision logic of wolfBoot's update core: image size and acceptance
    checks, the delta-update direction, the sector copy used by the swap, the
    erase of the partitions' remainder and the resumable final erase.

    Partitions are byte sequences (for the sector copy) or maps from sector
    index to sector contents (for the erase plans). Verification of hashes and
    signatures, the persistent state and flag storage and the delta patch
    engine are inputs: their results are parameters. */
module UpdateFlash {
  import opened Base

  /** Build-time parameters: WOLFBOOT_SECTOR_SIZE, WOLFBOOT_PARTITION_SIZE,
      IMAGE_HEADER_SIZE, FLASHBUFFER_SIZE, NVM_FLASH_WRITEONCE,
      ALLOW_DOWNGRADE and the HDR_IMG_TYPE_AUTH value of the configured
      signature scheme. */
  datatype Config = Config(
    sectorSize: nat,
    partitionSize: nat,
    headerSize: nat,
    bufferSize: nat,
    writeOnce: bool,
    allowDowngrade: bool,
    authType: bv16)

  /** A layout the build accepts: sector-aligned partitions with room for the
      trailer sectors and the final-erase scratch sector, and a copy buffer
      that divides the sector. */
  predicate ValidConfig(c: Config) {
    && c.sectorSize > 0
    && c.bufferSize > 0
    && c.sectorSize % c.bufferSize == 0
    && c.partitionSize % c.sectorSize == 0
    && c.partitionSize >= Reserved(c) + c.sectorSize
    && c.partitionSize < TWO_32
  }

  /** Bytes at the end of each partition kept for the partition trailer (state
      and sector flags): one sector, two with NVM_FLASH_WRITEONCE, which keeps
      a redundant copy. This is both the `eraseLen` of the final erase and the
      margin of MAX_UPDATE_SIZE. */
  function Reserved(c: Config): nat {
    if c.writeOnce then 2 * c.sectorSize else c.sectorSize
  }

  /** MAX_UPDATE_SIZE. */
  function MaxUpdateSize(c: Config): int {
    c.partitionSize - Reserved(c)
  }

  // ---------------------------------------------------------------------
  // Flags and states kept in the partition trailers
  // ---------------------------------------------------------------------

  /** A sector flag of the update partition. `FlagOther` is any value that is
      none of the four named ones. */
  datatype SectFlag = FlagNew | FlagSwapping | FlagBackup | FlagUpdated | FlagOther

  /** A partition state. `ImgUnreadable` stands for a trailer without its magic
      word, from which no state can be read. */
  datatype ImgState = ImgNew | ImgUpdating | ImgTesting | ImgSuccess | ImgFinalFlags
                    | ImgOther | ImgUnreadable

  /** Contents of one flash sector, as far as the swap is concerned. */
  datatype Sector = Blank | Written(bytes: seq<uint8>)

  // ---------------------------------------------------------------------
  // Total size (wolfBoot_get_total_size) and the empty-image check
  // ---------------------------------------------------------------------

  /** The larger of the two images including their headers, each sum taken in
      32-bit unsigned arithmetic as the source does. */
  function GetTotalSize(c: Config, bootFw: uint32, updateFw: uint32): (r: uint32)
    ensures r == Wrap32(bootFw + c.headerSize) || r == Wrap32(updateFw + c.headerSize)
    ensures r >= Wrap32(bootFw + c.headerSize) && r >= Wrap32(updateFw + c.headerSize)
  {
    var total := Wrap32(bootFw + c.headerSize);
    if Wrap32(updateFw + c.headerSize) > total then Wrap32(updateFw + c.headerSize) else total
  }

  /** Without wrap-around the total is the larger firmware plus one header,
      it does not depend on which partition holds which image (so re-reading
      the swapped headers after sector 0 leaves it unchanged), and the update
      is refused as empty exactly when both images are empty. */
  lemma TotalSizeFacts(c: Config, bootFw: uint32, updateFw: uint32)
    requires bootFw + c.headerSize < TWO_32 && updateFw + c.headerSize < TWO_32
    ensures GetTotalSize(c, bootFw, updateFw) == Max(bootFw, updateFw) + c.headerSize
    ensures GetTotalSize(c, bootFw, updateFw) == GetTotalSize(c, updateFw, bootFw)
    ensures GetTotalSize(c, bootFw, updateFw) <= c.headerSize <==> bootFw == 0 && updateFw == 0
  {
  }

  // ---------------------------------------------------------------------
  // Acceptance checks of a new update
  // ---------------------------------------------------------------------

  const HDR_IMG_TYPE_AUTH_MASK: bv16 := 0xFF00
  const HDR_IMG_TYPE_PART_MASK: bv16 := 0x000F
  const HDR_IMG_TYPE_APP: bv16 := 0x0001
  const HDR_IMG_TYPE_DIFF: bv16 := 0x00D0

  /** What the update core learns about the image in the update partition.
      The three verification results come from code that is not part of this
      model (header parsing, hash and signature checks). */
  datatype UpdateImage = UpdateImage(
    imageType: bv16,
    fwSize: uint32,
    hdrOk: bool,
    integrityOk: bool,
    authenticOk: bool)

  /** Which bound the size check applies. `AsWritten` is the source's
      `fw_size > MAX_UPDATE_SIZE - 1`, which ignores the header;
      `HeaderIncluded` requires header and firmware to fit in front of the
      trailer sectors. */
  datatype SizeRule = AsWritten | HeaderIncluded

  predicate SizeFits(c: Config, rule: SizeRule, fwSize: nat) {
    match rule
    case AsWritten => fwSize <= MaxUpdateSize(c) - 1
    case HeaderIncluded => fwSize + c.headerSize <= MaxUpdateSize(c)
  }

  /** `~(uint32_t)x` for a C `int`. */
  function NotU32(x: int): (r: uint32)
    ensures r + Wrap32(x) == TWO_32 - 1
  {
    TWO_32 - 1 - Wrap32(x)
  }

  /** The hardened fallback test `fallback_allowed == 1 &&
      ~(uint32_t)fallback_allowed == 0xFFFFFFFE`. */
  predicate FallbackPermits(fallback: int) {
    fallback == 1 && NotU32(fallback) == 0xFFFF_FFFE
  }

  /** The checks `wolfBoot_update` makes before starting a NEW update: image
      type, size, header, integrity and authenticity, then the version rule.
      Every refusal is -1. */
  function CheckNewUpdate(c: Config, rule: SizeRule, img: UpdateImage,
                          curVer: uint32, updVer: uint32, fallback: int): (r: Result<(), int>)
    ensures r.Err? ==> r.error == -1
    ensures r.Ok? <==>
      && img.imageType & 0x000F == 0x0001
      && img.imageType & 0xFF00 == c.authType
      && SizeFits(c, rule, img.fwSize)
      && img.hdrOk && img.integrityOk && img.authenticOk
      && (c.allowDowngrade || fallback == 1 || curVer < updVer)
  {
    if img.imageType & HDR_IMG_TYPE_PART_MASK != HDR_IMG_TYPE_APP
       || img.imageType & HDR_IMG_TYPE_AUTH_MASK != c.authType then
      Err(-1)
    else if !SizeFits(c, rule, img.fwSize) then
      Err(-1)
    else if !img.hdrOk || !img.integrityOk || !img.authenticOk then
      Err(-1)
    else if !c.allowDowngrade && !(FallbackPermits(fallback) || curVer < updVer) then
      Err(-1)
    else
      Ok(())
  }

  /** Without ALLOW_DOWNGRADE and outside a fallback, an update that does not
      raise the version is refused, however well it verifies. */
  lemma NoDowngrade(c: Config, rule: SizeRule, img: UpdateImage,
                    curVer: uint32, updVer: uint32, fallback: int)
    requires !c.allowDowngrade && fallback != 1 && updVer <= curVer
    ensures CheckNewUpdate(c, rule, img, curVer, updVer, fallback) == Err(-1)
  {
  }

  // ---------------------------------------------------------------------
  // Delta direction
  // ---------------------------------------------------------------------

  datatype DeltaDecision = DeltaDecision(inverse: bool, resume: bool, markUpdating: bool)

  /** Direction of a delta update. Versions decide a fresh update (inverse
      when the running version is not older). A resumed one (the update state
      was readable and either sector 0 already left NEW or the boot header is
      mangled, version 0) follows the stored state instead: UPDATING means
      forward. A fresh forward fallback first records UPDATING so that an
      interruption can be resumed in the same direction. */
  function DeltaDirection(curV: uint32, upV: uint32, state: ImgState,
                          flag0: SectFlag, fallback: int): (d: DeltaDecision)
    ensures d.resume <==> state != ImgUnreadable && (flag0 != FlagNew || curV == 0)
    ensures d.resume ==> (d.inverse <==> state != ImgUpdating)
    ensures !d.resume ==> (d.inverse <==> curV >= upV)
    ensures d.markUpdating <==> !d.resume && !d.inverse && fallback == 1
  {
    var inverse := curV >= upV;
    if state != ImgUnreadable && (flag0 != FlagNew || curV == 0) then
      DeltaDecision(state != ImgUpdating, true, false)
    else
      DeltaDecision(inverse, false, !inverse && fallback == 1)
  }

  /** A forward fallback that records UPDATING is resumed forward: once sector
      0 has left NEW, the next attempt reads that state and keeps the
      direction, whatever the (by then swapped) versions say. */
  lemma DeltaResumeKeepsDirection(curV: uint32, upV: uint32, curV': uint32, upV': uint32,
                                  state0: ImgState, flag0': SectFlag)
    requires state0 == ImgUnreadable || curV != 0
    requires DeltaDirection(curV, upV, state0, FlagNew, 1).markUpdating
    requires flag0' != FlagNew
    ensures !DeltaDirection(curV, upV, state0, FlagNew, 1).inverse
    ensures DeltaDirection(curV', upV', ImgUpdating, flag0', 1).resume
    ensures !DeltaDirection(curV', upV', ImgUpdating, flag0', 1).inverse
  {
  }

  // ---------------------------------------------------------------------
  // The front of wolfBoot_update
  // ---------------------------------------------------------------------

  /** What `wolfBoot_update` goes on to do once its checks pass. */
  datatype UpdatePlan =
    | DeltaPlan(decision: DeltaDecision)
    | SwapPlan(totalSize: uint32)

  /** True when the update is a delta image and delta support is built in. */
  predicate IsDelta(deltaBuilt: bool, imageType: bv16) {
    deltaBuilt && imageType & 0x00F0 == HDR_IMG_TYPE_DIFF
  }

  /** The decisions of `wolfBoot_update` before any flash is written: refuse
      an empty pair of images, run the acceptance checks only when sector 0 of
      the update is still NEW, then pick a delta update or the interruptible
      swap. */
  function PlanUpdate(c: Config, rule: SizeRule, deltaBuilt: bool, bootFw: uint32,
                      img: UpdateImage, curVer: uint32, updVer: uint32, flag0: SectFlag,
                      state: ImgState, fallback: int): (r: Result<UpdatePlan, int>)
    ensures r.Err? ==> r.error == -1
    ensures GetTotalSize(c, bootFw, img.fwSize) <= c.headerSize ==> r.Err?
    ensures flag0 == FlagNew ==>
      (r.Ok? <==> GetTotalSize(c, bootFw, img.fwSize) > c.headerSize
                  && CheckNewUpdate(c, rule, img, curVer, updVer, fallback).Ok?)
    ensures flag0 != FlagNew ==> (r.Ok? <==> GetTotalSize(c, bootFw, img.fwSize) > c.headerSize)
    ensures r.Ok? ==> (r.value.DeltaPlan? <==> IsDelta(deltaBuilt, img.imageType))
    ensures r.Ok? && r.value.SwapPlan? ==> r.value.totalSize == GetTotalSize(c, bootFw, img.fwSize)
  {
    var total := GetTotalSize(c, bootFw, img.fwSize);
    if total <= c.headerSize then Err(-1)
    else if flag0 == FlagNew && CheckNewUpdate(c, rule, img, curVer, updVer, fallback).Err? then Err(-1)
    else if IsDelta(deltaBuilt, img.imageType) then
      Ok(DeltaPlan(DeltaDirection(curVer, updVer, state, flag0, fallback)))
    else
      Ok(SwapPlan(total))
  }

  /** An update interrupted after sector 0 left NEW is resumed without being
      verified again: the headers may already be swapped, so the verification
      results play no part in the decision. */
  lemma ResumeSkipsVerification(c: Config, rule: SizeRule, deltaBuilt: bool, bootFw: uint32,
                                img: UpdateImage, curVer: uint32, updVer: uint32,
                                flag0: SectFlag, state: ImgState, fallback: int,
                                hdrOk: bool, integrityOk: bool, authenticOk: bool)
    requires flag0 != FlagNew
    ensures PlanUpdate(c, rule, deltaBuilt, bootFw, img, curVer, updVer, flag0, state, fallback)
         == PlanUpdate(c, rule, deltaBuilt, bootFw,
                       img.(hdrOk := hdrOk, integrityOk := integrityOk, authenticOk := authenticOk),
                       curVer, updVer, flag0, state, fallback)
  {
  }

  // ---------------------------------------------------------------------
  // wolfBoot_copy_sector
  // ---------------------------------------------------------------------

  datatype PartId = PartBoot | PartUpdate | PartSwap

  /** Byte offset of sector `sector` inside partition `part`; the swap
      partition holds a single sector at offset 0. */
  function SectorOffset(c: Config, part: PartId, sector: nat): nat {
    if part == PartSwap then 0 else sector * c.sectorSize
  }

  /** Whether the buffer-sized chunk holding sector byte `k` is copied: its
      start must lie below the image end plus one buffer, the sum taken in
      32-bit unsigned arithmetic. */
  predicate ChunkCopied(c: Config, srcOff: nat, srcFw: uint32, k: nat)
    requires c.bufferSize > 0
  {
    srcOff + (k - k % c.bufferSize) < Wrap32(srcFw + c.headerSize + c.bufferSize)
  }

  /** What a destination byte at offset `k` of the sector holds after the
      copy: the source byte when its chunk is copied, the erased byte
      otherwise. */
  function CopiedByte(c: Config, src: seq<uint8>, srcOff: nat, srcFw: uint32, k: nat): uint8
    requires c.bufferSize > 0 && srcOff + k < |src|
  {
    if ChunkCopied(c, srcOff, srcFw, k) then src[srcOff + k] else ERASED_BYTE
  }

  /** The destination after copying the first `upTo` bytes of the sector:
      outside the destination sector nothing changed, the first `upTo` sector
      bytes are as `CopiedByte` says and the rest read erased. */
  ghost predicate CopiedUpTo(c: Config, src: seq<uint8>, srcOff: nat, srcFw: uint32,
                             dst: seq<uint8>, dst2: seq<uint8>, dstOff: nat, upTo: nat)
    requires c.bufferSize > 0
  {
    && |dst2| == |dst|
    && upTo <= c.sectorSize
    && dstOff + c.sectorSize <= |dst|
    && srcOff + c.sectorSize <= |src|
    && (forall i :: 0 <= i < |dst| && !(dstOff <= i < dstOff + c.sectorSize) ==> dst2[i] == dst[i])
    && (forall i :: dstOff <= i < dstOff + upTo ==>
          dst2[i] == CopiedByte(c, src, srcOff, srcFw, i - dstOff))
    && (forall i :: dstOff + upTo <= i < dstOff + c.sectorSize ==> dst2[i] == ERASED_BYTE)
  }

  /** The destination after a whole-sector copy. */
  ghost predicate CopiedSector(c: Config, src: seq<uint8>, srcOff: nat, srcFw: uint32,
                               dst: seq<uint8>, dst2: seq<uint8>, dstOff: nat)
    requires c.bufferSize > 0
  {
    CopiedUpTo(c, src, srcOff, srcFw, dst, dst2, dstOff, c.sectorSize)
  }

  /** The chunk starting at `pos` holds the sector bytes `pos .. pos+B-1`. */
  lemma ChunkStart(pos: nat, k: nat, b: nat)
    requires b > 0 && pos % b == 0 && pos <= k < pos + b
    ensures k - k % b == pos
  {
    InUnit(pos, k - pos, b);
  }

  /** One iteration of the copy loop: the chunk at `pos` is written when it
      starts in front of the limit and left as it is otherwise. */
  function CopyChunk(c: Config, src: seq<uint8>, srcOff: nat, srcFw: uint32,
                     d: seq<uint8>, dstOff: nat, pos: nat): seq<uint8>
    requires srcOff + pos + c.bufferSize <= |src| && dstOff + pos + c.bufferSize <= |d|
  {
    var B := c.bufferSize;
    if srcOff + pos < Wrap32(srcFw + c.headerSize + B)
    then d[..dstOff + pos] + src[srcOff + pos .. srcOff + pos + B] + d[dstOff + pos + B..]
    else d
  }

  /** After the step at `pos`, the chunk at `pos` holds the source bytes
      when it starts in front of the limit and stays erased otherwise. */
  lemma CopyStep(c: Config, src: seq<uint8>, srcOff: nat, srcFw: uint32,
                 dst: seq<uint8>, d: seq<uint8>, dstOff: nat, pos: nat)
    requires c.bufferSize > 0 && c.sectorSize % c.bufferSize == 0
    requires pos < c.sectorSize && pos % c.bufferSize == 0
    requires CopiedUpTo(c, src, srcOff, srcFw, dst, d, dstOff, pos)
    ensures pos + c.bufferSize <= c.sectorSize && (pos + c.bufferSize) % c.bufferSize == 0
    ensures CopiedUpTo(c, src, srcOff, srcFw, dst, CopyChunk(c, src, srcOff, srcFw, d, dstOff, pos),
                       dstOff, pos + c.bufferSize)
  {
    var B := c.bufferSize;
    MultiplesApart(pos, c.sectorSize, B);
    DivModBasics(pos, B);
    DivModUnique(pos + B, B, pos / B + 1, 0);
    forall k | pos <= k < pos + B
      ensures ChunkCopied(c, srcOff, srcFw, k) <==> srcOff + pos < Wrap32(srcFw + c.headerSize + B)
    {
      ChunkStart(pos, k, B);
    }
  }

  /** The destination sector freshly erased: nothing copied yet. */
  lemma CopyStart(c: Config, src: seq<uint8>, srcOff: nat, srcFw: uint32, dst: seq<uint8>, dstOff: nat)
    requires c.bufferSize > 0
    requires dstOff + c.sectorSize <= |dst| && srcOff + c.sectorSize <= |src|
    ensures CopiedUpTo(c, src, srcOff, srcFw, dst,
                       dst[..dstOff] + seq(c.sectorSize, _ => ERASED_BYTE) + dst[dstOff + c.sectorSize..],
                       dstOff, 0)
  {
  }

  /** The chunk loop of the copy: erase the destination sector, then write
      it chunk by chunk from the source while the chunk starts within the
      image (plus one buffer of slack). */
  method CopyChunks(c: Config, src: seq<uint8>, srcOff: nat, srcFw: uint32, dst: seq<uint8>, dstOff: nat)
    returns (dst2: seq<uint8>, pos: nat)
    requires c.bufferSize > 0 && c.sectorSize % c.bufferSize == 0
    requires srcOff + c.sectorSize <= |src| && dstOff + c.sectorSize <= |dst|
    ensures pos == c.sectorSize
    ensures CopiedSector(c, src, srcOff, srcFw, dst, dst2, dstOff)
  {
    var S, B := c.sectorSize, c.bufferSize;
    CopyStart(c, src, srcOff, srcFw, dst, dstOff);
    dst2 := dst[..dstOff] + seq(S, _ => ERASED_BYTE) + dst[dstOff + S..];
    pos := 0;
    while pos < S
      invariant pos % B == 0
      invariant CopiedUpTo(c, src, srcOff, srcFw, dst, dst2, dstOff, pos)
      decreases S - pos
    {
      CopyStep(c, src, srcOff, srcFw, dst, dst2, dstOff, pos);
      dst2 := CopyChunk(c, src, srcOff, srcFw, dst2, dstOff, pos);
      pos := pos + B;
    }
  }

  /** `wolfBoot_copy_sector`: copy sector `sector` between two partitions,
      using offset 0 on the SWAP side. Returns the number of bytes stepped
      over, 0 when source and destination are the same. */
  method CopySector(c: Config, src: seq<uint8>, srcPart: PartId, srcFw: uint32,
                    dst: seq<uint8>, dstPart: PartId, sector: nat)
    returns (dst2: seq<uint8>, pos: nat)
    requires c.bufferSize > 0 && c.sectorSize % c.bufferSize == 0
    requires srcPart != dstPart ==>
      SectorOffset(c, srcPart, sector) + c.sectorSize <= |src|
      && SectorOffset(c, dstPart, sector) + c.sectorSize <= |dst|
    ensures srcPart == dstPart ==> pos == 0 && dst2 == dst
    ensures srcPart != dstPart ==> pos == c.sectorSize
    ensures srcPart != dstPart ==>
      CopiedSector(c, src, SectorOffset(c, srcPart, sector), srcFw,
                   dst, dst2, SectorOffset(c, dstPart, sector))
  {
    if srcPart == dstPart {
      return dst, 0;
    }
    dst2, pos := CopyChunks(c, src, SectorOffset(c, srcPart, sector), srcFw,
                            dst, SectorOffset(c, dstPart, sector));
  }

  /** The copy keeps the image: every byte in front of the image end is
      copied, chunks wholly beyond the extra buffer read erased, and a sector
      that lies inside the image is copied whole. */
  lemma CopyKeepsImage(c: Config, src: seq<uint8>, srcOff: nat, srcFw: uint32,
                       dst: seq<uint8>, dst2: seq<uint8>, dstOff: nat)
    requires c.bufferSize > 0
    requires CopiedSector(c, src, srcOff, srcFw, dst, dst2, dstOff)
    requires srcFw + c.headerSize + c.bufferSize < TWO_32
    ensures forall i :: dstOff <= i < dstOff + c.sectorSize && srcOff + (i - dstOff) < srcFw + c.headerSize ==>
      dst2[i] == src[srcOff + (i - dstOff)]
    ensures forall i :: dstOff <= i < dstOff + c.sectorSize
                        && srcOff + (i - dstOff) >= srcFw + c.headerSize + 2 * c.bufferSize ==>
      dst2[i] == ERASED_BYTE
    ensures srcOff + c.sectorSize <= srcFw + c.headerSize ==>
      dst2[dstOff .. dstOff + c.sectorSize] == src[srcOff .. srcOff + c.sectorSize]
  {
    var B := c.bufferSize;
    forall i | dstOff <= i < dstOff + c.sectorSize
      ensures srcOff + (i - dstOff) < srcFw + c.headerSize ==> dst2[i] == src[srcOff + (i - dstOff)]
      ensures srcOff + (i - dstOff) >= srcFw + c.headerSize + 2 * B ==> dst2[i] == ERASED_BYTE
    {
      DivModBasics(i - dstOff, B);
      assert dst2[i] == CopiedByte(c, src, srcOff, srcFw, i - dstOff);
    }
    if srcOff + c.sectorSize <= srcFw + c.headerSize {
      var d, e := dst2[dstOff .. dstOff + c.sectorSize], src[srcOff .. srcOff + c.sectorSize];
      forall k | 0 <= k < |d|
        ensures d[k] == e[k]
      {
        assert d[k] == dst2[dstOff + k];
      }
    }
  }

  // ---------------------------------------------------------------------
  // Remainder erase
  // ---------------------------------------------------------------------

  /** The sector-by-sector erase after the swap loop: starting at the sector
      where the loop stopped, erase (in both BOOT and UPDATE) every sector
      that starts below the trailer sectors. Returns the erased sector indices
      in order. */
  method EraseRemainder(c: Config, first: nat) returns (erased: seq<nat>)
    requires c.sectorSize > 0
    ensures forall i :: 0 <= i < |erased| ==> erased[i] == first + i
    ensures forall s: nat :: s in erased <==> first <= s && s * c.sectorSize < c.partitionSize - Reserved(c)
  {
    var S, limit := c.sectorSize, c.partitionSize - Reserved(c);
    var sector, off := first, first * c.sectorSize;
    erased := [];
    while off < limit
      invariant first <= sector && off == sector * S
      invariant |erased| == sector - first
      invariant forall i :: 0 <= i < |erased| ==> erased[i] == first + i
      invariant forall s: nat :: first <= s < sector ==> s * S < limit
      decreases limit - off
    {
      erased := erased + [sector];
      sector, off := sector + 1, off + S;
      assert off == sector * S by {
        assert (sector - 1) * S + S == sector * S;
      }
    }
    forall s: nat
      ensures s in erased <==> first <= s && s * S < limit
    {
      if first <= s < sector {
        assert erased[s - first] == s;
      } else if s >= sector {
        MulMonotone(S, sector, s);
      }
    }
  }

  /** The remainder erase spares the trailer: in an aligned layout every
      erased sector ends at or before the first trailer byte. */
  lemma RemainderSparesTrailer(c: Config, s: nat)
    requires ValidConfig(c)
    requires s * c.sectorSize < c.partitionSize - Reserved(c)
    ensures (s + 1) * c.sectorSize <= c.partitionSize - Reserved(c)
  {
    var S := c.sectorSize;
    var top := c.partitionSize - Reserved(c);
    DivModBasics(c.partitionSize, S);
    assert Reserved(c) == S * (if c.writeOnce then 2 else 1);
    DivModUnique(top, S, c.partitionSize / S - (if c.writeOnce then 2 else 1), 0);
    DivModUnique(s * S, S, s, 0);
    MultiplesApart(s * S, top, S);
  }

  /** The multi-sector variant erases `PARTITION - sector*SECTOR - reserve`
      bytes from `sector*SECTOR` in one call, the length taken in 32-bit
      unsigned arithmetic: the same bytes as the sector loop while the loop
      stopped in front of the trailer, a wrapped-around length otherwise. */
  function RemainderLength(c: Config, first: nat): (len: uint32)
    requires c.partitionSize < TWO_32
    ensures first * c.sectorSize <= c.partitionSize - Reserved(c) ==>
      first * c.sectorSize + len == c.partitionSize - Reserved(c)
    ensures c.partitionSize - Reserved(c) < first * c.sectorSize <= c.partitionSize - Reserved(c) + TWO_32 ==>
      len == TWO_32 - (first * c.sectorSize - (c.partitionSize - Reserved(c)))
  {
    Wrap32(c.partitionSize - first * c.sectorSize - Reserved(c))
  }

  // ---------------------------------------------------------------------
  // wolfBoot_swap_and_final_erase
  // ---------------------------------------------------------------------

  /** The flash operations of the final erase, in the order issued. */
  datatype FinalOp =
    | Unlock
    | SaveTmpToSwap     // copy the boot sector at tmpBootPos into SWAP
    | SetUpdateFinal    // update partition state := FINAL_FLAGS
    | EraseBootTail     // erase the last eraseLen bytes of BOOT
    | RestoreTmp        // copy SWAP back to the boot sector at tmpBootPos
    | EraseTmp          // erase the boot sector at tmpBootPos
    | MarkBootTesting   // boot partition state := TESTING
    | EraseUpdateTail   // erase the last eraseLen bytes of UPDATE
    | Lock

  /** `tmpBootPos`: the sector just in front of the boot trailer. */
  function TmpBootPos(c: Config): int {
    c.partitionSize - Reserved(c) - c.sectorSize
  }

  /** The plan of `wolfBoot_swap_and_final_erase(resume)`. The trailer magic
      is the word read at tmpBootPos. A resume that finds neither the magic
      nor FINAL_FLAGS returns -1 before unlocking the flash. FINAL_FLAGS marks
      a re-entry: the scratch sector is already saved, so it is not saved
      again. */
  function FinalErase(c: Config, resume: bool, trailerMagic: bool, updateState: ImgState,
                      bootFw: uint32): (r: Result<seq<FinalOp>, int>)
    ensures r.Err? <==> resume && !trailerMagic && updateState != ImgFinalFlags
    ensures r.Err? ==> r.error == -1
    ensures r.Ok? ==> |r.value| >= 2 && r.value[0] == Unlock && r.value[|r.value| - 1] == Lock
    ensures r.Ok? ==> (SaveTmpToSwap in r.value <==> updateState != ImgFinalFlags)
    ensures r.Ok? ==> (RestoreTmp in r.value <==> TmpBootPos(c) < Wrap32(bootFw + c.headerSize))
    ensures r.Ok? ==> (EraseTmp in r.value <==> RestoreTmp !in r.value)
    ensures r.Ok? ==> EraseBootTail in r.value && MarkBootTesting in r.value && EraseUpdateTail in r.value
  {
    if resume && !trailerMagic && updateState != ImgFinalFlags then
      Err(-1)
    else
      var tmp := TmpStep(c, bootFw);
      if updateState != ImgFinalFlags then
        Ok([Unlock, SaveTmpToSwap, SetUpdateFinal, EraseBootTail, tmp, MarkBootTesting, EraseUpdateTail, Lock])
      else
        Ok([Unlock, EraseBootTail, tmp, MarkBootTesting, EraseUpdateTail, Lock])
  }

  /** Restore the scratch sector when it lies inside the boot image, erase it
      otherwise. */
  function TmpStep(c: Config, bootFw: uint32): FinalOp {
    if TmpBootPos(c) < Wrap32(bootFw + c.headerSize) then RestoreTmp else EraseTmp
  }

  /** What the final erase touches: the boot sector at tmpBootPos, the boot
      and update partition states (kept in the trailers it erases) and SWAP. */
  datatype TailState = TailState(bootTmp: Sector, bootState: ImgState, swap: Sector, updateState: ImgState)

  function ApplyFinal(t: TailState, op: FinalOp): TailState {
    match op
    case Unlock => t
    case SaveTmpToSwap => t.(swap := t.bootTmp)
    case SetUpdateFinal => t.(updateState := ImgFinalFlags)
    case EraseBootTail => t.(bootState := ImgUnreadable)
    case RestoreTmp => t.(bootTmp := t.swap)
    case EraseTmp => t.(bootTmp := Blank)
    case MarkBootTesting => t.(bootState := ImgTesting)
    case EraseUpdateTail => t.(updateState := ImgUnreadable)
    case Lock => t
  }

  /** Power lost during `op`: a copy or erase leaves its target sector with
      arbitrary contents `g` (an erased trailer reads back as state `gs`); a
      state write is atomic and has not happened. */
  function TearFinal(t: TailState, op: FinalOp, g: Sector, gs: ImgState): TailState {
    match op
    case SaveTmpToSwap => t.(swap := g)
    case EraseBootTail => t.(bootState := gs)
    case RestoreTmp => t.(bootTmp := g)
    case EraseTmp => t.(bootTmp := g)
    case EraseUpdateTail => t.(updateState := gs)
    case _ => t
  }

  function RunFinal(t: TailState, ops: seq<FinalOp>): TailState
    decreases |ops|
  {
    if |ops| == 0 then t else RunFinal(ApplyFinal(t, ops[0]), ops[1..])
  }

  lemma {:induction false} RunFinalAppend(t: TailState, a: seq<FinalOp>, b: seq<FinalOp>)
    ensures RunFinal(t, a + b) == RunFinal(RunFinal(t, a), b)
    decreases |a|
  {
    if |a| == 0 {
      assert a + b == b;
    } else {
      assert (a + b)[0] == a[0];
      assert (a + b)[1..] == a[1..] + b;
      RunFinalAppend(ApplyFinal(t, a[0]), a[1..], b);
    }
  }

  /** `states[i]` is the state after the first `i` operations. */
  lemma {:induction false} PrefixRuns(t: TailState, ops: seq<FinalOp>, states: seq<TailState>, k: nat)
    requires |states| == |ops| + 1 && states[0] == t && k <= |ops|
    requires forall i :: 0 <= i < |ops| ==> states[i + 1] == ApplyFinal(states[i], ops[i])
    ensures RunFinal(t, ops[..k]) == states[k]
    decreases k
  {
    if k > 0 {
      PrefixRuns(t, ops, states, k - 1);
      assert ops[..k] == ops[..k - 1] + [ops[k - 1]];
      RunFinalAppend(t, ops[..k - 1], [ops[k - 1]]);
      assert RunFinal(states[k - 1], [ops[k - 1]]) == ApplyFinal(states[k - 1], ops[k - 1]);
    }
  }

  lemma AllPrefixes(t: TailState, ops: seq<FinalOp>, states: seq<TailState>)
    requires |states| == |ops| + 1 && states[0] == t
    requires forall i :: 0 <= i < |ops| ==> states[i + 1] == ApplyFinal(states[i], ops[i])
    ensures forall k :: 0 <= k <= |ops| ==> RunFinal(t, ops[..k]) == states[k]
  {
    forall k | 0 <= k <= |ops|
      ensures RunFinal(t, ops[..k]) == states[k]
    {
      PrefixRuns(t, ops, states, k);
    }
  }

  /** The boot-side outcome of a completed final erase: the scratch sector is
      the saved one (or erased when it lies beyond the image) and the boot
      partition is TESTING. */
  predicate FinalDone(c: Config, t: TailState, saved: Sector, bootFw: uint32) {
    && t.bootTmp == (if TmpStep(c, bootFw) == RestoreTmp then saved else Blank)
    && t.bootState == ImgTesting
    && t.updateState != ImgFinalFlags
  }

  /** The state after the commit point (FINAL_FLAGS written): SWAP holds the
      saved sector and either the update state is still FINAL_FLAGS, so the
      next boot re-enters, or the boot side is already complete. */
  predicate Committed(c: Config, t: TailState, saved: Sector, bootFw: uint32) {
    t.swap == saved && (t.updateState == ImgFinalFlags || FinalDone(c, t, saved, bootFw))
  }

  /** The run of a fresh final erase (update state not FINAL_FLAGS),
      operation by operation. */
  lemma FreshRun(c: Config, t: TailState, bootFw: uint32) returns (ops: seq<FinalOp>, states: seq<TailState>)
    requires t.updateState != ImgFinalFlags
    ensures FinalErase(c, false, false, t.updateState, bootFw) == Ok(ops)
    ensures |ops| == 8 && |states| == 9
    ensures forall k :: 0 <= k <= 8 ==> RunFinal(t, ops[..k]) == states[k]
    ensures ops[1] == SaveTmpToSwap && ops[2] == SetUpdateFinal && ops[3] == EraseBootTail
    ensures ops[4] == TmpStep(c, bootFw) && ops[5] == MarkBootTesting && ops[6] == EraseUpdateTail
    ensures states[1] == t && states[2] == t.(swap := t.bootTmp) && states[3] == states[2].(updateState := ImgFinalFlags)
    ensures states[4] == states[3].(bootState := ImgUnreadable)
    ensures states[5] == ApplyFinal(states[4], ops[4]) && states[6] == states[5].(bootState := ImgTesting)
    ensures states[7] == states[6].(updateState := ImgUnreadable) && states[8] == states[7]
  {
    ops := FinalErase(c, false, false, t.updateState, bootFw).value;
    states := FreshSteps(t, ops, TmpStep(c, bootFw));
    AllPrefixes(t, ops, states);
  }

  /** The states a fresh final erase passes through, one per step. */
  lemma FreshSteps(t: TailState, ops: seq<FinalOp>, tmp: FinalOp) returns (states: seq<TailState>)
    requires ops == [Unlock, SaveTmpToSwap, SetUpdateFinal, EraseBootTail, tmp, MarkBootTesting, EraseUpdateTail, Lock]
    ensures |states| == 9 && states[0] == t
    ensures forall i :: 0 <= i < |ops| ==> states[i + 1] == ApplyFinal(states[i], ops[i])
    ensures states[1] == t && states[2] == t.(swap := t.bootTmp) && states[3] == states[2].(updateState := ImgFinalFlags)
    ensures states[4] == states[3].(bootState := ImgUnreadable)
    ensures states[5] == ApplyFinal(states[4], ops[4]) && states[6] == states[5].(bootState := ImgTesting)
    ensures states[7] == states[6].(updateState := ImgUnreadable) && states[8] == states[7]
  {
    var t1 := ApplyFinal(t, Unlock);
    var t2 := ApplyFinal(t1, SaveTmpToSwap);
    var t3 := ApplyFinal(t2, SetUpdateFinal);
    var t4 := ApplyFinal(t3, EraseBootTail);
    var t5 := ApplyFinal(t4, tmp);
    var t6 := ApplyFinal(t5, MarkBootTesting);
    var t7 := ApplyFinal(t6, EraseUpdateTail);
    var t8 := ApplyFinal(t7, Lock);
    states := [t, t1, t2, t3, t4, t5, t6, t7, t8];
    forall i | 0 <= i < |ops| ensures states[i + 1] == ApplyFinal(states[i], ops[i]) {
    }
  }

  /** The run of a re-entered final erase (update state FINAL_FLAGS),
      operation by operation. */
  lemma ResumedRun(c: Config, t: TailState, bootFw: uint32) returns (ops: seq<FinalOp>, states: seq<TailState>)
    requires t.updateState == ImgFinalFlags
    ensures FinalErase(c, true, false, t.updateState, bootFw) == Ok(ops)
    ensures |ops| == 6 && |states| == 7
    ensures forall k :: 0 <= k <= 6 ==> RunFinal(t, ops[..k]) == states[k]
    ensures ops[1] == EraseBootTail && ops[2] == TmpStep(c, bootFw) && ops[3] == MarkBootTesting
    ensures ops[4] == EraseUpdateTail
    ensures states[1] == t && states[2] == t.(bootState := ImgUnreadable)
    ensures states[3] == ApplyFinal(states[2], ops[2]) && states[4] == states[3].(bootState := ImgTesting)
    ensures states[5] == states[4].(updateState := ImgUnreadable) && states[6] == states[5]
  {
    ops := FinalErase(c, true, false, t.updateState, bootFw).value;
    var tmp := TmpStep(c, bootFw);
    assert ops == [Unlock, EraseBootTail, tmp, MarkBootTesting, EraseUpdateTail, Lock];
    var t1 := ApplyFinal(t, Unlock);
    var t2 := ApplyFinal(t1, EraseBootTail);
    var t3 := ApplyFinal(t2, tmp);
    var t4 := ApplyFinal(t3, MarkBootTesting);
    var t5 := ApplyFinal(t4, EraseUpdateTail);
    var t6 := ApplyFinal(t5, Lock);
    states := [t, t1, t2, t3, t4, t5, t6];
    assert forall i :: 0 <= i < |ops| ==> states[i + 1] == ApplyFinal(states[i], ops[i]) by {
      forall i | 0 <= i < |ops| ensures states[i + 1] == ApplyFinal(states[i], ops[i]) {
      }
    }
    AllPrefixes(t, ops, states);
  }

  /** An uninterrupted final erase started after the swap completes the
      boot side. */
  lemma FinalEraseCompletes(c: Config, t: TailState, bootFw: uint32)
    requires t.updateState != ImgFinalFlags
    ensures FinalErase(c, false, false, t.updateState, bootFw).Ok?
    ensures FinalDone(c, RunFinal(t, FinalErase(c, false, false, t.updateState, bootFw).value), t.bootTmp, bootFw)
  {
    var ops, states := FreshRun(c, t, bootFw);
    assert ops[..8] == ops;
  }

  /** Power lost at any point of the first final erase (after the swap
      loop). Before FINAL_FLAGS is written nothing on the boot side has
      changed and the next boot's resume call returns -1 without touching the
      flash; from FINAL_FLAGS on the state is committed. */
  lemma FinalEraseInterrupted(c: Config, t: TailState, bootFw: uint32, k: nat, g: Sector, gs: ImgState)
    requires t.updateState != ImgFinalFlags
    requires k < |FinalErase(c, false, false, t.updateState, bootFw).value|
    ensures var ops := FinalErase(c, false, false, t.updateState, bootFw).value;
      var x := TearFinal(RunFinal(t, ops[..k]), ops[k], g, gs);
      if k <= 2 then
        x.bootTmp == t.bootTmp && x.bootState == t.bootState && x.updateState == t.updateState
        && FinalErase(c, true, false, x.updateState, bootFw).Err?
      else
        Committed(c, x, t.bootTmp, bootFw)
  {
    var ops, states := FreshRun(c, t, bootFw);
    var x := TearFinal(states[k], ops[k], g, gs);
    if k == 0 {
      assert x == t;
    } else if k == 1 {
      assert x == t.(swap := g);
    } else if k == 2 {
      assert x == states[2];
    } else if k == 3 {
      assert x == states[3].(bootState := gs);
    } else if k == 4 {
      assert x == states[4].(bootTmp := g);
    } else if k == 5 {
      assert x == states[5];
    } else if k == 6 {
      assert x == states[6].(updateState := gs);
    } else {
      assert x == states[7];
    }
  }

  /** Re-entry after the commit point completes the boot side exactly as the
      first run would have. A resume that finds the update state already
      cleared returns -1 with the work done. */
  lemma FinalEraseResumes(c: Config, t: TailState, saved: Sector, bootFw: uint32)
    requires Committed(c, t, saved, bootFw)
    ensures FinalErase(c, true, false, t.updateState, bootFw).Err? ==> FinalDone(c, t, saved, bootFw)
    ensures FinalErase(c, true, false, t.updateState, bootFw).Ok? ==>
      FinalDone(c, RunFinal(t, FinalErase(c, true, false, t.updateState, bootFw).value), saved, bootFw)
  {
    if t.updateState == ImgFinalFlags {
      var ops, states := ResumedRun(c, t, bootFw);
      assert ops[..6] == ops;
    }
  }

  /** Every interruption of a re-entered final erase leaves the state
      committed, so any number of power losses after the commit point end in
      the same boot side. */
  lemma ResumeInterrupted(c: Config, t: TailState, saved: Sector, bootFw: uint32,
                          k: nat, g: Sector, gs: ImgState)
    requires Committed(c, t, saved, bootFw) && t.updateState == ImgFinalFlags
    requires k < |FinalErase(c, true, false, t.updateState, bootFw).value|
    ensures var ops := FinalErase(c, true, false, t.updateState, bootFw).value;
      Committed(c, TearFinal(RunFinal(t, ops[..k]), ops[k], g, gs), saved, bootFw)
  {
    var ops, states := ResumedRun(c, t, bootFw);
    var x := TearFinal(states[k], ops[k], g, gs);
    if k == 0 {
      assert x == t;
    } else if k == 1 {
      assert x == t.(bootState := gs);
    } else if k == 2 {
      assert x == states[2].(bootTmp := g);
    } else if k == 3 {
      assert x == states[3];
    } else if k == 4 {
      assert x == states[4].(updateState := gs);
    } else {
      assert x == states[5];
    }
  }
}
