/** The bytes squashelf writes (tools/squashelf/squashelf.c, steps 2 to 5
    of the output): the updated file header, the program header table
    right after it, each segment's data at its new offset and, unless
    `-n`, one all-zero section header at the SHT offset. A `write` past
    the current end, after an `lseek`, leaves zero bytes in the gap. */
module SquashOutput {
  import opened Base
  import opened ElfFormat
  import opened SquashElf

  // ---------------------------------------------------------------------
  // Building the output
  // ---------------------------------------------------------------------

  /** The input's file header with the fields squashelf updates written
      over it. */
  function HeaderBytes(file: seq<uint8>, cls: ElfClass, h: FileHeader): (r: seq<uint8>)
    requires |file| >= HeaderSize(cls)
    requires h.phoff < Width(cls) && h.shoff < Width(cls)
    requires h.phnum < 0x1_0000 && h.shnum < 0x1_0000 && h.shstrndx < 0x1_0000
    ensures |r| == HeaderSize(cls)
  {
    var b0 := file[..HeaderSize(cls)];
    var b1 := Splice(b0, PhoffOff(cls), ToLE(h.phoff, Word(cls)));
    var b2 := Splice(b1, PhnumOff(cls), ToLE(h.phnum, 2));
    var b3 := Splice(b2, ShoffOff(cls), ToLE(h.shoff, Word(cls)));
    var b4 := Splice(b3, ShnumOff(cls), ToLE(h.shnum, 2));
    Splice(b4, ShstrndxOff(cls), ToLE(h.shstrndx, 2))
  }

  /** The program header table: the entries one after the other, each
      `sizeof` its class. */
  function Pht(phs: seq<ProgHeader>, cls: ElfClass): (r: seq<uint8>)
    requires AllFit(phs, cls)
  {
    if |phs| == 0 then [] else EncodePh(phs[0], cls) + Pht(phs[1..], cls)
  }

  /** The data of the first `m` segments written over `base`: segment `k`
      is read from its input offset and written at its new one; a segment
      without file bytes writes nothing. */
  function WriteSegments(base: seq<uint8>, file: seq<uint8>, segs: seq<ProgHeader>, placed: seq<ProgHeader>, m: nat)
    : (r: seq<uint8>)
    requires m <= |segs| == |placed|
    ensures |base| <= |r|
  {
    if m == 0 then base
    else
      var prev := WriteSegments(base, file, segs, placed, m - 1);
      var ph := placed[m - 1];
      if ph.filesz > 0 then Splice(prev, ph.offset, Window(file, segs[m - 1].offset, ph.filesz)) else prev
  }

  /** What the plan needs so that its fields can be written. */
  predicate Emittable(file: seq<uint8>, p: Plan) {
    && |file| >= HeaderSize(p.cls)
    && |p.segments| == |p.placed|
    && AllFit(p.placed, p.cls)
    && p.header.phoff < Width(p.cls) && p.header.shoff < Width(p.cls)
    && p.header.phnum < 0x1_0000 && p.header.shnum < 0x1_0000 && p.header.shstrndx < 0x1_0000
  }

  /** The output file of a plan. */
  function Emit(file: seq<uint8>, p: Plan): (r: seq<uint8>)
    requires Emittable(file, p)
    ensures |r| >= HeaderSize(p.cls)
  {
    var base := HeaderBytes(file, p.cls, p.header) + Pht(p.placed, p.cls);
    var body := WriteSegments(base, file, p.segments, p.placed, |p.placed|);
    if p.sht.Some? then Splice(body, p.sht.value, Zeros(ShSize(p.cls))) else body
  }

  /** A successful plan can be written. */
  lemma PlanEmittable(file: seq<uint8>, opts: Options, rule: RangeRule, p: Plan)
    requires MakePlan(file, opts, rule) == Ok(p)
    ensures Emittable(file, p)
  {
    PlanParts(file, opts, rule, p);
    PlacedFit(file, opts, rule, p);
    assert Pow256(4) == 0x1_0000_0000;
    assert HeaderSize(p.cls) < Width(p.cls);
  }

  /** squashelf on one input file: the output bytes, or why it fails. */
  function Squash(file: seq<uint8>, opts: Options, rule: RangeRule): (r: Result<seq<uint8>, Failure>)
    ensures r.Err? <==> MakePlan(file, opts, rule).Err?
    ensures r.Err? ==> r.error == MakePlan(file, opts, rule).error
  {
    match MakePlan(file, opts, rule)
    case Err(e) => Err(e)
    case Ok(p) =>
      PlanEmittable(file, opts, rule, p);
      Ok(Emit(file, p))
  }

  // ---------------------------------------------------------------------
  // Bytes that agree
  // ---------------------------------------------------------------------

  /** The first `n` bytes of `s` and `t` are the same. */
  predicate AgreeBelow(s: seq<uint8>, t: seq<uint8>, n: nat) {
    forall i :: 0 <= i < n ==> ByteAt(s, i) == ByteAt(t, i)
  }

  lemma FieldBelow(s: seq<uint8>, t: seq<uint8>, n: nat, off: nat, w: nat)
    requires AgreeBelow(s, t, n) && off + w <= n
    ensures Field(s, off, w) == Field(t, off, w)
  {
    assert Window(s, off, w) == Window(t, off, w);
  }

  lemma SpliceAbove(s: seq<uint8>, at: nat, b: seq<uint8>, n: nat)
    requires n <= at
    ensures AgreeBelow(Splice(s, at, b), s, n)
  {
  }

  lemma AgreeTrans(s: seq<uint8>, t: seq<uint8>, u: seq<uint8>, n: nat)
    requires AgreeBelow(s, t, n) && AgreeBelow(t, u, n)
    ensures AgreeBelow(s, u, n)
  {
  }

  /** A file header is read from its first bytes only. */
  lemma HeaderBelow(s: seq<uint8>, t: seq<uint8>, cls: ElfClass)
    requires AgreeBelow(s, t, HeaderSize(cls))
    ensures DecodeHeader(s, cls) == DecodeHeader(t, cls)
  {
    var n := HeaderSize(cls);
    FieldBelow(s, t, n, TypeOff(cls), 2);
    FieldBelow(s, t, n, EntryOff(cls), Word(cls));
    FieldBelow(s, t, n, PhoffOff(cls), Word(cls));
    FieldBelow(s, t, n, ShoffOff(cls), Word(cls));
    FieldBelow(s, t, n, PhentsizeOff(cls), 2);
    FieldBelow(s, t, n, PhnumOff(cls), 2);
    FieldBelow(s, t, n, ShnumOff(cls), 2);
    FieldBelow(s, t, n, ShstrndxOff(cls), 2);
  }

  /** A program header is read from its own bytes only. */
  lemma PhBelow(s: seq<uint8>, t: seq<uint8>, n: nat, at: nat, cls: ElfClass)
    requires AgreeBelow(s, t, n) && at + PhSize(cls) <= n
    ensures DecodePh(s, at, cls) == DecodePh(t, at, cls)
  {
    var w := Word(cls);
    match cls
    case Elf32 =>
      FieldBelow(s, t, n, at, 4);
      FieldBelow(s, t, n, at + 4, 4);
      FieldBelow(s, t, n, at + 8, 4);
      FieldBelow(s, t, n, at + 12, 4);
      FieldBelow(s, t, n, at + 16, 4);
      FieldBelow(s, t, n, at + 20, 4);
      FieldBelow(s, t, n, at + 24, 4);
      FieldBelow(s, t, n, at + 28, 4);
    case Elf64 =>
      FieldBelow(s, t, n, at, 4);
      FieldBelow(s, t, n, at + 4, 4);
      FieldBelow(s, t, n, at + 8, 8);
      FieldBelow(s, t, n, at + 16, 8);
      FieldBelow(s, t, n, at + 24, 8);
      FieldBelow(s, t, n, at + 32, 8);
      FieldBelow(s, t, n, at + 40, 8);
      FieldBelow(s, t, n, at + 48, 8);
  }

  // ---------------------------------------------------------------------
  // The header and the program header table read back
  // ---------------------------------------------------------------------

  /** The identification bytes are the input's. */
  lemma HeaderBytesIdent(file: seq<uint8>, cls: ElfClass, h: FileHeader)
    requires |file| >= HeaderSize(cls)
    requires h.phoff < Width(cls) && h.shoff < Width(cls)
    requires h.phnum < 0x1_0000 && h.shnum < 0x1_0000 && h.shstrndx < 0x1_0000
    ensures AgreeBelow(HeaderBytes(file, cls, h), file, IDENT_SIZE)
  {
    var b0 := file[..HeaderSize(cls)];
    var b1 := Splice(b0, PhoffOff(cls), ToLE(h.phoff, Word(cls)));
    var b2 := Splice(b1, PhnumOff(cls), ToLE(h.phnum, 2));
    var b3 := Splice(b2, ShoffOff(cls), ToLE(h.shoff, Word(cls)));
    var b4 := Splice(b3, ShnumOff(cls), ToLE(h.shnum, 2));
    SpliceAbove(b0, PhoffOff(cls), ToLE(h.phoff, Word(cls)), IDENT_SIZE);
    SpliceAbove(b1, PhnumOff(cls), ToLE(h.phnum, 2), IDENT_SIZE);
    SpliceAbove(b2, ShoffOff(cls), ToLE(h.shoff, Word(cls)), IDENT_SIZE);
    SpliceAbove(b3, ShnumOff(cls), ToLE(h.shnum, 2), IDENT_SIZE);
    SpliceAbove(b4, ShstrndxOff(cls), ToLE(h.shstrndx, 2), IDENT_SIZE);
  }

  /** The fields squashelf keeps read as in the input. */
  lemma HeaderBytesKept(file: seq<uint8>, cls: ElfClass, h: FileHeader)
    requires |file| >= HeaderSize(cls)
    requires h.phoff < Width(cls) && h.shoff < Width(cls)
    requires h.phnum < 0x1_0000 && h.shnum < 0x1_0000 && h.shstrndx < 0x1_0000
    ensures var r := HeaderBytes(file, cls, h);
      var g := DecodeHeader(file, cls);
      && Field(r, TypeOff(cls), 2) == g.etype
      && Field(r, EntryOff(cls), Word(cls)) == g.entry
      && Field(r, PhentsizeOff(cls), 2) == g.phentsize
  {
    FieldUntouched(file, cls, h, TypeOff(cls), 2);
    FieldUntouched(file, cls, h, EntryOff(cls), Word(cls));
    FieldUntouched(file, cls, h, PhentsizeOff(cls), 2);
  }

  /** `[off, off + w)` and `[at, at + n)` do not overlap. */
  predicate Apart(off: nat, w: nat, at: nat, n: nat) {
    off + w <= at || at + n <= off
  }

  /** A header field apart from every updated one reads as in the input. */
  lemma FieldUntouched(file: seq<uint8>, cls: ElfClass, h: FileHeader, off: nat, w: nat)
    requires |file| >= HeaderSize(cls)
    requires h.phoff < Width(cls) && h.shoff < Width(cls)
    requires h.phnum < 0x1_0000 && h.shnum < 0x1_0000 && h.shstrndx < 0x1_0000
    requires off + w <= HeaderSize(cls)
    requires Apart(off, w, PhoffOff(cls), Word(cls)) && Apart(off, w, PhnumOff(cls), 2)
    requires Apart(off, w, ShoffOff(cls), Word(cls)) && Apart(off, w, ShnumOff(cls), 2)
    requires Apart(off, w, ShstrndxOff(cls), 2)
    ensures Field(HeaderBytes(file, cls, h), off, w) == Field(file, off, w)
  {
    var b0 := file[..HeaderSize(cls)];
    var b1 := Splice(b0, PhoffOff(cls), ToLE(h.phoff, Word(cls)));
    var b2 := Splice(b1, PhnumOff(cls), ToLE(h.phnum, 2));
    var b3 := Splice(b2, ShoffOff(cls), ToLE(h.shoff, Word(cls)));
    var b4 := Splice(b3, ShnumOff(cls), ToLE(h.shnum, 2));
    assert AgreeBelow(b0, file, HeaderSize(cls));
    FieldBelow(b0, file, HeaderSize(cls), off, w);
    FieldOutsideSplice(b0, PhoffOff(cls), ToLE(h.phoff, Word(cls)), off, w);
    FieldOutsideSplice(b1, PhnumOff(cls), ToLE(h.phnum, 2), off, w);
    FieldOutsideSplice(b2, ShoffOff(cls), ToLE(h.shoff, Word(cls)), off, w);
    FieldOutsideSplice(b3, ShnumOff(cls), ToLE(h.shnum, 2), off, w);
    FieldOutsideSplice(b4, ShstrndxOff(cls), ToLE(h.shstrndx, 2), off, w);
  }

  /** The fields squashelf updates read back as written. */
  lemma HeaderBytesUpdated(file: seq<uint8>, cls: ElfClass, h: FileHeader)
    requires |file| >= HeaderSize(cls)
    requires h.phoff < Width(cls) && h.shoff < Width(cls)
    requires h.phnum < 0x1_0000 && h.shnum < 0x1_0000 && h.shstrndx < 0x1_0000
    ensures var r := HeaderBytes(file, cls, h);
      && Field(r, PhoffOff(cls), Word(cls)) == h.phoff
      && Field(r, PhnumOff(cls), 2) == h.phnum
      && Field(r, ShoffOff(cls), Word(cls)) == h.shoff
      && Field(r, ShnumOff(cls), 2) == h.shnum
      && Field(r, ShstrndxOff(cls), 2) == h.shstrndx
  {
    var b0 := file[..HeaderSize(cls)];
    var b1 := Splice(b0, PhoffOff(cls), ToLE(h.phoff, Word(cls)));
    var b2 := Splice(b1, PhnumOff(cls), ToLE(h.phnum, 2));
    var b3 := Splice(b2, ShoffOff(cls), ToLE(h.shoff, Word(cls)));
    var b4 := Splice(b3, ShnumOff(cls), ToLE(h.shnum, 2));
    var r := HeaderBytes(file, cls, h);
    assert Pow256(2) == 0x1_0000;
    FieldOfSplice(b0, PhoffOff(cls), h.phoff, Word(cls));
    FieldOutsideSplice(b1, PhnumOff(cls), ToLE(h.phnum, 2), PhoffOff(cls), Word(cls));
    FieldOutsideSplice(b2, ShoffOff(cls), ToLE(h.shoff, Word(cls)), PhoffOff(cls), Word(cls));
    FieldOutsideSplice(b3, ShnumOff(cls), ToLE(h.shnum, 2), PhoffOff(cls), Word(cls));
    FieldOutsideSplice(b4, ShstrndxOff(cls), ToLE(h.shstrndx, 2), PhoffOff(cls), Word(cls));
    FieldOfSplice(b1, PhnumOff(cls), h.phnum, 2);
    FieldOutsideSplice(b2, ShoffOff(cls), ToLE(h.shoff, Word(cls)), PhnumOff(cls), 2);
    FieldOutsideSplice(b3, ShnumOff(cls), ToLE(h.shnum, 2), PhnumOff(cls), 2);
    FieldOutsideSplice(b4, ShstrndxOff(cls), ToLE(h.shstrndx, 2), PhnumOff(cls), 2);
    FieldOfSplice(b2, ShoffOff(cls), h.shoff, Word(cls));
    FieldOutsideSplice(b3, ShnumOff(cls), ToLE(h.shnum, 2), ShoffOff(cls), Word(cls));
    FieldOutsideSplice(b4, ShstrndxOff(cls), ToLE(h.shstrndx, 2), ShoffOff(cls), Word(cls));
    FieldOfSplice(b3, ShnumOff(cls), h.shnum, 2);
    FieldOutsideSplice(b4, ShstrndxOff(cls), ToLE(h.shstrndx, 2), ShnumOff(cls), 2);
    FieldOfSplice(b4, ShstrndxOff(cls), h.shstrndx, 2);
  }

  /** The header bytes decode to the input's header with the updated
      fields. */
  lemma HeaderBytesDecode(file: seq<uint8>, cls: ElfClass, h: FileHeader)
    requires |file| >= HeaderSize(cls)
    requires h.phoff < Width(cls) && h.shoff < Width(cls)
    requires h.phnum < 0x1_0000 && h.shnum < 0x1_0000 && h.shstrndx < 0x1_0000
    requires var g := DecodeHeader(file, cls); h.etype == g.etype && h.entry == g.entry && h.phentsize == g.phentsize
    ensures DecodeHeader(HeaderBytes(file, cls, h), cls) == h
  {
    HeaderBytesKept(file, cls, h);
    HeaderBytesUpdated(file, cls, h);
  }

  lemma {:induction false} PhtLength(phs: seq<ProgHeader>, cls: ElfClass)
    requires AllFit(phs, cls)
    ensures |Pht(phs, cls)| == |phs| * PhSize(cls)
    decreases |phs|
  {
    if |phs| > 0 {
      EncodePhLength(phs[0], cls);
      PhtLength(phs[1..], cls);
    }
  }

  /** Entry `k` of the table sits after the first `k` entries. */
  lemma {:induction false} PhtSplit(phs: seq<ProgHeader>, cls: ElfClass, k: nat)
    requires AllFit(phs, cls) && k < |phs|
    ensures Pht(phs, cls) == Pht(phs[..k], cls) + EncodePh(phs[k], cls) + Pht(phs[k + 1..], cls)
    decreases k
  {
    if k == 0 {
      assert phs[..0] == [];
    } else {
      var tail := phs[1..];
      PhtSplit(tail, cls, k - 1);
      PhtFront(phs, cls, k);
      assert tail[k - 1] == phs[k] && tail[k..] == phs[k + 1..];
      var head, a, e, c := EncodePh(phs[0], cls), Pht(tail[..k - 1], cls), EncodePh(phs[k], cls), Pht(phs[k + 1..], cls);
      assert Pht(phs, cls) == head + (a + e + c);
      Regroup(head, a, e, c);
    }
  }

  /** The table of the first `k` entries starts with the first entry. */
  lemma PhtFront(phs: seq<ProgHeader>, cls: ElfClass, k: nat)
    requires AllFit(phs, cls) && 0 < k <= |phs|
    ensures AllFit(phs[1..][..k - 1], cls)
    ensures Pht(phs[..k], cls) == EncodePh(phs[0], cls) + Pht(phs[1..][..k - 1], cls)
  {
    var front := phs[..k];
    assert front[0] == phs[0];
    assert front[1..] == phs[1..][..k - 1];
  }

  /** Where entry `k` of the output's program header table starts. */
  function EntryAt(cls: ElfClass, k: nat): nat {
    HeaderSize(cls) + k * PhSize(cls)
  }

  /** Entry `k` of the table reads back from `HeaderSize + k * PhSize`. */
  lemma PhtReadsBack(hdr: seq<uint8>, phs: seq<ProgHeader>, cls: ElfClass, k: nat, at: nat)
    requires AllFit(phs, cls) && k < |phs| && at == |hdr| + k * PhSize(cls)
    ensures DecodePh(hdr + Pht(phs, cls), at, cls) == phs[k]
  {
    var a := Pht(phs[..k], cls);
    var e := EncodePh(phs[k], cls);
    var c := Pht(phs[k + 1..], cls);
    PhtSplit(phs, cls, k);
    PhtLength(phs[..k], cls);
    assert |hdr + a| == |hdr| + k * PhSize(cls);
    Regroup(hdr, a, e, c);
    var whole := hdr + Pht(phs, cls);
    assert whole == (hdr + a) + e + c;
    DecodeEncodePh(phs[k], cls, hdr + a, c);
    assert at == |hdr + a|;
    assert DecodePh(whole, at, cls) == phs[k];
  }

  lemma Regroup(x: seq<uint8>, a: seq<uint8>, e: seq<uint8>, c: seq<uint8>)
    ensures x + (a + e + c) == (x + a) + e + c
  {
  }

  /** Any file that starts with a header and a table reads the table's
      entries back. */
  lemma PrefixPht(out: seq<uint8>, hdr: seq<uint8>, phs: seq<ProgHeader>, cls: ElfClass, k: nat, at: nat)
    requires AllFit(phs, cls) && k < |phs| && at == |hdr| + k * PhSize(cls)
    requires AgreeBelow(out, hdr + Pht(phs, cls), |hdr| + |phs| * PhSize(cls))
    ensures DecodePh(out, at, cls) == phs[k]
  {
    var t := hdr + Pht(phs, cls);
    var n := |hdr| + |phs| * PhSize(cls);
    EntryInside(|hdr|, k, |phs|, PhSize(cls));
    PhBelow(out, t, n, at, cls);
    PhtReadsBack(hdr, phs, cls, k, at);
  }

  /** Entry `k` of a table of `count` entries ends inside the table. */
  lemma EntryInside(base: nat, k: nat, count: nat, size: nat)
    requires k < count
    ensures base + k * size + size <= base + count * size
  {
    MulMonotone(size, k + 1, count);
  }

  /** Any file that starts with the header bytes reads as the input's
      class and the updated header. */
  lemma PrefixHeader(out: seq<uint8>, file: seq<uint8>, cls: ElfClass, h: FileHeader)
    requires ReadClass(file) == Ok(cls) && |out| >= HeaderSize(cls)
    requires h.phoff < Width(cls) && h.shoff < Width(cls)
    requires h.phnum < 0x1_0000 && h.shnum < 0x1_0000 && h.shstrndx < 0x1_0000
    requires var g := DecodeHeader(file, cls); h.etype == g.etype && h.entry == g.entry && h.phentsize == g.phentsize
    requires AgreeBelow(out, HeaderBytes(file, cls, h), HeaderSize(cls))
    ensures ReadClass(out) == Ok(cls)
    ensures DecodeHeader(out, cls) == h
  {
    var hdr := HeaderBytes(file, cls, h);
    HeaderBelow(out, hdr, cls);
    HeaderBytesDecode(file, cls, h);
    HeaderBytesIdent(file, cls, h);
    AgreeTrans(out, hdr, file, IDENT_SIZE);
    SameIdentClass(out, file, cls);
  }

  /** The class is read from the identification bytes alone. */
  lemma SameIdentClass(out: seq<uint8>, file: seq<uint8>, cls: ElfClass)
    requires ReadClass(file) == Ok(cls) && |out| >= HeaderSize(cls)
    requires AgreeBelow(out, file, IDENT_SIZE)
    ensures ReadClass(out) == Ok(cls)
  {
    assert Window(out, 0, 4) == Window(file, 0, 4);
    assert ByteAt(out, CLASS_OFF) == ByteAt(file, CLASS_OFF);
  }

  // ---------------------------------------------------------------------
  // Segment data and the SHT
  // ---------------------------------------------------------------------

  /** Writes at or above `n` leave the first `n` bytes alone. */
  lemma {:induction false} WritesAbove(base: seq<uint8>, file: seq<uint8>, segs: seq<ProgHeader>, placed: seq<ProgHeader>,
                                        m: nat, n: nat)
    requires m <= |segs| == |placed|
    requires forall k :: 0 <= k < m ==> n <= placed[k].offset
    ensures AgreeBelow(WriteSegments(base, file, segs, placed, m), base, n)
  {
    if m > 0 {
      WritesAbove(base, file, segs, placed, m - 1, n);
      var prev := WriteSegments(base, file, segs, placed, m - 1);
      var ph := placed[m - 1];
      if ph.filesz > 0 {
        SpliceAbove(prev, ph.offset, Window(file, segs[m - 1].offset, ph.filesz), n);
      }
    }
  }

  /** Segment `j`'s data stays where it was written while every later
      segment is written after it. */
  lemma {:induction false} SegmentReadsBack(base: seq<uint8>, file: seq<uint8>, segs: seq<ProgHeader>,
                                             placed: seq<ProgHeader>, m: nat, j: nat, i: nat)
    requires j < m <= |segs| == |placed| && placed[j].filesz > 0
    requires forall l :: j < l < m ==> placed[j].offset + placed[j].filesz <= placed[l].offset
    requires placed[j].offset <= i < placed[j].offset + placed[j].filesz
    ensures ByteAt(WriteSegments(base, file, segs, placed, m), i) == ByteAt(file, segs[j].offset + (i - placed[j].offset))
  {
    var prev := WriteSegments(base, file, segs, placed, m - 1);
    var ph := placed[m - 1];
    var data := Window(file, segs[m - 1].offset, ph.filesz);
    if m - 1 == j {
      SpliceReads(prev, ph.offset, data, i);
    } else {
      SegmentReadsBack(base, file, segs, placed, m - 1, j, i);
      if ph.filesz > 0 {
        SpliceReads(prev, ph.offset, data, i);
      }
    }
  }

  /** The writes end where the last segment ends, or where `base` does. */
  lemma {:induction false} WritesLength(base: seq<uint8>, file: seq<uint8>, segs: seq<ProgHeader>, placed: seq<ProgHeader>,
                                         m: nat, hi: nat)
    requires m <= |segs| == |placed| && |base| <= hi
    requires forall k :: 0 <= k < m ==> placed[k].offset + placed[k].filesz <= hi
    ensures |WriteSegments(base, file, segs, placed, m)| <= hi
  {
    if m > 0 {
      WritesLength(base, file, segs, placed, m - 1, hi);
    }
  }

  // ---------------------------------------------------------------------
  // The output file
  // ---------------------------------------------------------------------

  /** Every offset of the plan fits its field, so nothing is truncated. */
  predicate Fits(p: Plan) {
    LayoutEnd(p.segments, FirstOffset(p.cls, |p.segments|)) + 8 < Width(p.cls)
  }

  /** The output of a successful plan. */
  lemma SquashIsEmit(file: seq<uint8>, opts: Options, rule: RangeRule, p: Plan)
    requires MakePlan(file, opts, rule) == Ok(p)
    ensures Emittable(file, p) && Squash(file, opts, rule) == Ok(Emit(file, p))
  {
    PlanEmittable(file, opts, rule, p);
  }

  /** The first bytes of the output, up to the first segment, are the
      header and the program header table. */
  lemma EmitPrefix(file: seq<uint8>, p: Plan, start: nat, end: nat)
    requires Emittable(file, p)
    requires Laid(p.placed, start, end) && (p.sht.Some? ==> end <= p.sht.value) && start <= end
    ensures AgreeBelow(Emit(file, p), HeaderBytes(file, p.cls, p.header) + Pht(p.placed, p.cls), start)
  {
    var base := HeaderBytes(file, p.cls, p.header) + Pht(p.placed, p.cls);
    var body := WriteSegments(base, file, p.segments, p.placed, |p.placed|);
    WritesAbove(base, file, p.segments, p.placed, |p.placed|, start);
    if p.sht.Some? {
      SpliceAbove(body, p.sht.value, Zeros(ShSize(p.cls)), start);
      AgreeTrans(Emit(file, p), body, base, start);
    }
  }

  /** The plan's layout facts, in the form the read-back lemmas use. */
  lemma PlanPrefix(file: seq<uint8>, opts: Options, rule: RangeRule, p: Plan)
    requires MakePlan(file, opts, rule) == Ok(p) && Fits(p)
    ensures Emittable(file, p) && ReadClass(file) == Ok(p.cls)
    ensures var start := FirstOffset(p.cls, |p.segments|);
      AgreeBelow(Emit(file, p), HeaderBytes(file, p.cls, p.header) + Pht(p.placed, p.cls), start)
  {
    PlanEmittable(file, opts, rule, p);
    PlanLayout(file, opts, rule, p);
    var start := FirstOffset(p.cls, |p.segments|);
    EmitPrefix(file, p, start, LayoutEnd(p.segments, start));
  }

  /** squashelf reads its own output back: the same class, and the file
      header the plan describes. */
  lemma SquashedHeader(file: seq<uint8>, opts: Options, rule: RangeRule, p: Plan, out: seq<uint8>)
    requires MakePlan(file, opts, rule) == Ok(p) && Squash(file, opts, rule) == Ok(out) && Fits(p)
    ensures ReadClass(out) == Ok(p.cls)
    ensures DecodeHeader(out, p.cls) == p.header
  {
    SquashIsEmit(file, opts, rule, p);
    PlanPrefix(file, opts, rule, p);
    var hdr := HeaderBytes(file, p.cls, p.header);
    var base := hdr + Pht(p.placed, p.cls);
    assert AgreeBelow(out, base, HeaderSize(p.cls));
    assert AgreeBelow(base, hdr, HeaderSize(p.cls));
    AgreeTrans(out, base, hdr, HeaderSize(p.cls));
    PrefixHeader(out, file, p.cls, p.header);
  }

  /** Entry `k` of the output's program header table is the plan's `k`-th
      placed segment. */
  lemma SquashedPht(file: seq<uint8>, opts: Options, rule: RangeRule, p: Plan, out: seq<uint8>, k: nat)
    requires MakePlan(file, opts, rule) == Ok(p) && Squash(file, opts, rule) == Ok(out) && Fits(p)
    requires k < |p.placed|
    ensures DecodePh(out, EntryAt(p.cls, k), p.cls) == p.placed[k]
  {
    SquashIsEmit(file, opts, rule, p);
    PlanPrefix(file, opts, rule, p);
    EmitPht(file, p, k);
  }

  lemma EmitPht(file: seq<uint8>, p: Plan, k: nat)
    requires Emittable(file, p) && k < |p.placed|
    requires AgreeBelow(Emit(file, p), HeaderBytes(file, p.cls, p.header) + Pht(p.placed, p.cls),
                        FirstOffset(p.cls, |p.segments|))
    ensures DecodePh(Emit(file, p), EntryAt(p.cls, k), p.cls) == p.placed[k]
  {
    var hdr := HeaderBytes(file, p.cls, p.header);
    PrefixPht(Emit(file, p), hdr, p.placed, p.cls, k, EntryAt(p.cls, k));
  }

  /** Each segment's file bytes are in the output at its new offset. */
  lemma SquashedSegment(file: seq<uint8>, opts: Options, rule: RangeRule, p: Plan, out: seq<uint8>, k: nat, i: nat)
    requires MakePlan(file, opts, rule) == Ok(p) && Squash(file, opts, rule) == Ok(out) && Fits(p)
    requires k < |p.placed| && i < p.placed[k].filesz
    ensures p.placed[k].filesz == p.segments[k].filesz
    ensures ByteAt(out, p.placed[k].offset + i) == file[p.segments[k].offset + i]
  {
    SquashIsEmit(file, opts, rule, p);
    PlanLayout(file, opts, rule, p);
    var start := FirstOffset(p.cls, |p.segments|);
    LaidAfter(p.placed, start, LayoutEnd(p.segments, start), k);
    EmitSegment(file, p, k, i);
    assert out == Emit(file, p);
    assert p.placed[k] == p.segments[k].(offset := p.placed[k].offset);
    assert MakePlan(file, opts, rule).value.segments == p.segments;
    assert Readable(file, p.segments);
  }

  /** A segment's file bytes are in the output when every later segment
      and the section header table lie after it. */
  lemma EmitSegment(file: seq<uint8>, p: Plan, k: nat, i: nat)
    requires Emittable(file, p)
    requires k < |p.placed| && i < p.placed[k].filesz
    requires forall l :: k < l < |p.placed| ==> p.placed[k].offset + p.placed[k].filesz <= p.placed[l].offset
    requires p.sht.Some? ==> p.placed[k].offset + p.placed[k].filesz <= p.sht.value
    ensures ByteAt(Emit(file, p), p.placed[k].offset + i) == ByteAt(file, p.segments[k].offset + i)
  {
    var base := HeaderBytes(file, p.cls, p.header) + Pht(p.placed, p.cls);
    var a := p.placed[k].offset + i;
    SegmentReadsBack(base, file, p.segments, p.placed, |p.placed|, k, a);
    EmitBelowSht(file, p, a);
  }

  /** A laid-out segment ends before the next ones start and inside the bound. */
  lemma LaidAfter(out: seq<ProgHeader>, lo: nat, hi: nat, k: nat)
    requires Laid(out, lo, hi) && k < |out|
    ensures out[k].offset + out[k].filesz <= hi
    ensures forall l :: k < l < |out| ==> out[k].offset + out[k].filesz <= out[l].offset
  {
  }

  /** Below the section header table the output is the written segments. */
  lemma EmitBelowSht(file: seq<uint8>, p: Plan, a: nat)
    requires Emittable(file, p) && (p.sht.Some? ==> a < p.sht.value)
    ensures ByteAt(Emit(file, p), a) ==
      ByteAt(WriteSegments(HeaderBytes(file, p.cls, p.header) + Pht(p.placed, p.cls), file, p.segments, p.placed, |p.placed|), a)
  {
    if p.sht.Some? {
      var base := HeaderBytes(file, p.cls, p.header) + Pht(p.placed, p.cls);
      SpliceReads(WriteSegments(base, file, p.segments, p.placed, |p.placed|), p.sht.value, Zeros(ShSize(p.cls)), a);
    }
  }

  /** Where the output ends: after the SHT, or not past the segments. */
  lemma EmitEnd(file: seq<uint8>, p: Plan, start: nat, end: nat)
    requires Emittable(file, p)
    requires Laid(p.placed, start, end) && (p.sht.Some? ==> end <= p.sht.value)
    requires start == HeaderSize(p.cls) + |p.placed| * PhSize(p.cls) && start <= end
    ensures p.sht.Some? ==> (|Emit(file, p)| == p.sht.value + ShSize(p.cls) &&
      Window(Emit(file, p), p.sht.value, ShSize(p.cls)) == Zeros(ShSize(p.cls)))
    ensures p.sht.None? ==> |Emit(file, p)| <= end
  {
    var base := HeaderBytes(file, p.cls, p.header) + Pht(p.placed, p.cls);
    PhtLength(p.placed, p.cls);
    var body := WriteSegments(base, file, p.segments, p.placed, |p.placed|);
    WritesLength(base, file, p.segments, p.placed, |p.placed|, end);
    if p.sht.Some? {
      var z := Zeros(ShSize(p.cls));
      forall j | 0 <= j < ShSize(p.cls) ensures Window(Emit(file, p), p.sht.value, ShSize(p.cls))[j] == z[j] {
        SpliceReads(body, p.sht.value, z, p.sht.value + j);
      }
    }
  }

  /** With a section header table the output ends with one all-zero
      section header at the SHT offset; without, it ends with the last
      segment's data (or the program header table). */
  lemma SquashedSht(file: seq<uint8>, opts: Options, rule: RangeRule, p: Plan, out: seq<uint8>)
    requires MakePlan(file, opts, rule) == Ok(p) && Squash(file, opts, rule) == Ok(out) && Fits(p)
    ensures p.sht.Some? ==>
      (|out| == p.sht.value + ShSize(p.cls) && Window(out, p.sht.value, ShSize(p.cls)) == Zeros(ShSize(p.cls)))
    ensures p.sht.None? ==> |out| <= LayoutEnd(p.segments, FirstOffset(p.cls, |p.segments|))
  {
    SquashIsEmit(file, opts, rule, p);
    PlanLayout(file, opts, rule, p);
    var start := FirstOffset(p.cls, |p.segments|);
    EmitEnd(file, p, start, LayoutEnd(p.segments, start));
  }

  /** The output is at least as long as its header and table. */
  lemma EmitCoversTable(file: seq<uint8>, p: Plan)
    requires Emittable(file, p)
    ensures |Emit(file, p)| >= EntryAt(p.cls, |p.placed|)
  {
    PhtLength(p.placed, p.cls);
  }

  /** squashelf's own reader, given the output, finds the placed segments
      in order, provided the input's `ph_entry_size` is the size of its
      class's program header (the output keeps that field while its table
      always uses the class's size). */
  lemma SquashedEntries(file: seq<uint8>, opts: Options, rule: RangeRule, p: Plan, out: seq<uint8>, k: nat)
    requires MakePlan(file, opts, rule) == Ok(p) && Squash(file, opts, rule) == Ok(out) && Fits(p)
    requires DecodeHeader(file, p.cls).phentsize == PhSize(p.cls)
    requires k < |p.placed|
    ensures ReadEntry(out, p.cls, DecodeHeader(out, p.cls), k) == Some(p.placed[k])
  {
    SquashedHeader(file, opts, rule, p, out);
    SquashedPht(file, opts, rule, p, out, k);
    SquashIsEmit(file, opts, rule, p);
    EmitCoversTable(file, p);
    PlanParts(file, opts, rule, p);
    TableEntryRead(out, p.cls, DecodeHeader(out, p.cls), |p.placed|, k, p.placed[k]);
  }

  lemma TableEntryRead(out: seq<uint8>, cls: ElfClass, h: FileHeader, n: nat, k: nat, ph: ProgHeader)
    requires h.phoff == HeaderSize(cls) && h.phentsize == PhSize(cls)
    requires k < n && |out| >= EntryAt(cls, n)
    requires DecodePh(out, EntryAt(cls, k), cls) == ph
    ensures ReadEntry(out, cls, h, k) == Some(ph)
  {
    EntryArithmetic(cls, h, n, k);
    var at := h.phoff + k * h.phentsize;
    assert at == EntryAt(cls, k) && at + PhSize(cls) <= |out|;
  }

  lemma EntryArithmetic(cls: ElfClass, h: FileHeader, n: nat, k: nat)
    requires h.phoff == HeaderSize(cls) && h.phentsize == PhSize(cls) && k < n
    ensures h.phoff + k * h.phentsize == EntryAt(cls, k)
    ensures EntryAt(cls, k) + PhSize(cls) <= EntryAt(cls, n)
  {
    match cls
    case Elf32 =>
      assert EntryAt(cls, k) == 52 + k * 32;
      assert EntryAt(cls, n) == 52 + n * 32;
    case Elf64 =>
      assert EntryAt(cls, k) == 64 + k * 56;
      assert EntryAt(cls, n) == 64 + n * 56;
  }
}
