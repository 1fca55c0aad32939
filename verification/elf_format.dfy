/** The parts of the ELF format (System V gABI, chapter 4 "ELF Header" and
    chapter 5 "Program Header") that wolfBoot's loaders and squashelf read and
    write: the identification bytes, the file header and the program header of
    both classes, little-endian. */
module ElfFormat {
  import opened Base

  // ---------------------------------------------------------------------
  // Constants
  // ---------------------------------------------------------------------

  /** ELF_IDENT_STR: 0x7F 'E' 'L' 'F'. */
  const MAGIC: seq<uint8> := [0x7F, 0x45, 0x4C, 0x46]
  /** ELF_CLASS_OFF, the EI_CLASS byte of the identification. */
  const CLASS_OFF: nat := 4
  const CLASS_32: uint8 := 1
  const CLASS_64: uint8 := 2
  /** EI_NIDENT. */
  const IDENT_SIZE: nat := 16
  /** ELF_HET_EXEC (ET_EXEC). */
  const ET_EXEC: nat := 2
  /** ELF_PT_LOAD (PT_LOAD). */
  const PT_LOAD: nat := 1
  /** SHN_UNDEF. */
  const SHN_UNDEF: nat := 0

  datatype ElfClass = Elf32 | Elf64

  /** sizeof(elf32_header) / sizeof(elf64_header). */
  function HeaderSize(cls: ElfClass): nat {
    match cls
    case Elf32 => 52
    case Elf64 => 64
  }

  /** sizeof(elf32_program_header) / sizeof(elf64_program_header). */
  function PhSize(cls: ElfClass): nat {
    match cls
    case Elf32 => 32
    case Elf64 => 56
  }

  /** sizeof(elf32_section_header) / sizeof(elf64_section_header). */
  function ShSize(cls: ElfClass): nat {
    match cls
    case Elf32 => 40
    case Elf64 => 64
  }

  /** Width in bytes of an address-sized field (entry, offsets, addresses,
      sizes). */
  function Word(cls: ElfClass): nat {
    match cls
    case Elf32 => 4
    case Elf64 => 8
  }

  // ---------------------------------------------------------------------
  // Little-endian fields
  // ---------------------------------------------------------------------

  function Pow256(w: nat): (r: nat)
    ensures r >= 1
  {
    if w == 0 then 1 else 256 * Pow256(w - 1)
  }

  /** The byte at `i`; the in-memory loaders read past the end of the image
      without a check, and the model reads 0 there. */
  function ByteAt(s: seq<uint8>, i: nat): uint8 {
    if i < |s| then s[i] else 0
  }

  /** The `w` bytes at `off`. */
  function Window(s: seq<uint8>, off: nat, w: nat): (r: seq<uint8>)
    ensures |r| == w
    ensures forall k :: 0 <= k < w ==> r[k] == ByteAt(s, off + k)
    decreases w
  {
    if w == 0 then [] else [ByteAt(s, off)] + Window(s, off + 1, w - 1)
  }

  /** The value of a little-endian byte string. */
  function FromLE(bs: seq<uint8>): (r: nat)
    ensures r < Pow256(|bs|)
  {
    if |bs| == 0 then 0 else bs[0] as nat + 256 * FromLE(bs[1..])
  }

  /** The `w`-byte little-endian encoding of `x`. */
  function ToLE(x: nat, w: nat): (r: seq<uint8>)
    requires x < Pow256(w)
    ensures |r| == w
  {
    if w == 0 then [] else [(x % 256) as uint8] + ToLE(x / 256, w - 1)
  }

  /** Decoding undoes encoding. */
  lemma {:induction false} FromToLE(x: nat, w: nat)
    requires x < Pow256(w)
    ensures FromLE(ToLE(x, w)) == x
    decreases w
  {
    if w > 0 {
      DivModBasics(x, 256);
      assert x / 256 < Pow256(w - 1);
      FromToLE(x / 256, w - 1);
      assert ToLE(x, w)[1..] == ToLE(x / 256, w - 1);
    }
  }

  /** Encoding undoes decoding. */
  lemma {:induction false} ToFromLE(bs: seq<uint8>)
    ensures ToLE(FromLE(bs), |bs|) == bs
    decreases |bs|
  {
    if |bs| > 0 {
      var x := FromLE(bs);
      var rest := FromLE(bs[1..]);
      DivModUnique(x, 256, rest, bs[0] as nat);
      ToFromLE(bs[1..]);
      assert bs == [bs[0]] + bs[1..];
    }
  }

  /** The unsigned `w`-byte little-endian field at `off`. */
  function Field(s: seq<uint8>, off: nat, w: nat): (r: nat)
    ensures r < Pow256(w)
  {
    FromLE(Window(s, off, w))
  }

  /** A field reads the bytes that were put at its place. */
  lemma FieldOfConcat(pre: seq<uint8>, mid: seq<uint8>, post: seq<uint8>, k: nat, w: nat)
    requires k + w <= |mid|
    ensures Field(pre + mid + post, |pre| + k, w) == FromLE(mid[k..k + w])
  {
    assert Window(pre + mid + post, |pre| + k, w) == mid[k..k + w];
  }

  /** `s` with the bytes from `at` on replaced by `b`, extended with zero
      bytes when `b` reaches past the end (an overwrite through `pwrite` or
      `lseek` and `write`). */
  function Splice(s: seq<uint8>, at: nat, b: seq<uint8>): (r: seq<uint8>)
    ensures |r| == Max(|s|, at + |b|)
    ensures forall i :: 0 <= i < |r| ==>
      r[i] == (if at <= i < at + |b| then b[i - at] else ByteAt(s, i))
  {
    var n := Max(|s|, at + |b|);
    seq(n, i requires 0 <= i < n => if at <= i < at + |b| then b[i - at] else ByteAt(s, i))
  }

  /** A splice is read back where it was written and leaves every other
      byte alone. */
  lemma SpliceReads(s: seq<uint8>, at: nat, b: seq<uint8>, i: nat)
    ensures ByteAt(Splice(s, at, b), i) == if at <= i < at + |b| then b[i - at] else ByteAt(s, i)
  {
  }

  /** A field that lies outside a splice reads as before. */
  lemma FieldOutsideSplice(s: seq<uint8>, at: nat, b: seq<uint8>, off: nat, w: nat)
    requires off + w <= at || at + |b| <= off
    ensures Field(Splice(s, at, b), off, w) == Field(s, off, w)
  {
    assert Window(Splice(s, at, b), off, w) == Window(s, off, w);
  }

  /** A field written by a splice reads back. */
  lemma FieldOfSplice(s: seq<uint8>, at: nat, x: nat, w: nat)
    requires x < Pow256(w)
    ensures Field(Splice(s, at, ToLE(x, w)), at, w) == x
  {
    assert Window(Splice(s, at, ToLE(x, w)), at, w) == ToLE(x, w);
    FromToLE(x, w);
  }

  // ---------------------------------------------------------------------
  // Identification
  // ---------------------------------------------------------------------

  /** The first four bytes are the ELF magic. */
  predicate HasMagic(s: seq<uint8>) {
    Window(s, 0, 4) == MAGIC
  }

  /** The class the loaders assume: ELF32 exactly when EI_CLASS is
      ELFCLASS32, every other value is taken as ELF64. */
  function ClassOf(s: seq<uint8>): (cls: ElfClass)
    ensures cls == Elf32 <==> ByteAt(s, CLASS_OFF) == CLASS_32
  {
    if ByteAt(s, CLASS_OFF) == CLASS_32 then Elf32 else Elf64
  }

  // ---------------------------------------------------------------------
  // File header
  // ---------------------------------------------------------------------

  /** The decoded fields of an ELF file header. */
  datatype FileHeader = FileHeader(
    etype: nat,
    entry: nat,
    phoff: nat,
    shoff: nat,
    phentsize: nat,
    phnum: nat,
    shnum: nat,
    shstrndx: nat)

  /** Byte offsets of the header fields in each class. */
  function TypeOff(cls: ElfClass): nat { 16 }
  function EntryOff(cls: ElfClass): nat { 24 }
  function PhoffOff(cls: ElfClass): nat { if cls == Elf32 then 28 else 32 }
  function ShoffOff(cls: ElfClass): nat { if cls == Elf32 then 32 else 40 }
  function PhentsizeOff(cls: ElfClass): nat { if cls == Elf32 then 42 else 54 }
  function PhnumOff(cls: ElfClass): nat { if cls == Elf32 then 44 else 56 }
  function ShnumOff(cls: ElfClass): nat { if cls == Elf32 then 48 else 60 }
  function ShstrndxOff(cls: ElfClass): nat { if cls == Elf32 then 50 else 62 }

  function DecodeHeader(s: seq<uint8>, cls: ElfClass): (h: FileHeader)
    ensures h.phnum < 0x1_0000 && h.phentsize < 0x1_0000 && h.etype < 0x1_0000
    ensures h.entry < Pow256(Word(cls)) && h.phoff < Pow256(Word(cls))
  {
    FileHeader(
      Field(s, TypeOff(cls), 2),
      Field(s, EntryOff(cls), Word(cls)),
      Field(s, PhoffOff(cls), Word(cls)),
      Field(s, ShoffOff(cls), Word(cls)),
      Field(s, PhentsizeOff(cls), 2),
      Field(s, PhnumOff(cls), 2),
      Field(s, ShnumOff(cls), 2),
      Field(s, ShstrndxOff(cls), 2))
  }

  // ---------------------------------------------------------------------
  // Program header
  // ---------------------------------------------------------------------

  /** The decoded fields of a program header. */
  datatype ProgHeader = ProgHeader(
    ptype: nat,
    flags: nat,
    offset: nat,
    vaddr: nat,
    paddr: nat,
    filesz: nat,
    memsz: nat,
    align: nat)

  /** Every field fits its width in the given class. */
  predicate PhFits(ph: ProgHeader, cls: ElfClass) {
    var m := Pow256(Word(cls));
    && ph.ptype < Pow256(4) && ph.flags < Pow256(4)
    && ph.offset < m && ph.vaddr < m && ph.paddr < m
    && ph.filesz < m && ph.memsz < m && ph.align < m
  }

  /** The program header whose first byte is at `at`. */
  function DecodePh(s: seq<uint8>, at: nat, cls: ElfClass): (ph: ProgHeader)
    ensures PhFits(ph, cls)
  {
    match cls
    case Elf32 =>
      ProgHeader(Field(s, at, 4), Field(s, at + 24, 4), Field(s, at + 4, 4), Field(s, at + 8, 4),
                 Field(s, at + 12, 4), Field(s, at + 16, 4), Field(s, at + 20, 4), Field(s, at + 28, 4))
    case Elf64 =>
      ProgHeader(Field(s, at, 4), Field(s, at + 4, 4), Field(s, at + 8, 8), Field(s, at + 16, 8),
                 Field(s, at + 24, 8), Field(s, at + 32, 8), Field(s, at + 40, 8), Field(s, at + 48, 8))
  }

  /** A field value with its width in bytes. */
  datatype Fixed = Fixed(x: nat, w: nat)

  /** Little-endian fields laid out one after the other. */
  function Encode(fs: seq<Fixed>): (r: seq<uint8>)
    requires forall i :: 0 <= i < |fs| ==> fs[i].x < Pow256(fs[i].w)
  {
    if |fs| == 0 then [] else ToLE(fs[0].x, fs[0].w) + Encode(fs[1..])
  }

  /** Where field `i` starts in `Encode(fs)`. */
  function Offset(fs: seq<Fixed>, i: nat): nat
    requires i <= |fs|
  {
    if i == 0 then 0 else Offset(fs, i - 1) + fs[i - 1].w
  }

  lemma {:induction false} OffsetShift(fs: seq<Fixed>, i: nat)
    requires 0 < i <= |fs|
    ensures Offset(fs, i) == fs[0].w + Offset(fs[1..], i - 1)
    decreases i
  {
    if i > 1 {
      OffsetShift(fs, i - 1);
    }
  }

  /** Each field of an encoding, written anywhere in a file, reads back as the
      value it encodes. */
  lemma {:induction false} EncodeReadsBack(fs: seq<Fixed>, i: nat, pre: seq<uint8>, post: seq<uint8>)
    requires forall k :: 0 <= k < |fs| ==> fs[k].x < Pow256(fs[k].w)
    requires i < |fs|
    ensures Field(pre + Encode(fs) + post, |pre| + Offset(fs, i), fs[i].w) == fs[i].x
    decreases i
  {
    var head := ToLE(fs[0].x, fs[0].w);
    var rest := Encode(fs[1..]);
    if i == 0 {
      assert pre + Encode(fs) + post == pre + head + (rest + post);
      FieldOfConcat(pre, head, rest + post, 0, fs[0].w);
      assert head[0..fs[0].w] == head;
      FromToLE(fs[0].x, fs[0].w);
    } else {
      assert pre + Encode(fs) + post == (pre + head) + rest + post;
      EncodeReadsBack(fs[1..], i - 1, pre + head, post);
      OffsetShift(fs, i);
    }
  }

  /** The fields of a program header in their on-disk order. */
  function PhFields(ph: ProgHeader, cls: ElfClass): (fs: seq<Fixed>)
    ensures |fs| == 8
  {
    match cls
    case Elf32 =>
      [Fixed(ph.ptype, 4), Fixed(ph.offset, 4), Fixed(ph.vaddr, 4), Fixed(ph.paddr, 4),
       Fixed(ph.filesz, 4), Fixed(ph.memsz, 4), Fixed(ph.flags, 4), Fixed(ph.align, 4)]
    case Elf64 =>
      [Fixed(ph.ptype, 4), Fixed(ph.flags, 4), Fixed(ph.offset, 8), Fixed(ph.vaddr, 8),
       Fixed(ph.paddr, 8), Fixed(ph.filesz, 8), Fixed(ph.memsz, 8), Fixed(ph.align, 8)]
  }

  /** The on-disk bytes of a program header. */
  function EncodePh(ph: ProgHeader, cls: ElfClass): (r: seq<uint8>)
    requires PhFits(ph, cls)
  {
    Encode(PhFields(ph, cls))
  }

  /** Where each program header field starts. */
  lemma PhOffsets(ph: ProgHeader, cls: ElfClass)
    ensures var fs := PhFields(ph, cls);
      && Offset(fs, 0) == 0 && Offset(fs, 1) == 4 && Offset(fs, 2) == 8
      && Offset(fs, 3) == 8 + Word(cls) && Offset(fs, 4) == 8 + 2 * Word(cls)
      && Offset(fs, 5) == 8 + 3 * Word(cls) && Offset(fs, 6) == 8 + 4 * Word(cls)
      && Offset(fs, 7) == 8 + 5 * Word(cls)
  {
    var fs := PhFields(ph, cls);
    assert Offset(fs, 1) == 4;
    assert Offset(fs, 2) == 8;
    assert Offset(fs, 3) == 8 + Word(cls);
    assert Offset(fs, 4) == 8 + 2 * Word(cls);
    assert Offset(fs, 5) == 8 + 3 * Word(cls);
    assert Offset(fs, 6) == 8 + 4 * Word(cls);
  }

  /** A program header written anywhere in a file reads back unchanged. */
  lemma DecodeEncodePh(ph: ProgHeader, cls: ElfClass, pre: seq<uint8>, post: seq<uint8>)
    requires PhFits(ph, cls)
    ensures DecodePh(pre + EncodePh(ph, cls) + post, |pre|, cls) == ph
  {
    var fs := PhFields(ph, cls);
    PhFieldsFit(ph, cls);
    var s := pre + Encode(fs) + post;
    LowFieldsReadBack(fs, pre, post);
    HighFieldsReadBack(fs, pre, post);
    DecodeFromFields(ph, cls, fs, s, |pre|);
    assert s == pre + EncodePh(ph, cls) + post;
  }

  /** Field `i` of the encoding `fs` reads back from `s` at `at`. */
  predicate FieldRead(s: seq<uint8>, at: nat, fs: seq<Fixed>, i: nat)
    requires i < |fs|
  {
    Field(s, at + Offset(fs, i), fs[i].w) == fs[i].x
  }

  /** A program header decodes from any bytes whose eight fields read as its
      fields. */
  lemma DecodeFromFields(ph: ProgHeader, cls: ElfClass, fs: seq<Fixed>, s: seq<uint8>, at: nat)
    requires fs == PhFields(ph, cls)
    requires FieldRead(s, at, fs, 0) && FieldRead(s, at, fs, 1) && FieldRead(s, at, fs, 2) && FieldRead(s, at, fs, 3)
    requires FieldRead(s, at, fs, 4) && FieldRead(s, at, fs, 5) && FieldRead(s, at, fs, 6) && FieldRead(s, at, fs, 7)
    ensures DecodePh(s, at, cls) == ph
  {
    PhOffsets(ph, cls);
    match cls
    case Elf32 =>
      ReadFields32(ph, fs, s, at);
      DecodeFields32(ph, s, at);
    case Elf64 =>
      ReadFields64(ph, fs, s, at);
      DecodeFields64(ph, s, at);
  }

  lemma ReadFields32(ph: ProgHeader, fs: seq<Fixed>, s: seq<uint8>, at: nat)
    requires fs == PhFields(ph, Elf32)
    requires Offset(fs, 1) == 4 && Offset(fs, 2) == 8 && Offset(fs, 3) == 12 && Offset(fs, 4) == 16
    requires Offset(fs, 5) == 20 && Offset(fs, 6) == 24 && Offset(fs, 7) == 28
    requires FieldRead(s, at, fs, 0) && FieldRead(s, at, fs, 1) && FieldRead(s, at, fs, 2) && FieldRead(s, at, fs, 3)
    requires FieldRead(s, at, fs, 4) && FieldRead(s, at, fs, 5) && FieldRead(s, at, fs, 6) && FieldRead(s, at, fs, 7)
    ensures Field(s, at, 4) == ph.ptype && Field(s, at + 4, 4) == ph.offset
    ensures Field(s, at + 8, 4) == ph.vaddr && Field(s, at + 12, 4) == ph.paddr
    ensures Field(s, at + 16, 4) == ph.filesz && Field(s, at + 20, 4) == ph.memsz
    ensures Field(s, at + 24, 4) == ph.flags && Field(s, at + 28, 4) == ph.align
  {
  }

  lemma ReadFields64(ph: ProgHeader, fs: seq<Fixed>, s: seq<uint8>, at: nat)
    requires fs == PhFields(ph, Elf64)
    requires Offset(fs, 1) == 4 && Offset(fs, 2) == 8 && Offset(fs, 3) == 16 && Offset(fs, 4) == 24
    requires Offset(fs, 5) == 32 && Offset(fs, 6) == 40 && Offset(fs, 7) == 48
    requires FieldRead(s, at, fs, 0) && FieldRead(s, at, fs, 1) && FieldRead(s, at, fs, 2) && FieldRead(s, at, fs, 3)
    requires FieldRead(s, at, fs, 4) && FieldRead(s, at, fs, 5) && FieldRead(s, at, fs, 6) && FieldRead(s, at, fs, 7)
    ensures Field(s, at, 4) == ph.ptype && Field(s, at + 4, 4) == ph.flags
    ensures Field(s, at + 8, 8) == ph.offset && Field(s, at + 16, 8) == ph.vaddr
    ensures Field(s, at + 24, 8) == ph.paddr && Field(s, at + 32, 8) == ph.filesz
    ensures Field(s, at + 40, 8) == ph.memsz && Field(s, at + 48, 8) == ph.align
  {
  }

  lemma DecodeFields32(ph: ProgHeader, s: seq<uint8>, at: nat)
    requires Field(s, at, 4) == ph.ptype && Field(s, at + 4, 4) == ph.offset
    requires Field(s, at + 8, 4) == ph.vaddr && Field(s, at + 12, 4) == ph.paddr
    requires Field(s, at + 16, 4) == ph.filesz && Field(s, at + 20, 4) == ph.memsz
    requires Field(s, at + 24, 4) == ph.flags && Field(s, at + 28, 4) == ph.align
    ensures DecodePh(s, at, Elf32) == ph
  {
  }

  lemma DecodeFields64(ph: ProgHeader, s: seq<uint8>, at: nat)
    requires Field(s, at, 4) == ph.ptype && Field(s, at + 4, 4) == ph.flags
    requires Field(s, at + 8, 8) == ph.offset && Field(s, at + 16, 8) == ph.vaddr
    requires Field(s, at + 24, 8) == ph.paddr && Field(s, at + 32, 8) == ph.filesz
    requires Field(s, at + 40, 8) == ph.memsz && Field(s, at + 48, 8) == ph.align
    ensures DecodePh(s, at, Elf64) == ph
  {
  }

  /** `EncodeReadsBack` in terms of `FieldRead`. */
  lemma EncodeFieldRead(fs: seq<Fixed>, i: nat, pre: seq<uint8>, post: seq<uint8>)
    requires forall k :: 0 <= k < |fs| ==> fs[k].x < Pow256(fs[k].w)
    requires i < |fs|
    ensures FieldRead(pre + Encode(fs) + post, |pre|, fs, i)
  {
    EncodeReadsBack(fs, i, pre, post);
  }

  /** The first four fields of a program header encoding read back. */
  lemma LowFieldsReadBack(fs: seq<Fixed>, pre: seq<uint8>, post: seq<uint8>)
    requires |fs| == 8 && forall k :: 0 <= k < |fs| ==> fs[k].x < Pow256(fs[k].w)
    ensures var s := pre + Encode(fs) + post;
      && FieldRead(s, |pre|, fs, 0) && FieldRead(s, |pre|, fs, 1)
      && FieldRead(s, |pre|, fs, 2) && FieldRead(s, |pre|, fs, 3)
  {
    EncodeFieldRead(fs, 0, pre, post);
    EncodeFieldRead(fs, 1, pre, post);
    EncodeFieldRead(fs, 2, pre, post);
    EncodeFieldRead(fs, 3, pre, post);
  }

  /** The last four fields of a program header encoding read back. */
  lemma HighFieldsReadBack(fs: seq<Fixed>, pre: seq<uint8>, post: seq<uint8>)
    requires |fs| == 8 && forall k :: 0 <= k < |fs| ==> fs[k].x < Pow256(fs[k].w)
    ensures var s := pre + Encode(fs) + post;
      && FieldRead(s, |pre|, fs, 4) && FieldRead(s, |pre|, fs, 5)
      && FieldRead(s, |pre|, fs, 6) && FieldRead(s, |pre|, fs, 7)
  {
    EncodeFieldRead(fs, 4, pre, post);
    EncodeFieldRead(fs, 5, pre, post);
    EncodeFieldRead(fs, 6, pre, post);
    EncodeFieldRead(fs, 7, pre, post);
  }

  /** The fields of a header that fits its class fit their widths. */
  lemma PhFieldsFit(ph: ProgHeader, cls: ElfClass)
    requires PhFits(ph, cls)
    ensures var fs := PhFields(ph, cls); forall k :: 0 <= k < |fs| ==> fs[k].x < Pow256(fs[k].w)
  {
  }

  /** An encoding is as long as its fields together. */
  lemma {:induction false} EncodeLength(fs: seq<Fixed>)
    requires forall i :: 0 <= i < |fs| ==> fs[i].x < Pow256(fs[i].w)
    ensures |Encode(fs)| == Offset(fs, |fs|)
    decreases |fs|
  {
    if |fs| > 0 {
      EncodeLength(fs[1..]);
      OffsetShift(fs, |fs|);
    }
  }

  /** A program header takes `PhSize` bytes on disk. */
  lemma EncodePhLength(ph: ProgHeader, cls: ElfClass)
    requires PhFits(ph, cls)
    ensures |EncodePh(ph, cls)| == PhSize(cls)
  {
    var fs := PhFields(ph, cls);
    PhOffsets(ph, cls);
    EncodeLength(fs);
    assert Offset(fs, 8) == Offset(fs, 7) + Word(cls);
  }
}
