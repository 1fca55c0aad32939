/** What squashelf (tools/squashelf/squashelf.c) makes of an input ELF file:
    the header check, the PT_LOAD segments it keeps, their order by load
    address (LMA, `p_paddr`), the new file offsets and the updated file
    header. The files are byte sequences; `open`, `pread`, `write` and
    `lseek` are not modelled beyond what they read and write. */
module SquashElf {
  import opened Base
  import opened ElfFormat
  import opened SquashRanges

  // ---------------------------------------------------------------------
  // Options and outcome
  // ---------------------------------------------------------------------

  /** `-n`, `-r` (absent, or the parsed ranges) and `-z`. */
  datatype Options = Options(noSht: bool, ranges: Option<seq<AddressRange>>, zeroOk: bool)

  /** Why the tool exits with EXIT_FAILURE: the input is not an ELF file
      it reads, no segment is kept, or segment data lies past the end of
      the input. */
  datatype Failure = BadHeader | NoSegments | ShortRead

  // ---------------------------------------------------------------------
  // read_elf_header
  // ---------------------------------------------------------------------

  /** `read_elf_header`: 16 identification bytes with the ELF magic, class
      ELFCLASS32 or ELFCLASS64, and a whole file header of that class. */
  function ReadClass(file: seq<uint8>): (r: Result<ElfClass, Failure>)
    ensures r.Ok? ==> HasMagic(file) && |file| >= IDENT_SIZE && |file| >= HeaderSize(r.value)
    ensures r.Ok? ==> r.value == ClassOf(file) && (file[CLASS_OFF] == CLASS_32 || file[CLASS_OFF] == CLASS_64)
    ensures r.Err? ==> r.error == BadHeader
    ensures |file| >= 64 && HasMagic(file) && (file[CLASS_OFF] == CLASS_32 || file[CLASS_OFF] == CLASS_64) ==> r.Ok?
  {
    if |file| < IDENT_SIZE || !HasMagic(file) then Err(BadHeader)
    else if file[CLASS_OFF] != CLASS_32 && file[CLASS_OFF] != CLASS_64 then Err(BadHeader)
    else
      var cls := if file[CLASS_OFF] == CLASS_32 then Elf32 else Elf64;
      if |file| < HeaderSize(cls) then Err(BadHeader) else Ok(cls)
  }

  // ---------------------------------------------------------------------
  // Keeping segments
  // ---------------------------------------------------------------------

  /** `read_program_header` for entry `i`: the entry at `ph_offset + i *
      ph_entry_size`, or nothing when the file ends before it (the entry is
      then skipped). */
  function ReadEntry(file: seq<uint8>, cls: ElfClass, h: FileHeader, i: nat): (r: Option<ProgHeader>)
    ensures r.Some? ==> PhFits(r.value, cls)
  {
    var at := h.phoff + i * h.phentsize;
    if at + PhSize(cls) <= |file| then Some(DecodePh(file, at, cls)) else None
  }

  /** The address of the last byte of the memory image, in 64-bit
      arithmetic: `p_paddr + p_memsz - 1`. */
  function SegmentEnd(ph: ProgHeader): (r: nat)
    ensures r < TWO_64
    ensures 0 < ph.memsz && ph.paddr + ph.memsz <= TWO_64 ==> r == ph.paddr + ph.memsz - 1
  {
    Wrap64(ph.paddr + ph.memsz - 1)
  }

  /** How the range filter reads "fully contained within any of these
      ranges": as written, the first and the last byte must each lie in
      some range, not necessarily the same one; the corrected reading asks
      for one range holding both. */
  datatype RangeRule = EndsInAnyRange | EndsInOneRange

  predicate InRangesBy(ph: ProgHeader, rs: seq<AddressRange>, rule: RangeRule) {
    match rule
    case EndsInAnyRange => InRanges(ph.paddr, rs) && InRanges(SegmentEnd(ph), rs)
    case EndsInOneRange => exists i :: 0 <= i < |rs| && InRange(ph.paddr, rs[i]) && InRange(SegmentEnd(ph), rs[i])
  }

  /** The filter of the extraction loop: PT_LOAD, file bytes unless `-z`,
      and inside the ranges when `-r` was given. */
  predicate Keep(ph: ProgHeader, opts: Options, rule: RangeRule) {
    && ph.ptype == PT_LOAD
    && (ph.filesz > 0 || opts.zeroOk)
    && (opts.ranges.None? || InRangesBy(ph, opts.ranges.value, rule))
  }

  /** The program header table as `read_program_header` sees it, entry by
      entry. */
  function Entries(file: seq<uint8>, cls: ElfClass, h: FileHeader): (es: seq<Option<ProgHeader>>)
    ensures |es| == h.phnum
    ensures forall j :: 0 <= j < |es| ==> es[j] == ReadEntry(file, cls, h, j)
  {
    seq(h.phnum, (j: int) requires 0 <= j => ReadEntry(file, cls, h, j as nat))
  }

  /** The kept entries from entry `i` on, in table order. */
  function KeptFrom(es: seq<Option<ProgHeader>>, opts: Options, rule: RangeRule, i: nat): (r: seq<ProgHeader>)
    ensures |r| <= if i <= |es| then |es| - i else 0
    decreases |es| - i
  {
    if i >= |es| then []
    else if es[i].Some? && Keep(es[i].value, opts, rule) then [es[i].value] + KeptFrom(es, opts, rule, i + 1)
    else KeptFrom(es, opts, rule, i + 1)
  }

  /** An entry readable from the file and kept by the filter. */
  predicate KeptAt(es: seq<Option<ProgHeader>>, opts: Options, rule: RangeRule, j: nat, ph: ProgHeader)
    requires j < |es|
  {
    es[j] == Some(ph) && Keep(ph, opts, rule)
  }

  /** The kept list holds exactly the readable entries the filter keeps. */
  lemma {:induction false} KeptMembers(es: seq<Option<ProgHeader>>, opts: Options, rule: RangeRule, i: nat, ph: ProgHeader)
    ensures ph in KeptFrom(es, opts, rule, i) <==> exists j :: i <= j < |es| && KeptAt(es, opts, rule, j, ph)
    decreases |es| - i
  {
    if i < |es| {
      KeptMembers(es, opts, rule, i + 1, ph);
      var rest := KeptFrom(es, opts, rule, i + 1);
      if es[i].Some? && Keep(es[i].value, opts, rule) {
        assert KeptFrom(es, opts, rule, i) == [es[i].value] + rest;
        if ph == es[i].value {
          assert KeptAt(es, opts, rule, i, ph);
        }
      } else {
        assert KeptFrom(es, opts, rule, i) == rest;
        assert !KeptAt(es, opts, rule, i, ph);
      }
    }
  }

  /** Every kept entry passes the filter and comes from the table. */
  lemma {:induction false} KeptAreKept(es: seq<Option<ProgHeader>>, opts: Options, rule: RangeRule, i: nat)
    ensures forall k :: 0 <= k < |KeptFrom(es, opts, rule, i)| ==>
      Keep(KeptFrom(es, opts, rule, i)[k], opts, rule) && Some(KeptFrom(es, opts, rule, i)[k]) in es
    decreases |es| - i
  {
    if i < |es| {
      KeptAreKept(es, opts, rule, i + 1);
    }
  }

  // ---------------------------------------------------------------------
  // The range rule
  // ---------------------------------------------------------------------

  /** As written, a segment that starts in one range and ends in another
      is kept although the gap between the ranges lies inside it. */
  lemma GapSegmentKept()
    ensures var rs := [AddressRange(0x1000, 0x1FFF), AddressRange(0x3000, 0x3FFF)];
      var ph := ProgHeader(PT_LOAD, 0, 0, 0x1800, 0x1800, 0x10, 0x2000, 0);
      && InRangesBy(ph, rs, EndsInAnyRange)
      && !InRanges(0x2000, rs)
      && ph.paddr <= 0x2000 < ph.paddr + ph.memsz
      && !InRangesBy(ph, rs, EndsInOneRange)
  {
    var rs := [AddressRange(0x1000, 0x1FFF), AddressRange(0x3000, 0x3FFF)];
    var ph := ProgHeader(PT_LOAD, 0, 0, 0x1800, 0x1800, 0x10, 0x2000, 0);
    assert SegmentEnd(ph) == 0x37FF;
    assert InRange(ph.paddr, rs[0]) && InRange(SegmentEnd(ph), rs[1]);
  }

  /** With the corrected rule every byte of a kept segment's memory image
      lies in one of the ranges. */
  lemma OneRangeCovers(ph: ProgHeader, rs: seq<AddressRange>, a: nat)
    requires InRangesBy(ph, rs, EndsInOneRange)
    requires 0 < ph.memsz && ph.paddr + ph.memsz <= TWO_64
    requires ph.paddr <= a < ph.paddr + ph.memsz
    ensures InRanges(a, rs)
  {
    var i :| 0 <= i < |rs| && InRange(ph.paddr, rs[i]) && InRange(SegmentEnd(ph), rs[i]);
    assert InRange(a, rs[i]);
  }

  /** The corrected rule keeps only what the rule as written keeps. */
  lemma OneRangeImpliesAnyRange(ph: ProgHeader, rs: seq<AddressRange>)
    requires InRangesBy(ph, rs, EndsInOneRange)
    ensures InRangesBy(ph, rs, EndsInAnyRange)
  {
  }

  // ---------------------------------------------------------------------
  // Sorting by LMA
  // ---------------------------------------------------------------------

  /** Ascending load addresses. */
  predicate SortedByLma(s: seq<ProgHeader>) {
    forall a, b :: 0 <= a < b < |s| ==> s[a].paddr <= s[b].paddr
  }

  /** Insert `x` before the first entry with a higher address. */
  function Insert(x: ProgHeader, s: seq<ProgHeader>): (r: seq<ProgHeader>)
    ensures multiset(r) == multiset{x} + multiset(s)
    ensures |r| == |s| + 1 && (r[0] == x || (|s| > 0 && r[0] == s[0]))
  {
    if |s| == 0 || x.paddr <= s[0].paddr then [x] + s
    else
      assert s == [s[0]] + s[1..];
      [s[0]] + Insert(x, s[1..])
  }

  /** Inserting into a sorted list keeps it sorted. */
  lemma {:induction false} InsertSorted(x: ProgHeader, s: seq<ProgHeader>)
    requires SortedByLma(s)
    ensures SortedByLma(Insert(x, s))
  {
    if |s| > 0 && x.paddr > s[0].paddr {
      var rest := Insert(x, s[1..]);
      InsertSorted(x, s[1..]);
      assert Insert(x, s) == [s[0]] + rest;
      forall k | 0 <= k < |rest| ensures s[0].paddr <= rest[k].paddr {
        if k > 0 {
          assert rest[0].paddr <= rest[k].paddr;
        }
      }
    }
  }

  /** The `qsort` with `comparePhdr32/64`, as an insertion sort. `qsort`
      does not say in which order entries with the same address come out;
      this model keeps them in table order. */
  function SortByLma(s: seq<ProgHeader>): (r: seq<ProgHeader>)
    ensures multiset(r) == multiset(s) && |r| == |s|
  {
    if |s| == 0 then []
    else
      assert s == [s[0]] + s[1..];
      Insert(s[0], SortByLma(s[1..]))
  }

  /** The sort orders by ascending load address. */
  lemma {:induction false} SortSorted(s: seq<ProgHeader>)
    ensures SortedByLma(SortByLma(s))
  {
    if |s| > 0 {
      SortSorted(s[1..]);
      InsertSorted(s[0], SortByLma(s[1..]));
    }
  }

  // ---------------------------------------------------------------------
  // Layout
  // ---------------------------------------------------------------------

  /** `(off + align - 1) & ~(align - 1)` when `align > 1`, else `off`. */
  function AlignUp(off: nat, align: nat): (r: nat)
    ensures off <= r && (align > 1 ==> r < off + align) && (align <= 1 ==> r == off)
  {
    if align > 1 then
      AndNotLowerBound(off + align - 1, align - 1);
      AndNot(off + align - 1, align - 1)
    else off
  }

  lemma AlignedMod(m: nat, q: nat)
    requires m > 0
    ensures (m * q) % m == 0
  {
    DivModUnique(m * q, m, q, 0);
  }

  /** For a power-of-two alignment the result is the least multiple of the
      alignment at or after `off`. */
  lemma AlignUpPow2(off: nat, align: nat, m: nat)
    requires IsPow2(align)
    ensures AlignUp(off, align) % align == 0
    ensures off <= m && m % align == 0 ==> AlignUp(off, align) <= m
  {
    var k :| Pow2(k) == align;
    var r := AlignUp(off, align);
    if align > 1 {
      var x := off + align - 1;
      AndNotLowBits(x, k);
      assert r == x - x % align;
      RoundedDown(x, align);
    } else {
      DivModUnique(off, 1, off, 0);
    }
    if off <= m && m % align == 0 && m < r {
      MultiplesApart(m, r, align);
    }
  }

  lemma RoundedDown(x: nat, a: nat)
    requires a > 0
    ensures (x - x % a) % a == 0
  {
    DivModBasics(x, a);
    assert x - x % a == a * (x / a);
    AlignedMod(a, x / a);
  }

  /** The offset loop: each segment goes to the next offset aligned to its
      `p_align`, the following one after its file bytes. The recorded
      offset is truncated to the class's field width `width`, while the
      running offset is a `size_t`. */
  function LayoutFrom(phs: seq<ProgHeader>, cur: nat, width: nat): (out: seq<ProgHeader>)
    requires width > 0
    ensures |out| == |phs|
    decreases |phs|
  {
    if |phs| == 0 then []
    else
      var o := AlignUp(cur, phs[0].align);
      [phs[0].(offset := o % width)] + LayoutFrom(phs[1..], o + phs[0].filesz, width)
  }

  /** The running offset after the loop. */
  function LayoutEnd(phs: seq<ProgHeader>, cur: nat): (end: nat)
    ensures cur <= end
    decreases |phs|
  {
    if |phs| == 0 then cur
    else LayoutEnd(phs[1..], AlignUp(cur, phs[0].align) + phs[0].filesz)
  }

  /** Entry for entry, only the offset differs. */
  predicate SameButOffset(out: seq<ProgHeader>, phs: seq<ProgHeader>) {
    |out| == |phs| && forall k :: 0 <= k < |out| ==> out[k] == phs[k].(offset := out[k].offset)
  }

  /** The file bytes of each segment lie in `[lo, hi)`, in order and
      without overlap. */
  predicate Laid(out: seq<ProgHeader>, lo: nat, hi: nat) {
    && (forall k :: 0 <= k < |out| ==> lo <= out[k].offset && out[k].offset + out[k].filesz <= hi)
    && (forall k, l :: 0 <= k < l < |out| ==> out[k].offset + out[k].filesz <= out[l].offset)
  }

  /** Every offset is a multiple of its power-of-two alignment. */
  ghost predicate AlignedOffsets(out: seq<ProgHeader>) {
    forall k :: 0 <= k < |out| && IsPow2(out[k].align) ==> out[k].offset % out[k].align == 0
  }

  /** One step of the layout loop, when the layout fits the width. */
  lemma LayoutStep(phs: seq<ProgHeader>, cur: nat, width: nat)
    requires |phs| > 0 && width > 0 && LayoutEnd(phs, cur) < width
    ensures var o := AlignUp(cur, phs[0].align);
      && LayoutFrom(phs, cur, width) == [phs[0].(offset := o)] + LayoutFrom(phs[1..], o + phs[0].filesz, width)
      && LayoutEnd(phs, cur) == LayoutEnd(phs[1..], o + phs[0].filesz)
  {
    var o := AlignUp(cur, phs[0].align);
    var next := o + phs[0].filesz;
    assert LayoutEnd(phs, cur) == LayoutEnd(phs[1..], next);
    assert next <= LayoutEnd(phs[1..], next);
    DivModUnique(o, width, 0, o);
  }

  lemma {:induction false} LayoutKeepsFields(phs: seq<ProgHeader>, cur: nat, width: nat)
    requires width > 0 && LayoutEnd(phs, cur) < width
    ensures SameButOffset(LayoutFrom(phs, cur, width), phs)
    decreases |phs|
  {
    if |phs| > 0 {
      var o := AlignUp(cur, phs[0].align);
      LayoutStep(phs, cur, width);
      LayoutKeepsFields(phs[1..], o + phs[0].filesz, width);
      var out := LayoutFrom(phs, cur, width);
      var rest := LayoutFrom(phs[1..], o + phs[0].filesz, width);
      forall k | 0 < k < |out| ensures out[k] == phs[k].(offset := out[k].offset) {
        assert out[k] == rest[k - 1] && phs[k] == phs[1..][k - 1];
      }
    }
  }

  lemma LaidCons(x: ProgHeader, rest: seq<ProgHeader>, lo: nat, next: nat, hi: nat)
    requires lo <= x.offset && x.offset + x.filesz == next && next <= hi
    requires Laid(rest, next, hi)
    ensures Laid([x] + rest, lo, hi)
  {
    var out := [x] + rest;
    forall k | 0 < k < |out| ensures out[k] == rest[k - 1] {
    }
  }

  lemma {:induction false} LayoutLaid(phs: seq<ProgHeader>, cur: nat, width: nat)
    requires width > 0 && LayoutEnd(phs, cur) < width
    ensures Laid(LayoutFrom(phs, cur, width), cur, LayoutEnd(phs, cur))
    decreases |phs|
  {
    if |phs| > 0 {
      var o := AlignUp(cur, phs[0].align);
      LayoutStep(phs, cur, width);
      LayoutLaid(phs[1..], o + phs[0].filesz, width);
      LaidCons(phs[0].(offset := o), LayoutFrom(phs[1..], o + phs[0].filesz, width), cur, o + phs[0].filesz, LayoutEnd(phs, cur));
    }
  }

  lemma {:induction false} LayoutAligned(phs: seq<ProgHeader>, cur: nat, width: nat)
    requires width > 0 && LayoutEnd(phs, cur) < width
    ensures AlignedOffsets(LayoutFrom(phs, cur, width))
    decreases |phs|
  {
    if |phs| > 0 {
      var o := AlignUp(cur, phs[0].align);
      LayoutStep(phs, cur, width);
      LayoutAligned(phs[1..], o + phs[0].filesz, width);
      if IsPow2(phs[0].align) {
        AlignUpPow2(cur, phs[0].align, cur);
      }
      var out := LayoutFrom(phs, cur, width);
      var rest := LayoutFrom(phs[1..], o + phs[0].filesz, width);
      forall k | 0 < k < |out| ensures out[k] == rest[k - 1] {
      }
    }
  }

  /** When the layout fits the field width, segments are laid out after
      `cur`, in order, without overlap, each at an offset aligned as its
      header asks, and all before the final running offset. */
  lemma LayoutFacts(phs: seq<ProgHeader>, cur: nat, width: nat)
    requires width > 0 && LayoutEnd(phs, cur) < width
    ensures SameButOffset(LayoutFrom(phs, cur, width), phs)
    ensures Laid(LayoutFrom(phs, cur, width), cur, LayoutEnd(phs, cur))
    ensures AlignedOffsets(LayoutFrom(phs, cur, width))
  {
    LayoutKeepsFields(phs, cur, width);
    LayoutLaid(phs, cur, width);
    LayoutAligned(phs, cur, width);
  }

  /** `(current_offset + 7) & ~7`: the SHT starts at the first multiple of
      8 at or after the segments. */
  function ShtOffset(end: nat): (r: nat)
    ensures end <= r < end + 8 && r % 8 == 0
  {
    assert Pow2(3) == 8 by {
      assert Pow2(1) == 2 && Pow2(2) == 4;
    }
    AlignDownPow2(end + 7, 3)
  }

  // ---------------------------------------------------------------------
  // The plan of the output file
  // ---------------------------------------------------------------------

  /** The output file in terms of its parts: the class, the input file
      header with the updated fields, the kept segments in LMA order with
      their input offsets (`segments`) and with their output offsets
      (`placed`), and the SHT offset unless `-n`. */
  datatype Plan = Plan(
    cls: ElfClass,
    header: FileHeader,
    segments: seq<ProgHeader>,
    placed: seq<ProgHeader>,
    sht: Option<nat>)

  /** The width of an offset field in the class. */
  function Width(cls: ElfClass): nat {
    Pow256(Word(cls))
  }

  /** Where the segments start: right after the file header and the
      program header table. */
  function FirstOffset(cls: ElfClass, n: nat): nat {
    HeaderSize(cls) + n * PhSize(cls)
  }

  /** Segment data the input file holds in full (a short `pread` fails). */
  predicate Readable(file: seq<uint8>, segs: seq<ProgHeader>) {
    forall k :: 0 <= k < |segs| && segs[k].filesz > 0 ==> segs[k].offset + segs[k].filesz <= |file|
  }

  /** The kept entries of the input's table. */
  function Kept(file: seq<uint8>, cls: ElfClass, opts: Options, rule: RangeRule): seq<ProgHeader> {
    KeptFrom(Entries(file, cls, DecodeHeader(file, cls)), opts, rule, 0)
  }

  /** The updated file header: `ph_offset` is the header size,
      `ph_entry_count` the number of kept segments, and the section header
      fields describe one NULL section or, with `-n`, none. */
  function OutHeader(h: FileHeader, cls: ElfClass, n: nat, sht: Option<nat>): (r: FileHeader)
    ensures r.phoff == HeaderSize(cls) && r.phnum == n && r.shstrndx == SHN_UNDEF
    ensures r.shnum == (if sht.Some? then 1 else 0)
    ensures sht.Some? && sht.value < Width(cls) ==> r.shoff == sht.value
    ensures sht.None? ==> r.shoff == 0
    ensures r.etype == h.etype && r.entry == h.entry && r.phentsize == h.phentsize
  {
    h.(phoff := HeaderSize(cls), phnum := n,
       shoff := if sht.Some? then sht.value % Width(cls) else 0,
       shnum := if sht.Some? then 1 else 0,
       shstrndx := SHN_UNDEF)
  }

  /** The main flow of squashelf up to writing: read the header, keep and
      sort the segments (failing when none is kept), read their data
      (failing on a short read), lay them out and update the header. */
  function MakePlan(file: seq<uint8>, opts: Options, rule: RangeRule): (r: Result<Plan, Failure>)
    ensures r.Err? && r.error == BadHeader <==> ReadClass(file).Err?
    ensures r.Ok? ==> 0 < |r.value.segments| == |r.value.placed| && r.value.header.phnum == |r.value.segments|
    ensures r.Ok? ==> r.value.cls == ReadClass(file).value
    ensures r.Ok? ==> Readable(file, r.value.segments)
    ensures r.Ok? ==> (r.value.sht.None? <==> opts.noSht) && |r.value.segments| < 0x1_0000
    ensures r.Ok? ==> var h := DecodeHeader(file, r.value.cls);
      r.value.header.etype == h.etype && r.value.header.entry == h.entry && r.value.header.phentsize == h.phentsize
  {
    match ReadClass(file)
    case Err(e) => Err(e)
    case Ok(cls) =>
      var segs := SortByLma(Kept(file, cls, opts, rule));
      if |segs| == 0 then Err(NoSegments)
      else if !Readable(file, segs) then Err(ShortRead)
      else
        var start := FirstOffset(cls, |segs|);
        var sht := if opts.noSht then None else Some(ShtOffset(LayoutEnd(segs, start)));
        Ok(Plan(cls, OutHeader(DecodeHeader(file, cls), cls, |segs|, sht), segs,
                LayoutFrom(segs, start, Width(cls)), sht))
  }

  /** Every field of every entry fits the class's field widths. */
  predicate AllFit(phs: seq<ProgHeader>, cls: ElfClass) {
    forall k :: 0 <= k < |phs| ==> PhFits(phs[k], cls)
  }

  /** The layout keeps every entry within the field widths. */
  lemma {:induction false} LayoutFits(phs: seq<ProgHeader>, cur: nat, cls: ElfClass)
    requires AllFit(phs, cls)
    ensures AllFit(LayoutFrom(phs, cur, Width(cls)), cls)
    decreases |phs|
  {
    if |phs| > 0 {
      var o := AlignUp(cur, phs[0].align);
      LayoutFits(phs[1..], o + phs[0].filesz, cls);
      var out := LayoutFrom(phs, cur, Width(cls));
      var rest := LayoutFrom(phs[1..], o + phs[0].filesz, Width(cls));
      assert out == [phs[0].(offset := o % Width(cls))] + rest;
      forall k | 0 <= k < |out| ensures PhFits(out[k], cls) {
        if k > 0 {
          assert out[k] == rest[k - 1];
        }
      }
    }
  }

  /** What a successful plan is made of. */
  lemma PlanParts(file: seq<uint8>, opts: Options, rule: RangeRule, p: Plan)
    requires MakePlan(file, opts, rule) == Ok(p)
    ensures p.segments == SortByLma(Kept(file, p.cls, opts, rule))
    ensures p.placed == LayoutFrom(p.segments, FirstOffset(p.cls, |p.segments|), Width(p.cls))
    ensures p.sht == if opts.noSht then None else Some(ShtOffset(LayoutEnd(p.segments, FirstOffset(p.cls, |p.segments|))))
    ensures p.header == OutHeader(DecodeHeader(file, p.cls), p.cls, |p.segments|, p.sht)
  {
  }

  lemma KeptFit(file: seq<uint8>, cls: ElfClass, opts: Options, rule: RangeRule)
    ensures AllFit(Kept(file, cls, opts, rule), cls)
  {
    var es := Entries(file, cls, DecodeHeader(file, cls));
    var kept := KeptFrom(es, opts, rule, 0);
    KeptAreKept(es, opts, rule, 0);
    forall k | 0 <= k < |kept| ensures PhFits(kept[k], cls) {
      var j :| 0 <= j < |es| && es[j] == Some(kept[k]);
    }
  }

  lemma FitPermuted(s: seq<ProgHeader>, t: seq<ProgHeader>, cls: ElfClass)
    requires AllFit(s, cls) && multiset(t) == multiset(s)
    ensures AllFit(t, cls)
  {
    forall k | 0 <= k < |t| ensures PhFits(t[k], cls) {
      assert t[k] in multiset(s);
      var j :| 0 <= j < |s| && s[j] == t[k];
    }
  }

  /** The program headers the plan writes fit the class's field widths. */
  lemma PlacedFit(file: seq<uint8>, opts: Options, rule: RangeRule, p: Plan)
    requires MakePlan(file, opts, rule) == Ok(p)
    ensures AllFit(p.segments, p.cls) && AllFit(p.placed, p.cls)
  {
    PlanParts(file, opts, rule, p);
    KeptFit(file, p.cls, opts, rule);
    FitPermuted(Kept(file, p.cls, opts, rule), p.segments, p.cls);
    LayoutFits(p.segments, FirstOffset(p.cls, |p.segments|), p.cls);
  }

  /** The plan's segments are the kept entries, in ascending LMA order. */
  lemma PlanKeepsSegments(file: seq<uint8>, opts: Options, rule: RangeRule, p: Plan)
    requires MakePlan(file, opts, rule) == Ok(p)
    ensures multiset(p.segments) == multiset(Kept(file, p.cls, opts, rule))
    ensures SortedByLma(p.segments)
  {
    SortSorted(Kept(file, p.cls, opts, rule));
  }

  /** When no entry of the table passes the filter the tool fails. */
  lemma NothingKeptFails(file: seq<uint8>, opts: Options, rule: RangeRule)
    requires ReadClass(file).Ok?
    requires var cls := ReadClass(file).value;
      forall ph: ProgHeader :: Some(ph) in Entries(file, cls, DecodeHeader(file, cls)) ==> !Keep(ph, opts, rule)
    ensures MakePlan(file, opts, rule) == Err(NoSegments)
  {
    var cls := ReadClass(file).value;
    var es := Entries(file, cls, DecodeHeader(file, cls));
    KeptAreKept(es, opts, rule, 0);
  }

  /** The output layout: segments after the program header table, in
      order, without overlap, aligned, and the SHT at a multiple of 8
      after all of them and named by the header. */
  lemma PlanLayout(file: seq<uint8>, opts: Options, rule: RangeRule, p: Plan)
    requires MakePlan(file, opts, rule) == Ok(p)
    requires LayoutEnd(p.segments, FirstOffset(p.cls, |p.segments|)) + 8 < Width(p.cls)
    ensures var start := FirstOffset(p.cls, |p.segments|);
      var end := LayoutEnd(p.segments, start);
      && SameButOffset(p.placed, p.segments)
      && Laid(p.placed, start, end)
      && AlignedOffsets(p.placed)
      && (p.sht.Some? ==> end <= p.sht.value && p.sht.value % 8 == 0 && p.header.shoff == p.sht.value)
  {
    PlanParts(file, opts, rule, p);
    var start := FirstOffset(p.cls, |p.segments|);
    var end := LayoutEnd(p.segments, start);
    LayoutFacts(p.segments, start, Width(p.cls));
    if p.sht.Some? {
      assert p.sht.value == ShtOffset(end) && p.sht.value < Width(p.cls);
    }
  }
}
