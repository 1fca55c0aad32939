/** The scattered hash of src/update_flash_elf.c: which program headers it
    covers, the order it hashes them in, the comparison with the digest in
    the image header, and the error codes of the boot-time integrity check.
    The digest itself and the header lookup are foreign: the hash function
    and the stored TLV value are parameters. */
module ElfScatter {
  import opened Base
  import opened ElfFormat
  import opened ElfXip

  // ---------------------------------------------------------------------
  // Collecting the segments
  // ---------------------------------------------------------------------

  /** The `segment_info` record: a segment's physical address and its
      number of file bytes. */
  datatype SegInfo = SegInfo(paddr: nat, filesz: nat)

  /** The capacity of the `segments` array. */
  const MAX_SEGMENTS: nat := 32

  /** A program header the scattered hash covers: PT_LOAD with file bytes.
      Unlike the loader, the memory size plays no part. */
  predicate Hashed(ph: ProgHeader) {
    ph.ptype == PT_LOAD && ph.filesz > 0
  }

  function InfoOf(ph: ProgHeader): SegInfo {
    SegInfo(ph.paddr, ph.filesz)
  }

  /** Reference definition: every hashed entry from `i` on, in table order,
      with no capacity limit. */
  function HashedFrom(t: seq<ProgHeader>, i: nat): (r: seq<SegInfo>)
    ensures i <= |t| ==> |r| <= |t| - i
    decreases |t| - i
  {
    if i >= |t| then []
    else (if Hashed(t[i]) then [InfoOf(t[i])] else []) + HashedFrom(t, i + 1)
  }

  /** The reference holds exactly the hashed entries. */
  lemma {:induction false} HashedFromMembers(t: seq<ProgHeader>, i: nat, x: SegInfo)
    ensures x in HashedFrom(t, i) <==> exists j :: i <= j < |t| && Hashed(t[j]) && InfoOf(t[j]) == x
    decreases |t| - i
  {
    if i < |t| {
      HashedFromMembers(t, i + 1, x);
      var head := if Hashed(t[i]) then [InfoOf(t[i])] else [];
      assert HashedFrom(t, i) == head + HashedFrom(t, i + 1);
      assert x in HashedFrom(t, i) <==> x in head || x in HashedFrom(t, i + 1);
      if exists j :: i <= j < |t| && Hashed(t[j]) && InfoOf(t[j]) == x {
        var j :| i <= j < |t| && Hashed(t[j]) && InfoOf(t[j]) == x;
        if j == i { assert x in head; }
      }
    }
  }

  /** The collection loop from entry `i` with room left for `room` more
      segments (`32 - num_loadable`): it stops at the end of the table or
      when the array is full. */
  function CollectFrom(t: seq<ProgHeader>, i: nat, room: nat): (r: seq<SegInfo>)
    ensures |r| <= room
    decreases |t| - i
  {
    if i >= |t| || room == 0 then []
    else if Hashed(t[i]) then [InfoOf(t[i])] + CollectFrom(t, i + 1, room - 1)
    else CollectFrom(t, i + 1, room)
  }

  /** The segments collected from the whole table. */
  function Collect(t: seq<ProgHeader>): (r: seq<SegInfo>)
    ensures |r| <= MAX_SEGMENTS
  {
    CollectFrom(t, 0, MAX_SEGMENTS)
  }

  /** The loop collects the first hashed entries from `i` on, as many as
      still fit. */
  lemma {:induction false} CollectFromTakes(t: seq<ProgHeader>, i: nat, room: nat)
    ensures CollectFrom(t, i, room) == Take(HashedFrom(t, i), room)
    decreases |t| - i
  {
    if i < |t| && room > 0 {
      CollectFromTakes(t, i + 1, if Hashed(t[i]) then room - 1 else room);
      if Hashed(t[i]) {
        assert HashedFrom(t, i) == [InfoOf(t[i])] + HashedFrom(t, i + 1);
        TakeCons(InfoOf(t[i]), HashedFrom(t, i + 1), room);
      } else {
        assert HashedFrom(t, i) == [] + HashedFrom(t, i + 1);
      }
    }
  }

  /** The collected segments are the first 32 hashed entries of the table,
      in table order: any further PT_LOAD segment is silently left out of
      the hash. */
  lemma CollectIsCappedFilter(t: seq<ProgHeader>)
    ensures Collect(t) == Take(HashedFrom(t, 0), MAX_SEGMENTS)
  {
    CollectFromTakes(t, 0, MAX_SEGMENTS);
  }

  // ---------------------------------------------------------------------
  // Sorting the segments
  // ---------------------------------------------------------------------

  /** Ascending physical addresses. */
  predicate SortedByPaddr(s: seq<SegInfo>) {
    forall a, b :: 0 <= a < b < |s| ==> s[a].paddr <= s[b].paddr
  }

  /** The part of `s` from `k` on is sorted ... */
  predicate SortedFrom(s: seq<SegInfo>, k: int) {
    forall a, b :: 0 <= k <= a < b < |s| ==> s[a].paddr <= s[b].paddr
  }

  /** ... and nothing before `k` is above anything from `k` on. */
  predicate SplitAt(s: seq<SegInfo>, k: int) {
    forall a, b :: 0 <= a < k <= b < |s| ==> s[a].paddr <= s[b].paddr
  }

  /** The segments of `s` at physical address `v`, in their order in `s`. */
  function AtPaddr(s: seq<SegInfo>, v: nat): seq<SegInfo>
    decreases |s|
  {
    if |s| == 0 then [] else (if s[0].paddr == v then [s[0]] else []) + AtPaddr(s[1..], v)
  }

  /** `r` keeps the segments of each address in the order `s` has them: the
      sort is stable, as a swap on a strict `>` makes it. */
  ghost predicate Stable(r: seq<SegInfo>, s: seq<SegInfo>) {
    forall v :: AtPaddr(r, v) == AtPaddr(s, v)
  }

  lemma {:induction false} AtPaddrAppend(a: seq<SegInfo>, b: seq<SegInfo>, v: nat)
    ensures AtPaddr(a + b, v) == AtPaddr(a, v) + AtPaddr(b, v)
    decreases |a|
  {
    if |a| == 0 {
      assert a + b == b;
    } else {
      assert (a + b)[0] == a[0] && (a + b)[1..] == a[1..] + b;
      AtPaddrAppend(a[1..], b, v);
    }
  }

  /** A segment at address `v` is somewhere in `s`. */
  lemma {:induction false} AtPaddrMember(s: seq<SegInfo>, v: nat)
    requires AtPaddr(s, v) != []
    ensures exists i :: 0 <= i < |s| && s[i].paddr == v
    decreases |s|
  {
    if s[0].paddr != v {
      AtPaddrMember(s[1..], v);
      var i :| 0 <= i < |s[1..]| && s[1..][i].paddr == v;
      assert s[i + 1].paddr == v;
    }
  }

  /** Sorting by address and keeping each address's order determine the
      result: two sorted, stable arrangements of the same segments are
      equal, so the digest of the scattered hash is fixed. */
  lemma {:induction false} SortedStableUnique(a: seq<SegInfo>, b: seq<SegInfo>)
    requires SortedByPaddr(a) && SortedByPaddr(b) && Stable(a, b)
    ensures a == b
    decreases |a| + |b|
  {
    if |a| == 0 || |b| == 0 {
      if |a| != |b| {
        var c := if |a| == 0 then b else a;
        assert AtPaddr(c, c[0].paddr) != [];
        assert AtPaddr(a, c[0].paddr) != AtPaddr(b, c[0].paddr);
      }
    } else {
      assert AtPaddr(a, a[0].paddr) != [];
      AtPaddrMember(b, a[0].paddr);
      assert b[0].paddr <= a[0].paddr;
      assert AtPaddr(b, b[0].paddr) != [];
      AtPaddrMember(a, b[0].paddr);
      assert a[0].paddr <= b[0].paddr;
      var p := a[0].paddr;
      assert AtPaddr(a, p)[0] == a[0] && AtPaddr(b, p)[0] == b[0];
      assert a[0] == b[0];
      forall v ensures AtPaddr(a[1..], v) == AtPaddr(b[1..], v) {
        var x, y := AtPaddr(a[1..], v), AtPaddr(b[1..], v);
        assert AtPaddr(a, v) == AtPaddr(b, v);
        assert AtPaddr(a, v) == (if p == v then [a[0]] else []) + x;
        assert AtPaddr(b, v) == (if p == v then [b[0]] else []) + y;
        if p == v {
          assert ([a[0]] + x)[1..] == x && ([b[0]] + y)[1..] == y;
        } else {
          assert [] + x == x && [] + y == y;
        }
      }
      SortedStableUnique(a[1..], b[1..]);
      assert a == [a[0]] + a[1..] && b == [b[0]] + b[1..];
    }
  }

  /** A swap of two neighbours at different addresses keeps every address's
      order. */
  lemma SwapStable(s: seq<SegInfo>, j: nat)
    requires j + 1 < |s|
    ensures Stable(CompareSwap(s, j), s)
  {
    if s[j].paddr > s[j + 1].paddr {
      var r := CompareSwap(s, j);
      var pre, post := s[..j], s[j + 2..];
      assert s == pre + [s[j], s[j + 1]] + post;
      assert r == pre + [s[j + 1], s[j]] + post;
      forall v ensures AtPaddr(r, v) == AtPaddr(s, v) {
        AtPaddrAppend(pre + [s[j], s[j + 1]], post, v);
        AtPaddrAppend(pre, [s[j], s[j + 1]], v);
        AtPaddrAppend(pre + [s[j + 1], s[j]], post, v);
        AtPaddrAppend(pre, [s[j + 1], s[j]], v);
        assert [s[j], s[j + 1]][1..] == [s[j + 1]] && [s[j + 1], s[j]][1..] == [s[j]];
      }
    }
  }

  /** One comparison of the bubble sort: neighbours `j` and `j + 1` are
      swapped when strictly out of order. */
  function CompareSwap(s: seq<SegInfo>, j: nat): (r: seq<SegInfo>)
    requires j + 1 < |s|
    ensures |r| == |s| && multiset(r) == multiset(s)
    ensures r[j].paddr <= r[j + 1].paddr
    ensures forall a :: 0 <= a < |s| && a != j && a != j + 1 ==> r[a] == s[a]
    ensures {r[j], r[j + 1]} == {s[j], s[j + 1]}
  {
    if s[j].paddr > s[j + 1].paddr then s[j := s[j + 1]][j + 1 := s[j]] else s
  }

  /** The inner loop keeps the largest address seen so far at position
      `j`, and leaves the sorted tail from `k` alone. */
  predicate Bubbling(s: seq<SegInfo>, j: nat, k: nat) {
    j < k <= |s| && SortedFrom(s, k) && SplitAt(s, k)
      && forall a :: 0 <= a < j ==> s[a].paddr <= s[j].paddr
  }

  lemma BubbleStep(s: seq<SegInfo>, j: nat, k: nat)
    requires Bubbling(s, j, k) && j + 1 < k
    ensures Bubbling(CompareSwap(s, j), j + 1, k)
  {
    var r := CompareSwap(s, j);
    forall a, b | 0 <= a < k <= b < |r| ensures r[a].paddr <= r[b].paddr {
      assert r[b] == s[b];
      assert r[a] in {s[j], s[j + 1]} || r[a] == s[a];
    }
    forall a | 0 <= a < j + 1 ensures r[a].paddr <= r[j + 1].paddr {
      if a < j {
        assert r[a] == s[a];
        assert r[j + 1].paddr == if s[j].paddr > s[j + 1].paddr then s[j].paddr else s[j + 1].paddr;
      }
    }
  }

  /** When the inner loop reaches the tail, one more element is in place. */
  lemma BubbleDone(s: seq<SegInfo>, k: nat)
    requires k > 0 && Bubbling(s, k - 1, k)
    ensures SortedFrom(s, k - 1) && SplitAt(s, k - 1)
  {
  }

  /** The bubble sort of `wolfBoot_compute_scattered_hash`: pass `i` moves
      the largest address of the first `n - i` segments to their end. */
  method BubbleSort(segs: seq<SegInfo>) returns (r: seq<SegInfo>)
    ensures SortedByPaddr(r)
    ensures multiset(r) == multiset(segs)
    ensures Stable(r, segs)
  {
    r := segs;
    var n := |r|;
    var i := 0;
    while i < n - 1
      invariant 0 <= i && (n == 0 || i <= n - 1)
      invariant |r| == n && multiset(r) == multiset(segs)
      invariant SortedFrom(r, n - i) && SplitAt(r, n - i)
      invariant Stable(r, segs)
    {
      r := BubblePass(r, n - i);
      i := i + 1;
    }
    if n > 0 {
      assert SortedFrom(r, 1) && SplitAt(r, 1);
    }
  }

  /** One pass of the inner loop over the first `k` segments: the largest
      of them ends at `k - 1`, and the sorted tail grows by one. */
  method BubblePass(s: seq<SegInfo>, k: nat) returns (r: seq<SegInfo>)
    requires 0 < k <= |s| && SortedFrom(s, k) && SplitAt(s, k)
    ensures |r| == |s| && multiset(r) == multiset(s)
    ensures SortedFrom(r, k - 1) && SplitAt(r, k - 1)
    ensures Stable(r, s)
  {
    r := s;
    var j := 0;
    while j < k - 1
      invariant j <= k - 1
      invariant |r| == |s| && multiset(r) == multiset(s)
      invariant Bubbling(r, j, k)
      invariant Stable(r, s)
    {
      BubbleStep(r, j, k);
      SwapStable(r, j);
      r := CompareSwap(r, j);
      j := j + 1;
    }
    BubbleDone(r, k);
  }

  // ---------------------------------------------------------------------
  // Hashing
  // ---------------------------------------------------------------------

  /** The bytes the hash reads for one segment: `file_size` bytes of the
      flash at its physical address. */
  function SegmentBytes(mem: nat -> uint8, s: SegInfo): (r: seq<uint8>)
    ensures |r| == s.filesz
    ensures forall k :: 0 <= k < s.filesz ==> r[k] == mem(s.paddr + k)
  {
    seq(s.filesz, (k: int) requires 0 <= k => mem(s.paddr + k))
  }

  /** The message of the scattered hash: the segments' bytes, one segment
      after another. */
  function HashInput(mem: nat -> uint8, segs: seq<SegInfo>): (r: seq<uint8>)
    ensures |segs| == 0 ==> r == []
  {
    if |segs| == 0 then [] else SegmentBytes(mem, segs[0]) + HashInput(mem, segs[1..])
  }

  lemma {:induction false} HashInputAppend(mem: nat -> uint8, a: seq<SegInfo>, b: seq<SegInfo>)
    ensures HashInput(mem, a + b) == HashInput(mem, a) + HashInput(mem, b)
    decreases |a|
  {
    if |a| > 0 {
      assert (a + b)[0] == a[0] && (a + b)[1..] == a[1..] + b;
      HashInputAppend(mem, a[1..], b);
    } else {
      assert a + b == b;
    }
  }

  /** Segment `k` reaches the hash after the segments before it and before
      the segments after it. */
  lemma HashInputAt(mem: nat -> uint8, segs: seq<SegInfo>, k: nat)
    requires k < |segs|
    ensures HashInput(mem, segs)
      == HashInput(mem, segs[..k]) + SegmentBytes(mem, segs[k]) + HashInput(mem, segs[k + 1..])
  {
    assert segs == segs[..k] + segs[k..];
    HashInputAppend(mem, segs[..k], segs[k..]);
    assert segs[k..][1..] == segs[k + 1..];
  }

  /** `wolfBoot_compute_scattered_hash`: -1 without the ELF magic (the file
      type is not checked); otherwise the digest of the collected segments
      in ascending address order. `order` is that order. */
  method ComputeScatteredHash(img: seq<uint8>, mem: nat -> uint8, digest: seq<uint8> -> seq<uint8>)
    returns (r: Result<seq<uint8>, int>, order: seq<SegInfo>)
    ensures r.Err? <==> !HasMagic(img)
    ensures r.Err? ==> r.error == -1 && order == []
    ensures r.Ok? ==> SortedByPaddr(order) && multiset(order) == multiset(Collect(Table(img)))
    ensures r.Ok? ==> Stable(order, Collect(Table(img)))
    ensures r.Ok? ==> r.value == digest(HashInput(mem, order))
  {
    if !HasMagic(img) {
      return Err(-1), [];
    }
    order := BubbleSort(Collect(Table(img)));
    r := Ok(digest(HashInput(mem, order)));
  }

  // ---------------------------------------------------------------------
  // Comparing with the stored digest
  // ---------------------------------------------------------------------

  /** The hash selected at build time. */
  datatype HashAlg = Sha256 | Sha384 | Sha3_384

  /** WOLFBOOT_SHA_DIGEST_SIZE: the size of the selected digest. */
  function DigestSize(alg: HashAlg): nat {
    match alg
    case Sha256 => 32
    case Sha384 => 48
    case Sha3_384 => 48
  }

  const SHA256_DIGEST_SIZE: nat := 32

  /** What the check returns, and whether the digest overran the buffer it
      was written into. */
  datatype Verdict = Verdict(ret: int, overflow: bool)

  /** `wolfBoot_verify_scattered_hash` as written in src/update_flash_elf.c:
      the computed digest goes into a 32-byte buffer, the stored value must
      be 32 bytes long and 32 bytes are compared, whatever hash is
      selected. `stored` is the HDR_SCATTERED_HASH value, empty when the
      header has none. */
  function VerifyAsWritten(alg: HashAlg, computed: Result<seq<uint8>, int>, stored: seq<uint8>): (v: Verdict)
    requires computed.Ok? ==> |computed.value| == DigestSize(alg)
    ensures computed.Err? ==> v == Verdict(computed.error, false)
    ensures computed.Ok? ==> (v.overflow <==> alg != Sha256)
    ensures computed.Ok? ==> (v.ret == 0 <==> stored == computed.value[..SHA256_DIGEST_SIZE])
    ensures computed.Ok? ==> (v.ret == -1 <==> |stored| != SHA256_DIGEST_SIZE)
  {
    match computed
    case Err(e) => Verdict(e, false)
    case Ok(d) =>
      var overflow := |d| > SHA256_DIGEST_SIZE;
      if |stored| != SHA256_DIGEST_SIZE then Verdict(-1, overflow)
      else if d[..SHA256_DIGEST_SIZE] != stored then Verdict(-2, overflow)
      else Verdict(0, overflow)
  }

  /** With a 48-byte hash the check as written overruns its buffer and
      rejects the image even when the header holds exactly the computed
      digest. */
  lemma WideDigestRejected(alg: HashAlg, d: seq<uint8>)
    requires alg != Sha256 && |d| == DigestSize(alg)
    ensures VerifyAsWritten(alg, Ok(d), d) == Verdict(-1, true)
  {
  }

  /** The check with the buffer, the length test and the comparison sized
      for the selected hash, as the copy in src/update_flash.c has them:
      compute errors pass through; otherwise 0 exactly when the stored
      digest is the computed one, -1 when its length is wrong, -2 when its
      bytes differ. */
  function VerifyScatteredHash(alg: HashAlg, computed: Result<seq<uint8>, int>, stored: seq<uint8>): (r: int)
    requires computed.Ok? ==> |computed.value| == DigestSize(alg)
    ensures computed.Err? ==> r == computed.error
    ensures computed.Ok? ==> (r == 0 <==> stored == computed.value)
    ensures computed.Ok? ==> (r == -1 <==> |stored| != DigestSize(alg))
    ensures computed.Ok? ==> (r == -2 <==> |stored| == DigestSize(alg) && stored != computed.value)
  {
    match computed
    case Err(e) => e
    case Ok(d) =>
      if |stored| != DigestSize(alg) then -1
      else if d != stored then -2
      else 0
  }

  /** For SHA-256 the two agree and nothing overruns. */
  lemma AsWrittenAgreesForSha256(computed: Result<seq<uint8>, int>, stored: seq<uint8>)
    requires computed.Ok? ==> |computed.value| == SHA256_DIGEST_SIZE
    ensures VerifyAsWritten(Sha256, computed, stored) == Verdict(VerifyScatteredHash(Sha256, computed, stored), false)
  {
    if computed.Ok? {
      assert computed.value[..SHA256_DIGEST_SIZE] == computed.value;
    }
  }

  // ---------------------------------------------------------------------
  // Boot-time integrity
  // ---------------------------------------------------------------------

  /** `wolfBoot_verify_elf_integrity`: `linear` is the result of the
      ordinary integrity check and `scattered` that of the scattered-hash
      check. A linear failure is returned as is; for an ELF image a
      scattered failure `s` becomes `-10 - s`. */
  function VerifyElfIntegrity(img: seq<uint8>, linear: int, scattered: int): (r: int)
    ensures r == 0 <==> linear == 0 && (!HasMagic(img) || scattered == 0 || scattered == -10)
    ensures linear != 0 ==> r == linear
  {
    if linear != 0 then linear
    else if HasMagic(img) && scattered != 0 then -10 - scattered
    else 0
  }

  /** A failure after a passing linear check names the scattered-hash
      result exactly; the comparison's -1 and -2 become -9 and -8. */
  lemma IntegrityDecodes(img: seq<uint8>, scattered: int)
    requires VerifyElfIntegrity(img, 0, scattered) != 0
    ensures HasMagic(img) && scattered == -10 - VerifyElfIntegrity(img, 0, scattered)
    ensures scattered == -1 ==> VerifyElfIntegrity(img, 0, scattered) == -9
    ensures scattered == -2 ==> VerifyElfIntegrity(img, 0, scattered) == -8
  {
  }
}
