/** Shared vocabulary of the model: bytes, results, fixed-width wrap-around,
    powers of two and the `x & ~m` mask that every alignment macro uses. */
module Base {

  /** One byte of flash, RAM or file contents. */
  newtype uint8 = x: int | 0 <= x < 256

  const TWO_32: nat := 0x1_0000_0000
  const TWO_64: nat := 0x1_0000_0000_0000_0000

  /** An unsigned 32-bit value (`uint32_t`). */
  type uint32 = x: nat | x < TWO_32

  /** A C `int` on the 32-bit targets. */
  type int32 = x: int | -0x8000_0000 <= x < 0x8000_0000

  /** FLASH_BYTE_ERASED: what an erased flash byte reads as. No proof depends
      on its value. */
  const ERASED_BYTE: uint8 := 0xFF

  /** `n` zero bytes. */
  function Zeros(n: nat): (r: seq<uint8>)
    ensures |r| == n && forall i :: 0 <= i < n ==> r[i] == 0
  {
    seq(n, _ => 0)
  }

  datatype Option<+T> = None | Some(value: T)

  /** A C function's result: a value, or the error it reports (a negative
      return code, or a call to the panic handler). */
  datatype Result<+T, +E> = Ok(value: T) | Err(error: E)

  /** Unsigned 32-bit wrap-around of an unbounded result. */
  function Wrap32(x: int): (r: nat)
    ensures r < TWO_32
    ensures 0 <= x < TWO_32 ==> r == x
  {
    x % TWO_32
  }

  /** Unsigned 64-bit wrap-around of an unbounded result. */
  function Wrap64(x: int): (r: nat)
    ensures r < TWO_64
    ensures 0 <= x < TWO_64 ==> r == x
  {
    x % TWO_64
  }

  function Max(a: int, b: int): (r: int)
    ensures r >= a && r >= b && (r == a || r == b)
  {
    if a >= b then a else b
  }

  function Pow2(k: nat): (r: nat)
    ensures r >= 1
  {
    if k == 0 then 1 else 2 * Pow2(k - 1)
  }

  ghost predicate IsPow2(n: nat) {
    exists k: nat :: Pow2(k) == n
  }

  /** `x & ~m` on naturals: the bits set in `m` are cleared in `x`, the others
      kept. This is the C mask `x & ~m` for any width wide enough to hold `x`. */
  function AndNot(x: nat, m: nat): (r: nat)
    ensures r <= x
    decreases x
  {
    if x == 0 then 0
    else 2 * AndNot(x / 2, m / 2) + (if m % 2 == 1 then 0 else x % 2)
  }

  lemma {:induction false} AndNotZero(x: nat)
    ensures AndNot(x, 0) == x
    decreases x
  {
    if x > 0 {
      AndNotZero(x / 2);
    }
  }

  /** Division with remainder is unique. */
  lemma DivModUnique(a: int, m: int, q: int, r: int)
    requires m > 0 && 0 <= r < m && a == m * q + r
    ensures a / m == q && a % m == r
  {
    var q', r' := a / m, a % m;
    assert a == m * q' + r';
    if q' > q {
      assert m * q' >= m * (q + 1) by { MulMonotone(m, q + 1, q'); }
      assert false;
    } else if q' < q {
      assert m * q >= m * (q' + 1) by { MulMonotone(m, q' + 1, q); }
      assert false;
    }
  }

  lemma MulMonotone(m: int, a: int, b: int)
    requires m >= 0 && a <= b
    ensures m * a <= m * b
  {
    assert m * b - m * a == m * (b - a);
  }

  /** Euclidean division facts for a positive divisor. */
  lemma DivModBasics(a: int, m: int)
    requires m > 0
    ensures a == m * (a / m) + a % m && 0 <= a % m < m
  {
  }

  /** The remainder modulo 2p is read off the halved value. */
  lemma HalveMod(x: nat, p: nat)
    requires p > 0
    ensures x % (2 * p) == 2 * ((x / 2) % p) + x % 2
  {
    var h := x / 2;
    var q, r := h / p, h % p;
    DivModBasics(h, p);
    DivModBasics(x, 2);
    assert x == 2 * h + x % 2;
    assert 2 * (p * q) == (2 * p) * q;
    assert x == (2 * p) * q + (2 * r + x % 2);
    DivModUnique(x, 2 * p, q, 2 * r + x % 2);
  }

  /** Clearing the low `k` bits rounds down to a multiple of 2^k. */
  lemma {:induction false} AndNotLowBits(x: nat, k: nat)
    ensures AndNot(x, Pow2(k) - 1) == x - x % Pow2(k)
    decreases k
  {
    if k == 0 {
      AndNotZero(x);
    } else if x == 0 {
      DivModUnique(0, Pow2(k), 0, 0);
    } else {
      var h, j := x / 2, k - 1;
      AndNotLowBits(h, j);
      AndNotLowBitsStep(x, k, h, j);
    }
  }

  /** One step of AndNotLowBits: the low bit goes, the rest is halved. */
  lemma AndNotLowBitsStep(x: nat, k: nat, h: nat, j: nat)
    requires k > 0 && x > 0 && h == x / 2 && j == k - 1
    requires AndNot(h, Pow2(j) - 1) == h - h % Pow2(j)
    ensures AndNot(x, Pow2(k) - 1) == x - x % Pow2(k)
  {
    var p := Pow2(j);
    var m := 2 * p - 1;
    var a := AndNot(h, p - 1);
    assert AndNot(x, m) == 2 * a by {
      DivModUnique(m, 2, p - 1, 1);
    }
    var t := x % (2 * p);
    assert t == 2 * (h % p) + x % 2 by {
      HalveMod(x, p);
    }
    assert x == 2 * h + x % 2 by {
      DivModBasics(x, 2);
    }
    HalvesCombine(x, h, a, h % p, x % 2, t);
    assert Pow2(k) == 2 * p;
  }

  lemma HalvesCombine(x: int, h: int, a: int, hp: int, x2: int, t: int)
    requires x == 2 * h + x2 && a == h - hp && t == 2 * hp + x2
    ensures 2 * a == x - t
  {
  }

  /** Clearing bits takes away at most the mask. */
  lemma {:induction false} AndNotLowerBound(x: nat, m: nat)
    ensures AndNot(x, m) + m >= x
    decreases x
  {
    if x > 0 {
      AndNotLowerBound(x / 2, m / 2);
    }
  }

  /** Two distinct multiples of `m` are at least `m` apart. */
  lemma MultiplesApart(a: nat, b: nat, m: nat)
    requires m > 0 && a % m == 0 && b % m == 0 && a < b
    ensures a + m <= b
  {
    var qa, qb := a / m, b / m;
    assert a == m * qa && b == m * qb;
    if qb <= qa {
      MulMonotone(m, qb, qa);
      assert false;
    }
    MulMonotone(m, qa + 1, qb);
  }

  /** A multiple of `m` within `m` below `a` is `a` rounded down. */
  lemma AlignedBelow(a: nat, r: nat, m: nat)
    requires m > 0 && r % m == 0 && r <= a && a - r < m
    ensures r == (a / m) * m && a % m == a - r
  {
    DivModBasics(r, m);
    assert r == m * (r / m);
    DivModUnique(a, m, r / m, a - r);
  }

  /** Address `base + j` with `base` aligned to `m` and `j < m` lies in unit
      `base / m` at offset `j`. */
  lemma InUnit(base: nat, j: nat, m: nat)
    requires m > 0 && base % m == 0 && j < m
    ensures (base + j) / m == base / m && (base + j) % m == j
  {
    DivModBasics(base, m);
    DivModUnique(base + j, m, base / m, j);
  }

  lemma DivMonotone(a: nat, b: nat, m: nat)
    requires m > 0 && a <= b
    ensures a / m <= b / m
  {
    DivModBasics(a, m);
    DivModBasics(b, m);
    if a / m > b / m {
      MulMonotone(m, b / m + 1, a / m);
      assert false;
    }
  }

  /** Rounding down to a multiple of `m` gives the largest such multiple. */
  lemma RoundDownFacts(addr: nat, m: nat)
    requires m > 0
    ensures (addr - addr % m) % m == 0
    ensures forall n: nat {:trigger n % m} :: n % m == 0 && n <= addr ==> n <= addr - addr % m
  {
    var r := addr - addr % m;
    DivModBasics(addr, m);
    DivModUnique(r, m, addr / m, 0);
    forall n: nat | n % m == 0 && n <= addr
      ensures n <= r
    {
      if n > r {
        MultiplesApart(r, n, m);
      }
    }
  }

  /** `addr & ~(2^k - 1)`: the largest multiple of 2^k that is at most `addr`. */
  function AlignDownPow2(addr: nat, k: nat): (r: nat)
    ensures r % Pow2(k) == 0 && r <= addr && addr - r < Pow2(k)
    ensures forall n: nat :: n % Pow2(k) == 0 && n <= addr ==> n <= r
  {
    AndNotLowBits(addr, k);
    RoundDownFacts(addr, Pow2(k));
    AndNot(addr, Pow2(k) - 1)
  }

  /** Sum of a sequence of naturals. */
  function Sum(s: seq<nat>): nat
  {
    if |s| == 0 then 0 else s[0] + Sum(s[1..])
  }

  lemma {:induction false} SumAppend(s: seq<nat>, x: nat)
    ensures Sum(s + [x]) == Sum(s) + x
  {
    if |s| == 0 {
      assert s + [x] == [x];
    } else {
      assert (s + [x])[1..] == s[1..] + [x];
      SumAppend(s[1..], x);
    }
  }

  /** The integers lo, lo+1, ..., hi-1 in ascending order. */
  function Range(lo: int, hi: int): (r: seq<int>)
    ensures |r| == if hi > lo then hi - lo else 0
    ensures forall i :: 0 <= i < |r| ==> r[i] == lo + i
    decreases hi - lo
  {
    if hi <= lo then [] else [lo] + Range(lo + 1, hi)
  }

  /** The indices in [i, n) satisfying `p`, ascending. */
  function FilterRange(i: nat, n: nat, p: nat -> bool): (r: seq<nat>)
    ensures forall k :: 0 <= k < |r| ==> i <= r[k] < n && p(r[k])
    ensures forall k, l :: 0 <= k < l < |r| ==> r[k] < r[l]
    ensures forall j :: i <= j < n && p(j) ==> j in r
    ensures |r| <= if n > i then n - i else 0
    decreases n - i
  {
    if i >= n then []
    else
      var rest := FilterRange(i + 1, n, p);
      if p(i) then
        PrependIndex(i, n, p, rest);
        [i] + rest
      else rest
  }

  /** An index below every element of a filtered range extends it. */
  lemma PrependIndex(i: nat, n: nat, p: nat -> bool, rest: seq<nat>)
    requires i < n && p(i)
    requires forall k :: 0 <= k < |rest| ==> i + 1 <= rest[k] < n && p(rest[k])
    requires forall k, l :: 0 <= k < l < |rest| ==> rest[k] < rest[l]
    requires forall j :: i + 1 <= j < n && p(j) ==> j in rest
    requires |rest| <= n - (i + 1)
    ensures var r := [i] + rest;
      && (forall k :: 0 <= k < |r| ==> i <= r[k] < n && p(r[k]))
      && (forall k, l :: 0 <= k < l < |r| ==> r[k] < r[l])
      && (forall j :: i <= j < n && p(j) ==> j in r)
      && |r| <= n - i
  {
    var r := [i] + rest;
    assert r[0] == i && forall k :: 0 < k < |r| ==> r[k] == rest[k - 1];
  }

  /** The first `n` elements of `s`, or all of them when there are fewer. */
  function Take<T>(s: seq<T>, n: nat): (r: seq<T>)
    ensures |r| == if n <= |s| then n else |s|
    ensures r == s[..|r|]
  {
    if n <= |s| then s[..n] else s
  }

  lemma TakeCons<T>(x: T, s: seq<T>, n: nat)
    requires n > 0
    ensures Take([x] + s, n) == [x] + Take(s, n - 1)
  {
  }
}
