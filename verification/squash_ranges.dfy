/** The address ranges of squashelf's `-r` option (tools/squashelf/squashelf.c):
    parsing `min-max[,min-max...]` with `strtoull`, the closed-interval
    overlap test that only warns, and the membership test the segment filter
    uses. Both bounds are inclusive in the code, although the tool's help
    text calls the maximum exclusive. */
module SquashRanges {
  import opened Base

  // ---------------------------------------------------------------------
  // strtoull
  // ---------------------------------------------------------------------

  /** The value of a hexadecimal digit character, -1 for any other. */
  function HexValue(c: char): (v: int)
    ensures -1 <= v < 16
  {
    if '0' <= c <= '9' then c as int - '0' as int
    else if 'a' <= c <= 'f' then c as int - 'a' as int + 10
    else if 'A' <= c <= 'F' then c as int - 'A' as int + 10
    else -1
  }

  /** A digit of the given base. */
  predicate IsDigit(c: char, base: nat) {
    0 <= HexValue(c) < base
  }

  /** Every character is a digit of the base. */
  predicate AllDigits(ds: string, base: nat) {
    forall k :: 0 <= k < |ds| ==> IsDigit(ds[k], base)
  }

  /** Digits are neither of the separators the range syntax uses. */
  lemma DigitsHaveNoSeparator(ds: string, base: nat)
    requires AllDigits(ds, base)
    ensures '-' !in ds && ',' !in ds
  {
  }

  /** The characters `isspace` accepts in the C locale. */
  predicate IsSpace(c: char) {
    c == ' ' || c == '\t' || c == '\n' || c == '\r' || c as int == 0x0B || c as int == 0x0C
  }

  function SkipSpace(s: string): (r: string)
    ensures |r| <= |s| && r == s[|s| - |r|..]
    ensures |r| > 0 ==> !IsSpace(r[0])
  {
    if |s| > 0 && IsSpace(s[0]) then SkipSpace(s[1..]) else s
  }

  /** The longest prefix of `s` made of digits of the base. */
  function LeadingDigits(s: string, base: nat): (r: string)
    ensures |r| <= |s| && r == s[..|r|]
    ensures AllDigits(r, base)
    ensures |r| < |s| ==> !IsDigit(s[|r|], base)
  {
    if |s| > 0 && IsDigit(s[0], base) then [s[0]] + LeadingDigits(s[1..], base) else []
  }

  /** The value of a digit string, most significant digit first. */
  function DigitsValue(ds: string, base: nat): (v: nat)
    requires AllDigits(ds, base)
  {
    if |ds| == 0 then 0
    else
      var init := ds[..|ds| - 1];
      assert AllDigits(init, base) by {
        forall k | 0 <= k < |init| ensures IsDigit(init[k], base) {
          assert init[k] == ds[k];
        }
      }
      assert IsDigit(ds[|ds| - 1], base);
      DigitsValue(init, base) * base + HexValue(ds[|ds| - 1])
  }

  /** The "0x" / "0X" prefix. */
  predicate HasHexPrefix(s: string) {
    |s| >= 2 && s[0] == '0' && (s[1] == 'x' || s[1] == 'X')
  }

  /** A leading sign, dropped. */
  function AfterSign(t: string): (u: string) {
    if |t| > 0 && (t[0] == '-' || t[0] == '+') then t[1..] else t
  }

  /** For base 16, a "0x" prefix, dropped. */
  function AfterPrefix(u: string, base: nat): (w: string) {
    if base == 16 && HasHexPrefix(u) then u[2..] else u
  }

  /** The magnitude `strtoull` reads, before saturation. */
  function Magnitude(s: string, base: nat): nat {
    var w := AfterPrefix(AfterSign(SkipSpace(s)), base);
    DigitsValue(LeadingDigits(w, base), base)
  }

  /** `strtoull(s, NULL, base)` for base 10 or 16: leading white space, an
      optional sign, for base 16 an optional "0x" prefix, then as many
      digits as there are. A value beyond 64 bits saturates at ULLONG_MAX;
      a minus sign negates modulo 2^64. */
  function StrToULL(s: string, base: nat): (r: nat)
    requires base == 10 || base == 16
    ensures r < TWO_64
  {
    var v := Magnitude(s, base);
    var t := SkipSpace(s);
    if v >= TWO_64 then TWO_64 - 1
    else if |t| > 0 && t[0] == '-' then Wrap64(-(v as int))
    else v
  }

  /** The digit character of value `d`, lower case. */
  function DigitChar(d: nat): (c: char)
    requires d < 16
    ensures HexValue(c) == d
  {
    if d < 10 then (48 + d) as char else (87 + d) as char
  }

  /** `n` written in the base, most significant digit first, without
      leading zeros. */
  function Render(n: nat, base: nat): (s: string)
    requires base == 10 || base == 16
    ensures |s| > 0
    ensures AllDigits(s, base)
    decreases n
  {
    if n < base then [DigitChar(n)]
    else Render(n / base, base) + [DigitChar(n % base)]
  }

  /** A digit string reads back as the number it renders. */
  lemma {:induction false} RenderValue(n: nat, base: nat)
    requires base == 10 || base == 16
    ensures DigitsValue(Render(n, base), base) == n
    decreases n
  {
    if n >= base {
      var s := Render(n, base);
      RenderValue(n / base, base);
      assert s[..|s| - 1] == Render(n / base, base);
    }
  }

  lemma {:induction false} LeadingDigitsAll(s: string, base: nat)
    requires AllDigits(s, base)
    ensures LeadingDigits(s, base) == s
    decreases |s|
  {
    if |s| > 0 {
      assert AllDigits(s[1..], base) by {
        forall k | 0 <= k < |s| - 1 ensures IsDigit(s[1..][k], base) {
          assert s[1..][k] == s[k + 1];
        }
      }
      LeadingDigitsAll(s[1..], base);
    }
  }

  /** A string of digits of the base, with nothing before it. */
  lemma StrToULLDigits(s: string, base: nat)
    requires base == 10 || base == 16
    requires |s| > 0 && AllDigits(s, base)
    requires !HasHexPrefix(s) || base == 10
    ensures StrToULL(s, base) == if DigitsValue(s, base) >= TWO_64 then TWO_64 - 1 else DigitsValue(s, base)
  {
    NothingBeforeDigits(s, base);
    LeadingDigitsAll(s, base);
    Saturates(s, base, DigitsValue(s, base));
  }

  /** Neither white space, a sign nor a prefix comes before a digit. */
  lemma NothingBeforeDigits(s: string, base: nat)
    requires |s| > 0 && IsDigit(s[0], base)
    requires !HasHexPrefix(s) || base == 10
    ensures SkipSpace(s) == s && s[0] != '-'
    ensures AfterPrefix(AfterSign(SkipSpace(s)), base) == s
  {
    DigitIsPlain(s[0], base);
    assert SkipSpace(s) == s;
    assert AfterSign(s) == s;
  }

  /** A digit is neither white space nor a sign. */
  lemma DigitIsPlain(c: char, base: nat)
    requires IsDigit(c, base)
    ensures !IsSpace(c) && c != '-' && c != '+'
  {
    assert HexValue(c) >= 0;
  }

  /** Without a minus sign the magnitude is the result, saturated. */
  lemma Saturates(s: string, base: nat, v: nat)
    requires base == 10 || base == 16
    requires |s| > 0 && SkipSpace(s) == s && s[0] != '-'
    requires v == DigitsValue(LeadingDigits(AfterPrefix(AfterSign(SkipSpace(s)), base), base), base)
    ensures StrToULL(s, base) == if v >= TWO_64 then TWO_64 - 1 else v
  {
  }

  /** A number below 2^64 written in decimal reads back as itself ... */
  lemma DecimalRoundTrip(n: nat)
    requires n < TWO_64
    ensures StrToULL(Render(n, 10), 10) == n
  {
    RenderValue(n, 10);
    StrToULLDigits(Render(n, 10), 10);
  }

  /** ... and so does one written in hexadecimal after "0x". */
  lemma HexRoundTrip(n: nat)
    requires n < TWO_64
    ensures StrToULL("0x" + Render(n, 16), 16) == n
  {
    var d := Render(n, 16);
    RenderValue(n, 16);
    HexPrefixed(d);
  }

  /** A digit string after "0x" keeps no space or sign in front, and its
      magnitude is the digits' value. */
  lemma HexPrefixed(d: string)
    requires AllDigits(d, 16)
    ensures SkipSpace("0x" + d) == "0x" + d
    ensures Magnitude("0x" + d, 16) == DigitsValue(d, 16)
  {
    var h := "0x" + d;
    assert h[0] == '0' && h[1] == 'x' && h[2..] == d;
    assert SkipSpace(h) == h;
    assert AfterSign(h) == h;
    LeadingDigitsAll(d, 16);
  }

  /** A minus sign negates modulo 2^64. */
  lemma StrToULLNegative(n: nat)
    requires n < TWO_64
    ensures StrToULL("-" + Render(n, 10), 10) == Wrap64(-(n as int))
  {
    var d := Render(n, 10);
    var m := "-" + d;
    RenderValue(n, 10);
    LeadingDigitsAll(d, 10);
    assert SkipSpace(m) == m;
    assert AfterSign(m) == d;
    assert AfterPrefix(d, 10) == d;
    assert Magnitude(m, 10) == n;
  }

  // ---------------------------------------------------------------------
  // parseRange
  // ---------------------------------------------------------------------

  /** An `AddressRange`: both bounds inclusive. */
  datatype AddressRange = AddressRange(min: nat, max: nat)

  /** The index of the first `c` in `s`, as `strchr` finds it. */
  function IndexOf(s: string, c: char): (r: Option<nat>)
    ensures r.None? <==> c !in s
    ensures r.Some? ==> r.value < |s| && s[r.value] == c && c !in s[..r.value]
  {
    if |s| == 0 then None
    else if s[0] == c then Some(0)
    else match IndexOf(s[1..], c)
      case None => None
      case Some(i) =>
        assert s[..i + 1] == [s[0]] + s[1..][..i];
        Some(i + 1)
  }

  /** One bound: hexadecimal after "0x" or "0X", decimal otherwise. */
  function ParseBound(s: string): (r: nat)
    ensures r < TWO_64
  {
    if HasHexPrefix(s) then StrToULL(s, 16) else StrToULL(s, 10)
  }

  /** `parseRange`: split at the first '-', parse both sides, and accept
      only a non-empty range `min < max`. */
  function ParseRange(s: string): (r: Option<AddressRange>)
    ensures r.Some? ==> '-' in s && r.value.min < r.value.max < TWO_64
    ensures '-' !in s ==> r.None?
  {
    match IndexOf(s, '-')
    case None => None
    case Some(i) =>
      var lo, hi := ParseBound(s[..i]), ParseBound(s[i + 1..]);
      if lo >= hi then None else Some(AddressRange(lo, hi))
  }

  /** The text `0x<min>-0x<max>` of a range. */
  function FormatRange(r: AddressRange): (s: string)
    requires r.min < TWO_64 && r.max < TWO_64
  {
    "0x" + Render(r.min, 16) + "-" + "0x" + Render(r.max, 16)
  }

  /** `strchr` finds the separator after a part that does not contain it. */
  lemma IndexOfAfter(a: string, c: char, b: string)
    requires c !in a
    ensures IndexOf(a + [c] + b, c) == Some(|a|)
  {
    var s := a + [c] + b;
    assert s[|a|] == c && s[..|a|] == a;
  }

  /** A bound written in hexadecimal after "0x" parses back. */
  lemma HexBound(n: nat)
    requires n < TWO_64
    ensures ParseBound("0x" + Render(n, 16)) == n
  {
    assert HasHexPrefix("0x" + Render(n, 16));
    HexRoundTrip(n);
  }

  /** A formatted range parses back to itself when it is non-empty, and is
      refused otherwise. */
  lemma ParseRangeRoundTrip(r: AddressRange)
    requires r.min < TWO_64 && r.max < TWO_64
    ensures ParseRange(FormatRange(r)) == if r.min < r.max then Some(r) else None
  {
    var a, b := "0x" + Render(r.min, 16), "0x" + Render(r.max, 16);
    var s := FormatRange(r);
    assert s == a + ['-'] + b;
    DigitsHaveNoSeparator(Render(r.min, 16), 16);
    assert '-' !in a;
    IndexOfAfter(a, '-', b);
    assert s[..|a|] == a && s[|a| + 1..] == b;
    HexBound(r.min);
    HexBound(r.max);
  }

  // ---------------------------------------------------------------------
  // parseRangeArgument
  // ---------------------------------------------------------------------

  /** The comma-separated fields of `s`, empty ones included: one more
      than the number of commas. */
  function Fields(s: string): (r: seq<string>)
    ensures |r| == multiset(s)[','] + 1
    decreases |s|
  {
    match IndexOf(s, ',')
    case None => [s]
    case Some(i) =>
      assert s == s[..i] + [','] + s[i + 1..];
      assert multiset(s[..i])[','] == 0;
      [s[..i]] + Fields(s[i + 1..])
  }

  /** The tokens `strtok_r(s, ",", ...)` returns: skip commas, take the
      run up to the next comma, repeat. */
  function Tokens(s: string): (r: seq<string>)
    decreases |s|
  {
    if |s| == 0 then []
    else if s[0] == ',' then Tokens(s[1..])
    else match IndexOf(s, ',')
      case None => [s]
      case Some(i) => [s[..i]] + Tokens(s[i..])
  }

  /** The non-empty strings of `ss`, in order. */
  function NonEmpty(ss: seq<string>): (r: seq<string>)
    ensures |r| <= |ss|
    ensures |r| == |ss| <==> forall k :: 0 <= k < |ss| ==> ss[k] != []
  {
    if |ss| == 0 then []
    else if ss[0] == [] then NonEmpty(ss[1..])
    else
      var r := [ss[0]] + NonEmpty(ss[1..]);
      assert (forall k :: 0 <= k < |ss| ==> ss[k] != []) <==> forall k :: 0 <= k < |ss| - 1 ==> ss[1..][k] != [];
      r
  }

  /** `strtok_r` returns exactly the non-empty fields. */
  lemma {:induction false} TokensAreNonEmptyFields(s: string)
    ensures Tokens(s) == NonEmpty(Fields(s))
    decreases |s|
  {
    if |s| > 0 {
      if s[0] == ',' {
        TokensAreNonEmptyFields(s[1..]);
        LeadingCommaStep(s);
      } else {
        match IndexOf(s, ',')
        case None =>
          assert Fields(s) == [s];
        case Some(i) =>
          TokensAreNonEmptyFields(s[i + 1..]);
          FieldStep(s, i);
      }
    }
  }

  /** A leading comma is skipped by `strtok_r` and opens an empty field. */
  lemma LeadingCommaStep(s: string)
    requires |s| > 0 && s[0] == ','
    ensures Tokens(s) == Tokens(s[1..])
    ensures NonEmpty(Fields(s)) == NonEmpty(Fields(s[1..]))
  {
    assert IndexOf(s, ',') == Some(0);
    assert Fields(s) == [[]] + Fields(s[1..]);
  }

  /** A non-empty first field is the first token. */
  lemma FieldStep(s: string, i: nat)
    requires |s| > 0 && s[0] != ',' && IndexOf(s, ',') == Some(i)
    ensures Tokens(s) == [s[..i]] + Tokens(s[i + 1..])
    ensures NonEmpty(Fields(s)) == [s[..i]] + NonEmpty(Fields(s[i + 1..]))
  {
    var t := s[i..];
    assert t[0] == ',' && t[1..] == s[i + 1..];
    assert Tokens(t) == Tokens(s[i + 1..]);
    var fs := Fields(s);
    assert fs == [s[..i]] + Fields(s[i + 1..]);
    assert fs[0] != [] && fs[1..] == Fields(s[i + 1..]);
  }

  /** Apply `parse` to every token, failing at the first it rejects. */
  function ParseEach<T>(toks: seq<string>, parse: string -> Option<T>): (r: Option<seq<T>>)
    ensures r.Some? <==> forall k :: 0 <= k < |toks| ==> parse(toks[k]).Some?
    ensures r.Some? ==> |r.value| == |toks| && forall k :: 0 <= k < |toks| ==> r.value[k] == parse(toks[k]).value
  {
    if |toks| == 0 then Some([])
    else
      var head, rest := parse(toks[0]), ParseEach(toks[1..], parse);
      assert forall k :: 1 <= k < |toks| ==> toks[k] == toks[1..][k - 1];
      if head.None? || rest.None? then None
      else Some([head.value] + rest.value)
  }

  /** Parse every token, failing at the first that is not a range. */
  function ParseAll(toks: seq<string>): (r: Option<seq<AddressRange>>)
    ensures r.Some? <==> forall k :: 0 <= k < |toks| ==> ParseRange(toks[k]).Some?
    ensures r.Some? ==> |r.value| == |toks| && forall k :: 0 <= k < |toks| ==> r.value[k] == ParseRange(toks[k]).value
  {
    ParseEach(toks, ParseRange)
  }

  /** Some pair of distinct ranges share an address. */
  predicate AnyOverlap(rs: seq<AddressRange>) {
    exists i, j :: 0 <= i < j < |rs| && RangesOverlap(rs[i], rs[j])
  }

  /** The accepted ranges and whether the overlap warning is printed. */
  datatype RangeArg = RangeArg(ranges: seq<AddressRange>, overlapWarning: bool)

  /** `parseRangeArgument`: `commas + 1` ranges are expected; the tokens
      are parsed while fewer than that have been read; any unparsable
      token, or fewer tokens than expected, fails. Overlap only warns. */
  function ParseRangeArgument(arg: string): (r: Option<RangeArg>)
    ensures r.Some? ==> |r.value.ranges| == multiset(arg)[','] + 1
    ensures r.Some? ==> forall k :: 0 <= k < |r.value.ranges| ==> r.value.ranges[k].min < r.value.ranges[k].max
    ensures r.Some? ==> (r.value.overlapWarning <==> AnyOverlap(r.value.ranges))
  {
    var count := multiset(arg)[','] + 1;
    match ParseAll(Take(Tokens(arg), count))
    case None => None
    case Some(rs) =>
      if |rs| != count then None else Some(RangeArg(rs, AnyOverlap(rs)))
  }

  /** The argument is accepted exactly when every comma-separated field is
      a non-empty, well-formed range, and then the ranges are those fields
      in order: "a,,b", a leading or a trailing comma are all refused. */
  lemma ArgumentAccepted(arg: string)
    ensures ParseRangeArgument(arg).Some? <==>
      forall k :: 0 <= k < |Fields(arg)| ==> Fields(arg)[k] != [] && ParseRange(Fields(arg)[k]).Some?
    ensures ParseRangeArgument(arg).Some? ==>
      forall k :: 0 <= k < |Fields(arg)| ==> ParseRangeArgument(arg).value.ranges[k] == ParseRange(Fields(arg)[k]).value
  {
    ArgumentIsParseAll(arg);
    TokensAreNonEmptyFields(arg);
    var fs := Fields(arg);
    if forall k :: 0 <= k < |fs| ==> fs[k] != [] {
      NonEmptyAll(fs);
    }
  }

  /** The argument is accepted when all its tokens parse and there are as
      many tokens as fields. */
  lemma ArgumentIsParseAll(arg: string)
    ensures var parsed := ParseAll(Tokens(arg));
      ParseRangeArgument(arg) == if parsed.None? || |parsed.value| != |Fields(arg)| then None
        else Some(RangeArg(parsed.value, AnyOverlap(parsed.value)))
  {
    TokensAreNonEmptyFields(arg);
    var toks := Tokens(arg);
    assert |toks| <= |Fields(arg)| == multiset(arg)[','] + 1;
    assert Take(toks, multiset(arg)[','] + 1) == toks;
  }

  lemma {:induction false} NonEmptyAll(ss: seq<string>)
    requires forall k :: 0 <= k < |ss| ==> ss[k] != []
    ensures NonEmpty(ss) == ss
    decreases |ss|
  {
    if |ss| > 0 {
      NonEmptyAll(ss[1..]);
    }
  }

  /** Ranges a `-r` argument can express: non-empty, 64-bit. */
  predicate ValidRanges(rs: seq<AddressRange>) {
    forall k :: 0 <= k < |rs| ==> rs[k].min < rs[k].max < TWO_64
  }

  /** The argument text `0x<min>-0x<max>,...` of a list of ranges. */
  function JoinRanges(rs: seq<AddressRange>): (s: string)
    requires |rs| > 0 && ValidRanges(rs)
  {
    if |rs| == 1 then FormatRange(rs[0]) else FormatRange(rs[0]) + [','] + JoinRanges(rs[1..])
  }

  lemma NoCommaInFormat(r: AddressRange)
    requires r.min < TWO_64 && r.max < TWO_64
    ensures ',' !in FormatRange(r)
  {
    DigitsHaveNoSeparator(Render(r.min, 16), 16);
    DigitsHaveNoSeparator(Render(r.max, 16), 16);
    assert FormatRange(r) == "0x" + Render(r.min, 16) + "-" + "0x" + Render(r.max, 16);
  }

  lemma FieldsCons(f: string, rest: string)
    requires ',' !in f
    ensures Fields(f + [','] + rest) == [f] + Fields(rest)
  {
    var s := f + [','] + rest;
    IndexOfAfter(f, ',', rest);
    assert s[..|f|] == f && s[|f| + 1..] == rest;
  }

  lemma {:induction false} FieldsOfJoin(rs: seq<AddressRange>)
    requires |rs| > 0 && ValidRanges(rs)
    ensures |Fields(JoinRanges(rs))| == |rs|
    ensures forall k :: 0 <= k < |rs| ==> Fields(JoinRanges(rs))[k] == FormatRange(rs[k])
    decreases |rs|
  {
    NoCommaInFormat(rs[0]);
    if |rs| > 1 {
      var rest := JoinRanges(rs[1..]);
      FieldsOfJoin(rs[1..]);
      FieldsCons(FormatRange(rs[0]), rest);
      assert JoinRanges(rs) == FormatRange(rs[0]) + [','] + rest;
      FormattedCons(Fields(JoinRanges(rs)), Fields(rest), rs);
    } else {
      assert JoinRanges(rs) == FormatRange(rs[0]);
      assert Fields(FormatRange(rs[0])) == [FormatRange(rs[0])];
    }
  }

  lemma FormattedCons(fs: seq<string>, tail: seq<string>, rs: seq<AddressRange>)
    requires |rs| > 0 && ValidRanges(rs)
    requires fs == [FormatRange(rs[0])] + tail && |tail| == |rs| - 1
    requires forall k :: 0 <= k < |rs| - 1 ==> tail[k] == FormatRange(rs[1..][k])
    ensures |fs| == |rs| && forall k :: 0 <= k < |rs| ==> fs[k] == FormatRange(rs[k])
  {
    forall k | 1 <= k < |rs| ensures fs[k] == FormatRange(rs[k]) {
      assert fs[k] == tail[k - 1] && rs[1..][k - 1] == rs[k];
    }
  }

  /** A list of non-empty ranges written out as an argument parses back to
      itself, with the warning set exactly when two of them overlap. */
  lemma ArgumentRoundTrip(rs: seq<AddressRange>)
    requires |rs| > 0 && ValidRanges(rs)
    ensures ParseRangeArgument(JoinRanges(rs)) == Some(RangeArg(rs, AnyOverlap(rs)))
  {
    var arg := JoinRanges(rs);
    var fs := Fields(arg);
    FieldsOfJoin(rs);
    forall k | 0 <= k < |rs| ensures fs[k] != [] && ParseRange(fs[k]) == Some(rs[k]) {
      assert fs[k] == FormatRange(rs[k]);
      ParseRangeRoundTrip(rs[k]);
    }
    FieldsAccepted(arg, fs, rs);
  }

  /** Fields that all parse make the argument parse to their ranges. */
  lemma FieldsAccepted(arg: string, fs: seq<string>, rs: seq<AddressRange>)
    requires fs == Fields(arg) && |fs| == |rs|
    requires forall k :: 0 <= k < |fs| ==> fs[k] != [] && ParseRange(fs[k]) == Some(rs[k])
    ensures ParseRangeArgument(arg) == Some(RangeArg(rs, AnyOverlap(rs)))
  {
    ArgumentAccepted(arg);
    var r := ParseRangeArgument(arg);
    assert r.Some?;
    var got := r.value.ranges;
    assert |got| == |rs|;
    forall k | 0 <= k < |rs| ensures got[k] == rs[k] {
      assert got[k] == ParseRange(fs[k]).value;
    }
    assert got == rs;
  }

  // ---------------------------------------------------------------------
  // Overlap and membership
  // ---------------------------------------------------------------------

  /** `rangesOverlap`: closed intervals that intersect. */
  predicate RangesOverlap(a: AddressRange, b: AddressRange) {
    a.min <= b.max && b.min <= a.max
  }

  /** `addr` lies in `r`, both ends included. */
  predicate InRange(addr: nat, r: AddressRange) {
    r.min <= addr <= r.max
  }

  /** The overlap test is symmetric and, for non-empty ranges, means
      exactly that some address lies in both. */
  lemma OverlapIsIntersection(a: AddressRange, b: AddressRange)
    requires a.min <= a.max && b.min <= b.max
    ensures RangesOverlap(a, b) == RangesOverlap(b, a)
    ensures RangesOverlap(a, b) <==> exists x: nat :: InRange(x, a) && InRange(x, b)
  {
    if RangesOverlap(a, b) {
      var x := Max(a.min, b.min);
      assert InRange(x, a) && InRange(x, b);
    }
  }

  /** `hasOverlappingRanges`: every pair `i < j` is compared. */
  method HasOverlappingRanges(rs: seq<AddressRange>) returns (found: bool)
    ensures found <==> AnyOverlap(rs)
  {
    var i := 0;
    while i < |rs|
      invariant 0 <= i <= |rs|
      invariant forall a, b :: 0 <= a < i && a < b < |rs| ==> !RangesOverlap(rs[a], rs[b])
    {
      var j := i + 1;
      while j < |rs|
        invariant i + 1 <= j <= |rs|
        invariant forall b :: i < b < j ==> !RangesOverlap(rs[i], rs[b])
      {
        if RangesOverlap(rs[i], rs[j]) {
          return true;
        }
        j := j + 1;
      }
      i := i + 1;
    }
    return false;
  }

  /** Some range contains `addr`. */
  predicate InRanges(addr: nat, rs: seq<AddressRange>) {
    exists i :: 0 <= i < |rs| && InRange(addr, rs[i])
  }

  /** `isInRanges`: the first range containing `addr` answers. */
  method IsInRanges(addr: nat, rs: seq<AddressRange>) returns (b: bool)
    ensures b <==> InRanges(addr, rs)
  {
    var i := 0;
    while i < |rs|
      invariant 0 <= i <= |rs|
      invariant forall k :: 0 <= k < i ==> !InRange(addr, rs[k])
    {
      if addr >= rs[i].min && addr <= rs[i].max {
        return true;
      }
      i := i + 1;
    }
    return false;
  }
}
