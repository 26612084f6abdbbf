/** Byte-level building blocks shared by the model: bytes, fixed-width
    little-endian integers, C `size_t` arithmetic, decimal text as produced by
    `std::to_string`, and splitting/joining on a separator character. */
module Bytes {

  datatype Option<T> = None | Some(value: T)

  type byte = x: int | 0 <= x < 256

  /** `size_t` and `unsigned long long` are 64 bits wide. */
  const SIZE_T_MODULUS: nat := 0x1_0000_0000_0000_0000
  const SIZE_T_BYTES: nat := 8
  /** A value of a 64-bit unsigned C type (`size_t`, `unsigned long long`). */
  type uint64 = x: int | 0 <= x < SIZE_T_MODULUS

  /** `a - b` in `size_t`: wraps around below zero. */
  function SizeSub(a: uint64, b: uint64): (r: uint64)
    ensures r == (a - b) % SIZE_T_MODULUS
  {
    if a >= b then a - b else a - b + SIZE_T_MODULUS
  }

  /** `++` on a `size_t`: wraps around to 0 past the largest value. */
  function SizeInc(a: uint64): (r: uint64)
    ensures r == (a + 1) % SIZE_T_MODULUS
  {
    if a + 1 == SIZE_T_MODULUS then 0 else a + 1
  }

  /** `unsigned int` is 32 bits wide. */
  const UINT_MODULUS: nat := 0x1_0000_0000
  const UINT_BYTES: nat := 4

  /** Number of values `w` bytes can hold. */
  function Pow256(w: nat): (r: nat)
    ensures r >= 1
  {
    if w == 0 then 1 else 256 * Pow256(w - 1)
  }

  function Zeros(n: nat): (r: seq<byte>)
    ensures |r| == n && forall i | 0 <= i < n :: r[i] == 0
  {
    seq(n, _ => 0)
  }

  /** `x` laid out on `w` bytes, least significant byte first (what `memcpy`
      of an integer does on a little-endian host). */
  function LittleEndian(x: nat, w: nat): (r: seq<byte>)
    ensures |r| == w
  {
    if w == 0 then [] else [x % 256] + LittleEndian(x / 256, w - 1)
  }

  /** The unsigned integer whose little-endian image is `bs`. */
  function FromLittleEndian(bs: seq<byte>): (r: nat)
    ensures r < Pow256(|bs|)
  {
    if bs == [] then 0 else bs[0] + 256 * FromLittleEndian(bs[1..])
  }

  lemma {:induction false} FromToLittleEndian(x: nat, w: nat)
    requires x < Pow256(w)
    ensures FromLittleEndian(LittleEndian(x, w)) == x
  {
    if w > 0 {
      FromToLittleEndian(x / 256, w - 1);
      assert LittleEndian(x, w)[1..] == LittleEndian(x / 256, w - 1);
    }
  }

  lemma {:induction false} ToFromLittleEndian(bs: seq<byte>)
    ensures LittleEndian(FromLittleEndian(bs), |bs|) == bs
  {
    if bs != [] {
      ToFromLittleEndian(bs[1..]);
      var x := FromLittleEndian(bs);
      assert x % 256 == bs[0] && x / 256 == FromLittleEndian(bs[1..]);
    }
  }

  // ---------------------------------------------------------------------
  // Slicing facts, stated once so that larger proofs can cite them.

  lemma TakeAppend<T>(a: seq<T>, b: seq<T>, k: nat)
    requires k <= |a|
    ensures (a + b)[..k] == a[..k]
  {
  }

  lemma DropAppend<T>(a: seq<T>, b: seq<T>, k: nat)
    requires k <= |a|
    ensures (a + b)[k..] == a[k..] + b
  {
  }

  lemma TakeDrop<T>(s: seq<T>, n: nat)
    requires n <= |s|
    ensures s[..n] + s[n..] == s
  {
  }

  lemma SliceOfDrop<T>(s: seq<T>, k: nat, a: nat, b: nat)
    requires a <= b && k + b <= |s|
    ensures s[k..][a..b] == s[k + a..k + b]
  {
  }

  lemma TakeTake<T>(s: seq<T>, m: nat, n: nat)
    requires m <= n <= |s|
    ensures s[..n] == s[..m] + s[m..n]
  {
  }

  /** Overwriting `|e|` items just after a prefix. */
  lemma Splice<T>(pre: seq<T>, e: seq<T>, rest: seq<T>)
    requires |e| <= |rest|
    ensures (pre + rest)[..|pre|] + e + (pre + rest)[|pre| + |e|..] == pre + e + rest[|e|..]
  {
    assert (pre + rest)[..|pre|] == pre;
    assert (pre + rest)[|pre| + |e|..] == rest[|e|..];
  }

  /** Walking a sequence by its suffixes, one item at a time. */
  lemma DropCons<T>(s: seq<T>, i: nat, x: T, rest: seq<T>)
    requires i <= |s| && s[i..] == [x] + rest
    ensures i < |s| && s[i] == x && s[i + 1..] == rest
  {
    assert s[i + 1..] == s[i..][1..];
  }

  /** The `k` items just after a prefix. */
  lemma AfterPrefix<T>(pre: seq<T>, rest: seq<T>, k: nat)
    requires k <= |rest|
    ensures (pre + rest)[|pre|..|pre| + k] == rest[..k]
  {
  }

  /** `memcpy(a + off, bs, ...)`: writes `bs` over the items of `a` starting
      at `off`, leaving the others as they were. */
  method Store<T>(a: array<T>, off: nat, bs: seq<T>)
    requires off + |bs| <= a.Length
    modifies a
    ensures a[..] == old(a[..])[..off] + bs + old(a[..])[off + |bs|..]
  {
    forall j | 0 <= j < |bs| {
      a[off + j] := bs[j];
    }
  }

  // ---------------------------------------------------------------------
  // Text

  /** A `std::string` holds bytes: a Dafny string stands for one when every
      character fits in a byte. */
  predicate IsByteString(s: string)
  {
    forall i | 0 <= i < |s| :: s[i] as int < 256
  }

  function StringBytes(s: string): (r: seq<byte>)
    requires IsByteString(s)
    ensures |r| == |s| && forall i | 0 <= i < |s| :: r[i] == s[i] as int
  {
    seq(|s|, i requires 0 <= i < |s| => s[i] as int)
  }

  /** The characters of a byte string, read back from its bytes. */
  function BytesString(bs: seq<byte>): (s: string)
    ensures |s| == |bs| && IsByteString(s)
  {
    seq(|bs|, i requires 0 <= i < |bs| => bs[i] as char)
  }

  lemma BytesStringOfStringBytes(s: string)
    requires IsByteString(s)
    ensures BytesString(StringBytes(s)) == s
  {
  }

  predicate IsDigit(c: char)
  {
    '0' <= c <= '9'
  }

  function DigitChar(d: nat): (c: char)
    requires d < 10
    ensures IsDigit(c) && c as int - '0' as int == d
  {
    (('0' as int) + d) as char
  }

  /** `std::to_string` of a non-negative integer: its decimal digits, most
      significant first, without leading zeros. */
  function NatToString(n: nat): (s: string)
    ensures |s| >= 1
    ensures forall i | 0 <= i < |s| :: IsDigit(s[i])
    ensures |s| > 1 ==> s[0] != '0'
  {
    if n < 10 then [DigitChar(n)] else NatToString(n / 10) + [DigitChar(n % 10)]
  }

  /** `std::to_string` of a signed integer. */
  function IntToString(i: int): (s: string)
    ensures i >= 0 ==> forall k | 0 <= k < |s| :: IsDigit(s[k])
    ensures i < 0 ==> |s| >= 2 && s[0] == '-'
  {
    if i < 0 then "-" + NatToString(-i) else NatToString(i)
  }

  /** Reads a string of decimal digits back as a number (non-digits count as 0). */
  function ParseNat(s: string): nat
  {
    if s == [] then 0
    else
      var c := s[|s| - 1];
      10 * ParseNat(s[..|s| - 1]) + (if IsDigit(c) then c as int - '0' as int else 0)
  }

  lemma {:induction false} ParseNatToString(n: nat)
    ensures ParseNat(NatToString(n)) == n
  {
    var s := NatToString(n);
    if n >= 10 {
      ParseNatToString(n / 10);
      assert s[..|s| - 1] == NatToString(n / 10);
    }
  }

  /** Distinct numbers have distinct decimal texts. */
  lemma NatToStringInjective(m: nat, n: nat)
    requires NatToString(m) == NatToString(n)
    ensures m == n
  {
    ParseNatToString(m);
    ParseNatToString(n);
  }

  /** `parts` glued together with `sep` between consecutive parts. */
  function Join(parts: seq<string>, sep: char): string
  {
    if |parts| == 0 then ""
    else if |parts| == 1 then parts[0]
    else parts[0] + [sep] + Join(parts[1..], sep)
  }

  /** The pieces of `s` between occurrences of `sep`; always at least one. */
  function Split(s: string, sep: char): (r: seq<string>)
    ensures |r| >= 1
  {
    if s == [] then [""]
    else
      var rest := Split(s[1..], sep);
      if s[0] == sep then [""] + rest else [[s[0]] + rest[0]] + rest[1..]
  }

  lemma {:induction false} SplitNoSeparator(p: string, sep: char)
    requires sep !in p
    ensures Split(p, sep) == [p]
  {
    if p != [] {
      SplitNoSeparator(p[1..], sep);
      assert [p[0]] + p[1..] == p;
    }
  }

  lemma {:induction false} SplitAfterPart(p: string, sep: char, r: string)
    requires sep !in p
    ensures Split(p + [sep] + r, sep) == [p] + Split(r, sep)
  {
    if p == [] {
      assert p + [sep] + r == [sep] + r;
      assert ([sep] + r)[1..] == r;
    } else {
      SplitAfterPart(p[1..], sep, r);
      assert (p + [sep] + r)[1..] == p[1..] + [sep] + r;
      assert [p[0]] + p[1..] == p;
    }
  }

  /** Splitting undoes joining when no part contains the separator. */
  lemma {:induction false} SplitJoin(parts: seq<string>, sep: char)
    requires |parts| >= 1
    requires forall k | 0 <= k < |parts| :: sep !in parts[k]
    ensures Split(Join(parts, sep), sep) == parts
  {
    if |parts| == 1 {
      SplitNoSeparator(parts[0], sep);
    } else {
      SplitJoin(parts[1..], sep);
      SplitAfterPart(parts[0], sep, Join(parts[1..], sep));
      assert [parts[0]] + parts[1..] == parts;
    }
  }

  /** The length of a join: every part plus one separator between neighbours. */
  lemma {:induction false} JoinLength(parts: seq<string>, sep: char, total: nat)
    requires |parts| >= 1
    requires total == SumLengths(parts)
    ensures |Join(parts, sep)| == total + |parts| - 1
  {
    if |parts| > 1 {
      JoinLength(parts[1..], sep, SumLengths(parts[1..]));
    }
  }

  function SumLengths(parts: seq<string>): nat
  {
    if parts == [] then 0 else |parts[0]| + SumLengths(parts[1..])
  }
}
