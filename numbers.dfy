/** The integer side of the format: 4-byte little-endian unsigned integers,
    their decimal rendering (the form in which the decoder stores them), and
    the 64-bit Steam launch id built from a shortcut's 32-bit app id. */
module Numbers {
  import opened VdfTypes

  type uint32 = x: nat | x < 0x1_0000_0000

  function Pow256(k: nat): (p: nat)
    ensures p >= 1
  {
    if k == 0 then 1 else 256 * Pow256(k - 1)
  }

  /** Little-endian value of a byte string: the first byte is the least significant. */
  function LeValue(b: seq<byte>): (v: nat)
    ensures v < Pow256(|b|)
  {
    if b == [] then 0 else b[0] + 256 * LeValue(b[1..])
  }

  /** `BitConverter.ToUInt32(bytes, 0)` on a little-endian machine: the
      integer whose four little-endian bytes are `b`. */
  function LeUint32(b: seq<byte>): (v: uint32)
    requires |b| == 4
    ensures LeBytes(v, 4) == b
  {
    assert Pow256(4) == 0x1_0000_0000;
    LeBytesOfValue(b);
    LeValue(b)
  }

  /** The value is b0 + b1 * 2^8 + b2 * 2^16 + b3 * 2^24. */
  lemma LeUint32Bytes(b: seq<byte>)
    requires |b| == 4
    ensures LeUint32(b) == b[0] + 0x100 * (b[1] as int) + 0x1_0000 * (b[2] as int) + 0x100_0000 * (b[3] as int)
  {
    assert LeValue(b[3..]) == b[3] + 256 * LeValue([]) by { assert b[3..][1..] == []; }
    assert LeValue(b[2..]) == b[2] + 256 * LeValue(b[3..]) by { assert b[2..][1..] == b[3..]; }
    assert LeValue(b[1..]) == b[1] + 256 * LeValue(b[2..]) by { assert b[1..][1..] == b[2..]; }
  }

  /** The `k` little-endian bytes of `n`: the inverse of `LeValue`. */
  function LeBytes(n: nat, k: nat): (b: seq<byte>)
    requires n < Pow256(k)
    ensures |b| == k
  {
    if k == 0 then [] else [n % 256] + LeBytes(n / 256, k - 1)
  }

  lemma {:induction false} LeValueOfBytes(n: nat, k: nat)
    requires n < Pow256(k)
    ensures LeValue(LeBytes(n, k)) == n
  {
    if k > 0 {
      LeValueOfBytes(n / 256, k - 1);
      assert LeBytes(n, k)[1..] == LeBytes(n / 256, k - 1);
    }
  }

  lemma {:induction false} LeBytesOfValue(b: seq<byte>)
    ensures LeBytes(LeValue(b), |b|) == b
  {
    if b != [] {
      LeBytesOfValue(b[1..]);
      var v := LeValue(b);
      assert v % 256 == b[0] && v / 256 == LeValue(b[1..]);
      assert [b[0]] + b[1..] == b;
    }
  }

  predicate IsDigit(c: byte) {
    0x30 <= c <= 0x39
  }

  /** The ASCII character of a decimal digit. */
  function DigitChar(d: nat): (c: byte)
    requires d < 10
    ensures IsDigit(c)
  {
    0x30 + d
  }

  /** The decimal digit an ASCII digit stands for. */
  function DigitValue(c: byte): (d: nat)
    requires IsDigit(c)
    ensures d < 10 && DigitChar(d) == c
  {
    c - 0x30
  }

  lemma DigitValueOfChar(d: nat)
    requires d < 10
    ensures DigitValue(DigitChar(d)) == d
  {
  }

  /** The number a string of ASCII decimal digits denotes. */
  function DigitsValue(s: Str): nat
    requires forall i :: 0 <= i < |s| ==> IsDigit(s[i])
  {
    if s == [] then 0 else 10 * DigitsValue(s[..|s| - 1]) + DigitValue(s[|s| - 1])
  }

  /** `n.ToString(CultureInfo.InvariantCulture)` for a non-negative `n`. */
  function DecimalString(n: nat): (s: Str)
    ensures |s| >= 1
  {
    if n < 10 then [DigitChar(n)] else DecimalString(n / 10) + [DigitChar(n % 10)]
  }

  /** The rendering is plain ASCII decimal: digits only, no sign, no leading zero. */
  lemma {:induction false} DecimalStringCanonical(n: nat)
    ensures var s := DecimalString(n);
      && (forall i :: 0 <= i < |s| ==> IsDigit(s[i]))
      && (s[0] == 0x30 ==> s == [0x30])
  {
    if n >= 10 {
      DecimalStringCanonical(n / 10);
    }
  }

  /** Reading the rendering back as a decimal number gives `n`. */
  lemma {:induction false} DecimalRoundTrip(n: nat)
    ensures var s := DecimalString(n);
      (forall i :: 0 <= i < |s| ==> IsDigit(s[i])) && DigitsValue(s) == n
  {
    DecimalStringCanonical(n);
    if n >= 10 {
      DecimalRoundTrip(n / 10);
      DigitValueOfChar(n % 10);
      DecimalStringCanonical(n / 10);
      var s := DecimalString(n);
      assert s[..|s| - 1] == DecimalString(n / 10);
      assert DigitsValue(s) == 10 * (n / 10) + n % 10;
    }
  }

  lemma {:induction false} LeadingDigitPositive(s: Str)
    requires |s| >= 1 && forall i :: 0 <= i < |s| ==> IsDigit(s[i])
    requires s[0] != 0x30
    ensures DigitsValue(s) >= 1
  {
    if |s| > 1 {
      LeadingDigitPositive(s[..|s| - 1]);
    }
  }

  /** The decimal rendering is the only canonical digit string for its value. */
  lemma {:induction false} DecimalUnique(s: Str)
    requires |s| >= 1 && forall i :: 0 <= i < |s| ==> IsDigit(s[i])
    requires s[0] == 0x30 ==> s == [0x30]
    ensures DecimalString(DigitsValue(s)) == s
  {
    if |s| > 1 {
      var p := s[..|s| - 1];
      LeadingDigitPositive(p);
      DecimalUnique(p);
      DecimalStringCanonical(DigitsValue(p));
      var n := DigitsValue(s);
      assert n / 10 == DigitsValue(p) && n % 10 == DigitValue(s[|s| - 1]);
      assert DecimalString(n) == DecimalString(DigitsValue(p)) + [s[|s| - 1]];
      assert p + [s[|s| - 1]] == s;
    }
  }

  /** `((ulong)appId << 32) | 0x02000000`: the id in a `steam://rungameid/` link. */
  function RunGameId(appId: bv32): (id: bv64)
    ensures id >> 32 == appId as bv64
    ensures id & 0xFFFF_FFFF == 0x0200_0000
  {
    ((appId as bv64) << 32) | 0x0200_0000
  }
}
