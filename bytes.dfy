/** Bytes, fixed-width unsigned integers and their big- and little-endian byte layouts. */
module Bytes {

  type byte = x: int | 0 <= x < 256

  const U32_LIMIT: nat := 0x1_0000_0000
  const U64_LIMIT: nat := 0x1_0000_0000_0000_0000
  const U128_LIMIT: nat := 0x1_0000_0000_0000_0000_0000_0000_0000_0000

  /** Rust's `u64` and `u128`. */
  type u64 = x: nat | x < U64_LIMIT
  type u128 = x: nat | x < U128_LIMIT

  /** 256^n, the number of values `n` bytes can hold. */
  function Pow256(n: nat): (p: nat)
    ensures p > 0
  {
    if n == 0 then 1 else 256 * Pow256(n - 1)
  }

  lemma Pow256Limits()
    ensures Pow256(4) == U32_LIMIT
    ensures Pow256(8) == U64_LIMIT
    ensures Pow256(16) == U128_LIMIT
  {
    assert Pow256(4) == 0x1_0000_0000;
    assert Pow256(8) == 0x1_0000_0000_0000_0000 by {
      assert Pow256(6) == 0x1_0000_0000_0000;
    }
    assert Pow256(12) == 0x1_0000_0000_0000_0000_0000_0000 by {
      assert Pow256(10) == 0x1_0000_0000_0000_0000_0000;
    }
    assert Pow256(14) == 0x1_0000_0000_0000_0000_0000_0000_0000;
  }

  lemma {:induction false} Pow256Monotone(a: nat, b: nat)
    requires a <= b
    ensures Pow256(a) <= Pow256(b)
  {
    if a < b {
      Pow256Monotone(a, b - 1);
    }
  }

  /** `n` zero bytes, the contents of Rust's `[0u8; n]`. */
  function Zeros(n: nat): (z: seq<byte>)
    ensures |z| == n
    ensures forall i :: 0 <= i < n ==> z[i] == 0
  {
    seq(n, _ => 0)
  }

  predicate AllZero(s: seq<byte>) {
    forall i :: 0 <= i < |s| ==> s[i] == 0
  }

  /** The natural number that `s` spells, most significant byte first. */
  function BeValue(s: seq<byte>): nat {
    if s == [] then 0 else BeValue(s[..|s| - 1]) * 256 + s[|s| - 1]
  }

  /** The `width` low-order bytes of `v`, most significant first. */
  function BeBytes(v: nat, width: nat): (r: seq<byte>)
    ensures |r| == width
  {
    if width == 0 then [] else BeBytes(v / 256, width - 1) + [v % 256]
  }

  /** The natural number that `s` spells, least significant byte first. */
  function LeValue(s: seq<byte>): nat {
    if s == [] then 0 else s[0] + 256 * LeValue(s[1..])
  }

  /** The `width` low-order bytes of `v`, least significant first. */
  function LeBytes(v: nat, width: nat): (r: seq<byte>)
    ensures |r| == width
  {
    if width == 0 then [] else [v % 256] + LeBytes(v / 256, width - 1)
  }

  /** Reading back a big-endian encoding gives the encoded number. */
  lemma {:induction false} BeRoundTrip(v: nat, width: nat)
    requires v < Pow256(width)
    ensures BeValue(BeBytes(v, width)) == v
  {
    if width > 0 {
      BeRoundTrip(v / 256, width - 1);
      var r := BeBytes(v, width);
      assert r[..|r| - 1] == BeBytes(v / 256, width - 1);
    }
  }

  /** A byte string is the big-endian encoding of its own value, so BeBytes is onto and BeValue injective at each width. */
  lemma {:induction false} BeBytesOfValue(s: seq<byte>)
    ensures BeBytes(BeValue(s), |s|) == s
  {
    if s != [] {
      var p := s[..|s| - 1];
      BeBytesOfValue(p);
      assert s == p + [s[|s| - 1]];
    }
  }

  lemma {:induction false} BeBytesOfZero(width: nat)
    ensures BeBytes(0, width) == Zeros(width)
  {
    if width > 0 {
      BeBytesOfZero(width - 1);
    }
  }

  /** A number below 256^k has only zero bytes above its `k` low-order ones. */
  lemma {:induction false} BeBytesLeadingZeros(v: nat, k: nat, width: nat)
    requires v < Pow256(k) && k <= width
    ensures BeBytes(v, width) == Zeros(width - k) + BeBytes(v, k)
  {
    if k == 0 {
      BeBytesOfZero(width);
    } else {
      BeBytesLeadingZeros(v / 256, k - 1, width - 1);
    }
  }

  /** Reading back a little-endian encoding gives the encoded number. */
  lemma {:induction false} LeRoundTrip(v: nat, width: nat)
    requires v < Pow256(width)
    ensures LeValue(LeBytes(v, width)) == v
  {
    if width > 0 {
      LeRoundTrip(v / 256, width - 1);
      assert LeBytes(v, width)[1..] == LeBytes(v / 256, width - 1);
    }
  }

  lemma {:induction false} LeValueBound(s: seq<byte>)
    ensures LeValue(s) < Pow256(|s|)
  {
    if s != [] {
      LeValueBound(s[1..]);
    }
  }

  lemma {:induction false} LeBytesOfValue(s: seq<byte>)
    ensures LeBytes(LeValue(s), |s|) == s
  {
    if s != [] {
      LeBytesOfValue(s[1..]);
      assert s == [s[0]] + s[1..];
    }
  }

  /** Bytes of a string literal made of ASCII characters, as Rust stores a `&str`. */
  function Ascii(s: string): (b: seq<byte>)
    requires forall i :: 0 <= i < |s| ==> s[i] as int < 128
    ensures |b| == |s|
    ensures forall i :: 0 <= i < |s| ==> b[i] == s[i] as int
  {
    seq(|s|, i requires 0 <= i < |s| => s[i] as int)
  }
}
