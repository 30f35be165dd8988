/**
 * Base 16 decoding (section 8 of RFC 4648) as the `hex` crate's `decode` does it:
 * over the bytes of its input, upper- and lower-case digits both accepted, the pair
 * at positions 2i and 2i+1 giving output byte i, high nibble first.
 */
module Hex {
  import opened Bytes
  import opened Wrappers

  /** Why a decode failed: an odd number of digits, or the first byte that is not a digit. */
  datatype HexError = OddLength | InvalidHexCharacter(c: byte, index: nat)

  /** ASCII codes: '0'..'9' are 48..57, 'A'..'F' are 65..70, 'a'..'f' are 97..102. */
  predicate IsHexDigit(c: byte) {
    (48 <= c <= 57) || (97 <= c <= 102) || (65 <= c <= 70)
  }

  predicate AllHexDigits(s: seq<byte>) {
    forall i :: 0 <= i < |s| ==> IsHexDigit(s[i])
  }

  /** The value of a hex digit: '0'..'9' are 0..9, 'a'..'f' and 'A'..'F' are 10..15. */
  function DigitValue(c: byte): (v: nat)
    requires IsHexDigit(c)
    ensures v < 16
  {
    if 65 <= c <= 70 then c - 65 + 10
    else if 97 <= c <= 102 then c - 97 + 10
    else c - 48
  }

  /** The sixteen digits, in value order, in each letter case. */
  const LOWER_DIGITS: string := "0123456789abcdef"
  const UPPER_DIGITS: string := "0123456789ABCDEF"

  /**
   * The digit table, stated independently of the ASCII ranges above: the character at
   * position v of either spelling is a digit of value v, and every digit is one of those
   * 22 characters (the digit of its own value in one of the two spellings).
   */
  lemma DigitTable()
    ensures forall v :: 0 <= v < 16 ==> IsHexDigit(Ascii(LOWER_DIGITS)[v]) && DigitValue(Ascii(LOWER_DIGITS)[v]) == v
    ensures forall v :: 0 <= v < 16 ==> IsHexDigit(Ascii(UPPER_DIGITS)[v]) && DigitValue(Ascii(UPPER_DIGITS)[v]) == v
    ensures forall c: byte :: IsHexDigit(c) ==>
      Ascii(LOWER_DIGITS)[DigitValue(c)] == c || Ascii(UPPER_DIGITS)[DigitValue(c)] == c
  {
    LowerDigits();
    UpperDigits();
    DigitsSpelled();
  }

  /** Helper for DigitTable: the lower-case spelling. */
  lemma LowerDigits()
    ensures forall v :: 0 <= v < 16 ==> IsHexDigit(Ascii(LOWER_DIGITS)[v]) && DigitValue(Ascii(LOWER_DIGITS)[v]) == v
  {
    assert Ascii(LOWER_DIGITS) == [48, 49, 50, 51, 52, 53, 54, 55, 56, 57, 97, 98, 99, 100, 101, 102];
  }

  /** Helper for DigitTable: the upper-case spelling. */
  lemma UpperDigits()
    ensures forall v :: 0 <= v < 16 ==> IsHexDigit(Ascii(UPPER_DIGITS)[v]) && DigitValue(Ascii(UPPER_DIGITS)[v]) == v
  {
    assert Ascii(UPPER_DIGITS) == [48, 49, 50, 51, 52, 53, 54, 55, 56, 57, 65, 66, 67, 68, 69, 70];
  }

  /** Helper for DigitTable: no other byte is a digit. */
  lemma DigitsSpelled()
    ensures forall c: byte :: IsHexDigit(c) ==>
      Ascii(LOWER_DIGITS)[DigitValue(c)] == c || Ascii(UPPER_DIGITS)[DigitValue(c)] == c
  {
    var lower, upper := Ascii(LOWER_DIGITS), Ascii(UPPER_DIGITS);
    assert lower == [48, 49, 50, 51, 52, 53, 54, 55, 56, 57, 97, 98, 99, 100, 101, 102];
    assert upper == [48, 49, 50, 51, 52, 53, 54, 55, 56, 57, 65, 66, 67, 68, 69, 70];
    SpelledIn(lower, upper);
  }

  /** Helper for DigitsSpelled, over the ASCII codes of the two spellings. */
  lemma SpelledIn(lower: seq<byte>, upper: seq<byte>)
    requires lower == [48, 49, 50, 51, 52, 53, 54, 55, 56, 57, 97, 98, 99, 100, 101, 102]
    requires upper == [48, 49, 50, 51, 52, 53, 54, 55, 56, 57, 65, 66, 67, 68, 69, 70]
    ensures forall c: byte :: IsHexDigit(c) ==> lower[DigitValue(c)] == c || upper[DigitValue(c)] == c
  {
    forall c: byte | IsHexDigit(c)
      ensures lower[DigitValue(c)] == c || upper[DigitValue(c)] == c
    {
      if c <= 57 {
        assert lower[c - 48] == c;
      } else if c <= 70 {
        assert upper[c - 55] == c;
      } else {
        assert lower[c - 87] == c;
      }
    }
  }


  /** The crate's per-digit step: the digit's value, or the error naming that byte and its index. */
  function Val(c: byte, index: nat): (r: Result<nat, HexError>)
    ensures r.Success? <==> IsHexDigit(c)
    ensures r.Success? ==> r.value == DigitValue(c)
    ensures r.Failure? ==> r.error == InvalidHexCharacter(c, index)
  {
    if IsHexDigit(c) then Success(DigitValue(c)) else Failure(InvalidHexCharacter(c, index))
  }

  /** Decodes the digit pairs of `hex` from position `i` on. */
  function DecodeFrom(hex: seq<byte>, i: nat): (r: Result<seq<byte>, HexError>)
    requires i <= |hex| && (|hex| - i) % 2 == 0
    ensures r.Success? <==> forall k :: i <= k < |hex| ==> IsHexDigit(hex[k])
    ensures r.Success? ==> i + 2 * |r.value| == |hex|
    ensures r.Failure? ==>
      && r.error.InvalidHexCharacter? && i <= r.error.index < |hex|
      && hex[r.error.index] == r.error.c && !IsHexDigit(r.error.c)
      && forall k :: i <= k < r.error.index ==> IsHexDigit(hex[k])
    decreases |hex| - i
  {
    if i == |hex| then Success([])
    else
      match Val(hex[i], i)
      case Failure(e) => Failure(e)
      case Success(high) =>
        match Val(hex[i + 1], i + 1)
        case Failure(e) => Failure(e)
        case Success(low) =>
          var rest := DecodeFrom(hex, i + 2);
          if rest.Failure? then rest
          else
            Success([16 * high + low] + rest.value)
  }

  /** Byte j decoded from position `i` on comes from the digits at i + 2j and i + 2j + 1. */
  lemma {:induction false} DecodeFromByte(hex: seq<byte>, i: nat, j: nat)
    requires i <= |hex| && (|hex| - i) % 2 == 0
    requires DecodeFrom(hex, i).Success? && j < |DecodeFrom(hex, i).value|
    ensures DecodeFrom(hex, i).value[j] == 16 * DigitValue(hex[i + 2 * j]) + DigitValue(hex[i + 2 * j + 1])
    decreases j
  {
    if j > 0 {
      DecodeFromByte(hex, i + 2, j - 1);
    }
  }

  /**
   * `hex::decode`: succeeds exactly on an even number of hex digits, with `|hex| / 2`
   * bytes whose byte i is formed from digits 2i (high) and 2i+1 (low); otherwise
   * reports the odd length, or the first byte that is not a hex digit and its index.
   */
  function Decode(hex: seq<byte>): (r: Result<seq<byte>, HexError>)
    ensures |hex| % 2 != 0 ==> r == Failure(OddLength)
    ensures r.Success? <==> |hex| % 2 == 0 && AllHexDigits(hex)
    ensures r.Success? ==> |r.value| == |hex| / 2 && forall i :: 0 <= i < |r.value| ==>
      r.value[i] == 16 * DigitValue(hex[2 * i]) + DigitValue(hex[2 * i + 1])
    ensures |hex| % 2 == 0 && r.Failure? ==>
      && r.error.InvalidHexCharacter? && r.error.index < |hex|
      && hex[r.error.index] == r.error.c && !IsHexDigit(r.error.c)
      && forall k :: 0 <= k < r.error.index ==> IsHexDigit(hex[k])
  {
    if |hex| % 2 != 0 then Failure(OddLength)
    else
      var r := DecodeFrom(hex, 0);
      if r.Success? then
        assert forall j :: 0 <= j < |r.value| ==>
          r.value[j] == 16 * DigitValue(hex[2 * j]) + DigitValue(hex[2 * j + 1]) by {
          forall j | 0 <= j < |r.value| ensures r.value[j] == 16 * DigitValue(hex[2 * j]) + DigitValue(hex[2 * j + 1]) {
            DecodeFromByte(hex, 0, j);
          }
        }
        r
      else r
  }

  /** `x` and `y` are the same byte, or `x` is a lower-case digit 'a'..'f' and `y` its upper-case form. */
  predicate SameIgnoringCase(x: byte, y: byte) {
    x == y || (97 <= x <= 102 && x as int == y as int + 32)
  }

  /** Upper- and lower-case spellings of the same digits decode to the same bytes (or fail alike). */
  lemma DecodeIgnoresCase(a: seq<byte>, b: seq<byte>)
    requires |a| == |b|
    requires forall k :: 0 <= k < |a| ==> SameIgnoringCase(a[k], b[k])
    ensures Decode(a) == Decode(b)
  {
    var ra, rb := Decode(a), Decode(b);
    assert forall k :: 0 <= k < |a| ==> (IsHexDigit(a[k]) <==> IsHexDigit(b[k]));
    assert forall k :: 0 <= k < |a| && IsHexDigit(a[k]) ==> DigitValue(a[k]) == DigitValue(b[k]);
    if |a| % 2 == 0 {
      if ra.Success? {
        assert ra.value == rb.value;
      } else {
        var i, j := ra.error.index, rb.error.index;
        assert IsHexDigit(a[j]) <==> IsHexDigit(b[j]);
        assert IsHexDigit(a[i]) <==> IsHexDigit(b[i]);
        assert i == j;
        assert a[i] == b[i];
      }
    }
  }

  /** Decoding is piecewise: two even-length digit strings decode to the concatenation of their bytes. */
  lemma DecodeConcat(p: seq<byte>, q: seq<byte>)
    requires |p| % 2 == 0 && Decode(p).Success? && Decode(q).Success?
    ensures Decode(p + q).Success?
    ensures Decode(p + q).value == Decode(p).value + Decode(q).value
  {
    var pq := p + q;
    forall k | 0 <= k < |pq| ensures IsHexDigit(pq[k]) {
      if k >= |p| {
        assert pq[k] == q[k - |p|];
      }
    }
    assert AllHexDigits(pq);
    var r, rp, rq := Decode(pq).value, Decode(p).value, Decode(q).value;
    forall i | 0 <= i < |r| ensures r[i] == (rp + rq)[i] {
      PairOfConcat(p, q, i);
    }
  }

  /** Helper for DecodeConcat: digit pair i of `p + q` and the byte it gives. */
  lemma PairOfConcat(p: seq<byte>, q: seq<byte>, i: nat)
    requires |p| % 2 == 0 && Decode(p).Success? && Decode(q).Success? && Decode(p + q).Success?
    requires i < (|p| + |q|) / 2
    ensures Decode(p + q).value[i] == (Decode(p).value + Decode(q).value)[i]
  {
    var pq := p + q;
    if i >= |p| / 2 {
      var j := i - |p| / 2;
      assert pq[2 * i] == q[2 * j] && pq[2 * i + 1] == q[2 * j + 1];
    } else {
      assert pq[2 * i] == p[2 * i] && pq[2 * i + 1] == p[2 * i + 1];
    }
  }
}
