/**
 * The arguments of an Aurora call and their byte encodings: a `Uint256` becomes a
 * 32-byte big-endian word and an `Address` the 20 bytes its 40 hex digits spell.
 */
module Arguments {
  import opened Bytes
  import opened Wrappers
  import opened Panics
  import Hex

  /** An address (the bytes of a Rust `String`) or an unsigned amount that fits in a u128. */
  datatype Argument = Address(address: seq<byte>) | Uint256(amount: u128)

  const INVALID_AURORA_ADDRESS: string := "Invalid aurora address"

  /** Number of bytes an argument encodes to when it encodes at all. */
  function Width(argument: Argument): nat {
    match argument
    case Address(_) => 20
    case Uint256(_) => 32
  }

  /**
   * `encode_address`: a string other than 40 bytes long fails the `require!`; a
   * 40-byte string fails the `unwrap` unless every byte is a hex digit; otherwise
   * the result is the 20 bytes the digit pairs spell. No padding to a 32-byte word.
   */
  function EncodeAddress(address: seq<byte>): (r: Result<seq<byte>, Panic>)
    ensures |address| != 40 ==> r == Failure(RequireFailed(INVALID_AURORA_ADDRESS))
    ensures |address| == 40 && !Hex.AllHexDigits(address) ==> r == Failure(HexUnwrapFailed(Hex.Decode(address).error))
    ensures r.Success? <==> |address| == 40 && Hex.AllHexDigits(address)
    ensures r.Success? ==> |r.value| == 20 && forall i :: 0 <= i < 20 ==>
      r.value[i] == 16 * Hex.DigitValue(address[2 * i]) + Hex.DigitValue(address[2 * i + 1])
  {
    if |address| != 40 then Failure(RequireFailed(INVALID_AURORA_ADDRESS))
    else
      match Hex.Decode(address)
      case Success(bytes) => Success(bytes)
      case Failure(e) => Failure(HexUnwrapFailed(e))
  }

  /**
   * The word `encode_u256` produces: exactly 32 bytes whose big-endian value is the
   * amount; since the amount is a u128, the 16 high-order bytes are zero.
   */
  function U256Word(amount: u128): (w: seq<byte>)
    ensures |w| == 32
    ensures BeValue(w) == amount
    ensures AllZero(w[..16])
  {
    Pow256Limits();
    Pow256Monotone(16, 32);
    BeBytesLeadingZeros(amount, 16, 32);
    BeRoundTrip(amount, 32);
    BeBytes(amount, 32)
  }

  /** Distinct amounts have distinct words. */
  lemma U256WordInjective(a: u128, b: u128)
    requires U256Word(a) == U256Word(b)
    ensures a == b
  {
  }

  /** `U256::to_big_endian`: fills the 32-byte buffer with `x`, most significant byte first. */
  method WriteBigEndian(x: nat, bytes: array<byte>)
    requires x < Pow256(32) && bytes.Length == 32
    modifies bytes
    ensures bytes[..] == BeBytes(x, 32)
  {
    var n := bytes.Length;
    var q := x;
    assert bytes[n..] == [];
    for i := 0 to n
      invariant BeBytes(x, n) == BeBytes(q, n - i) + bytes[n - i..]
    {
      ghost var before := bytes[..];
      bytes[n - 1 - i] := q % 256;
      WriteStep(x, q, n, i, before, bytes[..]);
      q := q / 256;
    }
    assert bytes[..] == bytes[0..];
  }

  /** Helper for WriteBigEndian: writing the low byte of `q` at position n-1-i moves one byte from `q` into the done suffix. */
  lemma WriteStep(x: nat, q: nat, n: nat, i: nat, before: seq<byte>, after: seq<byte>)
    requires i < n == |before| && after == before[n - 1 - i := q % 256]
    requires BeBytes(x, n) == BeBytes(q, n - i) + before[n - i..]
    ensures BeBytes(x, n) == BeBytes(q / 256, n - (i + 1)) + after[n - (i + 1)..]
  {
    assert after[n - 1 - i..] == [q % 256] + before[n - i..];
  }

  /** `encode_u256`: a zeroed 32-byte buffer filled in place with the amount's big-endian bytes. */
  method EncodeU256(amount: u128) returns (encoded: seq<byte>)
    ensures encoded == U256Word(amount)
  {
    Pow256Limits();
    Pow256Monotone(16, 32);
    var buffer := new byte[32](_ => 0);
    WriteBigEndian(amount, buffer);
    encoded := buffer[..];
  }

  /** What `Argument::encode` yields for one argument. */
  function Encoding(argument: Argument): (r: Result<seq<byte>, Panic>)
    ensures r.Success? ==> |r.value| == Width(argument)
    ensures argument.Uint256? ==> r.Success? && BeValue(r.value) == argument.amount
  {
    match argument
    case Address(address) => EncodeAddress(address)
    case Uint256(amount) => Success(U256Word(amount))
  }

  /** `Argument::encode`: dispatches on the variant. */
  method Encode(argument: Argument) returns (r: Result<seq<byte>, Panic>)
    ensures r == Encoding(argument)
  {
    match argument
    case Address(address) =>
      r := EncodeAddress(address);
    case Uint256(amount) =>
      var word := EncodeU256(amount);
      r := Success(word);
  }

  function CountAddresses(arguments: seq<Argument>): nat {
    if arguments == [] then 0
    else CountAddresses(arguments[..|arguments| - 1]) + (if arguments[|arguments| - 1].Address? then 1 else 0)
  }

  function CountUints(arguments: seq<Argument>): nat {
    if arguments == [] then 0
    else CountUints(arguments[..|arguments| - 1]) + (if arguments[|arguments| - 1].Uint256? then 1 else 0)
  }

  /** Total width of a list of arguments: 20 bytes per address, 32 per amount. */
  function TotalWidth(arguments: seq<Argument>): nat {
    20 * CountAddresses(arguments) + 32 * CountUints(arguments)
  }

  /** Argument k fails to encode and every argument before it encodes. */
  predicate FirstFailing(arguments: seq<Argument>, k: int) {
    0 <= k < |arguments| && Encoding(arguments[k]).Failure? &&
    forall j :: 0 <= j < k ==> Encoding(arguments[j]).Success?
  }

  /**
   * The argument bytes `call` collects with `flat_map`: the arguments' encodings
   * concatenated in order, or the panic of the first argument that fails to encode.
   */
  function EncodeArguments(arguments: seq<Argument>): (r: Result<seq<byte>, Panic>)
    ensures r.Success? <==> forall i :: 0 <= i < |arguments| ==> Encoding(arguments[i]).Success?
    ensures r.Success? ==> |r.value| == TotalWidth(arguments)
    ensures r.Failure? ==> exists k :: FirstFailing(arguments, k) && Encoding(arguments[k]) == Failure(r.error)
  {
    if arguments == [] then Success([])
    else
      var init, last := arguments[..|arguments| - 1], arguments[|arguments| - 1];
      assert forall i :: 0 <= i < |init| ==> init[i] == arguments[i];
      match EncodeArguments(init)
      case Failure(e) => Failure(e)
      case Success(prefix) =>
        match Encoding(last)
        case Failure(e) => Failure(e)
        case Success(bytes) => Success(prefix + bytes)
  }

  /** When every argument before i encodes and argument i does not, the whole list fails with i's panic. */
  lemma {:induction false} EncodeArgumentsFirstFailure(arguments: seq<Argument>, i: nat)
    requires i < |arguments| && EncodeArguments(arguments[..i]).Success? && Encoding(arguments[i]).Failure?
    ensures EncodeArguments(arguments) == Failure(Encoding(arguments[i]).error)
    decreases |arguments|
  {
    var init := arguments[..|arguments| - 1];
    if i < |arguments| - 1 {
      assert init[..i] == arguments[..i];
      EncodeArgumentsFirstFailure(init, i);
    } else {
      assert init == arguments[..i];
    }
  }

  /** Where argument i lands: after the encodings of all arguments before it. */
  function Offset(arguments: seq<Argument>, i: nat): nat
    requires i <= |arguments|
  {
    TotalWidth(arguments[..i])
  }

  /** Each argument's encoding sits, unchanged, at its fixed offset in the concatenation. */
  lemma {:induction false} EncodeArgumentsLayout(arguments: seq<Argument>, i: nat)
    requires EncodeArguments(arguments).Success? && i < |arguments|
    ensures Offset(arguments, i) + Width(arguments[i]) <= |EncodeArguments(arguments).value|
    ensures EncodeArguments(arguments).value[Offset(arguments, i)..Offset(arguments, i) + Width(arguments[i])]
      == Encoding(arguments[i]).value
  {
    var n := |arguments|;
    var init, last := arguments[..n - 1], arguments[n - 1];
    var prefix := EncodeArguments(init).value;
    var bytes := Encoding(last).value;
    assert EncodeArguments(arguments).value == prefix + bytes;
    if i == n - 1 {
      assert arguments[..i] == init;
      SliceOfConcat(prefix, bytes, |prefix|, |prefix| + |bytes|);
    } else {
      assert init[i] == arguments[i];
      assert init[..i] == arguments[..i];
      EncodeArgumentsLayout(init, i);
      SliceOfConcat(prefix, bytes, Offset(arguments, i), Offset(arguments, i) + Width(arguments[i]));
    }
  }

  /** A slice of `a + b` that lies within `a`, or exactly covers `b`. */
  lemma SliceOfConcat(a: seq<byte>, b: seq<byte>, lo: nat, hi: nat)
    requires lo <= hi <= |a| || (lo == |a| && hi == |a| + |b|)
    ensures hi <= |a| ==> (a + b)[lo..hi] == a[lo..hi]
    ensures lo == |a| && hi == |a| + |b| ==> (a + b)[lo..hi] == b
  {
  }

  /** Appending one argument appends its encoding. */
  lemma EncodeArgumentsSnoc(arguments: seq<Argument>, last: Argument)
    requires EncodeArguments(arguments).Success? && Encoding(last).Success?
    ensures EncodeArguments(arguments + [last]) == Success(EncodeArguments(arguments).value + Encoding(last).value)
  {
    assert (arguments + [last])[..|arguments|] == arguments;
  }

  /** The source's address test: its 40 hex digits encode to these 20 bytes. */
  lemma EncodeAddressKnownAnswer()
    ensures Encoding(Address(Ascii("86538ca055e7fd992a26c5604f349e2ede3ce42d"))).Success?
    ensures Encoding(Address(Ascii("86538ca055e7fd992a26c5604f349e2ede3ce42d"))).value
      == [134, 83, 140, 160, 85, 231, 253, 153, 42, 38, 197, 96, 79, 52, 158, 46, 222, 60, 228, 45]
  {
    var a0: seq<byte>, a1: seq<byte>, a2: seq<byte>, a3: seq<byte> := [56, 54, 53, 51, 56, 99, 97, 48, 53, 53],
      [101, 55, 102, 100, 57, 57, 50, 97, 50, 54],
      [99, 53, 54, 48, 52, 102, 51, 52, 57, 101],
      [50, 101, 100, 101, 51, 99, 101, 52, 50, 100];
    AddressInPieces(a0, a1, a2, a3);
    AddressRun0(a0);
    AddressRun1(a1);
    AddressRun2(a2);
    AddressRun3(a3);
    EncodeAddressOfRuns(a0, a1, a2, a3);
    JoinRuns(Hex.Decode(a0).value, Hex.Decode(a1).value, Hex.Decode(a2).value, Hex.Decode(a3).value);
  }

  /** Helper for EncodeAddressKnownAnswer: the four runs of decoded bytes joined. */
  lemma JoinRuns(v0: seq<byte>, v1: seq<byte>, v2: seq<byte>, v3: seq<byte>)
    requires v0 == [134, 83, 140, 160, 85] && v1 == [231, 253, 153, 42, 38]
    requires v2 == [197, 96, 79, 52, 158] && v3 == [46, 222, 60, 228, 45]
    ensures v0 + v1 + v2 + v3 == [134, 83, 140, 160, 85, 231, 253, 153, 42, 38, 197, 96, 79, 52, 158, 46, 222, 60, 228, 45]
  {
  }

  /** Helper for EncodeAddressKnownAnswer: the test address as four runs of ten ASCII codes. */
  lemma AddressInPieces(a0: seq<byte>, a1: seq<byte>, a2: seq<byte>, a3: seq<byte>)
    requires a0 == [56, 54, 53, 51, 56, 99, 97, 48, 53, 53]
    requires a1 == [101, 55, 102, 100, 57, 57, 50, 97, 50, 54]
    requires a2 == [99, 53, 54, 48, 52, 102, 51, 52, 57, 101]
    requires a3 == [50, 101, 100, 101, 51, 99, 101, 52, 50, 100]
    ensures Ascii("86538ca055e7fd992a26c5604f349e2ede3ce42d") == a0 + a1 + a2 + a3
  {
  }

  /** Helper for EncodeAddressKnownAnswer: digits 0..9 of the test address ("86538ca055") decode to bytes 0..4. */
  lemma AddressRun0(a: seq<byte>)
    requires a == [56, 54, 53, 51, 56, 99, 97, 48, 53, 53]
    ensures Hex.Decode(a).Success? && Hex.Decode(a).value == [134, 83, 140, 160, 85]
  {
    assert Hex.AllHexDigits(a);
    var r := Hex.Decode(a).value;
    assert r[0] == 134 && r[1] == 83 && r[2] == 140 && r[3] == 160 && r[4] == 85;
  }

  /** Helper for EncodeAddressKnownAnswer: digits 10..19 of the test address ("e7fd992a26") decode to bytes 5..9. */
  lemma AddressRun1(a: seq<byte>)
    requires a == [101, 55, 102, 100, 57, 57, 50, 97, 50, 54]
    ensures Hex.Decode(a).Success? && Hex.Decode(a).value == [231, 253, 153, 42, 38]
  {
    assert Hex.AllHexDigits(a);
    var r := Hex.Decode(a).value;
    assert r[0] == 231 && r[1] == 253 && r[2] == 153 && r[3] == 42 && r[4] == 38;
  }

  /** Helper for EncodeAddressKnownAnswer: digits 20..29 of the test address ("c5604f349e") decode to bytes 10..14. */
  lemma AddressRun2(a: seq<byte>)
    requires a == [99, 53, 54, 48, 52, 102, 51, 52, 57, 101]
    ensures Hex.Decode(a).Success? && Hex.Decode(a).value == [197, 96, 79, 52, 158]
  {
    assert Hex.AllHexDigits(a);
    var r := Hex.Decode(a).value;
    assert r[0] == 197 && r[1] == 96 && r[2] == 79 && r[3] == 52 && r[4] == 158;
  }

  /** Helper for EncodeAddressKnownAnswer: digits 30..39 of the test address ("2ede3ce42d") decode to bytes 15..19. */
  lemma AddressRun3(a: seq<byte>)
    requires a == [50, 101, 100, 101, 51, 99, 101, 52, 50, 100]
    ensures Hex.Decode(a).Success? && Hex.Decode(a).value == [46, 222, 60, 228, 45]
  {
    assert Hex.AllHexDigits(a);
    var r := Hex.Decode(a).value;
    assert r[0] == 46 && r[1] == 222 && r[2] == 60 && r[3] == 228 && r[4] == 45;
  }

  /** Helper for EncodeAddressKnownAnswer: an address written as four runs of ten digits encodes run by run. */
  lemma EncodeAddressOfRuns(a0: seq<byte>, a1: seq<byte>, a2: seq<byte>, a3: seq<byte>)
    requires |a0| == |a1| == |a2| == |a3| == 10
    requires Hex.Decode(a0).Success? && Hex.Decode(a1).Success? && Hex.Decode(a2).Success? && Hex.Decode(a3).Success?
    ensures Encoding(Address(a0 + a1 + a2 + a3))
      == Success(Hex.Decode(a0).value + Hex.Decode(a1).value + Hex.Decode(a2).value + Hex.Decode(a3).value)
  {
    Hex.DecodeConcat(a0, a1);
    Hex.DecodeConcat(a0 + a1, a2);
    Hex.DecodeConcat(a0 + a1 + a2, a3);
  }

  /** The source's amount test: 10^18 encodes to 24 zero bytes then 0x0de0b6b3a7640000. */
  lemma EncodeU256KnownAnswer()
    ensures Encoding(Uint256(1000000000000000000)) == Success(Zeros(24) + [13, 224, 182, 179, 167, 100, 0, 0])
  {
    var v := 1000000000000000000;
    Pow256Limits();
    BeBytesLeadingZeros(v, 8, 32);
    assert BeBytes(0x0d, 1) == [13];
    assert BeBytes(0x0de0, 2) == [13, 224];
    assert BeBytes(0x0de0b6, 3) == [13, 224, 182];
    assert BeBytes(0x0de0b6b3, 4) == [13, 224, 182, 179];
    assert BeBytes(0x0de0b6b3a7, 5) == [13, 224, 182, 179, 167];
    assert BeBytes(0x0de0b6b3a764, 6) == [13, 224, 182, 179, 167, 100];
    assert BeBytes(0x0de0b6b3a76400, 7) == [13, 224, 182, 179, 167, 100, 0];
    assert BeBytes(v, 8) == [13, 224, 182, 179, 167, 100, 0, 0];
  }
}
