/**
 * The payload a NEAR contract hands to Aurora's `call` method: a version byte, then the
 * Borsh encoding of `CallArgs` (20-byte contract address, 32-byte attached value,
 * length-prefixed input), where the input is the method selector followed by the
 * encoded arguments.
 */
module Near2Aurora {
  import opened Bytes
  import opened Wrappers
  import opened Panics
  import opened Arguments
  import Hex

  /** The leading byte of the payload; `serialize` always writes 0. */
  const VERSION: byte := 0

  const INVALID_AURORA_ADDRESS_LENGTH: string := "Invalid aurora address length"

  /** Offsets of the fields in a serialized payload. */
  const CONTRACT_OFFSET: nat := 1
  const VALUE_OFFSET: nat := 21
  const LENGTH_OFFSET: nat := 53
  const INPUT_OFFSET: nat := 57

  type AuroraAddress = s: seq<byte> | |s| == 20 witness Zeros(20)
  type Wei = s: seq<byte> | |s| == 32 witness Zeros(32)
  /** What `Function::short_signature` yields: 4 bytes, computed outside this model. */
  type Selector = s: seq<byte> | |s| == 4 witness Zeros(4)

  /** near_sdk's `Gas`: a u64 amount of gas units. */
  datatype Gas = Gas(units: u64)

  const DEFAULT_GAS: Gas := Gas(20_000_000_000_000)

  /** A NEAR account id, carried through unchanged. */
  type AccountId = string

  datatype CallArgs = CallArgs(contract: AuroraAddress, value: Wei, input: seq<byte>)

  /** The function call a `Promise` is asked to make: receiver, method name, argument bytes, deposit, gas. */
  datatype FunctionCall = FunctionCall(receiver: AccountId, methodName: string, args: seq<byte>, deposit: nat, gas: Gas)

  /**
   * Borsh of a `Vec<u8>`: its length as a little-endian u32, then its bytes. A vector
   * too long for a u32 length is refused with `InvalidInput`.
   */
  function BorshVec(v: seq<byte>): (r: Result<seq<byte>, BorshError>)
    ensures r.Success? <==> |v| < U32_LIMIT
    ensures r.Success? ==> |r.value| == 4 + |v| && LeValue(r.value[..4]) == |v| && r.value[4..] == v
  {
    if |v| >= U32_LIMIT then Failure(InvalidInput)
    else
      Pow256Limits();
      LeRoundTrip(|v|, 4);
      var r := LeBytes(|v|, 4) + v;
      assert r[..4] == LeBytes(|v|, 4);
      Success(r)
  }

  /** `try_to_vec` on the derived Borsh encoding: the fields in declaration order, fixed arrays raw. */
  function BorshCallArgs(args: CallArgs): (r: Result<seq<byte>, BorshError>)
    ensures r.Success? <==> |args.input| < U32_LIMIT
    ensures r.Failure? ==> r.error == InvalidInput
    ensures r.Success? ==> r.value == args.contract + args.value + LeBytes(|args.input|, 4) + args.input
  {
    match BorshVec(args.input)
    case Success(input) => Success(args.contract + args.value + input)
    case Failure(e) => Failure(e)
  }

  /**
   * `CallArgs::serialize`: `[0] ‖ contract ‖ value ‖ u32-LE(|input|) ‖ input`, 57 + |input|
   * bytes in all; the `unwrap` panics only when the input is too long for its u32 length.
   */
  function Serialize(args: CallArgs): (r: Result<seq<byte>, Panic>)
    ensures r.Success? <==> |args.input| < U32_LIMIT
    ensures r.Failure? ==> r.error == BorshUnwrapFailed(InvalidInput)
    ensures r.Success? ==> |r.value| == INPUT_OFFSET + |args.input| && r.value[0] == VERSION
    ensures r.Success? ==> r.value[CONTRACT_OFFSET..VALUE_OFFSET] == args.contract
    ensures r.Success? ==> r.value[VALUE_OFFSET..LENGTH_OFFSET] == args.value
    ensures r.Success? ==> LeValue(r.value[LENGTH_OFFSET..INPUT_OFFSET]) == |args.input|
    ensures r.Success? ==> r.value[INPUT_OFFSET..] == args.input
  {
    match BorshCallArgs(args)
    case Success(borsh) =>
      var r := [VERSION] + borsh;
      assert r[LENGTH_OFFSET..INPUT_OFFSET] == BorshVec(args.input).value[..4];
      Success(r)
    case Failure(e) => Failure(BorshUnwrapFailed(e))
  }

  /** Reads a payload back at the fixed offsets; `None` for anything `Serialize` cannot produce. */
  function Parse(bytes: seq<byte>): Option<CallArgs> {
    if |bytes| < INPUT_OFFSET || bytes[0] != VERSION then None
    else if LeValue(bytes[LENGTH_OFFSET..INPUT_OFFSET]) != |bytes| - INPUT_OFFSET then None
    else Some(CallArgs(bytes[CONTRACT_OFFSET..VALUE_OFFSET], bytes[VALUE_OFFSET..LENGTH_OFFSET], bytes[INPUT_OFFSET..]))
  }

  /** Serialization loses nothing: parsing a payload gives back the contract, value and input. */
  lemma SerializeRoundTrip(args: CallArgs)
    requires |args.input| < U32_LIMIT
    ensures Serialize(args).Success? && Parse(Serialize(args).value) == Some(args)
  {
  }

  /** Every payload `Parse` accepts is exactly the serialization of what it reads. */
  lemma ParseRoundTrip(bytes: seq<byte>)
    requires Parse(bytes).Some?
    ensures Serialize(Parse(bytes).value) == Success(bytes)
  {
    var args := Parse(bytes).value;
    var lengthBytes := bytes[LENGTH_OFFSET..INPUT_OFFSET];
    LeValueBound(lengthBytes);
    Pow256Limits();
    LeBytesOfValue(lengthBytes);
    assert LeBytes(|args.input|, 4) == lengthBytes;
    assert bytes[..CONTRACT_OFFSET] == [VERSION];
    assert BorshVec(args.input) == Success(lengthBytes + args.input);
    var tail := args.contract + args.value + (lengthBytes + args.input);
    assert BorshCallArgs(args) == Success(tail);
    assert bytes == [VERSION] + tail by {
      assert bytes == bytes[..CONTRACT_OFFSET] + bytes[CONTRACT_OFFSET..];
      assert bytes[CONTRACT_OFFSET..] == tail;
    }
  }

  /**
   * What `call` asks the runtime to do, or how it panics: the address is checked for
   * length, then hex-decoded; the arguments are encoded in order; the envelope is
   * serialized; `value` and `gas` fall back to zero wei and 20 Tgas.
   */
  function Request(auroraAccountId: AccountId, contractAddress: seq<byte>, selector: Selector,
                   arguments: seq<Argument>, value: Option<Wei>, gas: Option<Gas>): (r: Result<FunctionCall, Panic>)
    ensures r.Success? ==> r.value.methodName == "call" && r.value.deposit == 0
  {
    if |contractAddress| != 40 then Failure(RequireFailed(INVALID_AURORA_ADDRESS_LENGTH))
    else
      match Hex.Decode(contractAddress)
      case Failure(e) => Failure(HexUnwrapFailed(e))
      case Success(contract) =>
        match EncodeArguments(arguments)
        case Failure(e) => Failure(e)
        case Success(encodedArguments) =>
          var args := CallArgs(contract, value.GetOr(Zeros(32)), selector + encodedArguments);
          match Serialize(args)
          case Failure(e) => Failure(e)
          case Success(payload) =>
            Success(FunctionCall(auroraAccountId, "call", payload, 0, gas.GetOr(DEFAULT_GAS)))
  }

  /**
   * How `call` panics, in the order it checks: the address length, the hex digits, then
   * the first argument that fails; past those it succeeds unless the input overflows a
   * u32 length.
   */
  lemma RequestOutcome(auroraAccountId: AccountId, contractAddress: seq<byte>, selector: Selector,
                       arguments: seq<Argument>, value: Option<Wei>, gas: Option<Gas>)
    ensures var r := Request(auroraAccountId, contractAddress, selector, arguments, value, gas);
      && (|contractAddress| != 40 ==> r == Failure(RequireFailed(INVALID_AURORA_ADDRESS_LENGTH)))
      && (|contractAddress| == 40 && !Hex.AllHexDigits(contractAddress) ==>
            r == Failure(HexUnwrapFailed(Hex.Decode(contractAddress).error)))
      && (|contractAddress| == 40 && Hex.AllHexDigits(contractAddress) && EncodeArguments(arguments).Failure? ==>
            r == Failure(EncodeArguments(arguments).error))
      && (r.Success? <==>
            && |contractAddress| == 40 && Hex.AllHexDigits(contractAddress) && EncodeArguments(arguments).Success?
            && 4 + TotalWidth(arguments) < U32_LIMIT)
  {
    if |contractAddress| == 40 && Hex.AllHexDigits(contractAddress) && EncodeArguments(arguments).Success? {
      var contract := Hex.Decode(contractAddress).value;
      var input := selector + EncodeArguments(arguments).value;
      assert |input| == 4 + TotalWidth(arguments);
      var outcome := Serialize(CallArgs(contract, value.GetOr(Zeros(32)), input));
      assert outcome.Success? <==> 4 + TotalWidth(arguments) < U32_LIMIT;
    }
  }

  /**
   * A successful `call` targets the Aurora account's `call` method with no deposit and the
   * given or default gas; its payload parses back to the decoded address, the given or
   * zero value, and the selector followed by the encoded arguments.
   */
  lemma RequestPayload(auroraAccountId: AccountId, contractAddress: seq<byte>, selector: Selector,
                       arguments: seq<Argument>, value: Option<Wei>, gas: Option<Gas>)
    requires Request(auroraAccountId, contractAddress, selector, arguments, value, gas).Success?
    ensures var call := Request(auroraAccountId, contractAddress, selector, arguments, value, gas).value;
      && call.receiver == auroraAccountId && call.methodName == "call" && call.deposit == 0
      && call.gas == gas.GetOr(DEFAULT_GAS)
      && |call.args| == INPUT_OFFSET + 4 + TotalWidth(arguments) && call.args[0] == VERSION
      && Parse(call.args).Some?
      && Parse(call.args).value.value == value.GetOr(Zeros(32))
      && Parse(call.args).value.input == selector + EncodeArguments(arguments).value
      && forall i :: 0 <= i < 20 ==>
           Parse(call.args).value.contract[i]
           == 16 * Hex.DigitValue(contractAddress[2 * i]) + Hex.DigitValue(contractAddress[2 * i + 1])
  {
    var contract := Hex.Decode(contractAddress).value;
    var args := CallArgs(contract, value.GetOr(Zeros(32)), selector + EncodeArguments(arguments).value);
    SerializeRoundTrip(args);
  }

  /** `copy_from_slice`: copies `src` into `dst`, which must have the same length. */
  method CopyFromSlice(dst: array<byte>, src: seq<byte>)
    requires dst.Length == |src|
    modifies dst
    ensures dst[..] == src
  {
    for i := 0 to |src|
      invariant forall k :: 0 <= k < i ==> dst[k] == src[k]
    {
      dst[i] := src[i];
    }
  }

  /**
   * `call`, up to the point where the payload and gas are handed to `Promise`: the result
   * is the function call the source would make, or the panic it would raise.
   */
  method Call(auroraAccountId: AccountId, contractAddress: seq<byte>, selector: Selector,
              arguments: seq<Argument>, value: Option<Wei>, gas: Option<Gas>) returns (r: Result<FunctionCall, Panic>)
    ensures r == Request(auroraAccountId, contractAddress, selector, arguments, value, gas)
  {
    var zeroValue: Wei := Zeros(32);
    var defaultGas := DEFAULT_GAS;
    if |contractAddress| != 40 {
      return Failure(RequireFailed(INVALID_AURORA_ADDRESS_LENGTH));
    }
    var decoded := Hex.Decode(contractAddress);
    if decoded.Failure? {
      return Failure(HexUnwrapFailed(decoded.error));
    }
    var contract := new byte[20](_ => 0);
    CopyFromSlice(contract, decoded.value);

    var encodedArguments := EncodeAll(arguments);
    if encodedArguments.Failure? {
      return Failure(encodedArguments.error);
    }
    var payload := Serialize(CallArgs(contract[..], value.GetOr(zeroValue), selector + encodedArguments.value));
    if payload.Failure? {
      return Failure(payload.error);
    }
    r := Success(FunctionCall(auroraAccountId, "call", payload.value, 0, gas.GetOr(defaultGas)));
  }

  /**
   * `arguments.iter().flat_map(|arg| arg.encode()).collect()`: the arguments' encodings
   * concatenated in order, or the panic of the first argument that cannot be encoded.
   */
  method EncodeAll(arguments: seq<Argument>) returns (r: Result<seq<byte>, Panic>)
    ensures r == EncodeArguments(arguments)
  {
    var encodedArguments: seq<byte> := [];
    var i := 0;
    while i < |arguments|
      invariant 0 <= i <= |arguments|
      invariant EncodeArguments(arguments[..i]) == Success(encodedArguments)
    {
      var encoded := Encode(arguments[i]);
      if encoded.Failure? {
        EncodeArgumentsFirstFailure(arguments, i);
        return Failure(encoded.error);
      }
      EncodeArgumentsSnoc(arguments[..i], arguments[i]);
      assert arguments[..i + 1] == arguments[..i] + [arguments[i]];
      encodedArguments := encodedArguments + encoded.value;
      i := i + 1;
    }
    assert arguments[..i] == arguments;
    return Success(encodedArguments);
  }

  /** In the payload, the selector and then each argument's encoding sit at fixed offsets after the header. */
  lemma RequestLayout(auroraAccountId: AccountId, contractAddress: seq<byte>, selector: Selector,
                      arguments: seq<Argument>, value: Option<Wei>, gas: Option<Gas>, i: nat)
    requires Request(auroraAccountId, contractAddress, selector, arguments, value, gas).Success?
    requires i < |arguments|
    ensures var payload := Request(auroraAccountId, contractAddress, selector, arguments, value, gas).value.args;
      var start := INPUT_OFFSET + 4 + Offset(arguments, i);
      && payload[INPUT_OFFSET..INPUT_OFFSET + 4] == selector
      && start + Width(arguments[i]) <= |payload|
      && payload[start..start + Width(arguments[i])] == Encoding(arguments[i]).value
  {
    RequestPayload(auroraAccountId, contractAddress, selector, arguments, value, gas);
    var payload := Request(auroraAccountId, contractAddress, selector, arguments, value, gas).value.args;
    var encoded := EncodeArguments(arguments).value;
    var lo, hi := Offset(arguments, i), Offset(arguments, i) + Width(arguments[i]);
    EncodeArgumentsLayout(arguments, i);
    assert payload[INPUT_OFFSET..] == selector + encoded;
    ShiftedSlice(payload, INPUT_OFFSET, selector + encoded, 0, 4);
    ShiftedSlice(payload, INPUT_OFFSET, selector + encoded, 4 + lo, 4 + hi);
    ShiftedSlice(selector + encoded, 4, encoded, lo, hi);
  }

  /** A slice of a suffix is a slice of the whole, shifted by where the suffix starts. */
  lemma ShiftedSlice(whole: seq<byte>, start: nat, suffix: seq<byte>, lo: nat, hi: nat)
    requires start <= |whole| && whole[start..] == suffix && lo <= hi <= |suffix|
    ensures whole[start + lo..start + hi] == suffix[lo..hi]
  {
    assert |suffix| == |whole| - start;
    forall k | 0 <= k < hi - lo
      ensures whole[start + lo..start + hi][k] == suffix[lo..hi][k]
    {
      assert whole[start..][lo + k] == whole[start + lo + k];
    }
  }
}
