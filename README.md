# near2aurora in Dafny

near2aurora is a Rust helper library for NEAR contracts. It builds the payload a NEAR
contract sends to the Aurora engine's `call` method so that a function of an Aurora
(EVM) contract is invoked. This project models that payload builder and proves its
byte layout.

- **Argument encoding** (`Arguments`). A `Uint256(u128)` argument becomes a 32-byte
  big-endian word. An `Address(String)` argument must be 40 characters long; it is
  hex-decoded into 20 raw bytes, with no padding to a 32-byte word.
- **Hex decoding** (`Hex`). This is the observable behaviour of the `hex` crate's `decode`:
  - an odd length fails with `OddLength`;
  - a non-hex byte fails with `InvalidHexCharacter`, reporting the first such byte and its index;
  - upper- and lower-case digits are both accepted.
- **Envelope** (`Near2Aurora`). The payload is a version byte 0 followed by the Borsh
  encoding of `CallArgs`, laid out as
  `contract[20] ‖ value[32] ‖ u32-LE(|input|) ‖ input`.
  The input is the 4-byte method selector followed by every argument's encoding, in order.
  `call` checks and decodes the contract address, then encodes the arguments. It
  defaults `value` to 32 zero bytes and `gas` to 20 Tgas.
- **Byte arithmetic** (`Bytes`): big- and little-endian conversions and their round trips.

Panics are modelled as the `Failure` case of a `Result` that carries the reason:
- `RequireFailed(message)` for a `require!`;
- `HexUnwrapFailed(error)` for `hex::decode(..).unwrap()`;
- `BorshUnwrapFailed(error)` for `try_to_vec().unwrap()`.

A Rust `String` is modelled as its UTF-8 bytes (`seq<byte>`). `len()` counts bytes, and
`hex::decode` reads bytes.

The imperative parts keep their shape:
- `encode_u256` writes a fresh 32-byte array in place (`Arguments.WriteBigEndian`).
- `call` copies the decoded address into a fresh 20-byte array (`Near2Aurora.CopyFromSlice`).
- `call` accumulates the argument bytes in a loop (`Near2Aurora.EncodeAll`).

Each of these methods is proved equal to a specification function, and the properties are proved about that function.

Where the code differs from the Ethereum Contract ABI specification or from its own
comments, the model follows the code:
- An address argument is 20 raw bytes, not an ABI word of 32 bytes. The test at
  `near2aurora/src/argument.rs:35-41` pins this.
- The version byte is 0. The comment at `near2aurora/src/lib.rs:26` says "byte one", but the code writes `vec![0]`.

## Model

| member | source | states |
|---|---|---|
| Bytes.BeRoundTrip | near2aurora/src/argument.rs:24-26 | reading `width` big-endian bytes of a value below 256^width gives the value back |
| Bytes.BeBytesOfValue | near2aurora/src/argument.rs:24-26 | every byte string is the big-endian encoding, at its own width, of the number it denotes |
| Bytes.BeBytesLeadingZeros | near2aurora/src/argument.rs:24-26 | a value below 256^k written in w ≥ k bytes is w−k zero bytes followed by its k-byte encoding |
| Bytes.LeRoundTrip | near2aurora/src/lib.rs:13-22 | the little-endian length prefix reads back as the length it encodes |
| Bytes.LeBytesOfValue | near2aurora/src/lib.rs:13-22 | every 4-byte prefix is the little-endian encoding of the number it denotes |
| Bytes.LeValueBound | near2aurora/src/lib.rs:13-22 | a k-byte little-endian number is below 256^k, so a 4-byte length fits a u32 |
| Hex.DigitTable | near2aurora/src/argument.rs:20 | position v of "0123456789abcdef" and of "0123456789ABCDEF" is a digit of value v, and every byte the decoder accepts as a digit is one of those 22 characters, namely the one of its own value in one of the two spellings |
| Hex.DecodeFromByte | near2aurora/src/argument.rs:20 | output byte j is 16 times the value of input digit 2j plus the value of digit 2j+1 |
| Hex.Decode | near2aurora/src/argument.rs:20 | odd length gives `OddLength`; decoding succeeds exactly when the length is even and every byte is a hex digit; the result is half as long, and each byte is high digit·16 + low digit; a failure names the first non-hex byte and its index |
| Hex.DecodeIgnoresCase | near2aurora/src/argument.rs:20 | two strings that differ only in the case of hex letters (a–f in one where the other has A–F, every other byte equal) decode to the same result, errors included |
| Hex.DecodeConcat | near2aurora/src/argument.rs:20 | decoding an even-length prefix and a suffix separately and joining the results is decoding the whole |
| Arguments.EncodeAddress | near2aurora/src/argument.rs:18-21 | length ≠ 40 panics with "Invalid aurora address"; a 40-byte string with a non-hex byte panics in `unwrap` with the decoder's error; otherwise it succeeds with 20 bytes, byte i being 16·hexval(s[2i]) + hexval(s[2i+1]) |
| Arguments.U256Word | near2aurora/src/argument.rs:23-27 | the word is 32 bytes, reads back big-endian as the amount, and its first 16 bytes are zero |
| Arguments.U256WordInjective | near2aurora/src/argument.rs:24-26 | distinct amounts have distinct words |
| Arguments.WriteBigEndian | near2aurora/src/argument.rs:25-26 | filling the 32-byte buffer in place leaves exactly the big-endian encoding of the value in it |
| Arguments.EncodeU256 | near2aurora/src/argument.rs:23-28 | the buffer-based encoder returns the 32-byte big-endian word of the amount |
| Arguments.Encoding | near2aurora/src/argument.rs:10-15 | a successful encoding has the argument's width (20 for an address, 32 for a uint); a uint always succeeds and reads back as its amount |
| Arguments.Encode | near2aurora/src/argument.rs:10-15 | `encode` dispatches on the variant and returns that argument's encoding or its panic |
| Arguments.EncodeArguments | near2aurora/src/lib.rs:51 | the list encodes exactly when every argument encodes, into 20·#Address + 32·#Uint256 bytes; a failure is the panic of an argument all of whose predecessors encode |
| Arguments.EncodeArgumentsFirstFailure | near2aurora/src/lib.rs:51 | when arguments before i encode and argument i fails, the whole list fails with argument i's panic |
| Arguments.EncodeArgumentsSnoc | near2aurora/src/lib.rs:51 | when the list and the new argument both encode, appending the argument appends its encoding |
| Arguments.EncodeArgumentsLayout | near2aurora/src/lib.rs:51 | argument i's encoding sits at the sum of the widths of the arguments before it |
| Arguments.EncodeAddressKnownAnswer | near2aurora/src/argument.rs:35-41 | "86538ca055e7fd992a26c5604f349e2ede3ce42d" encodes to [134, 83, 140, 160, 85, 231, 253, 153, 42, 38, 197, 96, 79, 52, 158, 46, 222, 60, 228, 45] |
| Arguments.EncodeU256KnownAnswer | near2aurora/src/argument.rs:44-49 | 10^18 encodes to 24 zero bytes followed by [13, 224, 182, 179, 167, 100, 0, 0] |
| Near2Aurora.BorshVec | near2aurora/src/lib.rs:13-22 | a `Vec<u8>` serializes as its u32 little-endian length followed by its bytes; this fails exactly when the length does not fit a u32 |
| Near2Aurora.BorshCallArgs | near2aurora/src/lib.rs:13-27 | the derived Borsh encoding of `CallArgs` is contract ‖ value ‖ u32-LE(|input|) ‖ input, the fields in declaration order with the fixed arrays raw; it fails with `InvalidInput` exactly when the input length does not fit a u32 |
| Near2Aurora.Serialize | near2aurora/src/lib.rs:24-28 | the payload is `[0] ‖ contract ‖ value ‖ u32-LE(|input|) ‖ input`, 57 + |input| bytes long; it panics only when the input is too long for a u32 length |
| Near2Aurora.SerializeRoundTrip | near2aurora/src/lib.rs:13-28 | parsing a payload at the fixed offsets gives back the contract, value and input |
| Near2Aurora.ParseRoundTrip | near2aurora/src/lib.rs:13-28 | every byte string the parser accepts is exactly the serialization of what it reads |
| Near2Aurora.Request | near2aurora/src/lib.rs:39-63 | a successful call targets the method "call" with a zero deposit |
| Near2Aurora.RequestOutcome | near2aurora/src/lib.rs:42-51 | `call` panics on an address length other than 40 with "Invalid aurora address length", then on a non-hex address with the decoder's error, then with the first failing argument's panic; past those it succeeds exactly when the input length fits a u32 |
| Near2Aurora.RequestPayload | near2aurora/src/lib.rs:39-62 | on success the receiver is the Aurora account, the method is "call", the deposit is 0 and the gas is the given gas or 20 Tgas; the payload is 61 + 20·#Address + 32·#Uint256 bytes with version 0; it parses back to the hex-decoded address, the given value or 32 zero bytes, and the selector followed by the encoded arguments |
| Near2Aurora.RequestLayout | near2aurora/src/lib.rs:50-58 | in the payload the selector occupies bytes 57..61, and argument i's encoding starts at 61 plus the widths of the arguments before it |
| Near2Aurora.CopyFromSlice | near2aurora/src/lib.rs:47-48 | the array holds exactly the copied bytes afterwards |
| Near2Aurora.EncodeAll | near2aurora/src/lib.rs:51 | the accumulation loop yields the concatenated encodings of all arguments, or the first failing argument's panic |
| Near2Aurora.Call | near2aurora/src/lib.rs:31-64 | the imperative `call` produces exactly the function call (or panic) `Request` describes; so equal inputs always give byte-identical payloads |

## Left out

- `Promise::new(..).function_call(..)` is asynchronous dispatch on the NEAR runtime. The model returns a `FunctionCall` record of receiver, method name, payload, deposit and gas instead.
- `Function::short_signature` computes a Keccak-256 prefix inside the `ethabi` crate. The model takes the 4-byte selector as a parameter.
- The `ethabi::*` re-export is not modelled; only `Function::short_signature` is used, and it is a parameter.
- The internals of the `hex`, `primitive_types::U256` and `borsh` crates are not modelled; only their observable bytes are.
- `WriteBigEndian`: `U256::to_big_endian` writes four u64 limbs. The model writes the same 32 bytes one byte at a time.
- `AccountId` and `Gas` are carried as opaque values (a string, and a u64 count); NEAR's account-id validation is not modelled.
- A Rust `String` is modelled as its UTF-8 bytes; multi-byte characters are not distinguished, which matches `len()` and `hex::decode`.
- `CopyFromSlice` requires equal lengths, where `copy_from_slice` would panic; in `call` the decoded address is always 20 bytes, so that panic cannot happen.
- The demo contract (demo/src/lib.rs) is a NEAR contract wrapper with storage that only forwards to `call`; it is not part of this model.
