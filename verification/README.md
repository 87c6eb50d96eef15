# PublicKey of bsv-wasm, modelled in Dafny

This project models the `PublicKey` value of the bsv-wasm key-pair code
(src/keypair/public_key.rs). A public key is a SEC1-encoded secp256k1 point
(`point`) and a flag (`is_compressed`). It is built from raw bytes, from hex
text or from a private key, and serialised back to bytes or hex. Every
operation is a pure function, as in the Rust code. Parsing and serialising
return a `Result`; building a key from a private key always succeeds, and
the default-flag helper returns a plain boolean.

Modules:

- `Wrappers` (wrappers.dfy): `Option`, `Result` and the `byte` type.
- `Hex` (hex.dfy): base16 text as RFC 4648 section 8 defines it, with the
  behaviour of the `hex` crate. Encoding writes lower-case digits. Decoding
  accepts either case. It reports odd length first. Otherwise it reports
  the first non-digit character and its index.
- `Sec1` (sec1.dfy): the point-encoding library's `EncodedPoint`, stated
  from SEC 1 version 2. Parsing (section 2.3.4) reads the tag (`00`
  identity, `02`/`03` compressed, `04` uncompressed) and checks the length
  the tag calls for (1, 33 or 65 bytes). Compression (section 2.3.3) turns
  `04‖X‖Y` into `02‖X` or `03‖X` by the parity of Y's last byte. This is an
  assumption about code outside the repository. No on-curve check is
  modelled, because the parser used here makes none.
- `PublicKeys` (public_key.dfy): the struct and its operations, with the
  round-trip, idempotence and error-discrimination lemmas.

The compression flag does not change the serialised bytes:
`from_bytes_impl` always stores the compressed point
(src/keypair/public_key.rs:53), and `to_bytes_impl` returns the stored bytes
without looking at the flag (src/keypair/public_key.rs:30-40). So the flag
is recorded but never changes the bytes of a key parsed from bytes or hex.
A key from `from_private_key_impl` keeps whatever point the private key
gives. If that point is uncompressed, the bytes round trip does not give the
key back (`FromPrivateKeyUncompressedNoRoundTrip`).

Key equality is representation-based, as the derived `PartialEq` makes it:
the same point with a different flag is a different key.

## Model

| member | source | states |
|---|---|---|
| `Hex.DigitValue` | src/keypair/public_key.rs:59 | a character has a digit value exactly when it is a hex digit of either case; the value is below 16 and is the character's position in "0123456789abcdef" or "0123456789ABCDEF" |
| `Hex.LowerDigit` | src/keypair/public_key.rs:27 | the digit written for a nibble is lower case and reads back as that nibble |
| `Hex.LowerDigitIsTableEntry` | src/keypair/public_key.rs:27 | the digit written for nibble n is entry n of "0123456789abcdef" |
| `Hex.Encode` | src/keypair/public_key.rs:27 | the hex of n bytes is 2n characters of valid hex text with no upper-case letter |
| `Hex.Decode` | src/keypair/public_key.rs:59 | decoding succeeds exactly on even-length text of hex digits, and reports OddLength exactly when the length is odd |
| `Hex.DecodeErrors` | src/keypair/public_key.rs:59-66 | decoding succeeds exactly on even-length all-digit text; odd length is reported as such whatever the text holds; otherwise the error names the first non-digit character and its index; a success has half as many bytes as characters |
| `Hex.DecodePairsAt` | src/keypair/public_key.rs:59 | byte k of a decode is 16 times the value of character 2k plus the value of character 2k+1 |
| `Hex.DecodeEncode` | src/keypair/public_key.rs:27 | decoding the encoding of any bytes gives those bytes back |
| `Hex.EncodeDecode` | src/keypair/public_key.rs:59 | encoding the result of a successful decode gives the input text in lower case |
| `Sec1.TagFromByte` | src/keypair/public_key.rs:43 | exactly the bytes 00, 02, 03 and 04 are point tags |
| `Sec1.Parse` | src/keypair/public_key.rs:43-50 | parsing succeeds exactly on the identity, a 33-byte compressed or a 65-byte uncompressed encoding, and then yields the input bytes unchanged |
| `Sec1.Compress` | src/keypair/public_key.rs:53 | the result is a compressed encoding (or the identity); a compressed input is unchanged; an uncompressed input keeps X and gets tag 02 or 03 by Y's parity |
| `Sec1.CompressIdempotent` | src/keypair/public_key.rs:53 | compressing twice is compressing once |
| `Sec1.CompressUncompressedIff` | src/keypair/public_key.rs:53 | two uncompressed encodings compress alike exactly when they share X and Y's parity |
| `PublicKeys.FromPrivateKey` | src/keypair/public_key.rs:18-23 | the key holds the private key's point for the given flag and records the flag verbatim |
| `PublicKeys.FromBytes` | src/keypair/public_key.rs:42-56 | fails with InvalidPoint exactly when the bytes are not a SEC1 encoding; on success stores the compressed form and the caller's flag |
| `PublicKeys.ToBytes` | src/keypair/public_key.rs:30-40 | succeeds exactly when the stored point is a SEC1 encoding, and then returns it unchanged; otherwise InvalidPoint |
| `PublicKeys.FromHex` | src/keypair/public_key.rs:58-69 | fails with ParseHex exactly when the text is not hex, carrying the decoder's error; otherwise equals FromBytes of the decoded bytes, InvalidPoint included |
| `PublicKeys.ToHex` | src/keypair/public_key.rs:25-28 | succeeds exactly when ToBytes does, giving lower-case hex that decodes to the point; a ToBytes error comes through unchanged |
| `PublicKeys.ParamIsCompressed` | src/keypair/public_key.rs:73-78 | the flag is false only for an explicit false; an omitted flag means compressed |
| `PublicKeys.FromBytesIdempotent` | src/keypair/public_key.rs:42-56 | the keys FromBytes builds are exactly those with a compressed point, and each is rebuilt unchanged from its own point and flag |
| `PublicKeys.FromBytesFlagOnlyInFlag` | src/keypair/public_key.rs:11-15 | parsing the same bytes with either flag stores the same point, yet the two keys are not equal |
| `PublicKeys.ToBytesOfCanonical` | src/keypair/public_key.rs:30-40 | a key built by FromBytes serialises to its stored point, 33 bytes or the one-byte identity, whatever its flag |
| `PublicKeys.BytesRoundTrip` | src/keypair/public_key.rs:30-56 | FromBytes(ToBytes(k), k's flag) == k for every key FromBytes builds |
| `PublicKeys.FromHexOfEncode` | src/keypair/public_key.rs:58-69 | parsing the hex of some bytes is parsing those bytes |
| `PublicKeys.HexRoundTrip` | src/keypair/public_key.rs:25-69 | FromHex(ToHex(k), k's flag) == k for every key FromBytes builds |
| `PublicKeys.FromHexThenToHex` | src/keypair/public_key.rs:25-69 | upper- and lower-case hex parse alike; the hex of a parsed key is the lower-case hex of the compressed point |
| `PublicKeys.FromPrivateKeyToBytes` | src/keypair/public_key.rs:18-40 | a key from a private key serialises to the point it was given, when that is an encoding; a compressed one round-trips through FromBytes |
| `PublicKeys.FromPrivateKeyUncompressedNoRoundTrip` | src/keypair/public_key.rs:18-56 | a key from a private key with an uncompressed point is not rebuilt by FromBytes of its own bytes |

## Left out

- The derivation of a point from a private key (`get_point`, in
  src/keypair/private_key.rs) is not part of this model. `FromPrivateKey`
  takes it as a function parameter, and no property of it is assumed
  except where a lemma states one in its `requires`.
- The point-encoding library and the hex crate are not modelled from their
  code. Their behaviour is stated from SEC 1 version 2 and RFC 4648. The
  compact tag `05` that later versions of the library accept is not
  modelled. Curve membership, decompression and field arithmetic are left
  out.
- `Sec1.Error`: the library's error value is opaque, so it carries no
  detail here.
- `Hex.Decode`: the text is a sequence of characters; the crate reads the
  UTF-8 bytes of the string. For text with non-ASCII characters the length
  test and the reported character and index can differ. The error is still a
  ParseHex.
- The wasm export block (src/keypair/public_key.rs:84-123) is binding glue:
  it turns errors into thrown strings. Its only logic, the default flag, is
  `ParamIsCompressed`.
- The native export wrappers (src/keypair/public_key.rs:128-149) only call
  the `_impl` functions.
- src/keypair/mod.rs holds module declarations and three constants that
  nothing modelled here uses.
- src/address/errors.rs is an error enum with display strings; message
  formatting is left out.
- The extended-key derivation, serialisation and address hashing code is
  not among the source files of this model.
