/**
 * The `PublicKey` value of src/keypair/public_key.rs: a SEC1-encoded point
 * and a compression flag, with the byte and hex parsers and serialisers
 * built on the point-encoding library (module Sec1) and the hex codec
 * (module Hex).
 */
module PublicKeys {
  import opened Wrappers
  import Hex
  import Sec1

  /**
   * A public key as the struct holds it. Equality is structural on both
   * fields: the same point with a different flag is a different key.
   */
  datatype PublicKey = PublicKey(point: seq<byte>, isCompressed: bool)

  /** The failures the key operations report. */
  datatype PublicKeyError =
    | InvalidPoint(pointError: Sec1.Error)
    | ParseHex(hexError: Hex.FromHexError)

  /** The keys `FromBytes` builds: the point is stored compressed. */
  predicate IsCanonical(k: PublicKey) {
    Sec1.IsCompressedEncoding(k.point)
  }

  /**
   * `from_private_key_impl`: the point comes from the private key's
   * `get_point`, given here as `getPoint` (its curve arithmetic is not part of
   * this model), and the flag is kept as it was passed.
   */
  function FromPrivateKey(getPoint: bool -> seq<byte>, compress: bool): (k: PublicKey)
    ensures k.isCompressed == compress
    ensures k.point == getPoint(compress)
  {
    PublicKey(getPoint(compress), compress)
  }

  /**
   * `from_bytes_impl`: a well-formed SEC1 encoding is stored in compressed
   * form, whatever `compress` says, and `compress` is recorded as the flag;
   * anything else is an `InvalidPoint` and no key is built.
   */
  function FromBytes(bytes: seq<byte>, compress: bool): (r: Result<PublicKey, PublicKeyError>)
    ensures r.Err? <==> !Sec1.IsEncoding(bytes)
    ensures r.Err? ==> r.error == InvalidPoint(Sec1.PointEncodingError)
    ensures r.Ok? ==> IsCanonical(r.value) && r.value.isCompressed == compress
    ensures r.Ok? ==> Sec1.IsEncoding(bytes) && r.value.point == Sec1.Compress(bytes)
  {
    match Sec1.Parse(bytes)
    case Err(e) => Err(InvalidPoint(e))
    case Ok(p) => Ok(PublicKey(Sec1.Compress(p), compress))
  }

  /**
   * `to_bytes_impl`: the stored point is parsed again and returned as it is;
   * the flag plays no part.
   */
  function ToBytes(k: PublicKey): (r: Result<seq<byte>, PublicKeyError>)
    ensures r.Ok? <==> Sec1.IsEncoding(k.point)
    ensures r.Ok? ==> r.value == k.point
    ensures r.Err? ==> r.error == InvalidPoint(Sec1.PointEncodingError)
  {
    match Sec1.Parse(k.point)
    case Err(e) => Err(InvalidPoint(e))
    case Ok(p) => Ok(p)
  }

  /**
   * `from_hex_impl`: text that is not hex is a `ParseHex`, before any point
   * is looked at; otherwise the decoded bytes go to `FromBytes`, whose
   * `InvalidPoint` comes through unchanged.
   */
  function FromHex(s: seq<char>, compress: bool): (r: Result<PublicKey, PublicKeyError>)
    ensures r.Err? && r.error.ParseHex? <==> !Hex.IsHexText(s)
    ensures !Hex.IsHexText(s) ==> Hex.Decode(s).Err? && r == Err(ParseHex(Hex.Decode(s).error))
    ensures Hex.IsHexText(s) ==> Hex.Decode(s).Ok? && r == FromBytes(Hex.Decode(s).value, compress)
  {
    Hex.DecodeErrors(s);
    match Hex.Decode(s)
    case Err(e) => Err(ParseHex(e))
    case Ok(bytes) => FromBytes(bytes, compress)
  }

  /**
   * `to_hex_impl`: the lower-case hex of `ToBytes`, whose error comes through
   * unchanged.
   */
  function ToHex(k: PublicKey): (r: Result<seq<char>, PublicKeyError>)
    ensures r.Ok? <==> ToBytes(k).Ok?
    ensures r.Ok? ==> Hex.Decode(r.value) == Ok(k.point) && |r.value| == 2 * |k.point|
    ensures r.Ok? ==> forall i :: 0 <= i < |r.value| ==> !('A' <= r.value[i] <= 'F')
    ensures r.Err? ==> r.error == ToBytes(k).error
  {
    match ToBytes(k)
    case Err(e) => Err(e)
    case Ok(bytes) =>
      Hex.DecodeEncode(bytes);
      Ok(Hex.Encode(bytes))
  }

  /** `param_is_compressed`: only an explicit `false` turns compression off. */
  function ParamIsCompressed(compress: Option<bool>): (c: bool)
    ensures c <==> compress != Some(false)
  {
    match compress
    case Some(v) => v
    case None => true
  }

  /**
   * Exactly the canonical keys are built by `FromBytes`, and each is
   * rebuilt from its own fields: parsing a stored point again changes
   * nothing, structurally on both fields.
   */
  lemma FromBytesIdempotent(k: PublicKey)
    ensures (exists b, c :: FromBytes(b, c) == Ok(k)) <==> IsCanonical(k)
    ensures IsCanonical(k) ==> FromBytes(k.point, k.isCompressed) == Ok(k)
  {
    if IsCanonical(k) {
      assert FromBytes(k.point, k.isCompressed) == Ok(k);
    }
  }

  /** Parsing the same bytes with either flag stores the same point. */
  lemma FromBytesFlagOnlyInFlag(bytes: seq<byte>)
    requires Sec1.IsEncoding(bytes)
    ensures FromBytes(bytes, true).value.point == FromBytes(bytes, false).value.point
    ensures FromBytes(bytes, true) != FromBytes(bytes, false)
  {
  }

  /**
   * A canonical key serialises to its stored point, which is the
   * compressed encoding (33 bytes unless it is the identity); the flag
   * does not change the bytes.
   */
  lemma ToBytesOfCanonical(k: PublicKey)
    requires IsCanonical(k)
    ensures ToBytes(k) == Ok(k.point)
    ensures |k.point| == 33 || k.point == [0x00]
    ensures ToBytes(k.(isCompressed := !k.isCompressed)) == ToBytes(k)
  {
  }

  /** Bytes round trip: a key built by `FromBytes` comes back from its own bytes. */
  lemma BytesRoundTrip(k: PublicKey)
    requires IsCanonical(k)
    ensures ToBytes(k).Ok? && FromBytes(ToBytes(k).value, k.isCompressed) == Ok(k)
  {
  }

  /** Hex text is parsed as the bytes it encodes. */
  lemma FromHexOfEncode(bytes: seq<byte>, compress: bool)
    ensures FromHex(Hex.Encode(bytes), compress) == FromBytes(bytes, compress)
  {
    Hex.DecodeEncode(bytes);
  }

  /** Hex round trip: a key built by `FromBytes` comes back from its own hex. */
  lemma HexRoundTrip(k: PublicKey)
    requires IsCanonical(k)
    ensures ToHex(k).Ok? && FromHex(ToHex(k).value, k.isCompressed) == Ok(k)
  {
  }

  /**
   * Upper- and lower-case hex parse alike, and the hex of a parsed key is the
   * lower-case hex of its compressed point.
   */
  lemma FromHexThenToHex(s: seq<char>, compress: bool)
    requires FromHex(s, compress).Ok?
    ensures FromHex(Hex.ToLowerHex(s), compress) == FromHex(s, compress)
    ensures ToHex(FromHex(s, compress).value)
            == Ok(Hex.Encode(Sec1.Compress(Hex.Decode(s).value)))
  {
    Hex.EncodeDecode(s);
    var bytes := Hex.Decode(s).value;
    FromHexOfEncode(bytes, compress);
  }

  /**
   * A key from a private key serialises to the point `getPoint` gave, so long
   * as that is a well-formed encoding; for a compressed one the bytes round
   * trip holds as for keys from `FromBytes`.
   */
  lemma FromPrivateKeyToBytes(getPoint: bool -> seq<byte>, compress: bool)
    requires Sec1.IsEncoding(getPoint(compress))
    ensures ToBytes(FromPrivateKey(getPoint, compress)) == Ok(getPoint(compress))
    ensures Sec1.IsCompressedEncoding(getPoint(compress)) ==>
      FromBytes(getPoint(compress), compress) == Ok(FromPrivateKey(getPoint, compress))
  {
  }

  /**
   * A key from a private key whose point is uncompressed (what `get_point`
   * gives when asked not to compress) does not come back from its own
   * bytes: `FromBytes` stores the 33-byte compressed form instead.
   */
  lemma FromPrivateKeyUncompressedNoRoundTrip(getPoint: bool -> seq<byte>, compress: bool)
    requires Sec1.IsEncoding(getPoint(compress)) && getPoint(compress)[0] == 0x04
    ensures var k := FromPrivateKey(getPoint, compress);
      ToBytes(k) == Ok(getPoint(compress))
      && FromBytes(ToBytes(k).value, k.isCompressed).Ok?
      && FromBytes(ToBytes(k).value, k.isCompressed) != Ok(k)
  {
  }
}
