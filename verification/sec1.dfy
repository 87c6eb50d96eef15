/**
 * The SEC1 point encodings of secp256k1 as the point-encoding library
 * (`EncodedPoint` of the elliptic_curve crate) handles them. Its code is not
 * part of this model; what it does is stated here from SEC 1 version 2:
 * parsing checks the leading tag and the length the tag calls for
 * (section 2.3.4), and compression keeps X and records the parity of Y in
 * the tag (section 2.3.3). Nothing here checks that a point is on the curve,
 * and neither does the parser.
 */
module Sec1 {
  import opened Wrappers

  /** Bytes in one secp256k1 field element. */
  const FieldBytes: nat := 32

  /** The leading byte of an encoded point. */
  datatype Tag = Identity | CompressedEvenY | CompressedOddY | Uncompressed

  function TagFromByte(b: byte): (t: Option<Tag>)
    ensures t.Some? <==> b in {0x00, 0x02, 0x03, 0x04}
  {
    match b
    case 0x00 => Some(Identity)
    case 0x02 => Some(CompressedEvenY)
    case 0x03 => Some(CompressedOddY)
    case 0x04 => Some(Uncompressed)
    case _ => None
  }

  /** The whole length of an encoding that starts with this tag. */
  function MessageLen(t: Tag): nat {
    match t
    case Identity => 1
    case CompressedEvenY | CompressedOddY => 1 + FieldBytes
    case Uncompressed => 1 + 2 * FieldBytes
  }

  /** The library's error; it carries no detail. */
  datatype Error = PointEncodingError

  /**
   * The octet strings accepted as a point: the identity `00`, a compressed
   * point `02‖X` or `03‖X`, or an uncompressed point `04‖X‖Y`.
   */
  predicate IsEncoding(b: seq<byte>) {
    || (|b| == 1 && b[0] == 0x00)
    || (|b| == 33 && (b[0] == 0x02 || b[0] == 0x03))
    || (|b| == 65 && b[0] == 0x04)
  }

  /** The encodings compression leaves as they are. */
  predicate IsCompressedEncoding(b: seq<byte>) {
    || (|b| == 1 && b[0] == 0x00)
    || (|b| == 33 && (b[0] == 0x02 || b[0] == 0x03))
  }

  /**
   * `EncodedPoint::from_bytes`: reads the tag, then checks the length it
   * calls for; on success the encoded point holds exactly the input.
   */
  function Parse(b: seq<byte>): (r: Result<seq<byte>, Error>)
    ensures r.Ok? <==> IsEncoding(b)
    ensures r.Ok? ==> r.value == b
    ensures r.Err? ==> r.error == PointEncodingError
  {
    if |b| == 0 then Err(PointEncodingError)
    else match TagFromByte(b[0])
      case None => Err(PointEncodingError)
      case Some(tag) => if |b| != MessageLen(tag) then Err(PointEncodingError) else Ok(b)
  }

  /**
   * `EncodedPoint::compress`: an uncompressed point `04‖X‖Y` becomes
   * `02‖X` when the last byte of Y is even and `03‖X` when it is odd; a
   * point already compressed, and the identity, are returned unchanged.
   */
  function Compress(p: seq<byte>): (c: seq<byte>)
    requires IsEncoding(p)
    ensures IsCompressedEncoding(c)
    ensures IsCompressedEncoding(p) ==> c == p
    ensures p[0] == 0x04 ==> c[1..] == p[1..1 + FieldBytes]
    ensures p[0] == 0x04 ==> c[0] == 0x02 + p[2 * FieldBytes] % 2
  {
    match TagFromByte(p[0])
    case Some(Uncompressed) =>
      var y := p[1 + FieldBytes..];
      [if y[FieldBytes - 1] % 2 == 1 then 0x03 else 0x02] + p[1..1 + FieldBytes]
    case _ => p
  }

  /** Compressing twice is compressing once. */
  lemma CompressIdempotent(p: seq<byte>)
    requires IsEncoding(p)
    ensures IsEncoding(Compress(p)) && Compress(Compress(p)) == Compress(p)
  {
  }

  /**
   * Two uncompressed encodings compress alike exactly when they share X and
   * the parity of Y: compression forgets Y but its parity.
   */
  lemma CompressUncompressedIff(p: seq<byte>, q: seq<byte>)
    requires IsEncoding(p) && IsEncoding(q) && p[0] == 0x04 && q[0] == 0x04
    ensures Compress(p) == Compress(q)
            <==> p[1..1 + FieldBytes] == q[1..1 + FieldBytes] && p[64] % 2 == q[64] % 2
  {
  }
}
