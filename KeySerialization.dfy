/** The public-key codec: each of P, G and Y is written as its unsigned big-endian bytes in
    Base64, and read back the same way. */
module KeySerialization {
  import opened Wrappers
  import opened Bytes
  import Base64
  import opened KeyGeneration

  datatype SerializedPublicKey = SerializedPublicKey(p: string, g: string, y: string)

  /** BigIntToBase64: negative numbers are refused with ArgumentOutOfRangeException; the
      others are written as their shortest unsigned big-endian bytes in Base64. */
  function BigIntToBase64(n: int): (r: Result<string>)
    ensures r.Err? <==> n < 0
    ensures r.Err? ==> r.fault == ArgumentOutOfRange
    ensures r.Ok? ==> |r.value| % 4 == 0 && |r.value| >= 4
  {
    if n < 0 then Err(ArgumentOutOfRange)
    else
      Base64.EncodeLength(UnsignedBigEndianBytes(n));
      Ok(Base64.Encode(UnsignedBigEndianBytes(n)))
  }

  /** Base64ToBigInt: the decoded bytes as an unsigned big-endian number,
      the sum of b[i] * 256^(len-1-i); text that is not Base64 is a FormatException. */
  function Base64ToBigInt(text: string): (r: Result<nat>)
    ensures r.Ok? <==> Base64.Decode(text).Ok?
    ensures r.Err? ==> r.fault == Format
    ensures r.Ok? ==> r.value == WeightedSum(Base64.Decode(text).value, 0)
  {
    match Base64.Decode(text)
    case Err(f) => Err(f)
    case Ok(bytes) =>
      BigEndianIsWeightedSum(bytes);
      Ok(BigEndian(bytes))
  }

  /** Every non-negative number survives the trip through Base64. */
  lemma BigIntRoundTrip(n: nat)
    ensures Base64ToBigInt(BigIntToBase64(n).value) == Ok(n)
  {
    Base64.DecodeEncode(UnsignedBigEndianBytes(n));
    UnsignedBigEndianRoundTrip(n);
  }

  /** ExportPublicKey: the three fields in turn, failing on the first negative one. */
  function ExportPublicKey(key: PublicKey): (r: Result<SerializedPublicKey>)
    ensures r.Ok? <==> key.p >= 0 && key.g >= 0 && key.y >= 0
    ensures r.Err? ==> r.fault == ArgumentOutOfRange
  {
    match BigIntToBase64(key.p)
    case Err(f) => Err(f)
    case Ok(p) =>
      match BigIntToBase64(key.g)
      case Err(f) => Err(f)
      case Ok(g) =>
        match BigIntToBase64(key.y)
        case Err(f) => Err(f)
        case Ok(y) => Ok(SerializedPublicKey(p, g, y))
  }

  /** ImportPublicKey: the three fields in turn, failing on the first that is not Base64. */
  function ImportPublicKey(serialized: SerializedPublicKey): (r: Result<PublicKey>)
    ensures r.Ok? <==> Base64.Decode(serialized.p).Ok? && Base64.Decode(serialized.g).Ok? && Base64.Decode(serialized.y).Ok?
    ensures r.Err? ==> r.fault == Format
    ensures r.Ok? ==> r.value.p >= 0 && r.value.g >= 0 && r.value.y >= 0
  {
    match Base64ToBigInt(serialized.p)
    case Err(f) => Err(f)
    case Ok(p) =>
      match Base64ToBigInt(serialized.g)
      case Err(f) => Err(f)
      case Ok(g) =>
        match Base64ToBigInt(serialized.y)
        case Err(f) => Err(f)
        case Ok(y) => Ok(PublicKey(p, g, y))
  }

  /** Importing an exported key gives the key back. */
  lemma KeyRoundTrip(key: PublicKey)
    requires key.p >= 0 && key.g >= 0 && key.y >= 0
    ensures ImportPublicKey(ExportPublicKey(key).value) == Ok(key)
  {
    BigIntRoundTrip(key.p);
    BigIntRoundTrip(key.g);
    BigIntRoundTrip(key.y);
  }

  /** Each serialized field is determined by the matching component and determines it:
      two exportable keys agree on a component exactly when their exports agree on that
      field. */
  lemma ExportFieldwise(a: PublicKey, b: PublicKey)
    requires ExportPublicKey(a).Ok? && ExportPublicKey(b).Ok?
    ensures var ea, eb := ExportPublicKey(a).value, ExportPublicKey(b).value;
      (a.p == b.p <==> ea.p == eb.p) && (a.g == b.g <==> ea.g == eb.g) && (a.y == b.y <==> ea.y == eb.y)
  {
    BigIntRoundTrip(a.p);
    BigIntRoundTrip(b.p);
    BigIntRoundTrip(a.g);
    BigIntRoundTrip(b.g);
    BigIntRoundTrip(a.y);
    BigIntRoundTrip(b.y);
  }
}
