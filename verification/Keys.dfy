/** How records are laid out in the byte order of the database. */
module Keys {
  import opened Wrappers
  import opened Bytes
  import opened Sharding

  /** Length of the position prefix of every key. */
  const POSITION_LENGTH: nat := 8
  const U32: nat := 0x1_0000_0000

  datatype GenericKey = GenericKey(position: Position, data: seq<byte>)

  datatype KeyError = Length(actual: nat) | InvalidBuffer(expected: nat, actual: nat)

  /** Position, data length, data. A length beyond `u32` is truncated. */
  function ToBytes(key: GenericKey): (r: seq<byte>)
    ensures |r| == 12 + |key.data|
  {
    PowersOf256();
    ToBe(key.position, 8) + ToBe(|key.data| % U32, 4) + key.data
  }

  function FromBytes(bytes: seq<byte>): Result<GenericKey, ()> {
    PowersOf256();
    if |bytes| < 12 then Err(())
    else if |bytes[12..]| != FromBe(bytes[8..12]) then Err(())
    else Ok(GenericKey(FromBe(bytes[..8]), bytes[12..]))
  }

  /** Length of the key that a longer byte string starts with. */
  function CalculateSize(data: seq<byte>): (r: Result<nat, KeyError>)
    ensures r.Ok? ==> 12 <= r.value <= |data|
  {
    if |data| < POSITION_LENGTH + 4 + 1 then Err(Length(|data|))
    else
      var expected := 12 + FromBe(data[8..12]);
      if |data| >= expected then Ok(expected) else Err(InvalidBuffer(expected, |data|))
  }

  lemma Header(key: GenericKey, rest: seq<byte>)
    ensures FromBe((ToBytes(key) + rest)[..8]) == key.position
    ensures FromBe((ToBytes(key) + rest)[8..12]) == |key.data| % U32
  {
    PowersOf256();
    var bytes := ToBytes(key) + rest;
    assert bytes[..8] == ToBe(key.position, 8);
    assert bytes[8..12] == ToBe(|key.data| % U32, 4);
    BeRoundTrip(key.position, 8);
    BeRoundTrip(|key.data| % U32, 4);
  }

  /** Decoding undoes encoding exactly when the data length fits in `u32`. */
  lemma KeyRoundTrip(key: GenericKey)
    ensures FromBytes(ToBytes(key)) == Ok(key) <==> |key.data| < U32
  {
    Header(key, []);
    assert ToBytes(key) + [] == ToBytes(key);
    assert ToBytes(key)[12..] == key.data;
  }

  /** Whatever decodes is the encoding of what it decodes to. */
  lemma DecodedKeyEncodes(bytes: seq<byte>)
    ensures FromBytes(bytes).Ok? ==> ToBytes(FromBytes(bytes).value) == bytes
  {
    if FromBytes(bytes).Ok? {
      PowersOf256();
      BeInverse(bytes[..8]);
      BeInverse(bytes[8..12]);
      assert |bytes[12..]| < U32;
      assert bytes == bytes[..8] + bytes[8..12] + bytes[12..];
    }
  }

  /** A key that was cut off has no size, and is its own prefix. */
  lemma TruncatedKey(key: GenericKey, k: nat)
    requires |key.data| < U32 && k < |ToBytes(key)|
    ensures
      var bytes := ToBytes(key)[..k];
      && CalculateSize(bytes) == Err(if k < 13 then Length(k) else InvalidBuffer(|ToBytes(key)|, k))
      && DynamicPrefix(bytes) == bytes
  {
    Header(key, []);
    assert ToBytes(key) + [] == ToBytes(key);
    if k >= 13 {
      assert ToBytes(key)[..k][8..12] == ToBytes(key)[8..12];
    }
  }

  /** No encoded key is a prefix of another. */
  lemma PrefixFree(a: GenericKey, b: GenericKey, x: seq<byte>, y: seq<byte>)
    requires |a.data| < U32 && |b.data| < U32
    requires ToBytes(a) + x == ToBytes(b) + y
    ensures a == b && x == y
  {
    Header(a, x);
    Header(b, y);
    var n := |a.data|;
    assert a.data == (ToBytes(a) + x)[12..12 + n];
    assert b.data == (ToBytes(b) + y)[12..12 + n];
    assert x == (ToBytes(a) + x)[12 + n..];
    assert y == (ToBytes(b) + y)[12 + n..];
  }

  // ---------------------------------------------------------------------
  // Map fields: a byte string behind its variable-length size
  // ---------------------------------------------------------------------

  function Varint(n: nat): (r: seq<byte>)
    ensures |r| > 0
  {
    if n < 128 then [n] else [128 + n % 128] + Varint(n / 128)
  }

  /** The number a byte string starts with, and the bytes it takes. */
  function ReadVarint(bytes: seq<byte>): (r: Option<(nat, nat)>)
    ensures r.Some? ==> 0 < r.value.1 <= |bytes|
  {
    if bytes == [] then None
    else if bytes[0] < 128 then Some((bytes[0], 1))
    else match ReadVarint(bytes[1..])
      case None => None
      case Some((n, used)) => Some((bytes[0] - 128 + 128 * n, used + 1))
  }

  lemma {:induction false} VarintRoundTrip(n: nat, rest: seq<byte>)
    ensures ReadVarint(Varint(n) + rest) == Some((n, |Varint(n)|))
  {
    if n >= 128 {
      VarintRoundTrip(n / 128, rest);
      assert (Varint(n) + rest)[1..] == Varint(n / 128) + rest;
    }
  }

  function Serialize(field: seq<byte>): (r: seq<byte>)
    ensures |r| > 0
  {
    Varint(|field|) + field
  }

  function Deserialize(bytes: seq<byte>): Option<seq<byte>> {
    match ReadVarint(bytes)
    case None => None
    case Some((n, used)) => if used + n <= |bytes| then Some(bytes[used..used + n]) else None
  }

  lemma FieldRoundTrip(field: seq<byte>)
    ensures Deserialize(Serialize(field)) == Some(field)
  {
    VarintRoundTrip(|field|, field);
    var used := |Varint(|field|)|;
    assert Serialize(field)[used..used + |field|] == field;
  }

  /** Different numbers are told apart by their encodings, whatever follows. */
  lemma {:induction false} VarintDecides(n: nat, m: nat, x: seq<byte>, y: seq<byte>)
    requires n != m
    ensures Less(Varint(n) + x, Varint(m) + y) <==> Less(Varint(n), Varint(m))
  {
    if n >= 128 && m >= 128 && n % 128 == m % 128 {
      VarintDecides(n / 128, m / 128, x, y);
      assert (Varint(n) + x)[1..] == Varint(n / 128) + x && (Varint(m) + y)[1..] == Varint(m / 128) + y;
      assert Varint(n)[1..] == Varint(n / 128) && Varint(m)[1..] == Varint(m / 128);
    }
  }

  /** Fields of one length sort by content; otherwise the encodings of their lengths decide. */
  lemma FieldOrder(a: seq<byte>, b: seq<byte>)
    ensures Less(Serialize(a), Serialize(b)) <==>
            if |a| == |b| then Less(a, b) else Less(Varint(|a|), Varint(|b|))
  {
    if |a| == |b| {
      LessSamePrefix(Varint(|a|), a, b);
    } else {
      VarintDecides(|a|, |b|, a, b);
    }
  }

  /** Raw and stored order disagree: "aa" precedes "b" only in raw order. */
  lemma RawOrderDiffers()
    ensures Less([97, 97], [98]) && Less(Serialize([98]), Serialize([97, 97]))
  {
  }

  /** A truncated field does not decode, and bytes behind a field are not looked at. */
  lemma {:induction false} VarintTruncated(n: nat, k: nat)
    requires k < |Varint(n)|
    ensures ReadVarint(Varint(n)[..k]) == None
  {
    if k > 0 && n >= 128 {
      assert Varint(n)[..k][1..] == Varint(n / 128)[..k - 1];
      VarintTruncated(n / 128, k - 1);
    }
  }

  lemma FieldTruncated(field: seq<byte>, k: nat, rest: seq<byte>)
    requires k < |Serialize(field)|
    ensures Deserialize(Serialize(field)[..k]) == None
    ensures Deserialize(Serialize(field) + rest) == Some(field)
  {
    var header := Varint(|field|);
    if k < |header| {
      assert Serialize(field)[..k] == header[..k];
      VarintTruncated(|field|, k);
    } else {
      assert Serialize(field)[..k] == header + field[..k - |header|];
      VarintRoundTrip(|field|, field[..k - |header|]);
    }
    assert Serialize(field) + rest == header + (field + rest);
    VarintRoundTrip(|field|, field + rest);
    assert (Serialize(field) + rest)[|header|..|header| + |field|] == field;
  }

  // ---------------------------------------------------------------------
  // Extended keys
  // ---------------------------------------------------------------------

  function ExtKeyFromSlice(key: GenericKey, value: seq<byte>): seq<byte> {
    ToBytes(key) + value
  }

  function ExtKey(key: GenericKey, field: seq<byte>): seq<byte> {
    ExtKeyFromSlice(key, Serialize(field))
  }

  function SplitExtKey(storageKey: seq<byte>): Result<seq<byte>, ()> {
    match CalculateSize(storageKey)
    case Ok(n) => Ok(storageKey[n..])
    case Err(_) => Err(())
  }

  function ParseExtKey(extKey: seq<byte>): Result<(GenericKey, seq<byte>), ()> {
    match CalculateSize(extKey)
    case Err(_) => Err(())
    case Ok(n) =>
      match FromBytes(extKey[..n])
      case Err(_) => Err(())
      case Ok(key) =>
        match Deserialize(extKey[n..])
        case None => Err(())
        case Some(field) => Ok((key, field))
  }

  /** The bytes RocksDB treats as the prefix of a map key. */
  function DynamicPrefix(data: seq<byte>): seq<byte> {
    if |data| == POSITION_LENGTH then data
    else match CalculateSize(data)
      case Ok(n) => data[..n]
      case Err(_) => data
  }

  lemma SizeOfKey(key: GenericKey, rest: seq<byte>)
    requires |key.data| < U32 && |key.data| + |rest| > 0
    ensures CalculateSize(ToBytes(key) + rest) == Ok(|ToBytes(key)|)
    ensures (ToBytes(key) + rest)[..|ToBytes(key)|] == ToBytes(key) && (ToBytes(key) + rest)[|ToBytes(key)|..] == rest
  {
    Header(key, rest);
  }

  lemma PrefixOfKey(key: GenericKey)
    requires |key.data| < U32
    ensures DynamicPrefix(ToBytes(key)) == ToBytes(key)
  {
    assert ToBytes(key) + [] == ToBytes(key);
    if key.data != [] {
      SizeOfKey(key, []);
    }
  }

  lemma ExtKeyParts(key: GenericKey, field: seq<byte>)
    requires |key.data| < U32
    ensures CalculateSize(ExtKey(key, field)) == Ok(|ToBytes(key)|)
    ensures SplitExtKey(ExtKey(key, field)) == Ok(Serialize(field))
    ensures DynamicPrefix(ExtKey(key, field)) == ToBytes(key)
    ensures DynamicPrefix(ToBytes(key)) == ToBytes(key)
  {
    SizeOfKey(key, Serialize(field));
    PrefixOfKey(key);
  }

  lemma ExtKeyRoundTrip(key: GenericKey, field: seq<byte>)
    requires |key.data| < U32
    ensures ParseExtKey(ExtKey(key, field)) == Ok((key, field))
  {
    ExtKeyParts(key, field);
    KeyRoundTrip(key);
    FieldRoundTrip(field);
    assert ExtKey(key, field)[..|ToBytes(key)|] == ToBytes(key);
  }

  /** Within one key, stored order is the order of the serialized fields. */
  lemma ExtKeyOrder(key: GenericKey, a: seq<byte>, b: seq<byte>)
    ensures Less(ExtKey(key, a), ExtKey(key, b)) <==> Less(Serialize(a), Serialize(b))
  {
    LessSamePrefix(ToBytes(key), Serialize(a), Serialize(b));
  }
}
