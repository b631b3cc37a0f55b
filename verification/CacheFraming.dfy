/** The serialized form of a KV cache: a 28 byte header of one 32-bit and three
    64-bit big-endian fields, then the compressed data. */
module CacheFraming {
  import opened ByteStrings
  import opened Common

  const VERSION: nat := 1
  const HEADER_SIZE: nat := 28

  /** Pickling, the LZ4 frame codec and the built-in hash of one process. */
  datatype Codec<!T> = Codec(
    dumps: T -> Bytes, loads: Bytes -> Option<T>,
    compress: Bytes -> Bytes, decompress: Bytes -> Option<Bytes>, hash: Bytes -> int)

  datatype Result<+T> = Ok(value: T) | Error

  ghost predicate Inverse<T(!new)>(c: Codec<T>) {
    && (forall v :: c.loads(c.dumps(v)) == Some(v))
    && (forall x :: c.decompress(c.compress(x)) == Some(x))
  }

  /** `hash(data) & 0xFFFFFFFF`. */
  function Checksum<T>(c: Codec<T>, raw: Bytes): (n: nat)
    ensures n < LIMIT32
  {
    c.hash(raw) % LIMIT32
  }

  function Header(version: nat, original: nat, compressed: nat, checksum: nat): (h: Bytes)
    ensures |h| == HEADER_SIZE
  {
    BigEndian(version, 4) + BigEndian(original, 8) + BigEndian(compressed, 8) + BigEndian(checksum, 8)
  }

  /** Packing rejects sizes that do not fit their fields. */
  function Serialize<T>(c: Codec<T>, v: T): Result<Bytes> {
    var raw := c.dumps(v);
    var data := c.compress(raw);
    if |raw| >= LIMIT64 || |data| >= LIMIT64 then Error
    else Ok(Header(VERSION, |raw|, |data|, Checksum(c, raw)) + data)
  }

  function Deserialize<T>(c: Codec<T>, b: Bytes): Result<T> {
    if |b| < HEADER_SIZE then Error
    else
      var data := b[HEADER_SIZE..];
      if Field(b, 0, 4) != VERSION then Error
      else if |data| != Field(b, 12, 8) then Error
      else
        var raw := c.decompress(data);
        if raw.None? || |raw.value| != Field(b, 4, 8) || Checksum(c, raw.value) != Field(b, 20, 8) then Error
        else
          var v := c.loads(raw.value);
          if v.None? then Error else Ok(v.value)
  }

  lemma HeaderFields(version: nat, original: nat, compressed: nat, checksum: nat, data: Bytes)
    requires version < LIMIT32 && original < LIMIT64 && compressed < LIMIT64 && checksum < LIMIT64
    ensures var b := Header(version, original, compressed, checksum) + data;
            && Field(b, 0, 4) == version && Field(b, 4, 8) == original
            && Field(b, 12, 8) == compressed && Field(b, 20, 8) == checksum
            && b[HEADER_SIZE..] == data
  {
    var h := Header(version, original, compressed, checksum);
    var b := h + data;
    assert b[0..4] == BigEndian(version, 4) && b[4..12] == BigEndian(original, 8);
    assert b[12..20] == BigEndian(compressed, 8) && b[20..28] == BigEndian(checksum, 8);
    FieldRoundTrip(version);
    FieldRoundTrip(original);
    FieldRoundTrip(compressed);
    FieldRoundTrip(checksum);
  }

  /** A header is determined by its fields. */
  lemma HeaderFromFields(b: Bytes)
    requires |b| >= HEADER_SIZE
    ensures b == Header(Field(b, 0, 4), Field(b, 4, 8), Field(b, 12, 8), Field(b, 20, 8)) + b[HEADER_SIZE..]
    ensures Field(b, 12, 8) < LIMIT64 && Field(b, 4, 8) < LIMIT64
  {
    Limits();
    BigEndianOfValue(b[0..4]);
    BigEndianOfValue(b[4..12]);
    BigEndianOfValue(b[12..20]);
    BigEndianOfValue(b[20..28]);
    assert b == b[0..4] + b[4..12] + b[12..20] + b[20..28] + b[28..];
  }

  /** The round trip, between a sender and a receiver that share pickling and
      compression: it works exactly if their hashes of the data agree in the low
      32 bits, which the same hash function on both sides guarantees. */
  lemma RoundTripExactly<T(!new)>(s: Codec<T>, r: Codec<T>, v: T)
    requires Inverse(s) && r.loads == s.loads && r.decompress == s.decompress
    requires Serialize(s, v).Ok?
    ensures Deserialize(r, Serialize(s, v).value) ==
            if r.hash(s.dumps(v)) % 0x1_0000_0000 == s.hash(s.dumps(v)) % 0x1_0000_0000 then Ok(v) else Error
  {
    var raw := s.dumps(v);
    var data := s.compress(raw);
    HeaderFields(VERSION, |raw|, |data|, Checksum(s, raw), data);
  }

  lemma RoundTrip<T(!new)>(c: Codec<T>, v: T)
    requires Inverse(c) && |c.dumps(v)| < LIMIT64 && |c.compress(c.dumps(v))| < LIMIT64
    ensures Serialize(c, v).Ok? && Deserialize(c, Serialize(c, v).value) == Ok(v)
  {
    RoundTripExactly(c, c, v);
  }

  /** A byte string is accepted, and read as `v`, exactly if it is the frame of
      some compressed form of a pickle of `v`. */
  lemma AcceptedExactly<T(!new)>(c: Codec<T>, b: Bytes, v: T)
    ensures Deserialize(c, b) == Ok(v) <==>
            exists raw, data :: Framed(c, b, raw, data) && c.loads(raw) == Some(v)
  {
    if Deserialize(c, b) == Ok(v) {
      HeaderFromFields(b);
      assert Framed(c, b, c.decompress(b[HEADER_SIZE..]).value, b[HEADER_SIZE..]);
    }
    if raw, data :| Framed(c, b, raw, data) && c.loads(raw) == Some(v) {
      HeaderFields(VERSION, |raw|, |data|, Checksum(c, raw), data);
    }
  }

  /** Version 1, the sizes before and after compression, the low 32 bits of the
      hash, and the data. */
  ghost predicate Framed<T>(c: Codec<T>, b: Bytes, raw: Bytes, data: Bytes) {
    && |raw| < LIMIT64 && |data| < LIMIT64 && c.decompress(data) == Some(raw)
    && b == BigEndian(1, 4) + BigEndian(|raw|, 8) + BigEndian(|data|, 8)
            + BigEndian(c.hash(raw) % 0x1_0000_0000, 8) + data
  }

  /** What is sent is such a frame of the pickled object. */
  lemma SerializedIsFramed<T(!new)>(c: Codec<T>, v: T)
    requires Inverse(c) && Serialize(c, v).Ok?
    ensures Framed(c, Serialize(c, v).value, c.dumps(v), c.compress(c.dumps(v)))
  {
  }

  /** Nothing shorter or longer gets through: whatever the receiver, it rejects
      every strict prefix and every strict extension of a serialized cache. */
  lemma PrefixesAndExtensionsRejected<T(!new)>(s: Codec<T>, r: Codec<T>, v: T, b: Bytes)
    requires Serialize(s, v).Ok? && b != Serialize(s, v).value
    requires b <= Serialize(s, v).value || Serialize(s, v).value <= b
    ensures Deserialize(r, b) == Error
  {
    var whole := Serialize(s, v).value;
    var raw := s.dumps(v);
    var data := s.compress(raw);
    HeaderFields(VERSION, |raw|, |data|, Checksum(s, raw), data);
    if |b| >= HEADER_SIZE {
      assert |b| != |whole|;
      assert b[12..20] == whole[12..20];
    }
  }
}
