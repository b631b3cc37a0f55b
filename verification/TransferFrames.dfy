/** Frames sent between nodes: a header of three 64-bit fields and one 32-bit
    field, the request id in UTF-8, and the cache data. */
module TransferFrames {
  import opened ByteStrings
  import opened Common

  /** The fields of the header, `!QQQI`, and what the receiver cuts off for it. */
  const FIELD_WIDTHS: seq<nat> := [8, 8, 8, 4]
  const CODED_SIZE: nat := 32

  datatype Codec = Codec(compress: Bytes -> Bytes, decompress: Bytes -> Option<Bytes>)

  datatype Received = Received(id: string, data: Bytes) | Rejected

  // ----------------------------------------------------- packing by widths

  function Sum(widths: seq<nat>): nat {
    if widths == [] then 0 else widths[0] + Sum(widths[1..])
  }

  predicate Fits(widths: seq<nat>, values: seq<nat>) {
    |values| == |widths| && forall i :: 0 <= i < |widths| ==> values[i] < Power256(widths[i])
  }

  /** One big-endian number after the other; fails for a number that is too large. */
  function Pack(widths: seq<nat>, values: seq<nat>): (b: Option<Bytes>)
    decreases |widths|
  {
    if widths == [] || values == [] then (if |widths| == |values| then Some([]) else None)
    else
      var rest := Pack(widths[1..], values[1..]);
      if values[0] >= Power256(widths[0]) || rest.None? then None
      else Some(BigEndian(values[0], widths[0]) + rest.value)
  }

  /** Fails if bytes are missing or left over. */
  function Unpack(widths: seq<nat>, b: Bytes): Option<seq<nat>>
    decreases |widths|
  {
    if widths == [] then (if b == [] then Some([]) else None)
    else if |b| < widths[0] then None
    else
      var rest := Unpack(widths[1..], b[widths[0]..]);
      if rest.None? then None else Some([ValueOf(b[..widths[0]])] + rest.value)
  }

  lemma {:induction false} UnpackLength(widths: seq<nat>, b: Bytes)
    ensures Unpack(widths, b).Some? <==> |b| == Sum(widths)
    ensures Unpack(widths, b).Some? ==> |Unpack(widths, b).value| == |widths|
    decreases |widths|
  {
    if widths != [] && |b| >= widths[0] { UnpackLength(widths[1..], b[widths[0]..]); }
  }

  lemma FitsStep(widths: seq<nat>, values: seq<nat>)
    requires widths != [] && values != []
    ensures Fits(widths, values) <==> values[0] < Power256(widths[0]) && Fits(widths[1..], values[1..])
  {
    assert forall i :: 0 < i < |widths| ==> widths[i] == widths[1..][i - 1];
    assert forall i :: 0 < i < |values| ==> values[i] == values[1..][i - 1];
  }

  lemma UnpackStep(widths: seq<nat>, n: nat, rest: Bytes)
    requires widths != [] && n < Power256(widths[0]) && Unpack(widths[1..], rest).Some?
    ensures Unpack(widths, BigEndian(n, widths[0]) + rest) == Some([n] + Unpack(widths[1..], rest).value)
  {
    var first := BigEndian(n, widths[0]);
    ValueOfBigEndian(n, widths[0]);
    assert (first + rest)[..widths[0]] == first && (first + rest)[widths[0]..] == rest;
  }

  /** Packing succeeds exactly on numbers that fit, and unpacking undoes it. */
  lemma {:induction false} UnpackPacked(widths: seq<nat>, values: seq<nat>)
    ensures Pack(widths, values).Some? <==> Fits(widths, values)
    ensures Pack(widths, values).Some? ==> Unpack(widths, Pack(widths, values).value) == Some(values)
    decreases |widths|
  {
    if widths != [] && values != [] {
      UnpackPacked(widths[1..], values[1..]);
      FitsStep(widths, values);
      if Pack(widths, values).Some? {
        UnpackStep(widths, values[0], Pack(widths[1..], values[1..]).value);
        assert values == [values[0]] + values[1..];
      }
    }
  }

  // ------------------------------------------------------------- the frame

  function Payload(c: Codec, compressing: bool, data: Bytes): Bytes {
    if compressing then c.compress(data) else data
  }

  function Fields(c: Codec, compressing: bool, id: string, data: Bytes): seq<nat> {
    [|data|, |Payload(c, compressing, data)|, if compressing then 1 else 0, |id|]
  }

  /** The id's length is counted in characters, its text sent in bytes. */
  function Message(c: Codec, compressing: bool, id: string, data: Bytes): Option<Bytes> {
    var header := Pack(FIELD_WIDTHS, Fields(c, compressing, id, data));
    if header.None? then None else Some(header.value + Encode(id) + Payload(c, compressing, data))
  }

  /** Slicing stops at the end of the data. */
  function From(b: Bytes, n: nat): Bytes { if n <= |b| then b[n..] else [] }

  function UpTo(b: Bytes, n: nat): Bytes { if n <= |b| then b[..n] else b }

  /** The receiver, for a given header size. */
  function Receive(c: Codec, headerSize: nat, b: Bytes): Received {
    if |b| < headerSize then Rejected
    else
      var fields := Unpack(FIELD_WIDTHS, b[..headerSize]);
      if fields.None? || |fields.value| != 4 then Rejected
      else Parse(c, fields.value[0], fields.value[2], fields.value[3], b[headerSize..])
  }

  function Parse(c: Codec, original: nat, flag: nat, idLength: nat, body: Bytes): Received {
    var id := Decode(UpTo(body, idLength));
    if id.None? then Rejected
    else
      var data := if flag != 0 then c.decompress(From(body, idLength)) else Some(From(body, idLength));
      if data.None? || |data.value| != original then Rejected else Received(id.value, data.value)
  }

  lemma HeaderSize()
    ensures Sum(FIELD_WIDTHS) == 28
  {
    assert FIELD_WIDTHS[1..] == [8, 8, 4] && [8, 8, 4][1..] == [8, 4] && [8, 4][1..] == [4];
    assert Sum([4]) == 4 && Sum([8, 4]) == 12 && Sum([8, 8, 4]) == 20;
  }

  /** Whatever is received, a receiver that cuts off any number of bytes but 28
      rejects it: the unpacking does not come out even. */
  lemma OtherSizesRejectAll(c: Codec, headerSize: nat, b: Bytes)
    ensures headerSize != 28 ==> Receive(c, headerSize, b) == Rejected
  {
    HeaderSize();
    if |b| >= headerSize { UnpackLength(FIELD_WIDTHS, b[..headerSize]); }
  }

  /** As coded, the receiver cuts off 32 bytes and rejects every frame. */
  lemma CodedReceiverRejectsAll(c: Codec, b: Bytes)
    ensures Receive(c, CODED_SIZE, b) == Rejected
  {
    OtherSizesRejectAll(c, CODED_SIZE, b);
  }

  lemma ReceiveSplit(c: Codec, header: Bytes, rest: Bytes, values: seq<nat>)
    requires |header| == 28 && |values| == 4 && Unpack(FIELD_WIDTHS, header) == Some(values)
    ensures Receive(c, 28, header + rest) == Parse(c, values[0], values[2], values[3], rest)
  {
    var b := header + rest;
    assert b[..28] == header && b[28..] == rest;
  }

  lemma MessageHeader(c: Codec, compressing: bool, id: string, data: Bytes) returns (header: Bytes)
    requires Message(c, compressing, id, data).Some?
    ensures Message(c, compressing, id, data).value == header + (Encode(id) + Payload(c, compressing, data))
    ensures |header| == 28 && Unpack(FIELD_WIDTHS, header) == Some(Fields(c, compressing, id, data))
  {
    var values, sent := Fields(c, compressing, id, data), Payload(c, compressing, data);
    header := Pack(FIELD_WIDTHS, values).value;
    UnpackPacked(FIELD_WIDTHS, values);
    UnpackLength(FIELD_WIDTHS, header);
    HeaderSize();
    assert header + Encode(id) + sent == header + (Encode(id) + sent);
  }

  /** What a receiver with the right header size works on. */
  lemma MessageParts(c: Codec, compressing: bool, id: string, data: Bytes)
    requires Message(c, compressing, id, data).Some?
    ensures Receive(c, 28, Message(c, compressing, id, data).value)
            == Parse(c, |data|, if compressing then 1 else 0, |id|, Encode(id) + Payload(c, compressing, data))
  {
    var header := MessageHeader(c, compressing, id, data);
    ReceiveSplit(c, header, Encode(id) + Payload(c, compressing, data), Fields(c, compressing, id, data));
  }

  lemma IdSlice(id: string, sent: Bytes)
    ensures UpTo(Encode(id) + sent, |id|) == Encode(id)[..if |id| <= |Encode(id)| then |id| else |Encode(id)|]
    ensures Ascii(id) ==> UpTo(Encode(id) + sent, |id|) == Encode(id) && From(Encode(id) + sent, |id|) == sent
    ensures !Ascii(id) ==> Decode(UpTo(Encode(id) + sent, |id|)) != Some(id)
  {
    EncodedLength(id);
    var e := Encode(id);
    var cut := UpTo(e + sent, |id|);
    assert cut == e[..|id|];
    if Decode(cut) == Some(id) { EncodeDecode(cut); }
  }

  /** For every header size, a frame parses back to the id and data that were
      sent exactly if the size is 28 and the id is ASCII: otherwise the length in
      characters cuts its bytes short. */
  lemma FrameParsesBackExactly(c: Codec, compressing: bool, headerSize: nat, id: string, data: Bytes)
    requires forall x :: c.decompress(c.compress(x)) == Some(x)
    requires Message(c, compressing, id, data).Some?
    ensures Receive(c, headerSize, Message(c, compressing, id, data).value) == Received(id, data)
            <==> headerSize == 28 && Ascii(id)
  {
    OtherSizesRejectAll(c, headerSize, Message(c, compressing, id, data).value);
    MessageParts(c, compressing, id, data);
    IdSlice(id, Payload(c, compressing, data));
    if Ascii(id) { DecodeEncode(id); }
  }

  /** Without compression a non-ASCII id is not misread but rejected: what the
      cut leaves over makes the data too long. */
  lemma PlainNonAsciiRejected(c: Codec, id: string, data: Bytes)
    requires Message(c, false, id, data).Some? && !Ascii(id)
    ensures Receive(c, 28, Message(c, false, id, data).value) == Rejected
  {
    MessageParts(c, false, id, data);
    EncodedLength(id);
    assert |From(Encode(id) + data, |id|)| > |data|;
  }

  /** Packing fails exactly for numbers too large for their fields. */
  lemma SentExactly(c: Codec, compressing: bool, id: string, data: Bytes)
    ensures Message(c, compressing, id, data).Some? <==>
              |data| < LIMIT64 && |Payload(c, compressing, data)| < LIMIT64 && |id| < LIMIT32
  {
    var values := Fields(c, compressing, id, data);
    UnpackPacked(FIELD_WIDTHS, values);
    Limits();
    assert FIELD_WIDTHS[0] == 8 && FIELD_WIDTHS[1] == 8 && FIELD_WIDTHS[2] == 8 && FIELD_WIDTHS[3] == 4;
    assert Fits(FIELD_WIDTHS, values) ==> values[0] < Power256(8) && values[1] < Power256(8) && values[3] < Power256(4);
  }

  /** The bytes on the wire. */
  lemma MessageLayout(c: Codec, compressing: bool, id: string, data: Bytes)
    requires Message(c, compressing, id, data).Some?
    ensures var sent := if compressing then c.compress(data) else data;
            Message(c, compressing, id, data).value ==
              BigEndian(|data|, 8) + BigEndian(|sent|, 8) + BigEndian(if compressing then 1 else 0, 8) + BigEndian(|id|, 4)
              + Encode(id) + sent
  {
    var values := Fields(c, compressing, id, data);
    PackFour(values[0], values[1], values[2], values[3]);
    assert values == [values[0], values[1], values[2], values[3]];
  }

  lemma PackFour(a: nat, b: nat, d: nat, e: nat)
    requires Pack(FIELD_WIDTHS, [a, b, d, e]).Some?
    ensures Pack(FIELD_WIDTHS, [a, b, d, e]).value == BigEndian(a, 8) + BigEndian(b, 8) + BigEndian(d, 8) + BigEndian(e, 4)
  {
    var w, v := [8, 8, 8, 4], [a, b, d, e];
    assert w[1..] == [8, 8, 4] && v[1..] == [b, d, e];
    assert w[1..][1..] == [8, 4] && v[1..][1..] == [d, e];
    assert w[1..][1..][1..] == [4] && v[1..][1..][1..] == [e];
    assert [4][1..] == [] && [e][1..] == [];
    assert Pack([4], [e]).value == BigEndian(e, 4);
    assert Pack([8, 4], [d, e]).value == BigEndian(d, 8) + Pack([4], [e]).value;
    assert Pack([8, 8, 4], [b, d, e]).value == BigEndian(b, 8) + Pack([8, 4], [d, e]).value;
  }
}
