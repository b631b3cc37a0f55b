/** Byte strings, fixed-width big-endian numbers and UTF-8. */
module ByteStrings {

  import opened Common

  type Byte = i: int | 0 <= i < 256

  type Bytes = seq<Byte>

  // ------------------------------------------------- big-endian numbers

  function Power256(width: nat): (p: nat)
    ensures p > 0
  {
    if width == 0 then 1 else 256 * Power256(width - 1)
  }

  function BigEndian(n: nat, width: nat): (b: Bytes)
    ensures |b| == width
  {
    if width == 0 then [] else BigEndian(n / 256, width - 1) + [n % 256]
  }

  function ValueOf(b: Bytes): nat {
    if b == [] then 0 else 256 * ValueOf(b[..|b| - 1]) + b[|b| - 1]
  }

  /** The number stored in `width` bytes at `from`. */
  function Field(b: Bytes, from: nat, width: nat): nat
    requires from + width <= |b|
  {
    ValueOf(b[from..from + width])
  }

  lemma {:induction false} ValueOfBigEndian(n: nat, width: nat)
    requires n < Power256(width)
    ensures ValueOf(BigEndian(n, width)) == n
  {
    if width > 0 {
      ValueOfBigEndian(n / 256, width - 1);
      var b := BigEndian(n, width);
      assert b[..|b| - 1] == BigEndian(n / 256, width - 1);
    }
  }

  lemma {:induction false} BigEndianOfValue(b: Bytes)
    ensures BigEndian(ValueOf(b), |b|) == b
    ensures ValueOf(b) < Power256(|b|)
  {
    if b != [] {
      var front, last := b[..|b| - 1], b[|b| - 1];
      BigEndianOfValue(front);
      assert (256 * ValueOf(front) + last) / 256 == ValueOf(front);
      assert b == front + [last];
    }
  }

  /** The most significant byte comes first. */
  lemma {:induction false} BigEndianByte(n: nat, width: nat, i: nat)
    requires i < width
    ensures BigEndian(n, width)[i] == n / Power256(width - 1 - i) % 256
  {
    if i < width - 1 {
      BigEndianByte(n / 256, width - 1, i);
      DivideTwice(n, Power256(width - 2 - i));
    }
  }

  lemma DivideTwice(n: nat, b: nat)
    requires b > 0
    ensures n / 256 / b == n / (256 * b)
  {
    var q, rest := n / 256 / b, n / 256 % b;
    assert n / 256 == q * b + rest;
    Reorder(q, b);
    UniqueQuotient(n, 256 * b, q, 256 * rest + n % 256);
  }

  lemma Reorder(q: int, b: int)
    ensures 256 * (q * b) == q * (256 * b)
  {
  }

  lemma UniqueQuotient(n: nat, m: nat, q: nat, r: nat)
    requires n == q * m + r && r < m
    ensures n / m == q
  {
    var d := n / m - q;
    var rest := n % m;
    assert n == n / m * m + rest;
    assert d * m == r - rest by { Difference(n / m, q, m); }
    if d >= 1 { AtLeastOnce(d, m); }
    if d <= -1 { AtLeastOnce(-d, m); }
  }

  lemma Difference(a: int, b: int, m: int)
    ensures (a - b) * m == a * m - b * m
  {
  }

  lemma AtLeastOnce(d: int, m: int)
    requires d >= 1 && m >= 0
    ensures d * m >= m && -d * m == -(d * m)
  {
    Difference(d, 1, m);
    if d > 1 { assert (d - 1) * m >= 0; }
  }

  const LIMIT32: nat := 0x1_0000_0000
  const LIMIT64: nat := 0x1_0000_0000_0000_0000

  lemma Limits()
    ensures Power256(4) == LIMIT32 && Power256(8) == LIMIT64
  {
    assert Power256(2) == 65536;
    assert Power256(4) == 256 * (256 * Power256(2));
    assert Power256(6) == 256 * (256 * Power256(4));
    assert Power256(8) == 256 * (256 * Power256(6));
  }

  /** A 32-bit and a 64-bit field, written and read back. */
  lemma FieldRoundTrip(n: nat)
    ensures n < LIMIT32 ==> ValueOf(BigEndian(n, 4)) == n
    ensures n < LIMIT64 ==> ValueOf(BigEndian(n, 8)) == n
  {
    Limits();
    if n < LIMIT32 { ValueOfBigEndian(n, 4); }
    if n < LIMIT64 { ValueOfBigEndian(n, 8); }
  }

  // ------------------------------------------------------------- UTF-8

  /** Section 3 of RFC 3629. */
  function EncodeChar(ch: char): (b: Bytes)
    ensures 1 <= |b| <= 4
    ensures |b| == 1 <==> ch as int < 0x80
  {
    var c := ch as int;
    if c < 0x80 then [c]
    else if c < 0x800 then [0xC0 + c / 64, 0x80 + c % 64]
    else if c < 0x10000 then [0xE0 + c / 4096, 0x80 + c / 64 % 64, 0x80 + c % 64]
    else [0xF0 + c / 262144, 0x80 + c / 4096 % 64, 0x80 + c / 64 % 64, 0x80 + c % 64]
  }

  function Encode(text: string): Bytes {
    if text == "" then [] else EncodeChar(text[0]) + Encode(text[1..])
  }

  /** How many bytes a character takes, by its first byte. */
  function CharLength(lead: Byte): nat {
    if lead < 0x80 then 1 else if lead < 0xC0 then 0 else if lead < 0xE0 then 2 else if lead < 0xF0 then 3
    else if lead < 0xF8 then 4 else 0
  }

  /** The number the bits of one character spell. */
  function CodePoint(b: Bytes): int
    requires 1 <= |b| <= 4
  {
    var w: int, x: int := b[0], if |b| > 1 then b[1] else 0;
    var y: int, z: int := if |b| > 2 then b[2] else 0, if |b| > 3 then b[3] else 0;
    if |b| == 1 then w
    else if |b| == 2 then (w - 0xC0) * 64 + (x - 0x80)
    else if |b| == 3 then (w - 0xE0) * 4096 + (x - 0x80) * 64 + (y - 0x80)
    else (w - 0xF0) * 262144 + (x - 0x80) * 4096 + (y - 0x80) * 64 + (z - 0x80)
  }

  predicate IsScalar(c: int) {
    0 <= c < 0xD800 || 0xE000 <= c < 0x110000
  }

  /** The first character; none unless its bytes are the ones it is encoded by. */
  function DecodeChar(b: Bytes): (r: Option<char>)
    ensures r.Some? ==> EncodeChar(r.value) <= b
  {
    if b == [] then None
    else
      var n := CharLength(b[0]);
      if n == 0 || |b| < n then None
      else
        var c := CodePoint(b[..n]);
        if IsScalar(c) && EncodeChar(c as char) == b[..n] then Some(c as char) else None
  }

  function Decode(b: Bytes): Option<string> {
    if b == [] then Some("")
    else
      var ch := DecodeChar(b);
      if ch.None? then None
      else
        var rest := Decode(b[|EncodeChar(ch.value)|..]);
        if rest.None? then None else Some([ch.value] + rest.value)
  }

  /** A number is put together again from its base-64 digits. */
  lemma Sextets(c: nat)
    ensures c == c / 64 * 64 + c % 64
    ensures c == c / 4096 * 4096 + c / 64 % 64 * 64 + c % 64
    ensures c == c / 262144 * 262144 + c / 4096 % 64 * 4096 + c / 64 % 64 * 64 + c % 64
  {
    assert c / 64 / 64 == c / 4096 && c / 4096 / 64 == c / 262144;
  }

  lemma CodePointOfChar(ch: char)
    ensures CodePoint(EncodeChar(ch)) == ch as int
  {
    Sextets(ch as int);
  }

  lemma DecodeEncodedChar(ch: char, rest: Bytes)
    ensures DecodeChar(EncodeChar(ch) + rest) == Some(ch)
  {
    var e := EncodeChar(ch);
    CodePointOfChar(ch);
    var b := e + rest;
    assert b[0] == e[0] && CharLength(e[0]) == |e|;
    assert b[..|e|] == e;
  }

  lemma {:induction false} DecodeEncode(text: string)
    ensures Decode(Encode(text)) == Some(text)
  {
    if text != "" {
      DecodeEncode(text[1..]);
      var e, rest := EncodeChar(text[0]), Encode(text[1..]);
      DecodeEncodedChar(text[0], rest);
      assert (e + rest)[|e|..] == rest;
      assert text == [text[0]] + text[1..];
    }
  }

  lemma EncodeCons(ch: char, rest: string)
    ensures Encode([ch] + rest) == EncodeChar(ch) + Encode(rest)
  {
    assert ([ch] + rest)[1..] == rest;
  }

  /** One step of the decoder: a character's bytes, then the rest. */
  lemma DecodeStep(b: Bytes) returns (ch: char, tail: Bytes)
    requires b != [] && Decode(b).Some?
    ensures |tail| < |b| && b == EncodeChar(ch) + tail
    ensures Decode(tail).Some? && Decode(b).value == [ch] + Decode(tail).value
  {
    ch := DecodeChar(b).value;
    tail := b[|EncodeChar(ch)|..];
  }

  /** The decoder accepts nothing but encodings. */
  lemma {:induction false} EncodeDecode(b: Bytes)
    requires Decode(b).Some?
    ensures Encode(Decode(b).value) == b
    decreases |b|
  {
    if b != [] {
      var ch, tail := DecodeStep(b);
      EncodeDecode(tail);
      EncodeCons(ch, Decode(tail).value);
    }
  }

  predicate Ascii(text: string) {
    forall i :: 0 <= i < |text| ==> text[i] as int < 0x80
  }

  /** A text takes at least a byte for each character, and no more exactly if it
      is ASCII. */
  lemma {:induction false} EncodedLength(text: string)
    ensures |Encode(text)| >= |text|
    ensures |Encode(text)| == |text| <==> Ascii(text)
  {
    if text != "" {
      EncodedLength(text[1..]);
      assert Ascii(text) <==> text[0] as int < 0x80 && Ascii(text[1..]) by {
        assert forall i :: 0 <= i < |text[1..]| ==> text[1..][i] == text[i + 1];
        assert forall i :: 0 < i < |text| ==> text[i] == text[1..][i - 1];
      }
    }
  }
}
