/** UTF-8 as Rust's `str::from_utf8` / `String::from_utf8` accept it (RFC 3629, section 4: well-formed
    sequences only, so no overlong forms, no surrogates, nothing above U+10FFFF), and the encoding Rust
    uses to store a `String`, whose byte length is what `str::len` returns. */
module Utf8 {
  import opened Wrappers
  import opened Bytes

  /** The UTF-8 bytes of one scalar value (RFC 3629, section 3): the value cut into 6-bit groups, the first
      byte marking the length. */
  function EncodeChar(c: char): (bs: seq<byte>)
    ensures 1 <= |bs| <= 4
  {
    var v := c as int;
    if v < 0x80 then [v]
    else if v < 0x800 then [0xC0 + v / 64, 0x80 + v % 64]
    else if v < 0x10000 then [0xE0 + v / 64 / 64, 0x80 + v / 64 % 64, 0x80 + v % 64]
    else [0xF0 + v / 64 / 64 / 64, 0x80 + v / 64 / 64 % 64, 0x80 + v / 64 % 64, 0x80 + v % 64]
  }

  /** The bytes Rust stores for a `String`. */
  function Encode(s: string): seq<byte>
  {
    if s == [] then [] else EncodeChar(s[0]) + Encode(s[1..])
  }

  /** How many bytes `EncodeChar(c)` has, read off the scalar value's range. */
  function Width(c: char): nat
  {
    if c < '\U{80}' then 1 else if c < '\U{800}' then 2 else if c < '\U{10000}' then 3 else 4
  }

  lemma WidthOf(c: char)
    ensures Width(c) == |EncodeChar(c)|
  {
  }

  /** `str::len`: the length in bytes. */
  function EncodedLength(s: string): nat
  {
    if s == [] then 0 else Width(s[0]) + EncodedLength(s[1..])
  }

  /** The byte length is the length of the encoding. */
  lemma {:induction false} EncodedLengthOf(s: string)
    ensures EncodedLength(s) == |Encode(s)|
  {
    if s != [] {
      WidthOf(s[0]);
      EncodedLengthOf(s[1..]);
    }
  }

  /** Byte lengths add up over a concatenation. */
  lemma {:induction false} EncodedLengthConcat(a: string, b: string)
    ensures EncodedLength(a + b) == EncodedLength(a) + EncodedLength(b)
  {
    if a != [] {
      assert (a + b)[1..] == a[1..] + b;
      EncodedLengthConcat(a[1..], b);
    } else {
      assert a + b == b;
    }
  }

  /** ASCII text has one byte per character. */
  lemma {:induction false} EncodedLengthAscii(s: string)
    requires forall i :: 0 <= i < |s| ==> s[i] < '\U{80}'
    ensures EncodedLength(s) == |s|
  {
    if s != [] {
      EncodedLengthAscii(s[1..]);
    }
  }

  predicate IsContinuation(b: byte) {
    0x80 <= b <= 0xBF
  }

  /** The second byte of a three-byte sequence led by `b0`: excludes overlong forms (after 0xE0) and
      surrogates (after 0xED). */
  predicate SecondOfThree(b0: byte, b1: byte) {
    if b0 == 0xE0 then 0xA0 <= b1 <= 0xBF
    else if b0 == 0xED then 0x80 <= b1 <= 0x9F
    else IsContinuation(b1)
  }

  /** The second byte of a four-byte sequence led by `b0`: excludes overlong forms (after 0xF0) and values
      above U+10FFFF (after 0xF4). */
  predicate SecondOfFour(b0: byte, b1: byte) {
    if b0 == 0xF0 then 0x90 <= b1 <= 0xBF
    else if b0 == 0xF4 then 0x80 <= b1 <= 0x8F
    else IsContinuation(b1)
  }

  /** The scalar value that `bs` starts with and the number of bytes it takes, or `None` when `bs` does not
      start with a well-formed sequence. */
  function DecodeFirst(bs: seq<byte>): (r: Option<(char, nat)>)
    requires bs != []
    ensures r.Some? ==> 1 <= r.value.1 <= |bs|
  {
    var b0 := bs[0] as int;
    if b0 < 0x80 then Some((b0 as char, 1))
    else if 0xC2 <= b0 <= 0xDF then
      if |bs| >= 2 && IsContinuation(bs[1]) then
        Some((((b0 - 0xC0) * 64 + (bs[1] as int - 0x80)) as char, 2))
      else None
    else if 0xE0 <= b0 <= 0xEF then
      if |bs| >= 3 && SecondOfThree(bs[0], bs[1]) && IsContinuation(bs[2]) then
        Some(((((b0 - 0xE0) * 64 + (bs[1] as int - 0x80)) * 64 + (bs[2] as int - 0x80)) as char, 3))
      else None
    else if 0xF0 <= b0 <= 0xF4 then
      if |bs| >= 4 && SecondOfFour(bs[0], bs[1]) && IsContinuation(bs[2]) && IsContinuation(bs[3]) then
        Some((((((b0 - 0xF0) * 64 + (bs[1] as int - 0x80)) * 64 + (bs[2] as int - 0x80)) * 64
              + (bs[3] as int - 0x80)) as char, 4))
      else None
    else None
  }

  /** `str::from_utf8`: the text the bytes encode, or `None` when they are not well-formed UTF-8. */
  function Decode(bs: seq<byte>): (r: Option<string>)
    decreases |bs|
  {
    if bs == [] then Some([])
    else match DecodeFirst(bs)
      case None => None
      case Some((c, n)) =>
        match Decode(bs[n..])
        case None => None
        case Some(rest) => Some([c] + rest)
  }

  /** A number is its quotient and remainder by 64, and those are determined by it. */
  lemma Group(v: int, q: int, r: int)
    requires v >= 0 && q >= 0 && 0 <= r < 64
    ensures v == (v / 64) * 64 + v % 64 && 0 <= v % 64 < 64
    ensures v == q * 64 + r ==> v / 64 == q && v % 64 == r
  {
  }

  /** The two bytes of a scalar value in [U+0080, U+0800) are read back. */
  lemma DecodeTwo(c: char, rest: seq<byte>)
    requires 0x80 <= c as int < 0x800
    ensures DecodeFirst(EncodeChar(c) + rest) == Some((c, 2))
  {
    var v := c as int;
    Group(v, 0, 0);
    var bs := EncodeChar(c) + rest;
    assert bs[0] == 0xC0 + v / 64 && bs[1] == 0x80 + v % 64;
  }

  /** The three bytes of a scalar value in [U+0800, U+10000) are read back. */
  lemma DecodeThree(c: char, rest: seq<byte>)
    requires 0x800 <= c as int < 0x10000
    ensures DecodeFirst(EncodeChar(c) + rest) == Some((c, 3))
  {
    var v := c as int;
    Group(v, 0, 0);
    Group(v / 64, 0, 0);
    var bs := EncodeChar(c) + rest;
    assert bs[0] == 0xE0 + v / 64 / 64 && bs[1] == 0x80 + v / 64 % 64 && bs[2] == 0x80 + v % 64;
  }

  /** The four bytes of a scalar value from U+10000 on are read back. */
  lemma DecodeFour(c: char, rest: seq<byte>)
    requires 0x10000 <= c as int
    ensures DecodeFirst(EncodeChar(c) + rest) == Some((c, 4))
  {
    var v := c as int;
    Group(v, 0, 0);
    Group(v / 64, 0, 0);
    Group(v / 64 / 64, 0, 0);
    var bs := EncodeChar(c) + rest;
    assert bs[0] == 0xF0 + v / 64 / 64 / 64 && bs[1] == 0x80 + v / 64 / 64 % 64;
    assert bs[2] == 0x80 + v / 64 % 64 && bs[3] == 0x80 + v % 64;
  }

  /** The first character of an encoding is decoded from its own bytes, whatever follows. */
  lemma DecodeFirstOfEncoded(c: char, rest: seq<byte>)
    ensures DecodeFirst(EncodeChar(c) + rest) == Some((c, |EncodeChar(c)|))
  {
    var v := c as int;
    if v < 0x80 {
    } else if v < 0x800 {
      DecodeTwo(c, rest);
    } else if v < 0x10000 {
      DecodeThree(c, rest);
    } else {
      DecodeFour(c, rest);
    }
  }

  /** A well-formed two-byte sequence is the encoding of the value it is read as. */
  lemma EncodeTwo(b0: byte, b1: byte)
    requires 0xC2 <= b0 <= 0xDF && IsContinuation(b1)
    ensures var v := (b0 - 0xC0) * 64 + (b1 - 0x80);
      0x80 <= v < 0x800 && EncodeChar(v as char) == [b0, b1]
  {
    var v := (b0 - 0xC0) * 64 + (b1 - 0x80);
    Group(v, b0 - 0xC0, b1 - 0x80);
  }

  /** A well-formed three-byte sequence is the encoding of the value it is read as. */
  lemma EncodeThree(b0: byte, b1: byte, b2: byte)
    requires 0xE0 <= b0 <= 0xEF && SecondOfThree(b0, b1) && IsContinuation(b2)
    ensures var v := ((b0 - 0xE0) * 64 + (b1 - 0x80)) * 64 + (b2 - 0x80);
      0x800 <= v < 0x10000 && !(0xD800 <= v < 0xE000) && EncodeChar(v as char) == [b0, b1, b2]
  {
    var v1 := (b0 - 0xE0) * 64 + (b1 - 0x80);
    var v := v1 * 64 + (b2 - 0x80);
    Group(v, v1, b2 - 0x80);
    Group(v1, b0 - 0xE0, b1 - 0x80);
  }

  /** A well-formed four-byte sequence is the encoding of the value it is read as. */
  lemma EncodeFour(b0: byte, b1: byte, b2: byte, b3: byte)
    requires 0xF0 <= b0 <= 0xF4 && SecondOfFour(b0, b1) && IsContinuation(b2) && IsContinuation(b3)
    ensures var v := (((b0 - 0xF0) * 64 + (b1 - 0x80)) * 64 + (b2 - 0x80)) * 64 + (b3 - 0x80);
      0x10000 <= v < 0x110000 && EncodeChar(v as char) == [b0, b1, b2, b3]
  {
    var v2 := (b0 - 0xF0) * 64 + (b1 - 0x80);
    var v1 := v2 * 64 + (b2 - 0x80);
    var v := v1 * 64 + (b3 - 0x80);
    Group(v, v1, b3 - 0x80);
    Group(v1, v2, b2 - 0x80);
    Group(v2, b0 - 0xF0, b1 - 0x80);
  }

  /** The bytes the first character is decoded from are its encoding. */
  lemma EncodedOfDecodeFirst(bs: seq<byte>)
    requires bs != [] && DecodeFirst(bs).Some?
    ensures EncodeChar(DecodeFirst(bs).value.0) == bs[..DecodeFirst(bs).value.1]
  {
    var n := DecodeFirst(bs).value.1;
    if n == 2 {
      EncodeTwo(bs[0], bs[1]);
      assert bs[..2] == [bs[0], bs[1]];
    } else if n == 3 {
      EncodeThree(bs[0], bs[1], bs[2]);
      assert bs[..3] == [bs[0], bs[1], bs[2]];
    } else if n == 4 {
      EncodeFour(bs[0], bs[1], bs[2], bs[3]);
      assert bs[..4] == [bs[0], bs[1], bs[2], bs[3]];
    } else {
      assert bs[..1] == [bs[0]];
    }
  }

  lemma {:induction false} EncodeConcat(a: string, b: string)
    ensures Encode(a + b) == Encode(a) + Encode(b)
    decreases |a|
  {
    if a != [] {
      assert (a + b)[1..] == a[1..] + b;
      EncodeConcat(a[1..], b);
    } else {
      assert a + b == b;
    }
  }

  /** Decoding what encoding produced gives back the text. */
  lemma {:induction false} DecodeEncode(s: string)
    ensures Decode(Encode(s)) == Some(s)
    decreases |s|
  {
    if s != [] {
      var head := EncodeChar(s[0]);
      DecodeFirstOfEncoded(s[0], Encode(s[1..]));
      assert (head + Encode(s[1..]))[|head|..] == Encode(s[1..]);
      DecodeEncode(s[1..]);
      assert s == [s[0]] + s[1..];
    }
  }

  /** Bytes that decode are exactly the encoding of the decoded text: `from_utf8` keeps the bytes. */
  lemma {:induction false} EncodeDecode(bs: seq<byte>)
    requires Decode(bs).Some?
    ensures Encode(Decode(bs).value) == bs
    decreases |bs|
  {
    if bs != [] {
      DecodeNonEmpty(bs);
      var (c, n) := DecodeFirst(bs).value;
      EncodedOfDecodeFirst(bs);
      EncodeDecode(bs[n..]);
      EncodeStep(bs, c, n, Decode(bs[n..]).value);
    }
  }

  /** Decoding non-empty bytes: the first character, then the decoding of the bytes after it. */
  lemma DecodeNonEmpty(bs: seq<byte>)
    requires bs != [] && Decode(bs).Some?
    ensures DecodeFirst(bs).Some? && Decode(bs[DecodeFirst(bs).value.1..]).Some?
    ensures Decode(bs).value == [DecodeFirst(bs).value.0] + Decode(bs[DecodeFirst(bs).value.1..]).value
  {
  }

  /** A character encoded by the first `n` bytes before text encoded by the rest is encoded by all of them. */
  lemma EncodeStep(bs: seq<byte>, c: char, n: nat, rest: string)
    requires n <= |bs| && EncodeChar(c) == bs[..n] && Encode(rest) == bs[n..]
    ensures Encode([c] + rest) == bs
  {
    assert ([c] + rest)[1..] == rest;
    assert bs[..n] + bs[n..] == bs;
  }

  /** Every scalar value below U+0080 is the single byte of the same value. */
  lemma {:induction false} EncodeAscii(s: string)
    requires forall i :: 0 <= i < |s| ==> s[i] < '\U{80}'
    ensures |Encode(s)| == |s|
    ensures forall i :: 0 <= i < |s| ==> Encode(s)[i] == s[i] as int
    decreases |s|
  {
    if s != [] {
      EncodeAscii(s[1..]);
    }
  }
}
