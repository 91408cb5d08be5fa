/**
 * `String.getBytes(StandardCharsets.UTF_8)`, the payload encoding of every
 * MQTT message, together with a strict decoder used to show that the
 * payload determines the published text.
 */
module Utf8 {
  import opened Wrappers

  newtype byte = x: int | 0 <= x < 256

  /** Unicode scalar values: code points outside the surrogate range. */
  predicate IsScalar(cp: int) {
    (0 <= cp < 0xD800) || (0xE000 <= cp < 0x11_0000)
  }

  predicate IsContinuation(b: byte) {
    0x80 <= b < 0xC0
  }

  /** The one to four bytes UTF-8 uses for one character. */
  function EncodeChar(c: char): (bs: seq<byte>)
    ensures 1 <= |bs| <= 4
    ensures |bs| == SequenceLength(bs[0])
    ensures forall k :: 1 <= k < |bs| ==> IsContinuation(bs[k])
  {
    var cp := c as int;
    if cp < 0x80 then
      [cp as byte]
    else if cp < 0x800 then
      [(0xC0 + cp / 0x40) as byte, (0x80 + cp % 0x40) as byte]
    else if cp < 0x1_0000 then
      [(0xE0 + cp / 0x1000) as byte, (0x80 + (cp / 0x40) % 0x40) as byte,
       (0x80 + cp % 0x40) as byte]
    else
      [(0xF0 + cp / 0x4_0000) as byte, (0x80 + (cp / 0x1000) % 0x40) as byte,
       (0x80 + (cp / 0x40) % 0x40) as byte, (0x80 + cp % 0x40) as byte]
  }

  /** The encoding of a string is the concatenation of its characters' encodings. */
  function Encode(s: string): (bs: seq<byte>)
    ensures |s| <= |bs| <= 4 * |s|
  {
    if |s| == 0 then [] else EncodeChar(s[0]) + Encode(s[1..])
  }

  /** The sequence length announced by a lead byte, 0 for a byte that cannot
      start a sequence. */
  function SequenceLength(b: byte): nat {
    if b < 0x80 then 1
    else if 0xC2 <= b < 0xE0 then 2
    else if 0xE0 <= b < 0xF0 then 3
    else if 0xF0 <= b < 0xF5 then 4
    else 0
  }

  /** The code point of one well-formed sequence, refusing continuation
      errors, overlong forms, surrogates and values above U+10FFFF. */
  function DecodeChar(bs: seq<byte>): (r: Option<char>)
    requires 1 <= |bs| <= 4 && |bs| == SequenceLength(bs[0])
  {
    if exists k :: 1 <= k < |bs| && !IsContinuation(bs[k]) then None
    else
      var cp :=
        if |bs| == 1 then bs[0] as int
        else if |bs| == 2 then (bs[0] as int - 0xC0) * 0x40 + (bs[1] as int - 0x80)
        else if |bs| == 3 then
          ((bs[0] as int - 0xE0) * 0x40 + (bs[1] as int - 0x80)) * 0x40 + (bs[2] as int - 0x80)
        else
          (((bs[0] as int - 0xF0) * 0x40 + (bs[1] as int - 0x80)) * 0x40
            + (bs[2] as int - 0x80)) * 0x40 + (bs[3] as int - 0x80);
      var least := if |bs| == 1 then 0 else if |bs| == 2 then 0x80 else if |bs| == 3 then 0x800 else 0x1_0000;
      if least <= cp && IsScalar(cp) then Some(cp as char) else None
  }

  /** Strict UTF-8 decoding; `None` on any malformed input. */
  function Decode(bs: seq<byte>): Option<string>
    decreases |bs|
  {
    if |bs| == 0 then Some([])
    else
      var n := SequenceLength(bs[0]);
      if n == 0 || |bs| < n then None
      else match (DecodeChar(bs[..n]), Decode(bs[n..]))
        case (Some(c), Some(rest)) => Some([c] + rest)
        case _ => None
  }

  /** Each branch of the encoder is undone by the decoder. */
  lemma DecodeEncodeChar(c: char)
    ensures DecodeChar(EncodeChar(c)) == Some(c)
  {
    var cp := c as int;
    if cp < 0x80 {
    } else if cp < 0x800 {
      DecodeTwoBytes(cp);
    } else if cp < 0x1_0000 {
      DecodeThreeBytes(cp);
    } else {
      DecodeFourBytes(cp);
    }
  }

  lemma DecodeTwoBytes(cp: int)
    requires 0x80 <= cp < 0x800
    ensures (cp / 0x40 - 0) * 0x40 + cp % 0x40 == cp
    ensures 0xC2 <= 0xC0 + cp / 0x40 < 0xE0
  {
  }

  lemma DecodeThreeBytes(cp: int)
    requires 0x800 <= cp < 0x1_0000
    ensures (cp / 0x1000 * 0x40 + (cp / 0x40) % 0x40) * 0x40 + cp % 0x40 == cp
    ensures 0xE0 <= 0xE0 + cp / 0x1000 < 0xF0
  {
    var hi, mid, lo := cp / 0x1000, (cp / 0x40) % 0x40, cp % 0x40;
    assert cp / 0x40 == hi * 0x40 + mid;
    assert cp == (cp / 0x40) * 0x40 + lo;
  }

  lemma DecodeFourBytes(cp: int)
    requires 0x1_0000 <= cp < 0x11_0000
    ensures ((cp / 0x4_0000 * 0x40 + (cp / 0x1000) % 0x40) * 0x40 + (cp / 0x40) % 0x40) * 0x40 + cp % 0x40 == cp
    ensures 0xF0 <= 0xF0 + cp / 0x4_0000 < 0xF5
  {
    var q1 := cp / 0x40;
    var q2 := q1 / 0x40;
    assert cp / 0x1000 == q2;
    assert cp / 0x4_0000 == q2 / 0x40;
    assert q2 == (q2 / 0x40) * 0x40 + q2 % 0x40;
    assert q1 == q2 * 0x40 + q1 % 0x40;
    assert cp == q1 * 0x40 + cp % 0x40;
  }

  /** Decoding undoes encoding: the payload bytes determine the text. */
  lemma {:induction false} DecodeEncode(s: string)
    ensures Decode(Encode(s)) == Some(s)
    decreases |s|
  {
    if |s| > 0 {
      var head := EncodeChar(s[0]);
      var bs := Encode(s);
      assert bs == head + Encode(s[1..]);
      assert bs[..|head|] == head;
      assert bs[|head|..] == Encode(s[1..]);
      DecodeEncodeChar(s[0]);
      DecodeEncode(s[1..]);
      assert [s[0]] + s[1..] == s;
    }
  }

  /** Different strings never share a payload. */
  lemma EncodeInjective(s: string, t: string)
    requires Encode(s) == Encode(t)
    ensures s == t
  {
    DecodeEncode(s);
    DecodeEncode(t);
  }
}
