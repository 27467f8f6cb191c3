/** UTF-8, as `String.getBytes(UTF_8)` produces it and `new String(bytes, UTF_8)`
    reads it back. Characters are Unicode scalar values. */
module Utf8 {
  import opened Wrappers
  import opened Bytes

  predicate IsContinuation(b: byte)
  {
    0x80 <= b < 0xC0
  }

  /** The one to four bytes of one character. */
  function EncodeChar(c: char): (r: seq<byte>)
    ensures 1 <= |r| <= 4
    ensures (c as int < 0x80) <==> (r == [c as int])
  {
    var v := c as int;
    if v < 0x80 then [v]
    else if v < 0x800 then [0xC0 + v / 64, 0x80 + v % 64]
    else if v < 0x1_0000 then [0xE0 + v / 4096, 0x80 + v / 64 % 64, 0x80 + v % 64]
    else [0xF0 + v / 262144, 0x80 + v / 4096 % 64, 0x80 + v / 64 % 64, 0x80 + v % 64]
  }

  /** `s.getBytes(StandardCharsets.UTF_8)`. */
  function Encode(s: string): (r: seq<byte>)
    ensures |r| >= |s|
  {
    if |s| == 0 then [] else EncodeChar(s[0]) + Encode(s[1..])
  }

  /** The character at the head of `bs` and the number of bytes it takes, or
      `None` when the head is not a well-formed, shortest-form encoding. */
  function DecodeChar(bs: seq<byte>): (r: Option<(char, nat)>)
    requires |bs| > 0
    ensures r.Some? ==> 1 <= r.value.1 <= |bs|
  {
    var b0: int := bs[0];
    if b0 < 0x80 then Some((b0 as char, 1))
    else if 0xC0 <= b0 < 0xE0 && |bs| >= 2 && IsContinuation(bs[1]) then
      var v := (b0 - 0xC0) * 64 + (bs[1] as int - 0x80);
      if v >= 0x80 then Some((v as char, 2)) else None
    else if 0xE0 <= b0 < 0xF0 && |bs| >= 3 && IsContinuation(bs[1]) && IsContinuation(bs[2]) then
      var v := (b0 - 0xE0) * 4096 + (bs[1] as int - 0x80) * 64 + (bs[2] as int - 0x80);
      if v >= 0x800 && (v < 0xD800 || v >= 0xE000) then Some((v as char, 3)) else None
    else if 0xF0 <= b0 < 0xF8 && |bs| >= 4
            && IsContinuation(bs[1]) && IsContinuation(bs[2]) && IsContinuation(bs[3]) then
      var v := (b0 - 0xF0) * 262144 + (bs[1] as int - 0x80) * 4096 + (bs[2] as int - 0x80) * 64 + (bs[3] as int - 0x80);
      if 0x1_0000 <= v < 0x11_0000 then Some((v as char, 4)) else None
    else None
  }

  /** `new String(bs, StandardCharsets.UTF_8)` on well-formed input; `None`
      where Java would substitute U+FFFD for a malformed sequence. */
  function Decode(bs: seq<byte>): Option<string>
    decreases |bs|
  {
    if |bs| == 0 then Some("")
    else match DecodeChar(bs)
      case None => None
      case Some((c, n)) =>
        match Decode(bs[n..])
        case None => None
        case Some(rest) => Some([c] + rest)
  }

  lemma DecodeEncodeChar(c: char, rest: seq<byte>)
    ensures DecodeChar(EncodeChar(c) + rest) == Some((c, |EncodeChar(c)|))
  {
    var v := c as int;
    if v < 0x80 {
    } else if v < 0x800 {
      DecodeTwo(c, rest);
    } else if v < 0x1_0000 {
      DecodeThree(c, rest);
    } else {
      DecodeFour(c, rest);
    }
  }

  lemma DecodeTwo(c: char, rest: seq<byte>)
    requires 0x80 <= c as int < 0x800
    ensures DecodeChar(EncodeChar(c) + rest) == Some((c, 2))
  {
    var v := c as int;
    var bs := EncodeChar(c) + rest;
    var hi, lo := v / 64, v % 64;
    assert v == hi * 64 + lo;
    assert bs[0] == 0xC0 + hi && bs[1] == 0x80 + lo;
    assert (bs[0] as int - 0xC0) * 64 + (bs[1] as int - 0x80) == v;
  }

  lemma DecodeThree(c: char, rest: seq<byte>)
    requires 0x800 <= c as int < 0x1_0000
    ensures DecodeChar(EncodeChar(c) + rest) == Some((c, 3))
  {
    var v := c as int;
    var bs := EncodeChar(c) + rest;
    var q := v / 64;
    var a, b, d := v / 4096, q % 64, v % 64;
    assert v == q * 64 + d;
    assert q == a * 64 + b;
    assert v == a * 4096 + b * 64 + d;
    assert bs[0] == 0xE0 + a && bs[1] == 0x80 + b && bs[2] == 0x80 + d;
  }

  lemma DecodeFour(c: char, rest: seq<byte>)
    requires 0x1_0000 <= c as int
    ensures DecodeChar(EncodeChar(c) + rest) == Some((c, 4))
  {
    var v := c as int;
    var bs := EncodeChar(c) + rest;
    var q := v / 64;
    var q2 := v / 4096;
    var a, b, e, d := v / 262144, q2 % 64, q % 64, v % 64;
    assert v == q * 64 + d;
    assert q2 == q / 64;
    assert q == q2 * 64 + e;
    assert q2 == a * 64 + b;
    assert v == a * 262144 + b * 4096 + e * 64 + d;
    assert bs[0] == 0xF0 + a && bs[1] == 0x80 + b && bs[2] == 0x80 + e && bs[3] == 0x80 + d;
  }

  /** Decoding what was encoded gives back the string, whatever follows. */
  lemma {:induction false} DecodeEncode(s: string)
    ensures Decode(Encode(s)) == Some(s)
  {
    if |s| > 0 {
      var e := EncodeChar(s[0]);
      DecodeEncodeChar(s[0], Encode(s[1..]));
      assert (e + Encode(s[1..]))[|e|..] == Encode(s[1..]);
      DecodeEncode(s[1..]);
      assert s == [s[0]] + s[1..];
    }
  }

  /** ASCII strings encode to one byte per character. */
  predicate IsAscii(s: string)
  {
    forall i :: 0 <= i < |s| ==> s[i] as int < 0x80
  }

  lemma {:induction false} EncodeAscii(s: string)
    requires IsAscii(s)
    ensures |Encode(s)| == |s|
    ensures forall i :: 0 <= i < |s| ==> Encode(s)[i] == s[i] as int
  {
    if |s| > 0 {
      EncodeAscii(s[1..]);
    }
  }
}
