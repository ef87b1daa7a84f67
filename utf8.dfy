/** UTF-8, as Rust's `str::from_utf8` validates it and `String` stores it.
    Used for the byte buffers the finder hands back and for the byte length
    that `parse_file` compares against its threshold. */
module Utf8 {
  import opened Strings

  newtype byte = x: int | 0 <= x < 256

  predicate IsCont(b: byte) {
    0x80 <= b <= 0xBF
  }

  /** The bytes of one scalar value. */
  function EncodeChar(c: char): (r: seq<byte>)
    ensures 1 <= |r| <= 4
  {
    var v := c as int;
    if v < 0x80 then [v as byte]
    else if v < 0x800 then [(0xC0 + v / 64) as byte, (0x80 + v % 64) as byte]
    else if v < 0x10000 then
      [(0xE0 + v / 4096) as byte, (0x80 + (v / 64) % 64) as byte, (0x80 + v % 64) as byte]
    else
      [(0xF0 + v / 262144) as byte, (0x80 + (v / 4096) % 64) as byte,
       (0x80 + (v / 64) % 64) as byte, (0x80 + v % 64) as byte]
  }

  function Encode(s: string): (r: seq<byte>)
    ensures |s| <= |r| <= 4 * |s|
  {
    if s == [] then [] else EncodeChar(s[0]) + Encode(s[1..])
  }

  /** The first scalar value of `bs` and its byte length, or None when `bs`
      does not start with a well-formed sequence (Rust's validation table:
      no overlong forms, no surrogates, nothing above U+10FFFF). */
  function DecodeChar(bs: seq<byte>): (r: Option<(char, nat)>)
    ensures r.Some? ==> 1 <= r.value.1 <= |bs|
  {
    if bs == [] then None
    else
      var b0 := bs[0] as int;
      if b0 < 0x80 then Some((b0 as char, 1))
      else if 0xC2 <= b0 <= 0xDF then
        if |bs| >= 2 && IsCont(bs[1]) then
          Some((((b0 - 0xC0) * 64 + (bs[1] as int - 0x80)) as char, 2))
        else None
      else if 0xE0 <= b0 <= 0xEF then
        if |bs| >= 3 && IsCont(bs[1]) && IsCont(bs[2]) then
          var b1 := bs[1] as int;
          var okSecond :=
            if b0 == 0xE0 then 0xA0 <= b1
            else if b0 == 0xED then b1 <= 0x9F
            else true;
          if okSecond then
            Some((((b0 - 0xE0) * 4096 + (b1 - 0x80) * 64 + (bs[2] as int - 0x80)) as char, 3))
          else None
        else None
      else if 0xF0 <= b0 <= 0xF4 then
        if |bs| >= 4 && IsCont(bs[1]) && IsCont(bs[2]) && IsCont(bs[3]) then
          var b1 := bs[1] as int;
          var okSecond :=
            if b0 == 0xF0 then 0x90 <= b1
            else if b0 == 0xF4 then b1 <= 0x8F
            else true;
          if okSecond then
            Some((((b0 - 0xF0) * 262144 + (b1 - 0x80) * 4096 + (bs[2] as int - 0x80) * 64
                   + (bs[3] as int - 0x80)) as char, 4))
          else None
        else None
      else None
  }

  /** `str::from_utf8` */
  function Decode(bs: seq<byte>): Option<string>
    decreases |bs|
  {
    if bs == [] then Some([])
    else match DecodeChar(bs)
      case None => None
      case Some((c, n)) =>
        match Decode(bs[n..])
        case None => None
        case Some(rest) => Some([c] + rest)
  }

  lemma DecodeEncodeChar(c: char, rest: seq<byte>)
    ensures DecodeChar(EncodeChar(c) + rest) == Some((c, |EncodeChar(c)|))
  {
    var v := c as int;
    if v < 0x80 {
    } else if v < 0x800 {
      DecodeTwo(c, rest);
    } else if v < 0x10000 {
      DecodeThree(c, rest);
    } else {
      DecodeFour(c, rest);
    }
  }

  lemma DecodeTwo(c: char, rest: seq<byte>)
    requires 0x80 <= c as int < 0x800
    ensures DecodeChar(EncodeChar(c) + rest) == Some((c, 2))
  {
    var v := c as int;
    var hi, lo := v / 64, v % 64;
    assert v == hi * 64 + lo;
    var bs := EncodeChar(c) + rest;
    assert bs[0] as int == 0xC0 + hi && bs[1] as int == 0x80 + lo;
    assert 2 <= hi < 32;
  }

  lemma DecodeThree(c: char, rest: seq<byte>)
    requires 0x800 <= c as int < 0x10000
    ensures DecodeChar(EncodeChar(c) + rest) == Some((c, 3))
  {
    var v := c as int;
    var b0, b1, b2 := v / 4096, (v / 64) % 64, v % 64;
    assert v == b0 * 4096 + b1 * 64 + b2;
    var bs := EncodeChar(c) + rest;
    assert bs[0] as int == 0xE0 + b0 && bs[1] as int == 0x80 + b1 && bs[2] as int == 0x80 + b2;
    assert b0 == 0 ==> b1 >= 32;
    assert b0 == 13 ==> b1 < 32;
  }

  /** The four 6-bit groups of a supplementary-plane scalar value. */
  lemma SplitFour(v: int)
    requires 0x10000 <= v < 0x110000
    ensures var b0, b1, b2, b3 := v / 262144, (v / 4096) % 64, (v / 64) % 64, v % 64;
      v == b0 * 262144 + b1 * 4096 + b2 * 64 + b3 &&
      1 <= b0 * 64 + b1 && b0 * 64 + b1 < 272 && 0 <= b1 < 64
  {
    var q1 := v / 64;
    var q2 := q1 / 64;
    assert v == q1 * 64 + v % 64;
    assert q1 == q2 * 64 + q1 % 64;
    assert q2 == v / 4096;
    assert q2 == (v / 262144) * 64 + (v / 4096) % 64;
    assert 16 <= q2 < 272;
  }

  lemma DecodeFour(c: char, rest: seq<byte>)
    requires 0x10000 <= c as int
    ensures DecodeChar(EncodeChar(c) + rest) == Some((c, 4))
  {
    var v := c as int;
    var b0, b1, b2, b3 := v / 262144, (v / 4096) % 64, (v / 64) % 64, v % 64;
    SplitFour(v);
    var bs := EncodeChar(c) + rest;
    assert bs[0] as int == 0xF0 + b0 && bs[1] as int == 0x80 + b1;
    assert bs[2] as int == 0x80 + b2 && bs[3] as int == 0x80 + b3;
    assert b0 <= 4;
    assert b0 == 0 ==> b1 >= 16;
    assert b0 == 4 ==> b1 < 16;
  }

  /** Every string survives a trip through its UTF-8 bytes. */
  lemma {:induction false} DecodeEncode(s: string)
    ensures Decode(Encode(s)) == Some(s)
  {
    if s != [] {
      var e := EncodeChar(s[0]);
      DecodeEncodeChar(s[0], Encode(s[1..]));
      assert (e + Encode(s[1..]))[|e|..] == Encode(s[1..]);
      DecodeEncode(s[1..]);
      assert [s[0]] + s[1..] == s;
    }
  }

  /** Encoding distributes over concatenation. */
  lemma {:induction false} EncodeAppend(a: string, b: string)
    ensures Encode(a + b) == Encode(a) + Encode(b)
  {
    if a == [] {
      assert a + b == b;
    } else {
      assert (a + b)[0] == a[0];
      assert (a + b)[1..] == a[1..] + b;
      EncodeAppend(a[1..], b);
    }
  }
}
