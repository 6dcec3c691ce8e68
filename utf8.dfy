/** UTF-8 (RFC 3629): `str.encode('UTF-8')` and the strict `bytes.decode('UTF-8')`,
    which rejects overlong forms, surrogates and code points above U+10FFFF. */
module Utf8 {
  import opened Common

  predicate IsContinuation(b: byte) { 0x80 <= b < 0xC0 }

  /** The one to four bytes of a code point. */
  function EncodeChar(c: char): (bs: seq<byte>)
    ensures 1 <= |bs| <= 4
    ensures (|bs| == 1) == (c as int < 0x80)
    ensures forall i :: 1 <= i < |bs| ==> IsContinuation(bs[i])
  {
    var cp := c as int;
    if cp < 0x80 then [cp]
    else if cp < 0x800 then [0xC0 + cp / 64, 0x80 + cp % 64]
    else if cp < 0x10000 then
      var q := cp / 64;
      [0xE0 + q / 64, 0x80 + q % 64, 0x80 + cp % 64]
    else
      var q := cp / 64;
      var r := q / 64;
      [0xF0 + r / 64, 0x80 + r % 64, 0x80 + q % 64, 0x80 + cp % 64]
  }

  function Encode(s: string): (bs: seq<byte>)
    ensures |bs| >= |s|
    ensures (forall i :: 0 <= i < |s| ==> s[i] as int < 0x80) ==> |bs| == |s|
    decreases |s|
  {
    if |s| == 0 then [] else EncodeChar(s[0]) + Encode(s[1..])
  }

  /** The code point at the head of `bs` and the number of bytes it takes,
      or `None` when the head is not a well-formed UTF-8 sequence. */
  function DecodeChar(bs: seq<byte>): (r: Option<(char, nat)>)
    requires |bs| > 0
    ensures r.Some? ==> 1 <= r.value.1 <= |bs|
  {
    var b0 := bs[0] as int;
    if b0 < 0x80 then Some((b0 as char, 1))
    else if 0xC2 <= b0 < 0xE0 then
      if |bs| < 2 || !IsContinuation(bs[1]) then None
      else Some((((b0 - 0xC0) * 64 + (bs[1] as int - 0x80)) as char, 2))
    else if 0xE0 <= b0 < 0xF0 then
      if |bs| < 3 || !IsContinuation(bs[1]) || !IsContinuation(bs[2]) then None
      else
        var cp := ((b0 - 0xE0) * 64 + (bs[1] as int - 0x80)) * 64 + (bs[2] as int - 0x80);
        if cp < 0x800 || 0xD800 <= cp < 0xE000 then None
        else Some((cp as char, 3))
    else if 0xF0 <= b0 < 0xF5 then
      if |bs| < 4 || !IsContinuation(bs[1]) || !IsContinuation(bs[2]) || !IsContinuation(bs[3]) then None
      else
        var cp := (((b0 - 0xF0) * 64 + (bs[1] as int - 0x80)) * 64 + (bs[2] as int - 0x80)) * 64 + (bs[3] as int - 0x80);
        if cp < 0x10000 || cp > 0x10FFFF then None
        else Some((cp as char, 4))
    else None
  }

  function Decode(bs: seq<byte>): (r: Option<string>)
    ensures r.Some? ==> |r.value| <= |bs|
    decreases |bs|
  {
    if |bs| == 0 then Some([])
    else match DecodeChar(bs)
      case None => None
      case Some((c, k)) =>
        match Decode(bs[k..])
        case None => None
        case Some(rest) => Some([c] + rest)
  }

  /** Each character's encoding is read back as that character, whatever follows. */
  lemma DecodeEncodeChar(c: char, rest: seq<byte>)
    ensures DecodeChar(EncodeChar(c) + rest) == Some((c, |EncodeChar(c)|))
  {
    var cp := c as int;
    var bs := EncodeChar(c) + rest;
    if cp >= 0x10000 {
      var q := cp / 64;
      var r := q / 64;
      assert bs[0] == 0xF0 + r / 64 && bs[1] == 0x80 + r % 64;
      assert bs[2] == 0x80 + q % 64 && bs[3] == 0x80 + cp % 64;
      assert r == (r / 64) * 64 + r % 64;
      assert q == r * 64 + q % 64;
      assert cp == q * 64 + cp % 64;
    } else if cp >= 0x800 {
      var q := cp / 64;
      assert bs[0] == 0xE0 + q / 64 && bs[1] == 0x80 + q % 64 && bs[2] == 0x80 + cp % 64;
      assert q == (q / 64) * 64 + q % 64;
      assert cp == q * 64 + cp % 64;
    }
  }

  /** Decoding the UTF-8 encoding of a string gives the string back. */
  lemma {:induction false} DecodeEncode(s: string)
    ensures Decode(Encode(s)) == Some(s)
    decreases |s|
  {
    if |s| > 0 {
      var bs := Encode(s);
      DecodeEncodeChar(s[0], Encode(s[1..]));
      assert bs[|EncodeChar(s[0])|..] == Encode(s[1..]);
      DecodeEncode(s[1..]);
      assert [s[0]] + s[1..] == s;
    }
  }

  /** Encoding a string with a first character is that character's bytes, then the rest. */
  lemma EncodeCons(c: char, t: string)
    ensures Encode([c] + t) == EncodeChar(c) + Encode(t)
  {
    assert ([c] + t)[1..] == t;
  }

  /** An accepted byte sequence is a well-formed head sequence followed by an accepted rest. */
  lemma DecodeCons(bs: seq<byte>)
    requires |bs| > 0 && Decode(bs).Some?
    ensures DecodeChar(bs).Some?
    ensures Decode(bs[DecodeChar(bs).value.1..]).Some?
    ensures Decode(bs).value == [DecodeChar(bs).value.0] + Decode(bs[DecodeChar(bs).value.1..]).value
  {
  }

  /** A character's bytes followed by the encoding of a string make up `bs` when
      they match its two pieces. */
  lemma EncodeConsSplit(bs: seq<byte>, c: char, k: nat, t: string)
    requires k <= |bs| && EncodeChar(c) == bs[..k] && Encode(t) == bs[k..]
    ensures Encode([c] + t) == bs
  {
    EncodeCons(c, t);
    assert bs == bs[..k] + bs[k..];
  }

  /** A byte sequence the decoder accepts is the encoding of what it decodes to. */
  lemma {:induction false} EncodeDecode(bs: seq<byte>)
    requires Decode(bs).Some?
    ensures Encode(Decode(bs).value) == bs
    decreases |bs|
  {
    if |bs| > 0 {
      DecodeCons(bs);
      var c, k := DecodeChar(bs).value.0, DecodeChar(bs).value.1;
      EncodeDecodeChar(bs);
      EncodeDecode(bs[k..]);
      EncodeConsSplit(bs, c, k, Decode(bs[k..]).value);
    }
  }

  /** A well-formed head sequence is the encoding of the code point it decodes to. */
  lemma EncodeDecodeChar(bs: seq<byte>)
    requires |bs| > 0 && DecodeChar(bs).Some?
    ensures EncodeChar(DecodeChar(bs).value.0) == bs[..DecodeChar(bs).value.1]
  {
    var c := DecodeChar(bs).value.0;
    var cp := c as int;
    if bs[0] >= 0xF0 {
      var d1, d2, d3 := bs[1] as int - 0x80, bs[2] as int - 0x80, bs[3] as int - 0x80;
      var r := (bs[0] as int - 0xF0) * 64 + d1;
      var q := r * 64 + d2;
      assert cp == q * 64 + d3;
      assert cp / 64 == q && cp % 64 == d3;
      assert q / 64 == r && q % 64 == d2;
      assert r / 64 == bs[0] as int - 0xF0 && r % 64 == d1;
    } else if bs[0] >= 0xE0 {
      var d1, d2 := bs[1] as int - 0x80, bs[2] as int - 0x80;
      var q := (bs[0] as int - 0xE0) * 64 + d1;
      assert cp == q * 64 + d2;
      assert cp / 64 == q && cp % 64 == d2;
      assert q / 64 == bs[0] as int - 0xE0 && q % 64 == d1;
    } else if bs[0] >= 0x80 {
      var d1 := bs[1] as int - 0x80;
      assert cp == (bs[0] as int - 0xC0) * 64 + d1;
      assert cp / 64 == bs[0] as int - 0xC0 && cp % 64 == d1;
    }
  }

  /** Bytes below 0x80 are ASCII: they always decode, one character per byte. */
  lemma {:induction false} DecodeAscii(bs: seq<byte>)
    requires forall i :: 0 <= i < |bs| ==> bs[i] < 0x80
    ensures Decode(bs).Some? && |Decode(bs).value| == |bs|
    ensures forall i :: 0 <= i < |bs| ==> Decode(bs).value[i] as int == bs[i]
    decreases |bs|
  {
    if |bs| > 0 {
      DecodeAscii(bs[1..]);
      var s := Decode(bs).value;
      assert s == [bs[0] as char] + Decode(bs[1..]).value;
      forall i | 1 <= i < |bs| ensures s[i] as int == bs[i] {
        assert s[i] == Decode(bs[1..]).value[i - 1];
      }
    }
  }
}
