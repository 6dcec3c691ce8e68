/** Base64 as in section 4 of RFC 4648 (`base64.b64encode`): every 3 input bytes
    become 4 symbols of the standard alphabet, and a final group of 1 or 2 bytes is
    completed with `=` padding. Symbols are the ASCII codes of the alphabet's
    characters, because `b64encode` returns bytes. */
module Base64 {
  import opened Common

  /** ASCII `=`. */
  const PadByte: byte := 0x3D

  /** The symbol for a 6-bit value: `A`-`Z`, `a`-`z`, `0`-`9`, `+`, `/`. */
  function Symbol(v: int): (b: byte)
    requires 0 <= v < 64
    ensures b != PadByte && b < 0x80
  {
    if v < 26 then 0x41 + v
    else if v < 52 then 0x61 + (v - 26)
    else if v < 62 then 0x30 + (v - 52)
    else if v == 62 then 0x2B
    else 0x2F
  }

  /** The 6-bit value of an alphabet symbol, or `None` for any other byte. */
  function SymbolValue(b: byte): (r: Option<int>)
    ensures r.Some? ==> 0 <= r.value < 64 && Symbol(r.value) == b
  {
    if 0x41 <= b <= 0x5A then Some(b - 0x41)
    else if 0x61 <= b <= 0x7A then Some(b - 0x61 + 26)
    else if 0x30 <= b <= 0x39 then Some(b - 0x30 + 52)
    else if b == 0x2B then Some(62)
    else if b == 0x2F then Some(63)
    else None
  }

  predicate IsSymbol(b: byte) { SymbolValue(b).Some? }

  /** Every symbol is recognised as the value it stands for. */
  lemma SymbolValueOfSymbol(v: int)
    requires 0 <= v < 64
    ensures SymbolValue(Symbol(v)) == Some(v)
  {
  }

  /** How many `=` end the encoding of `n` bytes. */
  function PadCount(n: nat): (pads: nat) { (3 - n % 3) % 3 }

  function EncodeGroup(b0: byte, b1: byte, b2: byte): (out: seq<byte>) {
    [Symbol(b0 / 4), Symbol((b0 % 4) * 16 + b1 / 16), Symbol((b1 % 16) * 4 + b2 / 64), Symbol(b2 % 64)]
  }

  function EncodeTwo(b0: byte, b1: byte): (out: seq<byte>) {
    [Symbol(b0 / 4), Symbol((b0 % 4) * 16 + b1 / 16), Symbol((b1 % 16) * 4), PadByte]
  }

  function EncodeOne(b0: byte): (out: seq<byte>) {
    [Symbol(b0 / 4), Symbol((b0 % 4) * 16), PadByte, PadByte]
  }

  /** `base64.b64encode(data)`: 4 * ceil(n / 3) output bytes for n input bytes. */
  function Encode(data: seq<byte>): (out: seq<byte>)
    ensures |out| == 4 * ((|data| + 2) / 3)
    decreases |data|
  {
    if |data| == 0 then []
    else if |data| == 1 then EncodeOne(data[0])
    else if |data| == 2 then EncodeTwo(data[0], data[1])
    else EncodeGroup(data[0], data[1], data[2]) + Encode(data[3..])
  }

  /** Four symbols back to three bytes. */
  function DecodeGroup(c0: byte, c1: byte, c2: byte, c3: byte): (r: Option<seq<byte>>) {
    if IsSymbol(c0) && IsSymbol(c1) && IsSymbol(c2) && IsSymbol(c3) then
      var v0, v1, v2, v3 := SymbolValue(c0).value, SymbolValue(c1).value, SymbolValue(c2).value, SymbolValue(c3).value;
      Some([v0 * 4 + v1 / 16, (v1 % 16) * 16 + v2 / 4, (v2 % 4) * 64 + v3])
    else None
  }

  /** The last group: `xx==` holds one byte, `xxx=` two, `xxxx` three. Bits that
      padding leaves unused must be zero, so each byte string has one encoding. */
  function DecodeLast(c0: byte, c1: byte, c2: byte, c3: byte): (r: Option<seq<byte>>) {
    if c2 == PadByte && c3 == PadByte then
      if IsSymbol(c0) && IsSymbol(c1) then
        var v0, v1 := SymbolValue(c0).value, SymbolValue(c1).value;
        if v1 % 16 == 0 then Some([v0 * 4 + v1 / 16]) else None
      else None
    else if c3 == PadByte then
      if IsSymbol(c0) && IsSymbol(c1) && IsSymbol(c2) then
        var v0, v1, v2 := SymbolValue(c0).value, SymbolValue(c1).value, SymbolValue(c2).value;
        if v2 % 4 == 0 then Some([v0 * 4 + v1 / 16, (v1 % 16) * 16 + v2 / 4]) else None
      else None
    else DecodeGroup(c0, c1, c2, c3)
  }

  /** A strict decoder: the input must be whole 4-symbol groups, with padding only in
      the last one. */
  function Decode(s: seq<byte>): (r: Option<seq<byte>>)
    decreases |s|
  {
    if |s| == 0 then Some([])
    else if |s| < 4 then None
    else if |s| == 4 then DecodeLast(s[0], s[1], s[2], s[3])
    else match DecodeGroup(s[0], s[1], s[2], s[3])
      case None => None
      case Some(g) =>
        match Decode(s[4..])
        case None => None
        case Some(rest) => Some(g + rest)
  }

  /** Splitting three bytes into four 6-bit values and reassembling them is the identity. */
  lemma RegroupBits(b0: byte, b1: byte, b2: byte)
    ensures var v1, v2 := (b0 % 4) * 16 + b1 / 16, (b1 % 16) * 4 + b2 / 64;
      && 0 <= v1 < 64 && 0 <= v2 < 64
      && (b0 / 4) * 4 + v1 / 16 == b0
      && (v1 % 16) * 16 + v2 / 4 == b1
      && (v2 % 4) * 64 + b2 % 64 == b2
  {
    var v1, v2 := (b0 % 4) * 16 + b1 / 16, (b1 % 16) * 4 + b2 / 64;
    assert v1 / 16 == b0 % 4 && v1 % 16 == b1 / 16;
    assert v2 / 4 == b1 % 16 && v2 % 4 == b2 / 64;
  }

  /** Four symbols decode to the three bytes their 6-bit values spell. */
  lemma DecodeSymbols(v0: int, v1: int, v2: int, v3: int)
    requires 0 <= v0 < 64 && 0 <= v1 < 64 && 0 <= v2 < 64 && 0 <= v3 < 64
    ensures DecodeGroup(Symbol(v0), Symbol(v1), Symbol(v2), Symbol(v3))
      == Some([v0 * 4 + v1 / 16, (v1 % 16) * 16 + v2 / 4, (v2 % 4) * 64 + v3])
  {
    SymbolValueOfSymbol(v0);
    SymbolValueOfSymbol(v1);
    SymbolValueOfSymbol(v2);
    SymbolValueOfSymbol(v3);
  }

  /** A last group without padding is read like any other group. */
  lemma LastIsGroup(c0: byte, c1: byte, c2: byte, c3: byte)
    requires c2 != PadByte && c3 != PadByte
    ensures DecodeLast(c0, c1, c2, c3) == DecodeGroup(c0, c1, c2, c3)
  {
  }

  lemma DecodeEncodeGroup(b0: byte, b1: byte, b2: byte)
    ensures var e := EncodeGroup(b0, b1, b2);
      && DecodeGroup(e[0], e[1], e[2], e[3]) == Some([b0, b1, b2])
      && DecodeLast(e[0], e[1], e[2], e[3]) == Some([b0, b1, b2])
  {
    var v0, v1, v2, v3 := b0 / 4, (b0 % 4) * 16 + b1 / 16, (b1 % 16) * 4 + b2 / 64, b2 % 64;
    RegroupBits(b0, b1, b2);
    DecodeSymbols(v0, v1, v2, v3);
    var e := EncodeGroup(b0, b1, b2);
    assert e == [Symbol(v0), Symbol(v1), Symbol(v2), Symbol(v3)];
    LastIsGroup(e[0], e[1], e[2], e[3]);
  }

  /** Four symbols are decoded as the last group. */
  lemma DecodeFour(e: seq<byte>)
    requires |e| == 4
    ensures Decode(e) == DecodeLast(e[0], e[1], e[2], e[3])
  {
  }

  lemma DecodeEncodeOne(b0: byte)
    ensures Decode(EncodeOne(b0)) == Some([b0])
  {
    DecodeFour(EncodeOne(b0));
    var v0, v1 := b0 / 4, (b0 % 4) * 16;
    SymbolValueOfSymbol(v0);
    SymbolValueOfSymbol(v1);
    RegroupBits(b0, 0, 0);
    var e := EncodeOne(b0);
    assert e == [Symbol(v0), Symbol(v1), PadByte, PadByte];
  }

  lemma DecodeEncodeTwo(b0: byte, b1: byte)
    ensures Decode(EncodeTwo(b0, b1)) == Some([b0, b1])
  {
    DecodeFour(EncodeTwo(b0, b1));
    var v0, v1, v2 := b0 / 4, (b0 % 4) * 16 + b1 / 16, (b1 % 16) * 4;
    SymbolValueOfSymbol(v0);
    SymbolValueOfSymbol(v1);
    SymbolValueOfSymbol(v2);
    RegroupBits(b0, b1, 0);
    var e := EncodeTwo(b0, b1);
    assert e == [Symbol(v0), Symbol(v1), Symbol(v2), PadByte];
  }

  /** One whole group in front of any input the decoder accepts. */
  lemma DecodeAfterGroup(b0: byte, b1: byte, b2: byte, tail: seq<byte>, rest: seq<byte>)
    requires Decode(tail) == Some(rest)
    ensures Decode(EncodeGroup(b0, b1, b2) + tail) == Some([b0, b1, b2] + rest)
  {
    var g := EncodeGroup(b0, b1, b2);
    var e := g + tail;
    DecodeEncodeGroup(b0, b1, b2);
    assert e[0] == g[0] && e[1] == g[1] && e[2] == g[2] && e[3] == g[3];
    if |tail| == 0 {
      assert e == g;
      assert [b0, b1, b2] + rest == [b0, b1, b2];
    } else {
      assert e[4..] == tail;
    }
  }

  /** Decoding what `b64encode` produced gives back the original bytes. */
  lemma {:induction false} DecodeEncode(data: seq<byte>)
    ensures Decode(Encode(data)) == Some(data)
    decreases |data|
  {
    if |data| == 1 {
      DecodeEncodeOne(data[0]);
      assert data == [data[0]];
    } else if |data| == 2 {
      DecodeEncodeTwo(data[0], data[1]);
      assert data == [data[0], data[1]];
    } else if |data| >= 3 {
      DecodeEncode(data[3..]);
      DecodeAfterGroup(data[0], data[1], data[2], Encode(data[3..]), data[3..]);
      assert data == [data[0], data[1], data[2]] + data[3..];
    }
  }

  /** Reading four 6-bit values as three bytes and splitting them again is the identity. */
  lemma SplitBits(v0: int, v1: int, v2: int, v3: int)
    requires 0 <= v0 < 64 && 0 <= v1 < 64 && 0 <= v2 < 64 && 0 <= v3 < 64
    ensures var b0, b1, b2 := v0 * 4 + v1 / 16, (v1 % 16) * 16 + v2 / 4, (v2 % 4) * 64 + v3;
      && b0 / 4 == v0 && (b0 % 4) * 16 + b1 / 16 == v1
      && (b1 % 16) * 4 + b2 / 64 == v2 && b2 % 64 == v3
  {
    var b0, b1, b2 := v0 * 4 + v1 / 16, (v1 % 16) * 16 + v2 / 4, (v2 % 4) * 64 + v3;
    assert b0 / 4 == v0 && b0 % 4 == v1 / 16;
    assert b1 / 16 == v1 % 16 && b1 % 16 == v2 / 4;
    assert b2 / 64 == v2 % 4 && b2 % 64 == v3;
  }

  /** Three bytes spelled by four 6-bit values encode to the symbols of those values. */
  lemma EncodeOfValues(v0: int, v1: int, v2: int, v3: int)
    requires 0 <= v0 < 64 && 0 <= v1 < 64 && 0 <= v2 < 64 && 0 <= v3 < 64
    ensures EncodeGroup(v0 * 4 + v1 / 16, (v1 % 16) * 16 + v2 / 4, (v2 % 4) * 64 + v3)
      == [Symbol(v0), Symbol(v1), Symbol(v2), Symbol(v3)]
  {
    SplitBits(v0, v1, v2, v3);
  }

  lemma EncodeDecodeGroup(c0: byte, c1: byte, c2: byte, c3: byte)
    requires DecodeGroup(c0, c1, c2, c3).Some?
    ensures var d := DecodeGroup(c0, c1, c2, c3).value;
      |d| == 3 && EncodeGroup(d[0], d[1], d[2]) == [c0, c1, c2, c3]
  {
    var v0, v1, v2, v3 := SymbolValue(c0).value, SymbolValue(c1).value, SymbolValue(c2).value, SymbolValue(c3).value;
    assert c0 == Symbol(v0) && c1 == Symbol(v1) && c2 == Symbol(v2) && c3 == Symbol(v3);
    EncodeOfValues(v0, v1, v2, v3);
    assert DecodeGroup(c0, c1, c2, c3).value
      == [v0 * 4 + v1 / 16, (v1 % 16) * 16 + v2 / 4, (v2 % 4) * 64 + v3];
  }

  lemma EncodeDecodeLast(c0: byte, c1: byte, c2: byte, c3: byte)
    requires DecodeLast(c0, c1, c2, c3).Some?
    ensures Encode(DecodeLast(c0, c1, c2, c3).value) == [c0, c1, c2, c3]
  {
    if c2 == PadByte && c3 == PadByte {
      EncodeDecodeTwoPads(c0, c1);
    } else if c3 == PadByte {
      EncodeDecodeOnePad(c0, c1, c2);
    } else {
      EncodeDecodeGroup(c0, c1, c2, c3);
      var d := DecodeGroup(c0, c1, c2, c3).value;
      assert Encode(d) == EncodeGroup(d[0], d[1], d[2]) + Encode(d[3..]);
    }
  }

  /** A last group with two pads re-encodes to itself. */
  lemma EncodeDecodeTwoPads(c0: byte, c1: byte)
    requires DecodeLast(c0, c1, PadByte, PadByte).Some?
    ensures Encode(DecodeLast(c0, c1, PadByte, PadByte).value) == [c0, c1, PadByte, PadByte]
  {
    var v0, v1 := SymbolValue(c0).value, SymbolValue(c1).value;
    SplitBits(v0, v1, 0, 0);
    var b0 := v0 * 4 + v1 / 16;
    assert DecodeLast(c0, c1, PadByte, PadByte).value == [b0];
    assert (b0 % 4) * 16 == v1;
    assert Encode([b0]) == EncodeOne(b0) == [Symbol(v0), Symbol(v1), PadByte, PadByte];
  }

  /** A last group with one pad re-encodes to itself. */
  lemma EncodeDecodeOnePad(c0: byte, c1: byte, c2: byte)
    requires c2 != PadByte && DecodeLast(c0, c1, c2, PadByte).Some?
    ensures Encode(DecodeLast(c0, c1, c2, PadByte).value) == [c0, c1, c2, PadByte]
  {
    var v0, v1, v2 := SymbolValue(c0).value, SymbolValue(c1).value, SymbolValue(c2).value;
    SplitBits(v0, v1, v2, 0);
    var b0, b1 := v0 * 4 + v1 / 16, (v1 % 16) * 16 + v2 / 4;
    assert DecodeLast(c0, c1, c2, PadByte).value == [b0, b1];
    assert (b1 % 16) * 4 == v2;
    assert Encode([b0, b1]) == EncodeTwo(b0, b1) == [Symbol(v0), Symbol(v1), Symbol(v2), PadByte];
  }

  /** A longer text decodes as its first group followed by the rest. */
  lemma DecodeSplit(s: seq<byte>)
    requires |s| > 4 && Decode(s).Some?
    ensures DecodeGroup(s[0], s[1], s[2], s[3]).Some? && Decode(s[4..]).Some?
    ensures Decode(s).value == DecodeGroup(s[0], s[1], s[2], s[3]).value + Decode(s[4..]).value
  {
  }

  /** Three bytes in front of the data add one full group in front of its encoding. */
  lemma EncodeAfterGroup(g: seq<byte>, d: seq<byte>)
    requires |g| == 3
    ensures Encode(g + d) == EncodeGroup(g[0], g[1], g[2]) + Encode(d)
  {
    assert (g + d)[3..] == d;
  }

  /** Whatever the strict decoder accepts is exactly the encoding of what it returns. */
  lemma {:induction false} EncodeDecode(s: seq<byte>)
    requires Decode(s).Some?
    ensures Encode(Decode(s).value) == s
    decreases |s|
  {
    if |s| == 4 {
      EncodeDecodeLast(s[0], s[1], s[2], s[3]);
      assert s == [s[0], s[1], s[2], s[3]];
    } else if |s| > 4 {
      EncodeDecode(s[4..]);
      EncodeDecodeStep(s);
    }
  }

  /** One group in front of a text that re-encodes to itself also re-encodes to itself. */
  lemma EncodeDecodeStep(s: seq<byte>)
    requires |s| > 4 && Decode(s).Some?
    requires Encode(Decode(s[4..]).value) == s[4..]
    ensures Encode(Decode(s).value) == s
  {
    DecodeSplit(s);
    var g, t := DecodeGroup(s[0], s[1], s[2], s[3]).value, Decode(s[4..]).value;
    EncodeDecodeGroup(s[0], s[1], s[2], s[3]);
    EncodeAfterGroup(g, t);
    assert s == [s[0], s[1], s[2], s[3]] + s[4..];
  }

  /** Every byte is an alphabet symbol or `=`, and exactly the last `pads` bytes are `=`. */
  predicate WellPadded(out: seq<byte>, pads: nat) {
    && (forall i :: 0 <= i < |out| ==> (out[i] == PadByte <==> i >= |out| - pads))
    && (forall i :: 0 <= i < |out| ==> out[i] == PadByte || IsSymbol(out[i]))
  }

  lemma GroupSymbols(b0: byte, b1: byte, b2: byte)
    ensures forall i :: 0 <= i < 4 ==> EncodeGroup(b0, b1, b2)[i] != PadByte && IsSymbol(EncodeGroup(b0, b1, b2)[i])
  {
    SymbolValueOfSymbol(b0 / 4);
    SymbolValueOfSymbol((b0 % 4) * 16 + b1 / 16);
    SymbolValueOfSymbol((b1 % 16) * 4 + b2 / 64);
    SymbolValueOfSymbol(b2 % 64);
  }

  /** Unpadded symbols in front of a well-padded encoding keep it well padded. */
  lemma WellPaddedAfterSymbols(g: seq<byte>, rest: seq<byte>, pads: nat)
    requires forall i :: 0 <= i < |g| ==> g[i] != PadByte && IsSymbol(g[i])
    requires WellPadded(rest, pads) && pads <= |rest|
    ensures WellPadded(g + rest, pads)
  {
    var out := g + rest;
    forall i | 0 <= i < |out|
      ensures (out[i] == PadByte <==> i >= |out| - pads)
      ensures out[i] == PadByte || IsSymbol(out[i])
    {
      if i < |g| {
        assert out[i] == g[i];
      } else {
        assert out[i] == rest[i - |g|];
      }
    }
  }

  /** Three more bytes need as much padding as before. */
  lemma PadCountStep(n: nat)
    ensures PadCount(n + 3) == PadCount(n)
  {
    assert (n + 3) % 3 == n % 3;
  }

  /** The padding of an encoding fits in it. */
  lemma PadsFit(n: nat)
    ensures PadCount(n) <= 4 * ((n + 2) / 3)
  {
    if n > 0 {
      assert (n + 2) / 3 >= 1;
    }
  }

  /** A whole group in front of a well-padded encoding keeps it well padded. */
  lemma AlphabetStep(data: seq<byte>)
    requires |data| >= 3 && WellPadded(Encode(data[3..]), PadCount(|data[3..]|))
    ensures WellPadded(Encode(data), PadCount(|data|))
  {
    var g, rest := EncodeGroup(data[0], data[1], data[2]), Encode(data[3..]);
    PadCountStep(|data[3..]|);
    PadsFit(|data[3..]|);
    GroupSymbols(data[0], data[1], data[2]);
    WellPaddedAfterSymbols(g, rest, PadCount(|data|));
    assert Encode(data) == g + rest;
  }

  lemma SymbolsThenOnePad(v0: int, v1: int, v2: int)
    requires 0 <= v0 < 64 && 0 <= v1 < 64 && 0 <= v2 < 64
    ensures WellPadded([Symbol(v0), Symbol(v1), Symbol(v2), PadByte], 1)
  {
    SymbolValueOfSymbol(v0);
    SymbolValueOfSymbol(v1);
    SymbolValueOfSymbol(v2);
  }

  lemma SymbolsThenTwoPads(v0: int, v1: int)
    requires 0 <= v0 < 64 && 0 <= v1 < 64
    ensures WellPadded([Symbol(v0), Symbol(v1), PadByte, PadByte], 2)
  {
    SymbolValueOfSymbol(v0);
    SymbolValueOfSymbol(v1);
  }

  lemma AlphabetTwo(data: seq<byte>)
    requires |data| == 2
    ensures WellPadded(Encode(data), PadCount(|data|))
  {
    var v0, v1, v2 := data[0] / 4, (data[0] % 4) * 16 + data[1] / 16, (data[1] % 16) * 4;
    assert 0 <= v1 < 64 && 0 <= v2 < 64;
    SymbolsThenOnePad(v0, v1, v2);
    var e := EncodeTwo(data[0], data[1]);
    assert e == [Symbol(v0), Symbol(v1), Symbol(v2), PadByte];
    assert Encode(data) == e;
    assert PadCount(|data|) == 1;
  }

  lemma AlphabetOne(data: seq<byte>)
    requires |data| == 1
    ensures WellPadded(Encode(data), PadCount(|data|))
  {
    var r := data[0] % 4;
    var v0, v1 := data[0] / 4, r * 16;
    assert 0 <= r < 4;
    SymbolsThenTwoPads(v0, v1);
    var e := EncodeOne(data[0]);
    assert e == [Symbol(v0), Symbol(v1), PadByte, PadByte];
    assert Encode(data) == e;
    assert PadCount(|data|) == 2;
  }

  /** Every byte of an encoding is an alphabet symbol, except its last `PadCount(n)`
      bytes, which are `=`: at most two, and only at the end. */
  lemma {:induction false} EncodeAlphabet(data: seq<byte>)
    ensures PadCount(|data|) <= 2
    ensures WellPadded(Encode(data), PadCount(|data|))
    decreases |data|
  {
    if |data| >= 3 {
      EncodeAlphabet(data[3..]);
      AlphabetStep(data);
    } else if |data| == 2 {
      AlphabetTwo(data);
    } else if |data| == 1 {
      AlphabetOne(data);
    }
  }

  /** The encoding is ASCII text, so reading it as UTF-8 cannot fail. */
  lemma EncodeAscii(data: seq<byte>)
    ensures forall i :: 0 <= i < |Encode(data)| ==> Encode(data)[i] < 0x80
  {
    EncodeAlphabet(data);
  }
}
