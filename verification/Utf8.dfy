/** The bytes behind a Rust `str`. A Rust `char` and a Dafny `char` are both Unicode
    scalar values, so `as_bytes` is `Encode` and `String::from_utf8` is `Decode`
    (section 3 of RFC 3629: shortest form only, no surrogates, nothing above U+10FFFF). */
module Utf8 {
  import opened Wrappers

  type byte = x: int | 0 <= x < 256

  /** The six-bit group that continuation byte carries, and two groups joined. */
  function Low(u: nat): (r: byte) ensures 0x80 <= r < 0xC0 { 0x80 + u % 0x40 }

  function Join(high: nat, low: byte): nat
    requires IsContinuation(low)
  {
    high * 0x40 + (low as int - 0x80)
  }

  function EncodeChar(c: char): (r: seq<byte>)
    ensures 1 <= |r| <= 4
  {
    var u: nat := c as int;
    var v: nat := u / 0x40;
    var w: nat := v / 0x40;
    if u < 0x80 then [u]
    else if u < 0x800 then [0xC0 + v, Low(u)]
    else if u < 0x1_0000 then [0xE0 + w, Low(v), Low(u)]
    else [0xF0 + w / 0x40, Low(w), Low(v), Low(u)]
  }

  function Encode(s: string): seq<byte> {
    if s == "" then [] else EncodeChar(s[0]) + Encode(s[1..])
  }

  predicate IsContinuation(b: byte) { 0x80 <= b < 0xC0 }

  predicate IsScalar(u: int) { 0 <= u < 0xD800 || 0xE000 <= u < 0x11_0000 }

  /** The first character and its width; None for an ill-formed prefix. */
  function DecodeFirst(b: seq<byte>): (r: Option<(char, nat)>)
    requires b != []
    ensures r.Some? ==> 1 <= r.value.1 <= |b|
  {
    var lead: int := b[0];
    if lead < 0x80 then Some((lead as char, 1))
    else if 0xC2 <= lead < 0xE0 && |b| >= 2 && IsContinuation(b[1]) then
      Some((Join(lead - 0xC0, b[1]) as char, 2))
    else if 0xE0 <= lead < 0xF0 && |b| >= 3 && IsContinuation(b[1]) && IsContinuation(b[2]) then
      var u := Join(Join(lead - 0xE0, b[1]), b[2]);
      if u >= 0x800 && IsScalar(u) then Some((u as char, 3)) else None
    else if 0xF0 <= lead < 0xF8 && |b| >= 4 && IsContinuation(b[1]) && IsContinuation(b[2]) && IsContinuation(b[3]) then
      var u := Join(Join(Join(lead - 0xF0, b[1]), b[2]), b[3]);
      if u >= 0x1_0000 && IsScalar(u) then Some((u as char, 4)) else None
    else None
  }

  function Decode(b: seq<byte>): (r: Option<string>)
    decreases |b|
  {
    if b == [] then Some("")
    else
      match DecodeFirst(b)
      case None => None
      case Some((c, width)) =>
        match Decode(b[width..])
        case None => None
        case Some(rest) => Some([c] + rest)
  }

  lemma JoinLow(u: nat)
    ensures Join(u / 0x40, Low(u)) == u
  {
  }

  lemma SplitJoin(high: nat, low: byte)
    requires IsContinuation(low)
    ensures Join(high, low) / 0x40 == high && Low(Join(high, low)) == low
  {
  }

  lemma DecodeFirstOfEncoded(c: char, rest: seq<byte>)
    ensures DecodeFirst(EncodeChar(c) + rest) == Some((c, |EncodeChar(c)|))
  {
    hide Low, Join;
    var u := c as int;
    if 0x80 <= u < 0x800 {
      ReadTwo(c, rest);
    } else if 0x800 <= u < 0x1_0000 {
      ReadThree(c, rest);
    } else if 0x1_0000 <= u {
      ReadFour(c, rest);
    }
  }

  lemma ReadTwo(c: char, rest: seq<byte>)
    requires 0x80 <= c as int < 0x800
    ensures DecodeFirst(EncodeChar(c) + rest) == Some((c, 2)) && |EncodeChar(c)| == 2
  {
    var u: nat := c as int;
    JoinLow(u);
    hide Low, Join;
    var b := EncodeChar(c) + rest;
    assert b[0] == 0xC0 + u / 0x40 && b[1] == Low(u);
  }

  lemma ReadThree(c: char, rest: seq<byte>)
    requires 0x800 <= c as int < 0x1_0000
    ensures DecodeFirst(EncodeChar(c) + rest) == Some((c, 3)) && |EncodeChar(c)| == 3
  {
    var u: nat := c as int;
    var v := u / 0x40;
    JoinLow(u);
    JoinLow(v);
    hide Low, Join;
    var b := EncodeChar(c) + rest;
    assert b[0] == 0xE0 + v / 0x40 && b[1] == Low(v) && b[2] == Low(u);
  }

  lemma ReadFour(c: char, rest: seq<byte>)
    requires 0x1_0000 <= c as int
    ensures DecodeFirst(EncodeChar(c) + rest) == Some((c, 4)) && |EncodeChar(c)| == 4
  {
    var u: nat := c as int;
    var v: nat := u / 0x40;
    var w: nat := v / 0x40;
    JoinLow(u);
    JoinLow(v);
    JoinLow(w);
    hide Low, Join;
    var b := EncodeChar(c) + rest;
    assert b[0] == 0xF0 + w / 0x40 && b[1] == Low(w) && b[2] == Low(v) && b[3] == Low(u);
  }

  lemma EncodedFirstOfDecoded(b: seq<byte>)
    requires b != [] && DecodeFirst(b).Some?
    ensures EncodeChar(DecodeFirst(b).value.0) == b[..DecodeFirst(b).value.1]
  {
    var width := DecodeFirst(b).value.1;
    if width == 2 {
      EncodedTwo(b);
    } else if width == 3 {
      EncodedThree(b);
    } else if width == 4 {
      EncodedFour(b);
    }
  }

  lemma EncodedTwo(b: seq<byte>)
    requires b != [] && DecodeFirst(b).Some? && DecodeFirst(b).value.1 == 2
    ensures EncodeChar(DecodeFirst(b).value.0) == b[..2]
  {
    SplitJoin(b[0] - 0xC0, b[1]);
    hide Join, Low;
    assert b[..2] == [b[0], b[1]];
  }

  lemma EncodedThree(b: seq<byte>)
    requires b != [] && DecodeFirst(b).Some? && DecodeFirst(b).value.1 == 3
    ensures EncodeChar(DecodeFirst(b).value.0) == b[..3]
  {
    SplitJoin(b[0] - 0xE0, b[1]);
    SplitJoin(Join(b[0] - 0xE0, b[1]), b[2]);
    hide Join, Low;
    assert b[..3] == [b[0], b[1], b[2]];
  }

  lemma EncodedFour(b: seq<byte>)
    requires b != [] && DecodeFirst(b).Some? && DecodeFirst(b).value.1 == 4
    ensures EncodeChar(DecodeFirst(b).value.0) == b[..4]
  {
    SplitJoin(b[0] - 0xF0, b[1]);
    SplitJoin(Join(b[0] - 0xF0, b[1]), b[2]);
    SplitJoin(Join(Join(b[0] - 0xF0, b[1]), b[2]), b[3]);
    hide Join, Low;
    assert b[..4] == [b[0], b[1], b[2], b[3]];
  }

  /** Decoding undoes encoding. */
  lemma {:induction false} DecodeEncode(s: string)
    ensures Decode(Encode(s)) == Some(s)
  {
    if s != "" {
      var head, rest := EncodeChar(s[0]), Encode(s[1..]);
      DecodeFirstOfEncoded(s[0], rest);
      assert (head + rest)[|head|..] == rest;
      DecodeEncode(s[1..]);
      assert Encode(s) == head + rest;
      assert s == [s[0]] + s[1..];
    }
  }

  lemma EncodeSplit(c: char, rest: string, b: seq<byte>, width: nat)
    requires width <= |b| && EncodeChar(c) == b[..width] && Encode(rest) == b[width..]
    ensures Encode([c] + rest) == b
  {
    assert ([c] + rest)[1..] == rest;
    assert b == b[..width] + b[width..];
  }

  lemma DecodeStep(b: seq<byte>)
    requires b != [] && Decode(b).Some?
    ensures DecodeFirst(b).Some? && Decode(b[DecodeFirst(b).value.1..]).Some?
    ensures Decode(b).value == [DecodeFirst(b).value.0] + Decode(b[DecodeFirst(b).value.1..]).value
  {
  }

  /** Decoding accepts nothing but encodings. */
  lemma {:induction false} EncodeDecode(b: seq<byte>)
    requires Decode(b).Some?
    ensures Encode(Decode(b).value) == b
    decreases |b|
  {
    if b != [] {
      DecodeStep(b);
      EncodedFirstOfDecoded(b);
      var width := DecodeFirst(b).value.1;
      EncodeDecode(b[width..]);
      EncodeSplit(DecodeFirst(b).value.0, Decode(b[width..]).value, b, width);
    }
  }

  lemma EncodeInjective(s: string, t: string)
    requires Encode(s) == Encode(t)
    ensures s == t
  {
    DecodeEncode(s);
    DecodeEncode(t);
  }

  /** A byte below 0x80 occurs in an encoding exactly as the character it stands for. */
  lemma {:induction false} AsciiBytes(s: string, b: byte)
    requires b < 0x80
    ensures b in Encode(s) <==> b as char in s
  {
    if s != "" {
      AsciiBytes(s[1..], b);
      assert s == [s[0]] + s[1..];
      assert b in EncodeChar(s[0]) <==> b as char == s[0];
    }
  }

  lemma {:induction false} EncodeConcat(s: string, t: string)
    ensures Encode(s + t) == Encode(s) + Encode(t)
  {
    if s == "" {
      assert s + t == t;
    } else {
      assert (s + t)[1..] == s[1..] + t;
      EncodeConcat(s[1..], t);
    }
  }
}
