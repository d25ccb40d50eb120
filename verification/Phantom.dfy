/** src/phantom.rs: minting a phantom from entropy and comparing a presented value to it. */
module Phantom {
  import opened Utf8

  const ENTROPY_BYTES := 32
  const PREFIX := "iwaya-phantom-"

  function HexDigit(n: nat): (c: char)
    requires n < 16
    ensures c in "0123456789abcdef"
  {
    "0123456789abcdef"[n]
  }

  /** `{byte:02x}` */
  function HexByte(b: byte): (s: string)
    ensures |s| == 2
  {
    [HexDigit(b / 16), HexDigit(b % 16)]
  }

  function Hex(bytes: seq<byte>): (s: string)
    ensures |s| == 2 * |bytes|
    ensures forall c | c in s :: c in "0123456789abcdef"
  {
    if bytes == [] then "" else Hex(bytes[..|bytes| - 1]) + HexByte(bytes[|bytes| - 1])
  }

  /** The phantom minted from one draw of entropy. */
  function Minted(entropy: seq<byte>): string { PREFIX + Hex(entropy) }

  /** The entropy draw is an input; a failed draw never reaches the loop. */
  method Generate(entropy: seq<byte>) returns (value: string)
    requires |entropy| == ENTROPY_BYTES
    ensures value == Minted(entropy)
  {
    value := PREFIX;
    for i := 0 to |entropy|
      invariant value == Minted(entropy[..i])
    {
      assert entropy[..i + 1][..i] == entropy[..i];
      value := value + HexByte(entropy[i]);
    }
    assert entropy[..|entropy|] == entropy;
  }

  lemma HexByteInjective(a: byte, b: byte)
    requires HexByte(a) == HexByte(b)
    ensures a == b
  {
    assert HexByte(a)[0] == HexByte(b)[0] && HexByte(a)[1] == HexByte(b)[1];
    HexDigitInjective(a / 16, b / 16);
    HexDigitInjective(a % 16, b % 16);
  }

  lemma HexDigitInjective(m: nat, n: nat)
    requires m < 16 && n < 16 && HexDigit(m) == HexDigit(n)
    ensures m == n
  {
  }

  lemma SameSuffix(a: string, b: string, c: string, d: string)
    requires a + b == c + d && |b| == |d|
    ensures a == c && b == d
  {
    assert a == (a + b)[..|a|] && c == (c + d)[..|c|];
    assert b == (a + b)[|a|..] && d == (c + d)[|c|..];
  }

  lemma HexLast(bytes: seq<byte>)
    requires bytes != []
    ensures Hex(bytes) == Hex(bytes[..|bytes| - 1]) + HexByte(bytes[|bytes| - 1])
  {
  }

  lemma {:induction false} HexInjective(a: seq<byte>, b: seq<byte>)
    requires Hex(a) == Hex(b)
    ensures a == b
  {
    hide Hex, HexByte;
    if a != [] {
      var p, q := a[..|a| - 1], b[..|b| - 1];
      var x, y := a[|a| - 1], b[|b| - 1];
      HexLast(a);
      HexLast(b);
      SameSuffix(Hex(p), HexByte(x), Hex(q), HexByte(y));
      HexInjective(p, q);
      HexByteInjective(x, y);
      assert a == p + [x] && b == q + [y];
    }
  }

  /** Distinct entropy yields distinct phantoms, of one fixed and public length. */
  lemma MintedDistinct(a: seq<byte>, b: seq<byte>)
    requires |a| == |b| == ENTROPY_BYTES
    ensures |Minted(a)| == |Minted(b)| == |PREFIX| + 64
    ensures Minted(a) == Minted(b) <==> a == b
  {
    if Minted(a) == Minted(b) {
      assert Minted(a)[|PREFIX|..] == Hex(a) && Minted(b)[|PREFIX|..] == Hex(b);
      HexInjective(a, b);
    }
  }

  /** The small hexadecimal digit of a value: 0 to 9 from code point 48 on, a to f from 97 on. */
  predicate DigitOf(c: char, v: int) { c as int == if v < 10 then 48 + v else 87 + v }

  lemma DigitIs(n: nat)
    requires n < 16
    ensures DigitOf(HexDigit(n), n)
  {
  }

  lemma ByteDigits(b: byte)
    ensures DigitOf(HexByte(b)[0], b / 16) && DigitOf(HexByte(b)[1], b % 16)
  {
    DigitIs(b / 16);
    DigitIs(b % 16);
    hide HexDigit, DigitOf;
  }

  /** The digits of b stand at position k. */
  predicate PairAt(s: string, k: nat, b: byte) {
    k + 1 < |s| && DigitOf(s[k], b / 16) && DigitOf(s[k + 1], b % 16)
  }

  lemma PairKept(front: string, last: string, k: nat, b: byte)
    requires PairAt(front, k, b)
    ensures PairAt(front + last, k, b)
  {
    hide DigitOf;
  }

  lemma PairLast(front: string, b: byte)
    ensures PairAt(front + HexByte(b), |front|, b)
  {
    ByteDigits(b);
    hide DigitOf, HexByte;
  }

  lemma {:induction false} HexAt(bytes: seq<byte>, i: nat)
    requires i < |bytes|
    ensures PairAt(Hex(bytes), 2 * i, bytes[i])
  {
    var n := |bytes| - 1;
    HexLast(bytes);
    hide Hex, HexByte, PairAt;
    if i < n {
      HexAt(bytes[..n], i);
      PairKept(Hex(bytes[..n]), HexByte(bytes[n]), 2 * i, bytes[i]);
    } else {
      PairLast(Hex(bytes[..n]), bytes[n]);
    }
  }

  /** A phantom is the fixed 14 characters and then, byte by byte, the 64 digits of the 32 bytes drawn. */
  lemma MintedShape(entropy: seq<byte>, i: nat)
    requires |entropy| == ENTROPY_BYTES && i < |entropy|
    ensures |entropy| == 32 && |Minted(entropy)| == 78 && Minted(entropy)[..14] == "iwaya-phantom-"
    ensures PairAt(Minted(entropy), 14 + 2 * i, entropy[i])
  {
    HexAt(entropy, i);
    hide Hex;
    assert |PREFIX| == 14;
  }

  // ----- The comparison works on machine bytes: XOR per position, folded with OR. -----

  /** Bit k of n, counting from the least significant. */
  predicate BitOf(n: nat, k: nat) {
    if k == 0 then n % 2 == 1 else BitOf(n / 2, k - 1)
  }

  function Mask(on: bool, mask: bv8): bv8 { if on then mask else 0 }

  function Pack(b: seq<bool>): (r: bv8)
    requires |b| == 8
    ensures b[0] == (r & 1 != 0) && b[1] == (r & 2 != 0) && b[2] == (r & 4 != 0) && b[3] == (r & 8 != 0)
    ensures b[4] == (r & 16 != 0) && b[5] == (r & 32 != 0) && b[6] == (r & 64 != 0) && b[7] == (r & 128 != 0)
  {
    Mask(b[0], 1) | Mask(b[1], 2) | Mask(b[2], 4) | Mask(b[3], 8)
    | Mask(b[4], 16) | Mask(b[5], 32) | Mask(b[6], 64) | Mask(b[7], 128)
  }

  function BitList(b: byte): seq<bool> { seq(8, k requires 0 <= k => BitOf(b, k)) }

  /** The machine byte with the same binary digits as b. */
  function Octet(b: byte): bv8 { Pack(BitList(b)) }

  function Pow2(k: nat): nat { if k == 0 then 1 else 2 * Pow2(k - 1) }

  lemma {:induction false} SameBits(a: nat, b: nat, width: nat)
    requires a < Pow2(width) && b < Pow2(width)
    requires forall k: nat | k < width :: BitOf(a, k) == BitOf(b, k)
    ensures a == b
  {
    if width > 0 {
      assert BitOf(a, 0) == BitOf(b, 0);
      forall k: nat | k < width - 1 ensures BitOf(a / 2, k) == BitOf(b / 2, k) {
        assert BitOf(a, k + 1) == BitOf(b, k + 1);
      }
      SameBits(a / 2, b / 2, width - 1);
    }
  }

  lemma OctetInjective(a: byte, b: byte)
    requires Octet(a) == Octet(b)
    ensures a == b
  {
    var p, q := BitList(a), BitList(b);
    assert p[0] == q[0] && p[1] == q[1] && p[2] == q[2] && p[3] == q[3];
    assert p[4] == q[4] && p[5] == q[5] && p[6] == q[6] && p[7] == q[7];
    forall k: nat | k < 8 ensures BitOf(a, k) == BitOf(b, k) {
      assert p[k] == q[k];
    }
    assert Pow2(8) == 256;
    SameBits(a, b, 8);
  }

  lemma XorIsZero(x: bv8, y: bv8)
    ensures x ^ y == 0 <==> x == y
  {
  }

  lemma OrIsZero(x: bv8, y: bv8)
    ensures x | y == 0 <==> x == 0 && y == 0
  {
  }

  /** The accumulator of the comparison after every byte pair has been examined. */
  function OrOfXor(acc: bv8, ours: seq<byte>, theirs: seq<byte>): (r: bv8)
    requires |ours| == |theirs|
    ensures r == 0 <==> acc == 0 && ours == theirs
    decreases |ours|
  {
    if ours == [] then acc
    else
      var x, y := Octet(ours[0]), Octet(theirs[0]);
      XorIsZero(x, y);
      OrIsZero(acc, x ^ y);
      assert x == y ==> ours[0] == theirs[0] by { if x == y { OctetInjective(ours[0], theirs[0]); } }
      assert ours == [ours[0]] + ours[1..] && theirs == [theirs[0]] + theirs[1..];
      OrOfXor(acc | (x ^ y), ours[1..], theirs[1..])
  }

  /** The length guard and the byte fold together decide string equality. */
  predicate MatchesPresented(phantom: string, presented: string)
    ensures MatchesPresented(phantom, presented) <==> phantom == presented
  {
    var ours, theirs := Encode(phantom), Encode(presented);
    assert ours == theirs ==> phantom == presented by {
      if ours == theirs { EncodeInjective(phantom, presented); }
    }
    if |ours| != |theirs| then false else OrOfXor(0, ours, theirs) == 0
  }
}
