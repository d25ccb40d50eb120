/** The texts of JSON values by the grammar of RFC 8259, as trees of their spelling, and that the reader of `JsonValue`
    accepts exactly these. */
module JsonText {
  import opened Wrappers
  import opened Json
  import opened JsonValue

  // ----- Strings, section 7 -----

  /** One character of a string body as it is written: itself, a two-character escape, or a code unit. */
  datatype Piece = Plain(c: char) | Short(e: char) | Unit(digits: string)

  /** The code point a two-character escape stands for. */
  function ShortFor(e: char): Option<int> {
    var u := e as int;
    if u == 34 || u == 92 || u == 47 then Some(u)
    else if u == 98 then Some(8)
    else if u == 102 then Some(12)
    else if u == 110 then Some(10)
    else if u == 114 then Some(13)
    else if u == 116 then Some(9)
    else None
  }

  predicate IsHexCode(u: int) { 48 <= u <= 57 || 65 <= u <= 70 || 97 <= u <= 102 }

  function HexCode(u: int): (v: nat)
    requires IsHexCode(u)
    ensures v < 16
  {
    if u <= 57 then u - 48 else if u <= 70 then u - 55 else u - 87
  }

  predicate PieceOk(p: Piece) {
    match p
    case Plain(c) => c as int >= 32 && c as int != 34 && c as int != 92
    case Short(e) => ShortFor(e).Some?
    case Unit(d) => |d| == 4 && forall i | 0 <= i < 4 :: IsHexCode(d[i] as int)
  }

  ghost predicate PiecesOk(ps: seq<Piece>) { forall i | 0 <= i < |ps| :: PieceOk(ps[i]) }

  function UnitValue(d: string): (v: nat)
    requires PieceOk(Unit(d))
    ensures v < 0x1_0000
  {
    4096 * HexCode(d[0] as int) + 256 * HexCode(d[1] as int) + 16 * HexCode(d[2] as int) + HexCode(d[3] as int)
  }

  function SpellPiece(p: Piece): string {
    match p
    case Plain(c) => [c]
    case Short(e) => ['\\', e]
    case Unit(d) => ['\\', 'u'] + d
  }

  function SpellPieces(ps: seq<Piece>): string {
    if ps == [] then "" else SpellPiece(ps[0]) + SpellPieces(ps[1..])
  }

  function Quoted(ps: seq<Piece>, rest: string): string { "\"" + (SpellPieces(ps) + ("\"" + rest)) }

  predicate HighUnit(p: Piece) { p.Unit? && PieceOk(p) && 0xD800 <= UnitValue(p.digits) < 0xDC00 }

  predicate LowUnit(p: Piece) { p.Unit? && PieceOk(p) && 0xDC00 <= UnitValue(p.digits) < 0xE000 }

  /** The character the pieces start with, and how many of them it takes; a surrogate unit counts only in a pair. */
  function FirstCharacter(ps: seq<Piece>): (r: Option<(char, nat)>)
    requires ps != [] && PieceOk(ps[0])
    ensures r.Some? ==> 1 <= r.value.1 <= |ps|
  {
    match ps[0]
    case Plain(c) => Some((c, 1))
    case Short(e) => Some((ShortFor(e).value as char, 1))
    case Unit(d) =>
      if LowUnit(ps[0]) then None
      else if !HighUnit(ps[0]) then Some((UnitValue(d) as char, 1))
      else if |ps| > 1 && LowUnit(ps[1]) then
        Some(((0x1_0000 + 1024 * (UnitValue(d) - 0xD800) + (UnitValue(ps[1].digits) - 0xDC00)) as char, 2))
      else None
  }

  /** The text of the pieces, if their surrogates pair up. */
  function Characters(ps: seq<Piece>): Option<string>
    requires PiecesOk(ps)
    decreases |ps|
  {
    if ps == [] then Some("")
    else
      match FirstCharacter(ps)
      case None => None
      case Some((c, n)) =>
        match Characters(ps[n..])
        case None => None
        case Some(more) => Some([c] + more)
  }

  lemma HexAgrees(c: char)
    ensures HexValue(c).Some? <==> IsHexCode(c as int)
    ensures IsHexCode(c as int) ==> HexValue(c) == Some(HexCode(c as int))
  {
  }

  lemma UnescapeAgrees(e: char)
    ensures Unescape(e).Some? <==> ShortFor(e).Some?
    ensures ShortFor(e).Some? ==> Unescape(e).value as int == ShortFor(e).value && e != 'u'
  {
  }

  lemma Hex4Reads(d: string, rest: string)
    requires PieceOk(Unit(d))
    ensures Hex4(d + rest) == Some(UnitValue(d))
  {
    var s := d + rest;
    HexAgrees(d[0]);
    HexAgrees(d[1]);
    HexAgrees(d[2]);
    HexAgrees(d[3]);
    assert s[0] == d[0] && s[1] == d[1] && s[2] == d[2] && s[3] == d[3];
    hide HexValue, HexCode, IsHexCode;
  }

  lemma Hex4Spelled(s: string)
    requires Hex4(s).Some?
    ensures |s| >= 4 && PieceOk(Unit(s[..4]))
  {
    HexAgrees(s[0]);
    HexAgrees(s[1]);
    HexAgrees(s[2]);
    HexAgrees(s[3]);
    hide HexValue, IsHexCode;
  }

  lemma SkipPiece(p: Piece, tail: string)
    requires PieceOk(p)
    ensures SkipBody(SpellPiece(p) + tail) == SkipBody(tail)
  {
    var s := SpellPiece(p) + tail;
    match p
    case Plain(c) => assert s[1..] == tail;
    case Short(e) =>
      UnescapeAgrees(e);
      assert s[2..] == tail && s[0] == '\\' && s[1] == e;
      hide Unescape, ShortFor;
    case Unit(d) =>
      Hex4Reads(d, tail);
      assert s[2..] == d + tail && s[6..] == tail && s[0] == '\\' && s[1] == 'u';
      hide Hex4, PieceOk;
  }

  lemma {:induction false} PiecesSkipped(ps: seq<Piece>, rest: string)
    requires PiecesOk(ps)
    ensures SkipBody(SpellPieces(ps) + ("\"" + rest)) == Some(rest)
  {
    var end := "\"" + rest;
    if ps == [] {
      assert SpellPieces(ps) + end == end;
    } else {
      assert SpellPieces(ps) + end == SpellPiece(ps[0]) + (SpellPieces(ps[1..]) + end);
      SkipPiece(ps[0], SpellPieces(ps[1..]) + end);
      PiecesSkipped(ps[1..], rest);
    }
  }

  /** What the reader makes of the first piece of a body. */
  lemma FirstRead(ps: seq<Piece>, rest: string)
    requires PiecesOk(ps) && ps != []
    ensures var s := SpellPieces(ps) + ("\"" + rest);
            && s[0] != '"' && (ReadChar(s).Some? <==> FirstCharacter(ps).Some?)
            && (ReadChar(s).Some? ==>
                  && ReadChar(s).value.0 == FirstCharacter(ps).value.0
                  && s[ReadChar(s).value.1..] == SpellPieces(ps[FirstCharacter(ps).value.1..]) + ("\"" + rest))
  {
    var end := "\"" + rest;
    var tail := SpellPieces(ps[1..]) + end;
    var s := SpellPiece(ps[0]) + tail;
    assert SpellPieces(ps) + end == s;
    match ps[0]
    case Plain(c) => assert s[1..] == tail;
    case Short(e) =>
      UnescapeAgrees(e);
      assert s[2..] == tail;
    case Unit(d) => UnitFirst(ps, rest);
  }

  /** A unit escape that is no high surrogate. */
  lemma LoneUnit(d: string, tail: string)
    requires PieceOk(Unit(d)) && !HighUnit(Unit(d))
    ensures var s := SpellPiece(Unit(d)) + tail;
            && s[6..] == tail
            && ReadUnicode(s) == if LowUnit(Unit(d)) then None else Some((UnitValue(d) as char, 6))
  {
    var s := SpellPiece(Unit(d)) + tail;
    Hex4Reads(d, tail);
    hide Hex4, UnitValue;
    assert s[2..] == d + tail && s[6..] == tail;
  }

  /** A code unit escape of a low surrogate comes next. */
  predicate LowNext(tail: string) {
    && |tail| >= 2 && tail[0] == '\\' && tail[1] == 'u'
    && Hex4(tail[2..]).Some? && 0xDC00 <= Hex4(tail[2..]).value < 0xE000
  }

  /** A high surrogate and what follows it. */
  lemma HighRead(d: string, tail: string)
    requires HighUnit(Unit(d))
    ensures var s := SpellPiece(Unit(d)) + tail;
            && (LowNext(tail) ==>
                  && s[12..] == tail[6..]
                  && ReadUnicode(s) == Some(((0x1_0000 + 1024 * (UnitValue(d) - 0xD800)
                                              + (Hex4(tail[2..]).value - 0xDC00)) as char, 12)))
            && (!LowNext(tail) ==> ReadUnicode(s) == None)
  {
    var s := SpellPiece(Unit(d)) + tail;
    Hex4Reads(d, tail);
    assert s[2..] == d + tail && s[6..] == tail;
    assert |tail| >= 2 ==> s[8..] == tail[2..] && s[6] == tail[0] && s[7] == tail[1];
    assert |tail| >= 6 ==> s[12..] == tail[6..];
    hide Hex4, UnitValue;
  }

  lemma UnitFirst(ps: seq<Piece>, rest: string)
    requires PiecesOk(ps) && ps != [] && ps[0].Unit?
    ensures var s := SpellPiece(ps[0]) + (SpellPieces(ps[1..]) + ("\"" + rest));
            && ReadChar(s) == ReadUnicode(s) && s[0] != '"' && (ReadUnicode(s).Some? <==> FirstCharacter(ps).Some?)
            && (ReadUnicode(s).Some? ==>
                  && ReadUnicode(s).value.0 == FirstCharacter(ps).value.0
                  && s[ReadUnicode(s).value.1..] == SpellPieces(ps[FirstCharacter(ps).value.1..]) + ("\"" + rest))
  {
    var d, tail := ps[0].digits, SpellPieces(ps[1..]) + ("\"" + rest);
    var s := SpellPiece(ps[0]) + tail;
    assert s[0] == '\\' && s[1] == 'u';
    if !HighUnit(ps[0]) {
      LoneUnit(d, tail);
    } else {
      HighRead(d, tail);
      SecondUnit(ps, rest);
    }
    hide ReadUnicode, Hex4, UnitValue, PieceOk, SpellPieces, LowNext;
  }

  lemma PieceNext(p: Piece, more: string)
    requires PieceOk(p)
    ensures var tail := SpellPiece(p) + more;
            && (LowNext(tail) <==> LowUnit(p))
            && (LowUnit(p) ==> Hex4(tail[2..]) == Some(UnitValue(p.digits)) && tail[6..] == more)
  {
    var tail := SpellPiece(p) + more;
    if p.Unit? {
      Hex4Reads(p.digits, more);
      assert tail[0] == '\\' && tail[1] == 'u' && tail[2..] == p.digits + more && tail[6..] == more;
    } else {
      NoUnit(p, more);
    }
    hide Hex4, UnitValue, PieceOk;
  }

  /** What follows the first piece starts with a low surrogate exactly when the second piece is one. */
  lemma SecondUnit(ps: seq<Piece>, rest: string)
    requires PiecesOk(ps) && ps != []
    ensures var tail := SpellPieces(ps[1..]) + ("\"" + rest);
            && (LowNext(tail) <==> |ps| > 1 && LowUnit(ps[1]))
            && (|ps| > 1 && LowUnit(ps[1]) ==>
                  && Hex4(tail[2..]) == Some(UnitValue(ps[1].digits))
                  && tail[6..] == SpellPieces(ps[2..]) + ("\"" + rest))
  {
    var end := "\"" + rest;
    SpelledTail(ps[1..], end);
    hide SpellPieces, SpellPiece, Hex4, UnitValue, PieceOk, LowUnit, LowNext;
    if |ps| > 1 {
      assert ps[1..][0] == ps[1] && ps[1..][1..] == ps[2..];
      PieceNext(ps[1], SpellPieces(ps[2..]) + end);
    } else {
      NoneNext(rest);
    }
  }

  lemma SpelledTail(ps: seq<Piece>, end: string)
    ensures SpellPieces(ps) + end == if ps == [] then end else SpellPiece(ps[0]) + (SpellPieces(ps[1..]) + end)
  {
    if ps == [] { assert "" + end == end; }
  }

  lemma NoneNext(rest: string)
    ensures !LowNext("\"" + rest)
  {
  }

  lemma NoUnit(p: Piece, more: string)
    requires PieceOk(p) && !p.Unit?
    ensures var t := SpellPiece(p) + more; t[0] == '\\' ==> |t| >= 2 && t[1] != 'u'
  {
    if p.Short? { UnescapeAgrees(p.e); }
  }

  lemma {:induction false} PiecesRead(ps: seq<Piece>, rest: string)
    requires PiecesOk(ps)
    ensures ReadBody(SpellPieces(ps) + ("\"" + rest))
        == match Characters(ps) case None => None case Some(text) => Some((text, rest))
    decreases |ps|
  {
    var s := SpellPieces(ps) + ("\"" + rest);
    if ps == [] {
      assert s == "\"" + rest && s[1..] == rest;
    } else {
      FirstRead(ps, rest);
      var first := FirstCharacter(ps);
      hide ReadChar, FirstCharacter, SpellPieces;
      if first.Some? {
        PiecesRead(ps[first.value.1..], rest);
      }
    }
  }

  /** A string is read as what its pieces say, and all of it is taken. */
  lemma TextRead(ps: seq<Piece>, rest: string)
    requires PiecesOk(ps)
    ensures ReadText(Quoted(ps, rest)) == Some((Characters(ps), rest))
  {
    var s := Quoted(ps, rest);
    PiecesSkipped(ps, rest);
    PiecesRead(ps, rest);
    assert s[1..] == SpellPieces(ps) + ("\"" + rest);
    hide SkipBody, ReadBody, SpellPieces, Characters;
  }

  lemma {:induction false} BodySpelled(s: string) returns (ps: seq<Piece>)
    requires SkipBody(s).Some?
    ensures PiecesOk(ps) && s == SpellPieces(ps) + ("\"" + SkipBody(s).value)
    decreases |s|
  {
    if s[0] == '"' {
      ps := [];
      assert s == "" + ("\"" + s[1..]);
    } else {
      var p := if s[0] != '\\' then Plain(s[0]) else if s[1] == 'u' then Unit(s[2..6]) else Short(s[1]);
      if p.Unit? {
        Hex4Spelled(s[2..]);
        assert s[2..][..4] == s[2..6];
      } else if p.Short? {
        UnescapeAgrees(s[1]);
      }
      var n := |SpellPiece(p)|;
      assert s == SpellPiece(p) + s[n..];
      var more := BodySpelled(s[n..]);
      ps := [p] + more;
      SpellNext(p, more, s[n..], SkipBody(s[n..]).value);
    }
  }

  lemma SpellNext(p: Piece, more: seq<Piece>, tail: string, rest: string)
    requires PieceOk(p) && PiecesOk(more) && tail == SpellPieces(more) + ("\"" + rest)
    ensures PiecesOk([p] + more) && SpellPiece(p) + tail == SpellPieces([p] + more) + ("\"" + rest)
  {
    assert ([p] + more)[1..] == more;
    hide PieceOk, SpellPiece;
    assert SpellPieces([p] + more) == SpellPiece(p) + SpellPieces(more);
    hide SpellPieces;
  }

  lemma TextSpelled(s: string) returns (ps: seq<Piece>)
    requires ReadText(s).Some?
    ensures PiecesOk(ps) && s == Quoted(ps, ReadText(s).value.1) && Characters(ps) == ReadText(s).value.0
  {
    ps := BodySpelled(s[1..]);
    assert s == "\"" + s[1..];
    hide SkipBody;
    TextRead(ps, ReadText(s).value.1);
  }

  // ----- Numbers, section 6 -----

  predicate AllDigitCodes(s: string) { forall i | 0 <= i < |s| :: 48 <= s[i] as int <= 57 }

  predicate IntegerPart(s: string) { s != "" && AllDigitCodes(s) && (|s| > 1 ==> s[0] as int != 48) }

  predicate FractionPart(s: string) { s == "" || (|s| > 1 && s[0] == '.' && AllDigitCodes(s[1..])) }

  predicate ExponentPart(s: string) {
    || s == ""
    || (|s| > 1 && s[0] in "eE" && AllDigitCodes(s[1..]))
    || (|s| > 2 && s[0] in "eE" && s[1] in "+-" && AllDigitCodes(s[2..]))
  }

  predicate NumberParts(sign: string, integer: string, fraction: string, exponent: string) {
    && (sign == "" || sign == "-") && IntegerPart(integer) && FractionPart(fraction) && ExponentPart(exponent)
  }

  ghost predicate NumberText(s: string) {
    exists sign, integer, fraction, exponent ::
      NumberParts(sign, integer, fraction, exponent) && s == sign + (integer + (fraction + exponent))
  }

  /** Nothing that could still belong to a number. */
  predicate NumberOver(rest: string) { rest == "" || !(48 <= rest[0] as int <= 57 || rest[0] in ".eE") }

  lemma {:induction false} DigitsTaken(digits: string, rest: string)
    requires AllDigitCodes(digits) && (rest == "" || !(48 <= rest[0] as int <= 57))
    ensures Digits(digits + rest) == |digits|
  {
    if digits == "" {
      assert digits + rest == rest;
    } else {
      assert (digits + rest)[1..] == digits[1..] + rest;
      DigitsTaken(digits[1..], rest);
    }
  }

  lemma IntegerTaken(integer: string, rest: string)
    requires IntegerPart(integer) && (rest == "" || !(48 <= rest[0] as int <= 57))
    ensures IntegerLength(integer + rest) == Some(|integer|)
  {
    DigitsTaken(integer, rest);
  }

  lemma FractionTaken(fraction: string, rest: string)
    requires FractionPart(fraction) && (rest == "" || !(48 <= rest[0] as int <= 57 || rest[0] == '.'))
    ensures FractionLength(fraction + rest) == Some(|fraction|)
  {
    if fraction == "" {
      assert fraction + rest == rest;
    } else {
      assert (fraction + rest)[1..] == fraction[1..] + rest;
      DigitsTaken(fraction[1..], rest);
    }
  }

  lemma ExponentTaken(exponent: string, rest: string)
    requires ExponentPart(exponent) && NumberOver(rest)
    ensures ExponentLength(exponent + rest) == Some(|exponent|)
  {
    if exponent == "" {
      assert exponent + rest == rest;
    } else if exponent[1] in "+-" {
      SignedExponent(exponent, rest);
    } else {
      PlainExponent(exponent, rest);
    }
  }

  lemma SignedExponent(exponent: string, rest: string)
    requires |exponent| > 2 && exponent[0] in "eE" && exponent[1] in "+-" && AllDigitCodes(exponent[2..])
    requires NumberOver(rest)
    ensures ExponentLength(exponent + rest) == Some(|exponent|)
  {
    var s := exponent + rest;
    DigitsTaken(exponent[2..], rest);
    hide Digits;
    assert s[1..][0] == exponent[1] && s[2..] == exponent[2..] + rest && s[0] == exponent[0];
  }

  lemma PlainExponent(exponent: string, rest: string)
    requires |exponent| > 1 && exponent[0] in "eE" && AllDigitCodes(exponent[1..]) && NumberOver(rest)
    ensures ExponentLength(exponent + rest) == Some(|exponent|)
  {
    var s := exponent + rest;
    DigitsTaken(exponent[1..], rest);
    hide Digits;
    assert s[1..] == exponent[1..] + rest && s[1..][0] == exponent[1] && s[0] == exponent[0];
  }

  lemma {:induction false} DigitsCodes(s: string)
    ensures AllDigitCodes(s[..Digits(s)])
  {
  }

  lemma FractionStart(fraction: string, rest: string)
    requires FractionPart(fraction) && (rest == "" || !(48 <= rest[0] as int <= 57))
    ensures fraction + rest == "" || !(48 <= (fraction + rest)[0] as int <= 57)
  {
  }

  lemma ExponentStart(exponent: string, rest: string)
    requires ExponentPart(exponent) && NumberOver(rest)
    ensures exponent + rest == "" || !(48 <= (exponent + rest)[0] as int <= 57 || (exponent + rest)[0] == '.')
  {
  }

  lemma Dropped(a: string, b: string)
    ensures (a + b)[|a|..] == b && (a + b)[..|a|] == a
  {
  }

  lemma TailTaken(fraction: string, exponent: string, rest: string)
    requires FractionPart(fraction) && ExponentPart(exponent) && NumberOver(rest)
    ensures TailLength(fraction + (exponent + rest)) == Some(|fraction| + |exponent|)
  {
    ExponentStart(exponent, rest);
    FractionTaken(fraction, exponent + rest);
    ExponentTaken(exponent, rest);
    Dropped(fraction, exponent + rest);
    hide FractionLength, ExponentLength, FractionPart, ExponentPart;
  }

  lemma UnsignedTaken(integer: string, fraction: string, exponent: string, rest: string)
    requires IntegerPart(integer) && FractionPart(fraction) && ExponentPart(exponent) && NumberOver(rest)
    ensures UnsignedLength(integer + (fraction + (exponent + rest))) == Some(|integer| + |fraction| + |exponent|)
  {
    var tail := fraction + (exponent + rest);
    ExponentStart(exponent, rest);
    FractionStart(fraction, exponent + rest);
    IntegerTaken(integer, tail);
    TailTaken(fraction, exponent, rest);
    Dropped(integer, tail);
    hide IntegerLength, TailLength, IntegerPart, FractionPart, ExponentPart;
  }

  lemma PartsRead(sign: string, integer: string, fraction: string, exponent: string, rest: string)
    requires NumberParts(sign, integer, fraction, exponent) && NumberOver(rest)
    ensures NumberLength(sign + (integer + (fraction + (exponent + rest))))
         == Some(|sign| + (|integer| + |fraction| + |exponent|))
  {
    hide UnsignedLength, NumberLength, NumberOver, IntegerPart, FractionPart, ExponentPart;
    UnsignedTaken(integer, fraction, exponent, rest);
    IntegerStarts(integer, fraction + (exponent + rest));
    SignTaken(sign, integer + (fraction + (exponent + rest)), |integer| + |fraction| + |exponent|);
  }

  lemma IntegerStarts(integer: string, tail: string)
    requires IntegerPart(integer)
    ensures integer + tail != "" && (integer + tail)[0] != '-'
  {
  }

  lemma TakenAt(s: string, literal: string, rest: string)
    requires s == literal + rest && NumberLength(s) == Some(|literal|)
    ensures ReadNumber(s) == Some((literal, rest))
  {
    hide NumberLength;
    Dropped(literal, rest);
  }

  /** A number is taken whole when nothing follows that could belong to it. */
  lemma NumberRead(literal: string, rest: string)
    requires NumberText(literal) && NumberOver(rest)
    ensures ReadNumber(literal + rest) == Some((literal, rest))
  {
    hide NumberParts, NumberOver, NumberLength, ReadNumber;
    var sign, integer, fraction, exponent :|
      NumberParts(sign, integer, fraction, exponent) && literal == sign + (integer + (fraction + exponent));
    PartsRead(sign, integer, fraction, exponent, rest);
    Regroup(sign, integer, fraction, exponent, rest);
    TakenAt(literal + rest, literal, rest);
  }

  lemma SignTaken(sign: string, unsigned: string, n: nat)
    requires (sign == "" || sign == "-") && unsigned != "" && unsigned[0] != '-' && UnsignedLength(unsigned) == Some(n)
    ensures NumberLength(sign + unsigned) == Some(|sign| + n)
  {
    Dropped(sign, unsigned);
    hide UnsignedLength;
    if sign == "" {
      assert sign + unsigned == unsigned;
    } else {
      assert "-" <= sign + unsigned;
    }
  }

  lemma Regroup(a: string, b: string, c: string, d: string, e: string)
    ensures a + (b + (c + d)) + e == a + (b + (c + (d + e)))
  {
  }

  lemma IntegerSpelled(s: string)
    requires IntegerLength(s).Some?
    ensures IntegerPart(s[..IntegerLength(s).value])
  {
    DigitsCodes(s);
    hide Digits;
  }

  lemma DigitsFrom(s: string, k: nat)
    requires k <= |s|
    ensures AllDigitCodes(s[..k + Digits(s[k..])][k..])
  {
    DigitsCodes(s[k..]);
    assert s[..k + Digits(s[k..])][k..] == s[k..][..Digits(s[k..])];
  }

  lemma FractionSpelled(s: string)
    requires FractionLength(s).Some?
    ensures FractionPart(s[..FractionLength(s).value])
  {
    if "." <= s { DigitsFrom(s, 1); }
    hide Digits, AllDigitCodes;
  }

  lemma ExponentSpelled(s: string)
    requires ExponentLength(s).Some?
    ensures ExponentPart(s[..ExponentLength(s).value])
  {
    if "e" <= s || "E" <= s {
      if "+" <= s[1..] || "-" <= s[1..] { DigitsFrom(s, 2); } else { DigitsFrom(s, 1); }
    }
    hide Digits, AllDigitCodes;
  }

  lemma Joined(s: string, m: nat, n: nat)
    requires m + n <= |s|
    ensures s[..m + n] == s[..m] + s[m..][..n]
  {
  }

  lemma TailSpelled(s: string) returns (fraction: string, exponent: string)
    requires TailLength(s).Some?
    ensures FractionPart(fraction) && ExponentPart(exponent) && s[..TailLength(s).value] == fraction + exponent
  {
    hide FractionLength, ExponentLength, FractionPart, ExponentPart;
    var f := FractionLength(s).value;
    var e := ExponentLength(s[f..]).value;
    FractionSpelled(s);
    ExponentSpelled(s[f..]);
    Joined(s, f, e);
    fraction, exponent := s[..f], s[f..][..e];
  }

  lemma UnsignedSpelled(s: string) returns (integer: string, fraction: string, exponent: string)
    requires UnsignedLength(s).Some?
    ensures IntegerPart(integer) && FractionPart(fraction) && ExponentPart(exponent)
    ensures s[..UnsignedLength(s).value] == integer + (fraction + exponent)
  {
    hide IntegerLength, TailLength, IntegerPart, FractionPart, ExponentPart;
    var n := IntegerLength(s).value;
    IntegerSpelled(s);
    Joined(s, n, TailLength(s[n..]).value);
    fraction, exponent := TailSpelled(s[n..]);
    integer := s[..n];
  }

  lemma NumberSpelled(s: string)
    requires ReadNumber(s).Some?
    ensures NumberText(ReadNumber(s).value.0) && s == ReadNumber(s).value.0 + ReadNumber(s).value.1
  {
    var sign := if "-" <= s then "-" else "";
    var n := UnsignedLength(s[|sign|..]).value;
    Joined(s, |sign|, n);
    assert s[..|sign|] == sign;
    hide NumberText, UnsignedLength, IntegerPart, FractionPart, ExponentPart;
    var integer, fraction, exponent := UnsignedSpelled(s[|sign|..]);
    PartsMakeNumber(sign, integer, fraction, exponent);
    Split(s, |sign| + n);
  }

  lemma Split(s: string, n: nat)
    requires n <= |s|
    ensures s == s[..n] + s[n..]
  {
  }

  lemma PartsMakeNumber(sign: string, integer: string, fraction: string, exponent: string)
    requires NumberParts(sign, integer, fraction, exponent)
    ensures NumberText(sign + (integer + (fraction + exponent)))
  {
    hide NumberParts;
  }

  // ----- Values, sections 2 to 5 -----

  /** White space between tokens: space, tab, line feed, carriage return. */
  predicate White(s: string) { forall i | 0 <= i < |s| :: s[i] as int in {32, 9, 10, 13} }

  datatype Tree =
    | Word(value: Value)
    | Number(literal: string)
    | Text(pieces: seq<Piece>)
    | List(inside: string, items: seq<Item>)
    | Record(inside: string, entries: seq<Entry>)

  datatype Item = Item(before: string, tree: Tree, after: string)

  datatype Entry = Entry(before: string, name: seq<Piece>, beforeColon: string, afterColon: string, tree: Tree,
                         after: string)

  /** A tree of the grammar. The white space of an empty collection is between its brackets. */
  ghost predicate WellFormed(t: Tree) {
    match t
    case Word(v) => v == Null || v == Bool(true) || v == Bool(false)
    case Number(literal) => NumberText(literal)
    case Text(pieces) => PiecesOk(pieces)
    case List(inside, items) =>
      && White(inside) && (items != [] ==> inside == "")
      && forall i | 0 <= i < |items| :: ItemOk(items[i])
    case Record(inside, entries) =>
      && White(inside) && (entries != [] ==> inside == "")
      && forall i | 0 <= i < |entries| :: EntryOk(entries[i])
  }

  ghost predicate ItemOk(item: Item) { White(item.before) && White(item.after) && WellFormed(item.tree) }

  ghost predicate EntryOk(e: Entry) {
    && White(e.before) && White(e.beforeColon) && White(e.afterColon) && White(e.after)
    && PiecesOk(e.name) && WellFormed(e.tree)
  }

  function WordText(v: Value): string {
    match v case Bool(true) => "true" case Bool(false) => "false" case _ => "null"
  }

  /** The text of a tree, and whatever follows it. */
  function Spell(t: Tree, rest: string): string
    decreases t, 0
  {
    match t
    case Word(v) => WordText(v) + rest
    case Number(literal) => literal + rest
    case Text(pieces) => Quoted(pieces, rest)
    case List(inside, items) => "[" + (if items == [] then inside + ("]" + rest) else SpellItems(items, rest))
    case Record(inside, entries) => "{" + (if entries == [] then inside + ("}" + rest) else SpellEntries(entries, rest))
  }

  function SpellItems(items: seq<Item>, rest: string): string
    requires items != []
    decreases items, 1
  {
    var close := if |items| == 1 then "]" + rest else "," + SpellItems(items[1..], rest);
    items[0].before + Spell(items[0].tree, items[0].after + close)
  }

  function SpellEntries(entries: seq<Entry>, rest: string): string
    requires entries != []
    decreases entries, 1
  {
    SpellEntry(entries[0], if |entries| == 1 then "}" + rest else "," + SpellEntries(entries[1..], rest))
  }

  function SpellEntry(e: Entry, close: string): string
    decreases e, 1
  {
    e.before + Quoted(e.name, e.beforeColon + (":" + (e.afterColon + Spell(e.tree, e.after + close))))
  }

  /** The value a text stands for. */
  ghost function ValueOf(t: Tree): Value
    requires WellFormed(t)
    decreases t, 0
  {
    match t
    case Word(v) => v
    case Number(literal) => Num(literal)
    case Text(pieces) => Str(Characters(pieces))
    case List(_, items) => Arr(ItemValues(items))
    case Record(_, entries) => Obj(EntryMembers(entries))
  }

  ghost function ItemValues(items: seq<Item>): seq<Value>
    requires forall i | 0 <= i < |items| :: ItemOk(items[i])
    decreases items, 1
  {
    if items == [] then []
    else
      assert ItemOk(items[0]);
      [ValueOf(items[0].tree)] + ItemValues(items[1..])
  }

  ghost function EntryMembers(entries: seq<Entry>): seq<Member>
    requires forall i | 0 <= i < |entries| :: EntryOk(entries[i])
    decreases entries, 1
  {
    if entries == [] then []
    else
      assert EntryOk(entries[0]);
      [Member(Characters(entries[0].name), ValueOf(entries[0].tree))] + EntryMembers(entries[1..])
  }

  lemma WhiteIsBlank(c: char)
    ensures IsBlank(c) <==> c as int in {32, 9, 10, 13}
  {
  }

  lemma {:induction false} WhiteSkipped(white: string, s: string)
    requires White(white)
    ensures SkipBlank(white + s) == SkipBlank(s)
  {
    if white == "" {
      assert white + s == s;
    } else {
      WhiteIsBlank(white[0]);
      assert (white + s)[1..] == white[1..] + s;
      WhiteSkipped(white[1..], s);
    }
  }

  lemma WhiteBefore(white: string, s: string)
    requires White(white)
    ensures ReadValue(white + s) == ReadValue(s)
  {
    WhiteSkipped(white, s);
    hide SkipBlank, ReadItems, ReadMembers, ReadScalar;
  }

  /** A token stands where it starts. */
  lemma TokenStays(white: string, s: string)
    requires White(white) && s != "" && s[0] as int !in {32, 9, 10, 13}
    ensures SkipBlank(white + s) == s && SkipBlank(s) == s
  {
    WhiteSkipped(white, s);
    WhiteIsBlank(s[0]);
  }

  lemma TreeStarts(t: Tree, rest: string)
    requires WellFormed(t)
    ensures var s := Spell(t, rest);
            && s != "" && s[0] as int !in {32, 9, 10, 13} && s[0] !in "]},:"
            && (t.List? <==> s[0] == '[') && (t.Record? <==> s[0] == '{')
  {
    if t.Number? { NumberStarts(t.literal); }
  }

  lemma NumberStarts(literal: string)
    requires NumberText(literal)
    ensures literal != "" && (literal[0] == '-' || 48 <= literal[0] as int <= 57)
  {
    var sign, integer, fraction, exponent :|
      NumberParts(sign, integer, fraction, exponent) && literal == sign + (integer + (fraction + exponent));
  }

  lemma ScalarRead(t: Tree, rest: string)
    requires WellFormed(t) && !t.List? && !t.Record? && (t.Number? ==> NumberOver(rest))
    ensures ReadScalar(Spell(t, rest)) == Some((ValueOf(t), rest))
  {
    hide ReadText, ReadNumber;
    match t
    case Word(v) => WordRead(v, rest);
    case Number(literal) =>
      NumberRead(literal, rest);
      NumberStarts(literal);
      assert (literal + rest)[0] == literal[0];
      assert "null"[0] == 'n' && "true"[0] == 't' && "false"[0] == 'f';
    case Text(pieces) => TextRead(pieces, rest);
  }

  lemma WordRead(v: Value, rest: string)
    requires v == Null || v == Bool(true) || v == Bool(false)
    ensures ReadScalar(WordText(v) + rest) == Some((v, rest))
  {
    var s := WordText(v) + rest;
    assert s[|WordText(v)|..] == rest;
    assert s[0] == WordText(v)[0];
  }

  /** The reader takes every text of the grammar for its value, and nothing of what follows. */
  lemma {:induction false} SpelledReads(t: Tree, rest: string)
    requires WellFormed(t) && (t.Number? ==> NumberOver(rest))
    ensures ReadValue(Spell(t, rest)) == Some((ValueOf(t), rest))
    decreases t, 0
  {
    TreeStarts(t, rest);
    var s := Spell(t, rest);
    TokenStays("", s);
    assert "" + s == s;
    match t {
      case List(inside, items) =>
        if items == [] {
          assert s[1..] == inside + ("]" + rest);
          TokenStays(inside, "]" + rest);
          EmptyListRead(s, inside, rest);
        } else {
          assert s[1..] == SpellItems(items, rest);
          ItemsRead(items, rest);
          ListRead(s, items, rest);
        }
      case Record(inside, entries) =>
        if entries == [] {
          assert s[1..] == inside + ("}" + rest);
          TokenStays(inside, "}" + rest);
          EmptyRecordRead(s, inside, rest);
        } else {
          assert s[1..] == SpellEntries(entries, rest);
          EntriesRead(entries, rest);
          RecordRead(s, entries, rest);
        }
      case _ =>
        ScalarRead(t, rest);
        ScalarValue(s);
    }
  }

  lemma ScalarValue(s: string)
    requires SkipBlank(s) == s && s != "" && s[0] != '[' && s[0] != '{'
    ensures ReadValue(s) == ReadScalar(s)
  {
    hide SkipBlank, ReadScalar;
  }

  lemma EmptyListRead(s: string, inside: string, rest: string)
    requires SkipBlank(s) == s && "[" <= s && SkipBlank(s[1..]) == "]" + rest
    ensures ReadValue(s) == Some((Arr([]), rest))
  {
    hide SkipBlank, ReadItems, ReadScalar;
    assert ("]" + rest)[1..] == rest && s[0] == '[';
  }

  lemma EmptyRecordRead(s: string, inside: string, rest: string)
    requires SkipBlank(s) == s && "{" <= s && SkipBlank(s[1..]) == "}" + rest
    ensures ReadValue(s) == Some((Obj([]), rest))
  {
    hide SkipBlank, ReadMembers, ReadScalar;
    assert ("}" + rest)[1..] == rest;
  }

  lemma ListRead(s: string, items: seq<Item>, rest: string)
    requires items != [] && forall i | 0 <= i < |items| :: ItemOk(items[i])
    requires SkipBlank(s) == s && "[" <= s && s[1..] == SpellItems(items, rest)
    requires SkipBlank(s[1..]) != "" && SkipBlank(s[1..])[0] != ']'
    requires ReadItems(SkipBlank(s[1..])) == Some((ItemValues(items), rest))
    ensures ReadValue(s) == Some((Arr(ItemValues(items)), rest))
  {
    hide SkipBlank, ReadItems, ReadScalar, SpellItems, ItemValues, ItemOk;
    assert s[0] == '[';
  }

  lemma RecordRead(s: string, entries: seq<Entry>, rest: string)
    requires entries != [] && forall i | 0 <= i < |entries| :: EntryOk(entries[i])
    requires SkipBlank(s) == s && "{" <= s && s[1..] == SpellEntries(entries, rest)
    requires SkipBlank(s[1..]) != "" && SkipBlank(s[1..])[0] != '}'
    requires ReadMembers(SkipBlank(s[1..])) == Some((EntryMembers(entries), rest))
    ensures ReadValue(s) == Some((Obj(EntryMembers(entries)), rest))
  {
    hide SkipBlank, ReadMembers, ReadScalar, SpellEntries, EntryMembers, EntryOk;
  }

  function ItemsClose(items: seq<Item>, rest: string): string
    requires items != []
  {
    if |items| == 1 then "]" + rest else "," + SpellItems(items[1..], rest)
  }

  /** What follows an item starts with white space or a separator. */
  lemma CloseOver(white: string, close: string)
    requires White(white) && close != "" && close[0] in ",]}"
    ensures NumberOver(white + close) && SkipBlank(white + close) == close
  {
    TokenStays(white, close);
    assert (white + close)[0] == if white == "" then close[0] else white[0];
  }

  lemma {:induction false} ItemsRead(items: seq<Item>, rest: string)
    requires items != [] && forall i | 0 <= i < |items| :: ItemOk(items[i])
    ensures var s := SpellItems(items, rest);
            && SkipBlank(s) != "" && SkipBlank(s)[0] != ']'
            && ReadItems(SkipBlank(s)) == Some((ItemValues(items), rest))
            && ReadItems(s) == Some((ItemValues(items), rest))
    decreases items, 1
  {
    var item, close := items[0], ItemsClose(items, rest);
    var s, t := SpellItems(items, rest), Spell(item.tree, item.after + close);
    assert ItemOk(item) && s == item.before + t;
    CloseOver(item.after, close);
    TreeStarts(item.tree, item.after + close);
    TokenStays(item.before, t);
    SpelledReads(item.tree, item.after + close);
    WhiteBefore(item.before, t);
    assert SkipBlank(s) == t;
    assert ItemValues(items) == [ValueOf(item.tree)] + ItemValues(items[1..]);
    hide ReadItems, ReadValue, Spell, SpellItems, ItemValues, ItemOk, White, WellFormed, ValueOf, SkipBlank;
    if |items| == 1 {
      assert close[1..] == rest && ItemValues(items) == [ValueOf(item.tree)];
      LastItem(s, ValueOf(item.tree), item.after + close);
      LastItem(t, ValueOf(item.tree), item.after + close);
      assert ReadItems(t) == Some((ItemValues(items), rest));
    } else {
      assert close[1..] == SpellItems(items[1..], rest);
      ItemsRead(items[1..], rest);
      NextItem(s, ValueOf(item.tree), item.after + close, ItemValues(items[1..]), rest);
      NextItem(t, ValueOf(item.tree), item.after + close, ItemValues(items[1..]), rest);
      assert ReadItems(t) == Some((ItemValues(items), rest));
    }
  }

  lemma {:induction false} EntryRead(e: Entry, close: string)
    requires EntryOk(e) && close != "" && close[0] in ",]}"
    ensures var s := SpellEntry(e, close);
            && SkipBlank(s) != "" && SkipBlank(s)[0] == '"'
            && MemberRead(s, Member(Characters(e.name), ValueOf(e.tree)), e.after + close)
            && MemberRead(SkipBlank(s), Member(Characters(e.name), ValueOf(e.tree)), e.after + close)
    decreases e, 0
  {
    var value := Spell(e.tree, e.after + close);
    var colon := ":" + (e.afterColon + value);
    var quoted := Quoted(e.name, e.beforeColon + colon);
    assert SpellEntry(e, close) == e.before + quoted;
    assert quoted[0] == '"' && colon[0] == ':' && colon[1..] == e.afterColon + value;
    CloseOver(e.after, close);
    TokenStays(e.before, quoted);
    TextRead(e.name, e.beforeColon + colon);
    TokenStays(e.beforeColon, colon);
    WhiteBefore(e.afterColon, value);
    SpelledReads(e.tree, e.after + close);
    hide ReadText, ReadValue, Spell, Quoted, White, WellFormed, ValueOf, SkipBlank;
  }

  lemma {:induction false} EntriesRead(entries: seq<Entry>, rest: string)
    requires entries != [] && forall i | 0 <= i < |entries| :: EntryOk(entries[i])
    ensures var s := SpellEntries(entries, rest);
            && SkipBlank(s) != "" && SkipBlank(s)[0] != '}'
            && ReadMembers(SkipBlank(s)) == Some((EntryMembers(entries), rest))
            && ReadMembers(s) == Some((EntryMembers(entries), rest))
    decreases entries, 1
  {
    var e := entries[0];
    var close := if |entries| == 1 then "}" + rest else "," + SpellEntries(entries[1..], rest);
    var s := SpellEntries(entries, rest);
    assert EntryOk(e) && s == SpellEntry(e, close) && close[0] in ",]}";
    EntryRead(e, close);
    CloseOver(e.after, close);
    var member := Member(Characters(e.name), ValueOf(e.tree));
    assert EntryMembers(entries) == [member] + EntryMembers(entries[1..]);
    hide ReadMembers, ReadValue, SpellEntry, SpellEntries, EntryMembers, White, EntryOk, ValueOf, SkipBlank, MemberRead,
        Characters;
    if |entries| == 1 {
      assert close[1..] == rest && EntryMembers(entries) == [member];
      LastMember(s, member, e.after + close);
      LastMember(SkipBlank(s), member, e.after + close);
      assert ReadMembers(SkipBlank(s)) == Some((EntryMembers(entries), rest));
    } else {
      assert close[1..] == SpellEntries(entries[1..], rest);
      EntriesRead(entries[1..], rest);
      NextMember(s, member, e.after + close, EntryMembers(entries[1..]), rest);
      NextMember(SkipBlank(s), member, e.after + close, EntryMembers(entries[1..]), rest);
      assert ReadMembers(SkipBlank(s)) == Some((EntryMembers(entries), rest));
    }
  }

  // ----- And nothing else -----

  lemma {:induction false} SkippedAt(s: string) returns (k: nat)
    ensures k <= |s| && SkipBlank(s) == s[k..] && forall i | 0 <= i < k :: s[i] as int in {32, 9, 10, 13}
  {
    k := 0;
    hide IsBlank;
    if s != "" && IsBlank(s[0]) {
      WhiteIsBlank(s[0]);
      var more := SkippedAt(s[1..]);
      k := more + 1;
    }
  }

  lemma SkippedIsWhite(s: string) returns (white: string)
    ensures White(white) && s == white + SkipBlank(s)
  {
    var k := SkippedAt(s);
    white := s[..k];
  }

  lemma ScalarSpelled(s: string) returns (t: Tree)
    requires ReadScalar(s).Some?
    ensures WellFormed(t) && s == Spell(t, ReadScalar(s).value.1) && ValueOf(t) == ReadScalar(s).value.0
  {
    if "\"" <= s {
      var pieces := TextSpelled(s);
      hide ReadText, Quoted;
      t := Text(pieces);
    } else if "null" <= s || "true" <= s || "false" <= s {
      hide ReadText, ReadNumber;
      t := Word(ReadScalar(s).value.0);
    } else {
      NumberSpelled(s);
      hide ReadText, ReadNumber, NumberText;
      t := Number(ReadScalar(s).value.0.literal);
    }
  }

  /** Whatever the reader takes is a text of the grammar, after white space, for the value it gives. */
  lemma {:induction false} ReadIsSpelled(s: string) returns (white: string, t: Tree)
    requires ReadValue(s).Some?
    ensures White(white) && WellFormed(t) && s == white + Spell(t, ReadValue(s).value.1)
    ensures ValueOf(t) == ReadValue(s).value.0
    decreases |s|, 3
  {
    white := SkippedIsWhite(s);
    var u := SkipBlank(s);
    var rest := ReadValue(s).value.1;
    if "{" <= u || "[" <= u {
      assert u == [u[0]] + u[1..];
      var inside := SkippedIsWhite(u[1..]);
      var v := SkipBlank(u[1..]);
      if "{" <= u {
        t := RecordSpelled(s, u, inside, v, rest);
      } else {
        t := ListSpelled(s, u, inside, v, rest);
      }
    } else {
      hide SkipBlank, ReadScalar, ReadItems, ReadMembers, ValueOf;
      t := ScalarSpelled(u);
    }
  }

  lemma RecordParts(s: string, u: string, v: string)
    requires u == SkipBlank(s) && "{" <= u && v == SkipBlank(u[1..]) && ReadValue(s).Some?
    ensures if "}" <= v then ReadValue(s) == Some((Obj([]), v[1..]))
            else ReadMembers(v).Some? && ReadValue(s) == Some((Obj(ReadMembers(v).value.0), ReadMembers(v).value.1))
  {
    hide SkipBlank, ReadMembers, ReadItems, ReadScalar;
  }

  lemma RecordOf(inside: string, entries: seq<Entry>, rest: string)
    requires White(inside) && (entries != [] ==> inside == "")
    requires forall i | 0 <= i < |entries| :: EntryOk(entries[i])
    ensures var t := Record(inside, entries);
            && WellFormed(t) && ValueOf(t) == Obj(EntryMembers(entries))
            && Spell(t, rest) == "{" + (if entries == [] then inside + ("}" + rest) else SpellEntries(entries, rest))
  {
    hide SpellEntries, EntryMembers, EntryOk, White;
  }

  lemma {:induction false} RecordSpelled(s: string, u: string, inside: string, v: string, rest: string)
    returns (t: Tree)
    requires u == SkipBlank(s) && "{" <= u && u == "{" + u[1..] && v == SkipBlank(u[1..])
    requires White(inside) && u[1..] == inside + v
    requires ReadValue(s).Some? && rest == ReadValue(s).value.1
    ensures WellFormed(t) && u == Spell(t, rest) && ValueOf(t) == ReadValue(s).value.0
    decreases |u|, 2
  {
    RecordParts(s, u, v);
    hide SkipBlank, ReadValue, ReadMembers, Spell, SpellEntries, EntryMembers, WellFormed, ValueOf, EntryOk, White;
    if "}" <= v {
      RecordOf(inside, [], rest);
      t := Record(inside, []);
      assert v == "}" + rest;
      NoEntries();
    } else {
      var entries := EntriesSpelled(v);
      BeforeFirst(entries, inside, rest);
      var moved := WithBefore(entries, inside);
      NoWhite();
      RecordOf("", moved, rest);
      t := Record("", moved);
    }
  }

  lemma NoWhite()
    ensures White("")
  {
  }

  lemma NoEntries()
    ensures EntryMembers([]) == []
  {
  }

  lemma NoItems()
    ensures ItemValues([]) == []
  {
  }

  /** White space moved into the first entry. */
  function WithBefore(entries: seq<Entry>, white: string): seq<Entry>
    requires entries != []
  {
    [entries[0].(before := white + entries[0].before)] + entries[1..]
  }

  lemma BeforeEntry(e: Entry, white: string, close: string)
    ensures SpellEntry(e.(before := white + e.before), close) == white + SpellEntry(e, close)
  {
    var body := Quoted(e.name, e.beforeColon + (":" + (e.afterColon + Spell(e.tree, e.after + close))));
    hide Spell, Quoted;
    assert (white + e.before) + body == white + (e.before + body);
  }

  lemma BeforeOk(e: Entry, white: string)
    requires EntryOk(e) && White(white)
    ensures EntryOk(e.(before := white + e.before))
  {
  }

  lemma BeforeFirst(entries: seq<Entry>, white: string, rest: string)
    requires entries != [] && White(white) && forall i | 0 <= i < |entries| :: EntryOk(entries[i])
    ensures var moved := WithBefore(entries, white);
            && moved != [] && (forall i | 0 <= i < |moved| :: EntryOk(moved[i]))
            && SpellEntries(moved, rest) == white + SpellEntries(entries, rest)
            && EntryMembers(moved) == EntryMembers(entries)
  {
    var moved := WithBefore(entries, white);
    BeforeOk(entries[0], white);
    var close := if |entries| == 1 then "}" + rest else "," + SpellEntries(entries[1..], rest);
    BeforeEntry(entries[0], white, close);
    hide SpellEntry, EntryOk, White, ValueOf, Characters;
    assert moved[1..] == entries[1..];
    forall i | 0 < i < |moved| ensures EntryOk(moved[i]) { assert moved[i] == entries[i]; }
  }

  function ItemsBefore(items: seq<Item>, white: string): seq<Item>
    requires items != []
  {
    [items[0].(before := white + items[0].before)] + items[1..]
  }

  lemma BeforeFirstItem(items: seq<Item>, white: string, rest: string)
    requires items != [] && White(white) && forall i | 0 <= i < |items| :: ItemOk(items[i])
    ensures var moved := ItemsBefore(items, white);
            && moved != [] && (forall i | 0 <= i < |moved| :: ItemOk(moved[i]))
            && SpellItems(moved, rest) == white + SpellItems(items, rest)
            && ItemValues(moved) == ItemValues(items)
  {
    var moved := ItemsBefore(items, white);
    MovedOk(items[0], white);
    assert moved[1..] == items[1..];
    SpellMoved(items, white, rest);
    hide Spell, SpellItems, ItemOk, White, ValueOf;
    forall i | 0 < i < |moved| ensures ItemOk(moved[i]) { assert moved[i] == items[i]; }
  }

  lemma MovedOk(item: Item, white: string)
    requires ItemOk(item) && White(white)
    ensures ItemOk(item.(before := white + item.before))
  {
    hide WellFormed;
  }

  lemma SpellMoved(items: seq<Item>, white: string, rest: string)
    requires items != []
    ensures SpellItems(ItemsBefore(items, white), rest) == white + SpellItems(items, rest)
  {
    var moved := ItemsBefore(items, white);
    assert moved[1..] == items[1..];
    var body := Spell(items[0].tree, items[0].after + ItemsClose(items, rest));
    assert SpellItems(items, rest) == items[0].before + body;
    assert SpellItems(moved, rest) == (white + items[0].before) + body;
    hide Spell, SpellItems;
    assert (white + items[0].before) + body == white + (items[0].before + body);
  }

  lemma ListParts(s: string, u: string, v: string)
    requires u == SkipBlank(s) && "[" <= u && v == SkipBlank(u[1..]) && ReadValue(s).Some?
    ensures if "]" <= v then ReadValue(s) == Some((Arr([]), v[1..]))
            else ReadItems(v).Some? && ReadValue(s) == Some((Arr(ReadItems(v).value.0), ReadItems(v).value.1))
  {
    hide SkipBlank, ReadMembers, ReadItems, ReadScalar;
    assert u[0] == '[';
  }

  lemma ListOf(inside: string, items: seq<Item>, rest: string)
    requires White(inside) && (items != [] ==> inside == "")
    requires forall i | 0 <= i < |items| :: ItemOk(items[i])
    ensures var t := List(inside, items);
            && WellFormed(t) && ValueOf(t) == Arr(ItemValues(items))
            && Spell(t, rest) == "[" + (if items == [] then inside + ("]" + rest) else SpellItems(items, rest))
  {
    hide SpellItems, ItemValues, ItemOk, White;
  }

  lemma {:induction false} ListSpelled(s: string, u: string, inside: string, v: string, rest: string)
    returns (t: Tree)
    requires u == SkipBlank(s) && "[" <= u && u == "[" + u[1..] && v == SkipBlank(u[1..])
    requires White(inside) && u[1..] == inside + v
    requires ReadValue(s).Some? && rest == ReadValue(s).value.1
    ensures WellFormed(t) && u == Spell(t, rest) && ValueOf(t) == ReadValue(s).value.0
    decreases |u|, 2
  {
    ListParts(s, u, v);
    hide SkipBlank, ReadValue, ReadItems, Spell, SpellItems, ItemValues, WellFormed, ValueOf, ItemOk, White;
    if "]" <= v {
      ListOf(inside, [], rest);
      t := List(inside, []);
      assert v == "]" + rest;
      NoItems();
    } else {
      var items := ItemsSpelled(v);
      BeforeFirstItem(items, inside, rest);
      var moved := ItemsBefore(items, inside);
      NoWhite();
      ListOf("", moved, rest);
      t := List("", moved);
    }
  }

  lemma {:induction false} ItemsSpelled(s: string) returns (items: seq<Item>)
    requires ReadItems(s).Some?
    ensures items != [] && forall i | 0 <= i < |items| :: ItemOk(items[i])
    ensures s == SpellItems(items, ReadItems(s).value.1) && ItemValues(items) == ReadItems(s).value.0
    decreases |s|, 4
  {
    var rest := ReadValue(s).value.1;
    var before, tree := ReadIsSpelled(s);
    var after := SkippedIsWhite(rest);
    var t := SkipBlank(rest);
    var item := Item(before, tree, after);
    assert ItemOk(item);
    assert t == [t[0]] + t[1..];
    if "]" <= t {
      items := [item];
      OneItem(item, t[1..]);
    } else {
      var more := ItemsSpelled(t[1..]);
      items := [item] + more;
      MoreItems(item, more, ReadItems(t[1..]).value.1);
    }
    hide ReadValue, SkipBlank, Spell, SpellItems, ItemOk, ValueOf, ItemValues;
  }

  lemma OneItem(item: Item, rest: string)
    requires ItemOk(item)
    ensures ItemValues([item]) == [ValueOf(item.tree)]
    ensures SpellItems([item], rest) == item.before + Spell(item.tree, item.after + ("]" + rest))
  {
    assert [item][1..] == [];
    hide Spell, ValueOf;
  }

  lemma MoreItems(item: Item, more: seq<Item>, rest: string)
    requires ItemOk(item) && more != [] && forall i | 0 <= i < |more| :: ItemOk(more[i])
    ensures var items := [item] + more;
            && (forall i | 0 <= i < |items| :: ItemOk(items[i]))
            && ItemValues(items) == [ValueOf(item.tree)] + ItemValues(more)
            && SpellItems(items, rest) == item.before + Spell(item.tree, item.after + ("," + SpellItems(more, rest)))
  {
    var items := [item] + more;
    assert items[1..] == more;
    forall i | 0 <= i < |items| ensures ItemOk(items[i]) { if i > 0 { assert items[i] == more[i - 1]; } }
    hide Spell, ValueOf, ItemOk;
  }

  lemma OneEntry(e: Entry, rest: string)
    requires EntryOk(e)
    ensures EntryMembers([e]) == [Member(Characters(e.name), ValueOf(e.tree))]
    ensures SpellEntries([e], rest) == SpellEntry(e, "}" + rest)
  {
    assert [e][1..] == [];
    hide SpellEntry, ValueOf, Characters;
  }

  lemma MoreEntries(e: Entry, more: seq<Entry>, rest: string)
    requires EntryOk(e) && more != [] && forall i | 0 <= i < |more| :: EntryOk(more[i])
    ensures var entries := [e] + more;
            && (forall i | 0 <= i < |entries| :: EntryOk(entries[i]))
            && EntryMembers(entries) == [Member(Characters(e.name), ValueOf(e.tree))] + EntryMembers(more)
            && SpellEntries(entries, rest) == SpellEntry(e, "," + SpellEntries(more, rest))
  {
    var entries := [e] + more;
    assert entries[1..] == more;
    forall i | 0 <= i < |entries| ensures EntryOk(entries[i]) { if i > 0 { assert entries[i] == more[i - 1]; } }
    hide SpellEntry, ValueOf, Characters, EntryOk;
  }

  /** The reader takes the member and goes on at the separator. */
  ghost predicate GoesOn(s: string, member: Member, close: string) {
    && close != "" && ReadMembers(s).Some?
    && (if close[0] == '}' then ReadMembers(s) == Some(([member], close[1..]))
        else && close[0] == ',' && |close| <= |s| && ReadMembers(close[1..]).Some?
             && ReadMembers(s).value.0 == [member] + ReadMembers(close[1..]).value.0
             && ReadMembers(s).value.1 == ReadMembers(close[1..]).value.1)
  }

  lemma EntryGoesOn(s: string, member: Member)
    requires ReadMembers(s).Some?
    requires member.name == ReadText(SkipBlank(s)).value.0
    requires member.value == ReadValue(SkipBlank(ReadText(SkipBlank(s)).value.1)[1..]).value.0
    ensures GoesOn(s, member, SkipBlank(ReadValue(SkipBlank(ReadText(SkipBlank(s)).value.1)[1..]).value.1))
  {
    var close := SkipBlank(ReadValue(SkipBlank(ReadText(SkipBlank(s)).value.1)[1..]).value.1);
    hide ReadText, ReadValue, SkipBlank;
    assert close != "" && (close[0] == '}' || close[0] == ',');
  }

  lemma MembersParts(s: string)
    requires ReadMembers(s).Some?
    ensures ReadText(SkipBlank(s)).Some? && |SkipBlank(s)| <= |s|
    ensures var colon := SkipBlank(ReadText(SkipBlank(s)).value.1);
            ":" <= colon && |colon| < |s| && ReadValue(colon[1..]).Some?
  {
    hide ReadText, ReadValue;
  }

  lemma EntryText(e: Entry, close: string)
    ensures SpellEntry(e, close)
         == e.before + Quoted(e.name, e.beforeColon + (":" + (e.afterColon + Spell(e.tree, e.after + close))))
  {
  }

  lemma MakeEntry(before: string, name: seq<Piece>, beforeColon: string, afterColon: string, tree: Tree, after: string)
    requires White(before) && White(beforeColon) && White(afterColon) && White(after)
    requires PiecesOk(name) && WellFormed(tree)
    ensures EntryOk(Entry(before, name, beforeColon, afterColon, tree, after))
  {
  }

  /** One entry up to the separator after it. */
  lemma {:induction false} EntrySpelled(s: string) returns (e: Entry, close: string)
    requires ReadMembers(s).Some?
    ensures EntryOk(e) && s == SpellEntry(e, close) && GoesOn(s, Member(Characters(e.name), ValueOf(e.tree)), close)
    decreases |s|, 4
  {
    MembersParts(s);
    hide ReadMembers, ReadText, ReadValue, SkipBlank, Spell, SpellEntry, Quoted, ValueOf, Characters, GoesOn,
        WellFormed, PiecesOk, White, EntryOk;
    var before := SkippedIsWhite(s);
    var quoted := SkipBlank(s);
    var name := TextSpelled(quoted);
    var afterName := ReadText(quoted).value.1;
    var beforeColon := SkippedIsWhite(afterName);
    var colon := SkipBlank(afterName);
    assert colon == ":" + colon[1..];
    var afterColon, tree := ReadIsSpelled(colon[1..]);
    var rest := ReadValue(colon[1..]).value.1;
    var after := SkippedIsWhite(rest);
    close := SkipBlank(rest);
    e := Entry(before, name, beforeColon, afterColon, tree, after);
    MakeEntry(before, name, beforeColon, afterColon, tree, after);
    EntryGoesOn(s, Member(Characters(name), ValueOf(tree)));
    EntryText(e, close);
  }

  lemma {:induction false} EntriesSpelled(s: string) returns (entries: seq<Entry>)
    requires ReadMembers(s).Some?
    ensures entries != [] && forall i | 0 <= i < |entries| :: EntryOk(entries[i])
    ensures s == SpellEntries(entries, ReadMembers(s).value.1) && EntryMembers(entries) == ReadMembers(s).value.0
    decreases |s|, 5
  {
    hide ReadMembers, SpellEntry, SpellEntries, EntryMembers, EntryOk, ValueOf, Characters;
    var e, close := EntrySpelled(s);
    assert close == [close[0]] + close[1..];
    if close[0] == '}' {
      entries := [e];
      OneEntry(e, close[1..]);
    } else {
      var more := EntriesSpelled(close[1..]);
      entries := [e] + more;
      MoreEntries(e, more, ReadMembers(close[1..]).value.1);
    }
  }

  // ----- Documents -----

  /** The text is white space, a text of the grammar for the value, and white space. */
  ghost predicate IsTextOf(s: string, v: Value) {
    exists before, t, after ::
      White(before) && White(after) && WellFormed(t) && s == before + Spell(t, after) && ValueOf(t) == v
  }

  lemma {:induction false} WhiteEnds(s: string)
    ensures White(s) <==> SkipBlank(s) == ""
  {
    if s != "" {
      WhiteIsBlank(s[0]);
      WhiteEnds(s[1..]);
      assert White(s) <==> s[0] as int in {32, 9, 10, 13} && White(s[1..]) by {
        assert s == [s[0]] + s[1..];
      }
    }
  }

  /** The reader accepts exactly the JSON texts, each for the value it stands for. */
  lemma ReadsExactly(s: string, v: Value)
    ensures ReadDocument(s) == Some(v) <==> IsTextOf(s, v)
  {
    if ReadDocument(s) == Some(v) {
      var before, t := ReadIsSpelled(s);
      WhiteEnds(ReadValue(s).value.1);
    }
    if IsTextOf(s, v) {
      var before, t, after :|
        White(before) && White(after) && WellFormed(t) && s == before + Spell(t, after) && ValueOf(t) == v;
      assert NumberOver(after);
      SpelledReads(t, after);
      WhiteBefore(before, Spell(t, after));
      WhiteEnds(after);
    }
    hide ReadValue, SkipBlank, Spell, WellFormed, ValueOf, White;
  }
}
