/** JSON strings as serde_json writes them and as any reader of section 7 of RFC 8259 reads them. */
module Json {
  import opened Wrappers
  import Phantom

  function HexValue(c: char): (r: Option<nat>)
    ensures r.Some? ==> r.value < 16
  {
    if '0' <= c <= '9' then Some(c as int - '0' as int)
    else if 'a' <= c <= 'f' then Some(c as int - 'a' as int + 10)
    else if 'A' <= c <= 'F' then Some(c as int - 'A' as int + 10)
    else None
  }

  /** The two-character escape of a character that has one. */
  function ShortEscape(c: char): Option<char> {
    match c
    case '"' => Some('"')
    case '\\' => Some('\\')
    case '\n' => Some('n')
    case '\r' => Some('r')
    case '\t' => Some('t')
    case '\U{8}' => Some('b')
    case '\U{c}' => Some('f')
    case _ => None
  }

  function Escape(c: char): (s: string)
    ensures s != ""
  {
    match ShortEscape(c)
    case Some(e) => ['\\', e]
    case None => if c as int < 0x20 then "\\u00" + Phantom.HexByte(c as int) else [c]
  }

  function EscapeAll(s: string): string {
    if s == "" then "" else Escape(s[0]) + EscapeAll(s[1..])
  }

  function PrintString(s: string): string { "\"" + EscapeAll(s) + "\"" }

  // ----- Reading -----

  function Unescape(e: char): Option<char> {
    match e
    case '"' => Some('"')
    case '\\' => Some('\\')
    case '/' => Some('/')
    case 'n' => Some('\n')
    case 'r' => Some('\r')
    case 't' => Some('\t')
    case 'b' => Some('\U{8}')
    case 'f' => Some('\U{c}')
    case _ => None
  }

  /** Four hexadecimal digits at the head of s. */
  function Hex4(s: string): (r: Option<nat>)
    ensures r.Some? ==> |s| >= 4 && r.value < 0x1_0000
  {
    if |s| < 4 then None
    else
      match (HexValue(s[0]), HexValue(s[1]), HexValue(s[2]), HexValue(s[3]))
      case (Some(a), Some(b), Some(c), Some(d)) => Some(((a * 16 + b) * 16 + c) * 16 + d)
      case _ => None
  }

  /** One character of a string body and how much input it took. A `\u` escape of a high
      surrogate must be followed by one of a low surrogate. */
  function ReadChar(s: string): (r: Option<(char, nat)>)
    requires s != ""
    ensures r.Some? ==> 1 <= r.value.1 <= |s|
  {
    if s[0] != '\\' then
      if s[0] == '"' || s[0] as int < 0x20 then None else Some((s[0], 1))
    else if |s| < 2 then None
    else if s[1] == 'u' then ReadUnicode(s)
    else
      match Unescape(s[1])
      case None => None
      case Some(c) => Some((c, 2))
  }

  function ReadUnicode(s: string): (r: Option<(char, nat)>)
    requires |s| >= 2
    ensures r.Some? ==> 1 <= r.value.1 <= |s|
  {
    match Hex4(s[2..])
    case None => None
    case Some(unit) =>
      if unit < 0xD800 || 0xE000 <= unit then Some((unit as char, 6))
      else if unit < 0xDC00 && |s| >= 8 && s[6] == '\\' && s[7] == 'u' then
        match Hex4(s[8..])
        case None => None
        case Some(low) =>
          if 0xDC00 <= low < 0xE000 then
            Some(((0x1_0000 + (unit - 0xD800) * 0x400 + (low - 0xDC00)) as char, 12))
          else None
      else None
  }

  /** The rest of a string body up to its closing quote, and the input after it. */
  function ReadBody(s: string): (r: Option<(string, string)>)
    ensures r.Some? ==> |r.value.1| < |s|
    decreases |s|
  {
    if s == "" then None
    else if s[0] == '"' then Some(("", s[1..]))
    else
      match ReadChar(s)
      case None => None
      case Some((c, width)) =>
        match ReadBody(s[width..])
        case None => None
        case Some((body, rest)) => Some(([c] + body, rest))
  }

  function ReadString(s: string): (r: Option<(string, string)>)
    ensures r.Some? ==> |r.value.1| < |s|
  {
    if "\"" <= s then ReadBody(s[1..]) else None
  }

  lemma HexDigitReads(n: nat)
    requires n < 16
    ensures HexValue(Phantom.HexDigit(n)) == Some(n)
  {
  }

  lemma HexPairReads(u: nat, s: string)
    requires u < 0x20 && |s| >= 6 && s[..4] == "\\u00" && s[4..6] == Phantom.HexByte(u)
    ensures ReadUnicode(s) == Some((u as char, 6))
  {
    HexDigitReads(u / 16);
    HexDigitReads(u % 16);
    assert s[2] == s[..4][2] && s[3] == s[..4][3];
    assert s[4] == s[4..6][0] && s[5] == s[4..6][1];
    assert s[2..][0] == s[2] && s[2..][1] == s[3] && s[2..][2] == s[4] && s[2..][3] == s[5];
  }

  lemma ReadEscaped(c: char, rest: string)
    ensures ReadChar(Escape(c) + rest) == Some((c, |Escape(c)|)) && Escape(c)[0] != '"'
  {
    hide ReadUnicode, Phantom.HexByte;
    var s := Escape(c) + rest;
    if ShortEscape(c).None? && c as int < 0x20 {
      assert s[..4] == "\\u00" && s[4..6] == Phantom.HexByte(c as int);
      HexPairReads(c as int, s);
    }
  }

  /** Reading undoes writing, whatever the content and whatever follows. */
  lemma {:induction false} ReadPrinted(s: string, rest: string)
    ensures ReadString(PrintString(s) + rest) == Some((s, rest))
  {
    assert (PrintString(s) + rest)[1..] == EscapeAll(s) + "\"" + rest;
    ReadBodyPrinted(s, rest);
  }

  lemma {:induction false} ReadBodyPrinted(s: string, rest: string)
    ensures ReadBody(EscapeAll(s) + "\"" + rest) == Some((s, rest))
  {
    hide Escape, ReadChar;
    var input := EscapeAll(s) + "\"" + rest;
    if s == "" {
      assert input == "\"" + rest;
    } else {
      var tail := EscapeAll(s[1..]) + "\"" + rest;
      assert input == Escape(s[0]) + tail;
      ReadEscaped(s[0], tail);
      assert input[|Escape(s[0])|..] == tail;
      ReadBodyPrinted(s[1..], rest);
      assert s == [s[0]] + s[1..];
    }
  }

  predicate Printable(s: string) { forall c | c in s :: c as int >= 0x20 }

  lemma DigitPrintable(n: nat)
    requires n < 16
    ensures Phantom.HexDigit(n) as int >= 0x20
  {
    HexDigitReads(n);
  }

  lemma EscapePrintable(c: char)
    ensures Printable(Escape(c))
  {
    if ShortEscape(c).None? && c as int < 0x20 {
      var h := Phantom.HexByte(c as int);
      DigitPrintable(c as int / 16);
      DigitPrintable(c as int % 16);
      hide Phantom.HexDigit;
      assert Escape(c) == ['\\', 'u', '0', '0', h[0], h[1]];
    }
  }

  /** No control character, and so no newline, survives into the written form. */
  lemma {:induction false} EscapedPrintable(s: string)
    ensures Printable(EscapeAll(s))
  {
    hide Escape;
    if s != "" {
      EscapedPrintable(s[1..]);
      EscapePrintable(s[0]);
    }
  }
}
