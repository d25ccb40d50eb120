/** JSON values: the grammar of RFC 8259 as serde_json reads it, and its compact writing. */
module JsonValue {
  import opened Wrappers
  import opened Json

  /** A string whose escapes name a lone surrogate is well-formed text, but no Rust string: it can only be skipped. */
  datatype Value =
    | Null
    | Bool(on: bool)
    | Num(literal: string)
    | Str(text: Option<string>)
    | Arr(items: seq<Value>)
    | Obj(members: seq<Member>)

  datatype Member = Member(name: Option<string>, value: Value)

  // ----- Reading -----

  predicate IsBlank(c: char) { c in " \t\n\r" }

  function SkipBlank(s: string): (r: string)
    ensures |r| <= |s|
    ensures r != "" ==> !IsBlank(r[0])
    ensures s == "" || !IsBlank(s[0]) ==> r == s
  {
    if s != "" && IsBlank(s[0]) then SkipBlank(s[1..]) else s
  }

  /** What follows a string body and its closing quote, whether or not its escapes name characters. */
  function SkipBody(s: string): (r: Option<string>)
    ensures r.Some? ==> |r.value| < |s|
    decreases |s|
  {
    if s == "" then None
    else if s[0] == '"' then Some(s[1..])
    else if s[0] as int < 0x20 then None
    else if s[0] != '\\' then SkipBody(s[1..])
    else if |s| < 2 then None
    else if s[1] == 'u' then if Hex4(s[2..]).Some? then SkipBody(s[6..]) else None
    else if Unescape(s[1]).Some? then SkipBody(s[2..])
    else None
  }

  function ReadText(s: string): (r: Option<(Option<string>, string)>)
    ensures r.Some? ==> |r.value.1| < |s|
  {
    if !("\"" <= s) then None
    else
      match SkipBody(s[1..])
      case None => None
      case Some(rest) => Some((match ReadString(s) case None => None case Some((text, _)) => Some(text), rest))
  }

  function Digits(s: string): (n: nat)
    ensures n <= |s|
    ensures forall i | 0 <= i < n :: '0' <= s[i] <= '9'
    ensures n < |s| ==> !('0' <= s[n] <= '9')
  {
    if s == "" || !('0' <= s[0] <= '9') then 0
    else
      1 + Digits(s[1..])
  }

  /** The length of an integer part: no superfluous leading zero. */
  function IntegerLength(s: string): (n: Option<nat>)
    ensures n.Some? ==> 1 <= n.value <= |s|
  {
    var n := Digits(s);
    if n == 0 || (n > 1 && s[0] == '0') then None else Some(n)
  }

  function FractionLength(s: string): (n: Option<nat>)
    ensures n.Some? ==> n.value <= |s|
  {
    if !("." <= s) then Some(0) else if Digits(s[1..]) == 0 then None else Some(1 + Digits(s[1..]))
  }

  function ExponentLength(s: string): (n: Option<nat>)
    ensures n.Some? ==> n.value <= |s|
  {
    if !("e" <= s || "E" <= s) then Some(0)
    else
      var sign := if "+" <= s[1..] || "-" <= s[1..] then 1 else 0;
      var n := Digits(s[1 + sign..]);
      if n == 0 then None else Some(1 + sign + n)
  }

  /** The length of a fraction and an exponent. */
  function TailLength(s: string): (n: Option<nat>)
    ensures n.Some? ==> n.value <= |s|
  {
    var fraction :- FractionLength(s);
    var exponent :- ExponentLength(s[fraction..]);
    Some(fraction + exponent)
  }

  function UnsignedLength(s: string): (n: Option<nat>)
    ensures n.Some? ==> 1 <= n.value <= |s|
  {
    var integer :- IntegerLength(s);
    var tail :- TailLength(s[integer..]);
    Some(integer + tail)
  }

  function NumberLength(s: string): (n: Option<nat>)
    ensures n.Some? ==> 1 <= n.value <= |s|
  {
    var sign := if "-" <= s then 1 else 0;
    var unsigned :- UnsignedLength(s[sign..]);
    Some(sign + unsigned)
  }

  function ReadNumber(s: string): (r: Option<(string, string)>)
    ensures r.Some? ==> |r.value.1| < |s|
  {
    var n :- NumberLength(s);
    Some((s[..n], s[n..]))
  }

  function ReadScalar(s: string): (r: Option<(Value, string)>)
    ensures r.Some? ==> |r.value.1| < |s|
    ensures r.Some? ==> !r.value.0.Arr? && !r.value.0.Obj?
  {
    if "\"" <= s then
      var (text, rest) :- ReadText(s);
      Some((Str(text), rest))
    else if "null" <= s then Some((Null, s[4..]))
    else if "true" <= s then Some((Bool(true), s[4..]))
    else if "false" <= s then Some((Bool(false), s[5..]))
    else
      var (literal, rest) :- ReadNumber(s);
      Some((Num(literal), rest))
  }

  function ReadValue(s: string): (r: Option<(Value, string)>)
    ensures r.Some? ==> |r.value.1| < |s|
    decreases |s|, 0
  {
    var t := SkipBlank(s);
    if "{" <= t then
      var u := SkipBlank(t[1..]);
      if "}" <= u then Some((Obj([]), u[1..]))
      else
        var (members, rest) :- ReadMembers(u);
        Some((Obj(members), rest))
    else if "[" <= t then
      var u := SkipBlank(t[1..]);
      if "]" <= u then Some((Arr([]), u[1..]))
      else
        var (items, rest) :- ReadItems(u);
        Some((Arr(items), rest))
    else ReadScalar(t)
  }

  /** One or more items and the closing bracket. */
  function ReadItems(s: string): (r: Option<(seq<Value>, string)>)
    ensures r.Some? ==> |r.value.1| < |s|
    decreases |s|, 1
  {
    var (item, rest) :- ReadValue(s);
    var t := SkipBlank(rest);
    if "]" <= t then Some(([item], t[1..]))
    else if "," <= t then
      var (more, last) :- ReadItems(t[1..]);
      Some(([item] + more, last))
    else None
  }

  /** One or more members and the closing brace. */
  function ReadMembers(s: string): (r: Option<(seq<Member>, string)>)
    ensures r.Some? ==> |r.value.1| < |s|
    decreases |s|, 1
  {
    var (name, afterName) :- ReadText(SkipBlank(s));
    var colon := SkipBlank(afterName);
    if !(":" <= colon) then None
    else
      var (value, rest) :- ReadValue(colon[1..]);
      var t := SkipBlank(rest);
      if "}" <= t then Some(([Member(name, value)], t[1..]))
      else if "," <= t then
        var (more, last) :- ReadMembers(t[1..]);
        Some(([Member(name, value)] + more, last))
      else None
  }

  /** `serde_json::from_str` up to the target type: one value, and only white space after it. */
  function ReadDocument(s: string): Option<Value> {
    var (value, rest) :- ReadValue(s);
    if SkipBlank(rest) == "" then Some(value) else None
  }

  // ----- Writing -----

  /** A literal of plain digits, as integers are written. */
  predicate PlainInteger(literal: string) {
    literal != "" && (forall c | c in literal :: '0' <= c <= '9') && (|literal| > 1 ==> literal[0] != '0')
  }

  /** The values the program writes: strings, plain integers, and nonempty or empty collections of them. */
  predicate Writable(v: Value) {
    match v
    case Null => true
    case Bool(_) => true
    case Num(literal) => PlainInteger(literal)
    case Str(text) => text.Some?
    case Arr(items) => forall i | 0 <= i < |items| :: Writable(items[i])
    case Obj(members) => forall i | 0 <= i < |members| :: members[i].name.Some? && Writable(members[i].value)
  }

  /** The compact writing of a value, and whatever follows it. */
  function Print(v: Value, rest: string): string
    requires Writable(v)
    decreases v, 0
  {
    match v
    case Null => "null" + rest
    case Bool(on) => (if on then "true" else "false") + rest
    case Num(literal) => literal + rest
    case Str(text) => PrintString(text.value) + rest
    case Arr(items) => if items == [] then "[]" + rest else "[" + PrintItems(items, rest)
    case Obj(members) => if members == [] then "{}" + rest else "{" + PrintMembers(members, rest)
  }

  function PrintItems(items: seq<Value>, rest: string): string
    requires items != [] && forall i | 0 <= i < |items| :: Writable(items[i])
    decreases items, 1
  {
    Print(items[0], if |items| == 1 then "]" + rest else "," + PrintItems(items[1..], rest))
  }

  function PrintMembers(members: seq<Member>, rest: string): string
    requires members != [] && forall i | 0 <= i < |members| :: members[i].name.Some? && Writable(members[i].value)
    decreases members, 1
  {
    PrintMember(members[0], if |members| == 1 then "}" + rest else "," + PrintMembers(members[1..], rest))
  }

  function PrintMember(member: Member, rest: string): string
    requires member.name.Some? && Writable(member.value)
    decreases member, 1
  {
    PrintString(member.name.value) + (":" + Print(member.value, rest))
  }

  // ----- Reading undoes writing -----

  lemma SkipStep(s: string)
    requires s != "" && s[0] != '"' && ReadChar(s).Some?
    ensures SkipBody(s) == SkipBody(s[ReadChar(s).value.1..])
  {
    if s[0] == '\\' && s[1] == 'u' && ReadChar(s).value.1 == 12 {
      var t := s[6..];
      assert t[0] == '\\' && t[1] == 'u' && t[2..] == s[8..] && t[6..] == s[12..];
    }
  }

  /** What can be read can be skipped. */
  lemma {:induction false} ReadableSkips(s: string)
    requires ReadBody(s).Some?
    ensures SkipBody(s) == Some(ReadBody(s).value.1)
    decreases |s|
  {
    hide ReadChar, SkipBody;
    if s[0] == '"' {
      SkipEnd(s);
    } else {
      SkipStep(s);
      ReadableSkips(s[ReadChar(s).value.1..]);
    }
  }

  lemma SkipEnd(s: string)
    requires s != "" && s[0] == '"'
    ensures SkipBody(s) == Some(s[1..])
  {
  }

  lemma ReadPrintedText(s: string, rest: string)
    ensures ReadText(PrintString(s) + rest) == Some((Some(s), rest))
  {
    ReadPrinted(s, rest);
    hide ReadBody, SkipBody;
    ReadableSkips((PrintString(s) + rest)[1..]);
  }

  /** What may follow a number without becoming part of it. */
  predicate Delimited(rest: string) { rest == "" || rest[0] in ",]} \t\n\r" }

  lemma {:induction false} DigitsEnd(literal: string, rest: string)
    requires (forall c | c in literal :: '0' <= c <= '9') && Delimited(rest)
    ensures Digits(literal + rest) == |literal|
  {
    if literal == "" {
      assert literal + rest == rest;
    } else {
      assert literal[0] in literal && forall c | c in literal[1..] :: c in literal;
      assert (literal + rest)[1..] == literal[1..] + rest;
      DigitsEnd(literal[1..], rest);
    }
  }

  lemma IntegerEnds(literal: string, rest: string)
    requires PlainInteger(literal) && Delimited(rest)
    ensures literal[0] != '-' && IntegerLength(literal + rest) == Some(|literal|)
  {
    DigitsEnd(literal, rest);
    hide Digits;
    assert literal[0] in literal && (literal + rest)[0] == literal[0];
  }

  lemma NothingAfterNumber(rest: string)
    requires Delimited(rest)
    ensures FractionLength(rest) == Some(0) && ExponentLength(rest) == Some(0)
  {
    hide Digits;
  }

  lemma NumberEnds(literal: string, rest: string)
    requires PlainInteger(literal) && Delimited(rest)
    ensures ReadNumber(literal + rest) == Some((literal, rest))
  {
    IntegerEnds(literal, rest);
    NothingAfterNumber(rest);
    hide PlainInteger, Delimited, IntegerLength, FractionLength, ExponentLength;
    var s, n := literal + rest, |literal|;
    assert s[0] == literal[0];
    assert s[0..] == s && s[n..] == rest && s[..n] == literal;
  }

  lemma ReadPlainInteger(literal: string, rest: string)
    requires PlainInteger(literal) && Delimited(rest)
    ensures ReadScalar(literal + rest) == Some((Num(literal), rest))
    ensures '0' <= (literal + rest)[0] <= '9'
  {
    hide ReadNumber, ReadText, Delimited;
    NumberEnds(literal, rest);
    assert literal[0] in literal && (literal + rest)[0] == literal[0];
    assert "null"[0] == 'n' && "true"[0] == 't' && "false"[0] == 'f';
  }

  lemma BlankFree(s: string)
    requires s != "" && !IsBlank(s[0])
    ensures SkipBlank(s) == s
  {
  }

  predicate Scalar(v: Value) { !v.Arr? && !v.Obj? }

  /** A written value starts with a character of its own. */
  lemma PrintStarts(v: Value, rest: string)
    requires Writable(v)
    ensures var s := Print(v, rest);
            s != "" && !IsBlank(s[0]) && s[0] !in "]},:" && (v.Obj? <==> s[0] == '{') && (v.Arr? <==> s[0] == '[')
  {
    match v
    case Num(literal) => assert literal[0] in literal;
    case _ =>
  }

  lemma ReadPrintedScalar(v: Value, rest: string)
    requires Writable(v) && Scalar(v) && (v.Num? ==> Delimited(rest))
    ensures ReadScalar(Print(v, rest)) == Some((v, rest))
  {
    hide ReadText, ReadNumber;
    match v
    case Num(literal) => ReadPlainInteger(literal, rest);
    case Str(text) => ReadPrintedText(text.value, rest);
    case Null => assert ("null" + rest)[4..] == rest && ("null" + rest)[0] == 'n';
    case Bool(on) =>
      if on {
        assert ("true" + rest)[4..] == rest && ("true" + rest)[0] == 't';
      } else {
        assert ("false" + rest)[5..] == rest && ("false" + rest)[0] == 'f';
      }
  }

  /** Reading undoes writing for every writable value, whatever follows it. */
  lemma {:induction false} ReadPrintedValue(v: Value, rest: string)
    requires Writable(v) && (v.Num? ==> Delimited(rest))
    ensures ReadValue(Print(v, rest)) == Some((v, rest))
    decreases v, 0
  {
    hide ReadScalar;
    var s := Print(v, rest);
    PrintStarts(v, rest);
    BlankFree(s);
    match v {
      case Arr(items) =>
        if items == [] {
          EmptyReads(s, "[]", rest);
        } else {
          PrintStarts(items[0], ItemClose(items, rest));
          assert s[1..] == PrintItems(items, rest);
          BlankFree(s[1..]);
          ReadPrintedItems(items, rest);
        }
      case Obj(members) =>
        if members == [] {
          EmptyReads(s, "{}", rest);
        } else {
          assert s[1..] == PrintMembers(members, rest);
          BlankFree(s[1..]);
          ReadPrintedMembers(members, rest);
        }
      case _ => ReadPrintedScalar(v, rest);
    }
  }

  lemma EmptyReads(s: string, brackets: string, rest: string)
    requires s == brackets + rest && (brackets == "[]" || brackets == "{}")
    ensures SkipBlank(s[1..]) == s[1..] && s[1..] == [brackets[1]] + rest && s[1..][1..] == rest
  {
  }

  function ItemClose(items: seq<Value>, rest: string): string
    requires items != [] && forall i | 0 <= i < |items| :: Writable(items[i])
  {
    if |items| == 1 then "]" + rest else "," + PrintItems(items[1..], rest)
  }

  lemma LastItem(s: string, item: Value, close: string)
    requires ReadValue(s) == Some((item, close)) && "]" <= SkipBlank(close)
    ensures ReadItems(s) == Some(([item], SkipBlank(close)[1..]))
  {
    hide ReadValue, SkipBlank;
  }

  lemma NextItem(s: string, item: Value, close: string, more: seq<Value>, last: string)
    requires ReadValue(s) == Some((item, close)) && "," <= SkipBlank(close)
    requires ReadItems(SkipBlank(close)[1..]) == Some((more, last))
    ensures ReadItems(s) == Some(([item] + more, last))
  {
    hide ReadValue, SkipBlank;
    assert SkipBlank(close)[0] == ',';
  }

  lemma {:induction false} ReadPrintedItems(items: seq<Value>, rest: string)
    requires items != [] && forall i | 0 <= i < |items| :: Writable(items[i])
    ensures ReadItems(PrintItems(items, rest)) == Some((items, rest))
    decreases items, 1
  {
    hide ReadValue, ReadItems, Print;
    var s, close := PrintItems(items, rest), ItemClose(items, rest);
    ReadPrintedValue(items[0], close);
    BlankFree(close);
    if |items| == 1 {
      assert close[1..] == rest && items == [items[0]];
      LastItem(s, items[0], close);
    } else {
      assert close[1..] == PrintItems(items[1..], rest);
      ReadPrintedItems(items[1..], rest);
      assert items == [items[0]] + items[1..];
      NextItem(s, items[0], close, items[1..], rest);
    }
  }

  function MemberClose(members: seq<Member>, rest: string): string
    requires members != [] && forall i | 0 <= i < |members| :: members[i].name.Some? && Writable(members[i].value)
  {
    if |members| == 1 then "}" + rest else "," + PrintMembers(members[1..], rest)
  }

  /** One member, up to the character after its value. */
  predicate MemberRead(s: string, member: Member, close: string) {
    && ReadText(SkipBlank(s)).Some? && ReadText(SkipBlank(s)).value.0 == member.name
    && var colon := SkipBlank(ReadText(SkipBlank(s)).value.1);
       ":" <= colon && ReadValue(colon[1..]) == Some((member.value, close))
  }

  lemma LastMember(s: string, member: Member, close: string)
    requires MemberRead(s, member, close) && "}" <= SkipBlank(close)
    ensures ReadMembers(s) == Some(([member], SkipBlank(close)[1..]))
  {
    hide ReadText, ReadValue, SkipBlank;
  }

  lemma NextMember(s: string, member: Member, close: string, more: seq<Member>, last: string)
    requires MemberRead(s, member, close) && "," <= SkipBlank(close)
    requires ReadMembers(SkipBlank(close)[1..]) == Some((more, last))
    ensures ReadMembers(s) == Some(([member] + more, last))
  {
    hide ReadText, ReadValue, SkipBlank;
    assert SkipBlank(close)[0] == ',';
  }

  lemma {:induction false} ReadPrintedMember(member: Member, close: string)
    requires member.name.Some? && Writable(member.value) && Delimited(close)
    ensures SkipBlank(PrintMember(member, close)) == PrintMember(member, close)
    ensures MemberRead(PrintMember(member, close), member, close)
    decreases member, 0
  {
    var tail := ":" + Print(member.value, close);
    ReadPrintedText(member.name.value, tail);
    ReadPrintedValue(member.value, close);
    hide ReadText, ReadValue, Print;
    BlankFree(PrintMember(member, close));
    BlankFree(tail);
    hide SkipBlank;
    assert tail[1..] == Print(member.value, close);
  }

  lemma {:induction false} ReadPrintedMembers(members: seq<Member>, rest: string)
    requires members != [] && forall i | 0 <= i < |members| :: members[i].name.Some? && Writable(members[i].value)
    ensures ReadMembers(PrintMembers(members, rest)) == Some((members, rest))
    decreases members, 1
  {
    hide ReadMembers, MemberRead, PrintMember;
    var s, close := PrintMembers(members, rest), MemberClose(members, rest);
    ReadPrintedMember(members[0], close);
    BlankFree(close);
    if |members| == 1 {
      assert close[1..] == rest && members == [members[0]];
      LastMember(s, members[0], close);
    } else {
      assert close[1..] == PrintMembers(members[1..], rest);
      ReadPrintedMembers(members[1..], rest);
      assert members == [members[0]] + members[1..];
      NextMember(s, members[0], close, members[1..], rest);
    }
  }

  lemma {:induction false} PrintAppend(v: Value, rest: string, after: string)
    requires Writable(v)
    ensures Print(v, rest) + after == Print(v, rest + after)
    decreases v, 0
  {
    match v {
      case Arr(items) => if items != [] { PrintItemsAppend(items, rest, after); }
      case Obj(members) => if members != [] { PrintMembersAppend(members, rest, after); }
      case _ =>
    }
  }

  lemma {:induction false} PrintItemsAppend(items: seq<Value>, rest: string, after: string)
    requires items != [] && forall i | 0 <= i < |items| :: Writable(items[i])
    ensures PrintItems(items, rest) + after == PrintItems(items, rest + after)
    decreases items, 1
  {
    hide Print;
    PrintAppend(items[0], ItemClose(items, rest), after);
    if |items| == 1 {
      assert "]" + rest + after == "]" + (rest + after);
    } else {
      PrintItemsAppend(items[1..], rest, after);
      var more := PrintItems(items[1..], rest);
      assert "," + more + after == "," + (more + after);
    }
  }

  lemma {:induction false} PrintMemberAppend(member: Member, close: string, after: string)
    requires member.name.Some? && Writable(member.value)
    ensures PrintMember(member, close) + after == PrintMember(member, close + after)
    decreases member, 0
  {
    PrintAppend(member.value, close, after);
    hide Print, PrintString;
    var name, value := PrintString(member.name.value), Print(member.value, close);
    assert name + (":" + value) + after == name + (":" + (value + after));
  }

  lemma {:induction false} PrintMembersAppend(members: seq<Member>, rest: string, after: string)
    requires members != [] && forall i | 0 <= i < |members| :: members[i].name.Some? && Writable(members[i].value)
    ensures PrintMembers(members, rest) + after == PrintMembers(members, rest + after)
    decreases members, 1
  {
    hide PrintMember;
    PrintMemberAppend(members[0], MemberClose(members, rest), after);
    if |members| == 1 {
      assert "}" + rest + after == "}" + (rest + after);
    } else {
      PrintMembersAppend(members[1..], rest, after);
      var more := PrintMembers(members[1..], rest);
      assert "," + more + after == "," + (more + after);
    }
  }

  predicate Blank(s: string) { forall c | c in s :: IsBlank(c) }

  lemma {:induction false} BlankSkipped(s: string)
    ensures SkipBlank(s) == "" <==> Blank(s)
  {
    if s != "" {
      assert s[0] in s && s == [s[0]] + s[1..];
      BlankSkipped(s[1..]);
    }
  }

  /** A written collection is read back whole, with any white space after it. */
  lemma ReadPrintedDocument(v: Value, after: string)
    requires Writable(v) && Blank(after)
    ensures ReadDocument(Print(v, "") + after) == Some(v)
  {
    PrintAppend(v, "", after);
    assert "" + after == after;
    assert after != "" ==> after[0] in after;
    ReadPrintedValue(v, after);
    BlankSkipped(after);
  }

  // ----- What writing leaves out -----

  lemma {:induction false} PrintedPlain(v: Value, rest: string)
    requires Writable(v) && Printable(rest)
    ensures Printable(Print(v, rest))
    decreases v, 0
  {
    match v {
      case Arr(items) => if items != [] { ItemsPlain(items, rest); }
      case Obj(members) => if members != [] { MembersPlain(members, rest); }
      case Str(text) => TextPlain(text.value, rest);
      case _ =>
    }
  }

  lemma TextPlain(s: string, rest: string)
    requires Printable(rest)
    ensures Printable(PrintString(s) + rest)
  {
    EscapedPrintable(s);
    hide EscapeAll;
  }

  lemma {:induction false} ItemsPlain(items: seq<Value>, rest: string)
    requires items != [] && (forall i | 0 <= i < |items| :: Writable(items[i])) && Printable(rest)
    ensures Printable(PrintItems(items, rest))
    decreases items, 1
  {
    if |items| > 1 { ItemsPlain(items[1..], rest); }
    hide Print;
    assert Printable(ItemClose(items, rest));
    PrintedPlain(items[0], ItemClose(items, rest));
  }

  lemma {:induction false} MemberPlain(member: Member, close: string)
    requires member.name.Some? && Writable(member.value) && Printable(close)
    ensures Printable(PrintMember(member, close))
    decreases member, 0
  {
    PrintedPlain(member.value, close);
    hide Print;
    TextPlain(member.name.value, ":" + Print(member.value, close));
  }

  lemma {:induction false} MembersPlain(members: seq<Member>, rest: string)
    requires members != [] && (forall i | 0 <= i < |members| :: members[i].name.Some? && Writable(members[i].value))
    requires Printable(rest)
    ensures Printable(PrintMembers(members, rest))
    decreases members, 1
  {
    if |members| > 1 { MembersPlain(members[1..], rest); }
    hide PrintMember;
    assert Printable(MemberClose(members, rest));
    MemberPlain(members[0], MemberClose(members, rest));
  }

  // ----- Structs -----

  /** The values given under a name, in order. */
  function Given(members: seq<Member>, name: string): seq<Value> {
    if members == [] then []
    else
      var before, last := Given(members[..|members| - 1], name), members[|members| - 1];
      if last.name == Some(name) then before + [last.value] else before
  }

  predicate Named(members: seq<Member>) { forall m | m in members :: m.name.Some? }

  /** Every field is given exactly once. */
  predicate Complete(members: seq<Member>, names: seq<string>) {
    Named(members) && forall i | 0 <= i < |names| :: |Given(members, names[i])| == 1
  }

  /** What a derived struct reader takes for its fields: from an object, each field given exactly once, in any order
      and among others it does not know; from an array, one item per field. */
  function Fields(v: Value, names: seq<string>): (r: Option<seq<Value>>)
    ensures r.Some? ==> |r.value| == |names|
  {
    match v
    case Obj(members) =>
      if Complete(members, names) then
        Some(seq(|names|, i requires 0 <= i < |names| && Complete(members, names) => Given(members, names[i])[0]))
      else None
    case Arr(items) => if |items| == |names| then Some(items) else None
    case _ => None
  }

  /** Position k is the one member of the name. */
  ghost predicate OnlyMember(members: seq<Member>, name: string, k: int) {
    && 0 <= k < |members| && members[k].name == Some(name)
    && forall j | 0 <= j < |members| && members[j].name == Some(name) :: j == k
  }

  lemma {:induction false} GivenOnly(members: seq<Member>, name: string)
    ensures |Given(members, name)| == 1 <==> exists k :: OnlyMember(members, name, k)
    ensures forall k | OnlyMember(members, name, k) :: Given(members, name) == [members[k].value]
  {
    forall k | OnlyMember(members, name, k) ensures Given(members, name) == [members[k].value] {
      GivenSole(members, k, name);
    }
    if |Given(members, name)| == 1 {
      var k := SoleGiven(members, name);
    }
  }

  lemma {:induction false} SoleGiven(members: seq<Member>, name: string) returns (k: int)
    requires |Given(members, name)| == 1
    ensures OnlyMember(members, name, k)
  {
    var n := |members| - 1;
    var front := members[..n];
    if members[n].name == Some(name) {
      k := n;
      forall j | 0 <= j < n ensures members[j].name != Some(name) {
        if members[j].name == Some(name) { GivenOnce(front, j); }
      }
    } else {
      k := SoleGiven(front, name);
      assert OnlyMember(front, name, k);
      assert forall j | 0 <= j < n :: members[j] == front[j];
    }
  }

  /** The fields are exactly these: of an object whose names are all texts, each the value of the one member of its
      name; of an array, its items. */
  ghost predicate FieldsAre(v: Value, names: seq<string>, values: seq<Value>) {
    && |values| == |names|
    && match v
       case Obj(members) =>
         && (forall k | 0 <= k < |members| :: members[k].name.Some?)
         && forall i | 0 <= i < |names| ::
              exists k :: OnlyMember(members, names[i], k) && members[k].value == values[i]
       case Arr(items) => items == values
       case _ => false
  }

  lemma FieldsExactly(v: Value, names: seq<string>, values: seq<Value>)
    ensures Fields(v, names) == Some(values) <==> FieldsAre(v, names, values)
  {
    if v.Obj? {
      var members := v.members;
      assert Named(members) <==> forall k | 0 <= k < |members| :: members[k].name.Some? by {
        assert forall k | 0 <= k < |members| :: members[k] in members;
      }
      forall i | 0 <= i < |names|
        ensures |Given(members, names[i])| == 1 <==> exists k :: OnlyMember(members, names[i], k)
        ensures forall k | OnlyMember(members, names[i], k) :: Given(members, names[i]) == [members[k].value]
      {
        GivenOnly(members, names[i]);
      }
      hide Given, Named;
      if FieldsAre(v, names, values) {
        forall i | 0 <= i < |names|
          ensures |Given(members, names[i])| == 1 && Given(members, names[i])[0] == values[i]
        {
          var k :| OnlyMember(members, names[i], k) && members[k].value == values[i];
        }
        assert Fields(v, names).value == values;
      }
      if Fields(v, names) == Some(values) {
        forall i | 0 <= i < |names|
          ensures exists k :: OnlyMember(members, names[i], k) && members[k].value == values[i]
        {
          assert |Given(members, names[i])| == 1 && values[i] == Given(members, names[i])[0];
        }
      }
    }
  }

  lemma {:induction false} GivenCount(members: seq<Member>, name: string, v: Value)
    ensures multiset(Given(members, name))[v] == multiset(members)[Member(Some(name), v)]
  {
    if members != [] {
      var front, last := members[..|members| - 1], members[|members| - 1];
      assert members == front + [last];
      GivenCount(front, name, v);
    }
  }

  lemma GivenPermuted(a: seq<Member>, b: seq<Member>, name: string)
    requires multiset(a) == multiset(b)
    ensures |Given(a, name)| == |Given(b, name)|
    ensures |Given(a, name)| == 1 ==> Given(a, name) == Given(b, name)
  {
    var x, y := Given(a, name), Given(b, name);
    forall v ensures multiset(x)[v] == multiset(y)[v] {
      GivenCount(a, name, v);
      GivenCount(b, name, v);
    }
    hide Given;
    assert multiset(x) == multiset(y);
    assert |x| == |multiset(x)| && |y| == |multiset(y)|;
    if |x| == 1 { assert x[0] in multiset(y); }
  }

  /** The order of an object's members does not matter. */
  lemma MemberOrderFree(a: seq<Member>, b: seq<Member>, names: seq<string>)
    requires multiset(a) == multiset(b)
    ensures Fields(Obj(a), names) == Fields(Obj(b), names)
  {
    forall m ensures m in a <==> m in b {
      assert m in a <==> m in multiset(a);
      assert m in b <==> m in multiset(b);
    }
    forall i | 0 <= i < |names|
      ensures |Given(a, names[i])| == |Given(b, names[i])|
      ensures |Given(a, names[i])| == 1 ==> Given(a, names[i]) == Given(b, names[i])
    {
      GivenPermuted(a, b, names[i]);
    }
    assert Named(a) <==> Named(b);
    SameFields(a, b, names);
  }

  lemma SameFields(a: seq<Member>, b: seq<Member>, names: seq<string>)
    requires Named(a) <==> Named(b)
    requires forall i | 0 <= i < |names| :: |Given(a, names[i])| == |Given(b, names[i])|
    requires forall i | 0 <= i < |names| :: |Given(a, names[i])| == 1 ==> Given(a, names[i]) == Given(b, names[i])
    ensures Fields(Obj(a), names) == Fields(Obj(b), names)
  {
    hide Given, Named;
    assert Complete(a, names) <==> Complete(b, names);
    if Complete(a, names) {
      var x, y := Fields(Obj(a), names).value, Fields(Obj(b), names).value;
      forall i | 0 <= i < |names| ensures x[i] == y[i] {
      }
      assert x == y;
    }
  }

  /** Nor does a member whose name is none of the fields. */
  lemma UnknownIgnored(members: seq<Member>, m: Member, names: seq<string>)
    requires m.name.Some? && m.name.value !in names
    ensures Fields(Obj(members + [m]), names) == Fields(Obj(members), names)
  {
    assert (members + [m])[..|members|] == members;
    forall i | 0 <= i < |names| ensures Given(members + [m], names[i]) == Given(members, names[i]) {
      assert names[i] in names;
    }
    assert Named(members + [m]) <==> Named(members) by {
      assert forall x :: x in members + [m] <==> x in members || x == m;
    }
    SameFields(members + [m], members, names);
  }

  /** A field given twice makes the object unreadable. */
  lemma RepeatedRefused(members: seq<Member>, names: seq<string>, i: nat, j: nat)
    requires i < j < |members| && members[i].name == members[j].name && members[i].name.Some?
    requires members[i].name.value in names
    ensures Fields(Obj(members), names) == None
  {
    GivenTwice(members, i, j);
    var k :| 0 <= k < |names| && names[k] == members[i].name.value;
  }

  lemma {:induction false} GivenTwice(members: seq<Member>, i: nat, j: nat)
    requires i < j < |members| && members[i].name == members[j].name && members[i].name.Some?
    ensures |Given(members, members[i].name.value)| >= 2
  {
    var n := |members| - 1;
    if j < n {
      GivenTwice(members[..n], i, j);
    } else {
      GivenOnce(members[..n], i);
    }
  }

  lemma {:induction false} GivenOnce(members: seq<Member>, i: nat)
    requires i < |members| && members[i].name.Some?
    ensures |Given(members, members[i].name.value)| >= 1
  {
    var n := |members| - 1;
    if i < n {
      GivenOnce(members[..n], i);
    }
  }

  /** What a derived struct writer writes. */
  function StructOf(names: seq<string>, values: seq<Value>): Value
    requires |names| == |values|
  {
    Obj(seq(|names|, i requires 0 <= i < |names| => Member(Some(names[i]), values[i])))
  }

  lemma {:induction false} GivenNone(members: seq<Member>, name: string)
    requires forall m | m in members :: m.name != Some(name)
    ensures Given(members, name) == []
  {
    if members != [] {
      var n := |members| - 1;
      assert members[n] in members && forall m | m in members[..n] :: m in members;
      GivenNone(members[..n], name);
    }
  }

  lemma {:induction false} GivenSole(members: seq<Member>, i: nat, name: string)
    requires i < |members| && members[i].name == Some(name)
    requires forall j | 0 <= j < |members| && j != i :: members[j].name != Some(name)
    ensures Given(members, name) == [members[i].value]
  {
    var n := |members| - 1;
    if i == n {
      GivenNone(members[..n], name);
    } else {
      GivenSole(members[..n], i, name);
    }
  }

  /** A written struct gives its fields back. */
  lemma StructReadsBack(names: seq<string>, values: seq<Value>)
    requires |names| == |values| && forall i, j | 0 <= i < j < |names| :: names[i] != names[j]
    ensures Fields(StructOf(names, values), names) == Some(values)
  {
    var members := StructOf(names, values).members;
    forall i | 0 <= i < |names| ensures Given(members, names[i]) == [values[i]] {
      forall j | 0 <= j < |names| && j != i ensures members[j].name != Some(names[i]) {
        assert names[j] != names[i] by {
          if j < i { assert names[j] != names[i]; } else { assert names[i] != names[j]; }
        }
      }
      GivenSole(members, i, names[i]);
    }
    hide Given;
    var fields := Fields(StructOf(names, values), names).value;
    forall i | 0 <= i < |names| ensures fields[i] == values[i] {
    }
    assert fields == values;
  }
}
