/** The byte streams between supervisor and proxy: one line each way
    (`run_proxy_mode` in src/proxy.rs, `Sidecar::start` in src/sidecar.rs). */
module Readiness {
  import opened Wrappers
  import opened Utf8
  import opened Text
  import opened Json
  import J = JsonValue
  import JsonText

  /** What `read_line` takes from a stream: everything through the first newline, or all of it. */
  function LineOf(stream: seq<byte>): (line: seq<byte>)
    ensures line <= stream
  {
    if stream == [] then []
    else if stream[0] == 0x0A then [0x0A]
    else [stream[0]] + LineOf(stream[1..])
  }

  lemma {:induction false} LineStopsAtNewline(body: seq<byte>, rest: seq<byte>)
    requires 0x0A !in body
    ensures LineOf(body + [0x0A] + rest) == body + [0x0A]
  {
    if body == [] {
      assert ([0x0A] + rest)[0] == 0x0A;
      assert body + [0x0A] + rest == [0x0A] + rest;
    } else {
      assert (body + [0x0A] + rest)[1..] == body[1..] + [0x0A] + rest;
      LineStopsAtNewline(body[1..], rest);
    }
  }

  lemma {:induction false} LineWhole(stream: seq<byte>)
    requires 0x0A !in stream
    ensures LineOf(stream) == stream
  {
    if stream != [] {
      LineWhole(stream[1..]);
    }
  }

  /** A one-line text and its newline arrive whole, whatever the stream holds after them. */
  lemma FramedLineArrives(text: string, rest: seq<byte>)
    requires '\n' !in text
    ensures LineOf(Encode(text) + [0x0A] + rest) == Encode(text + "\n")
    ensures Decode(LineOf(Encode(text) + [0x0A] + rest)) == Some(text + "\n")
  {
    AsciiBytes(text, 0x0A);
    LineStopsAtNewline(Encode(text), rest);
    assert "\n"[1..] == "";
    assert Encode("\n") == [0x0A];
    EncodeConcat(text, "\n");
    DecodeEncode(text + "\n");
  }

  /** `{{"port":{}}}` */
  function PrintReadiness(port: nat): string { "{\"port\":" + Decimal(port) + "}" }

  /** What `run_proxy_mode` writes when its listener has the port. */
  function Announced(port: nat): seq<byte> { Encode(PrintReadiness(port) + "\n") }

  function TrimEnd(s: string): string {
    if s != "" && IsWhitespace(s[|s| - 1]) then TrimEnd(s[..|s| - 1]) else s
  }

  /** It drops white space at the end, all of it and nothing else. */
  lemma {:induction false} TrimEndExactly(s: string) returns (k: nat)
    ensures TrimsTo(s, k) && TrimEnd(s) == s[..k]
  {
    hide IsWhitespace;
    if s != "" && IsWhitespace(s[|s| - 1]) {
      k := TrimEndExactly(s[..|s| - 1]);
    } else {
      k := |s|;
    }
  }

  /** A line is taken up to and with its first newline, or to the end of the stream. */
  ghost predicate FirstLine(stream: seq<byte>, line: seq<byte>) {
    && line <= stream
    && (forall i | 0 <= i < |line| - 1 :: line[i] != 10)
    && (line == stream || (line != [] && line[|line| - 1] == 10))
    && (line == [] ==> stream == [])
  }

  lemma {:induction false} LineExactly(stream: seq<byte>, line: seq<byte>)
    ensures line == LineOf(stream) <==> FirstLine(stream, line)
  {
    if stream != [] && stream[0] != 10 {
      if line != [] {
        LineExactly(stream[1..], line[1..]);
        assert LineOf(stream) == [stream[0]] + LineOf(stream[1..]);
        if line == LineOf(stream) {
          assert line[1..] == LineOf(stream[1..]);
          LineStarts(stream, line);
        }
        if FirstLine(stream, line) {
          TailLine(stream, line);
          assert line == [line[0]] + line[1..];
        }
      }
    }
  }

  lemma LineStarts(stream: seq<byte>, line: seq<byte>)
    requires stream != [] && line != [] && stream[0] == line[0] != 10 && FirstLine(stream[1..], line[1..])
    ensures FirstLine(stream, line)
  {
    assert stream == [stream[0]] + stream[1..] && line == [line[0]] + line[1..];
  }

  lemma TailLine(stream: seq<byte>, line: seq<byte>)
    requires stream != [] && line != [] && stream[0] != 10 && FirstLine(stream, line)
    ensures stream[0] == line[0] && FirstLine(stream[1..], line[1..])
  {
    assert line[0] == stream[0];
    if line == [line[0]] {
      assert line == stream;
    }
  }

  const FIELDS := ["port"]

  /** A JSON number as a u16: plain digits within range, no sign, fraction or exponent. */
  function PortOf(v: J.Value): (r: Option<nat>)
    ensures r.Some? ==> r.value < 0x1_0000
  {
    var f :- J.Fields(v, FIELDS);
    if f[0].Num? then
      var port :- ParseDigits(0, f[0].literal, 0x1_0000);
      if port < 0x1_0000 then Some(port) else None
    else None
  }

  /** Deserializing the readiness object. */
  function ReadReadiness(s: string): (r: Option<nat>)
    ensures r.Some? ==> r.value < 0x1_0000
  {
    var v :- J.ReadDocument(s);
    PortOf(v)
  }

  /** All white space at the end of the text is what follows position k. */
  ghost predicate TrimsTo(text: string, k: int) {
    && 0 <= k <= |text| && (forall i | k <= i < |text| :: IsWhitespace(text[i]))
    && (k > 0 ==> !IsWhitespace(text[k - 1]))
  }

  /** Once white space at its end is gone, the text is a JSON document with one port: digits below 65536. */
  ghost predicate IsReadiness(text: string, port: nat) {
    exists k: nat, digits: string ::
      && TrimsTo(text, k)
      && AllDigits(digits) && Numeral(digits) == port < 65536
      && PortDocument(text[..k], digits)
  }

  ghost predicate PortDocument(text: string, digits: string) {
    exists v :: JsonText.IsTextOf(text, v) && J.FieldsAre(v, ["port"], [J.Num(digits)])
  }

  lemma PortDocumentExactly(text: string, digits: string)
    ensures PortDocument(text, digits)
       <==> J.ReadDocument(text).Some? && J.Fields(J.ReadDocument(text).value, FIELDS) == Some([J.Num(digits)])
  {
    forall v ensures J.ReadDocument(text) == Some(v) <==> JsonText.IsTextOf(text, v) { JsonText.ReadsExactly(text, v); }
    if J.ReadDocument(text).Some? { J.FieldsExactly(J.ReadDocument(text).value, FIELDS, [J.Num(digits)]); }
    hide J.ReadDocument, JsonText.IsTextOf, J.Fields, J.FieldsAre;
  }

  lemma {:induction false} ParsedDigits(acc: nat, s: string, bound: nat)
    requires ParseDigits(acc, s, bound).Some?
    ensures AllDigits(s)
    decreases |s|
  {
    if s != "" {
      assert s == [s[0]] + s[1..];
      ParsedDigits(acc * 10 + Digit(s[0]), s[1..], bound);
    }
  }

  lemma PortDigits(literal: string, port: nat)
    ensures ParseDigits(0, literal, 0x1_0000) == Some(port)
       <==> AllDigits(literal) && Numeral(literal) == port < 65536
  {
    if ParseDigits(0, literal, 0x1_0000).Some? { ParsedDigits(0, literal, 0x1_0000); }
    if AllDigits(literal) {
      ParseDigitsExact("", literal, 0x1_0000);
      assert "" + literal == literal;
    }
  }

  lemma DocumentPort(text: string, port: nat)
    ensures ReadReadiness(text) == Some(port)
       <==> exists digits: string :: AllDigits(digits) && Numeral(digits) == port < 65536 && PortDocument(text, digits)
  {
    var v := J.ReadDocument(text);
    if v.Some? {
      var f := J.Fields(v.value, FIELDS);
      if f.Some? {
        assert f.value == [f.value[0]];
        if f.value[0].Num? { PortDigits(f.value[0].literal, port); }
      }
    }
    forall digits
      ensures PortDocument(text, digits) <==> v.Some? && J.Fields(v.value, FIELDS) == Some([J.Num(digits)])
      ensures ParseDigits(0, digits, 0x1_0000) == Some(port) <==> AllDigits(digits) && Numeral(digits) == port < 65536
    {
      PortDocumentExactly(text, digits);
      PortDigits(digits, port);
    }
    hide J.ReadDocument, J.Fields, ParseDigits, Numeral, AllDigits, PortDocument;
  }

  lemma ReadinessExactly(text: string, port: nat)
    ensures ReadReadiness(TrimEnd(text)) == Some(port) <==> IsReadiness(text, port)
  {
    var k := TrimEndExactly(text);
    DocumentPort(TrimEnd(text), port);
    hide ReadReadiness, TrimEnd, PortDocument, IsWhitespace, AllDigits, Numeral;
    assert TrimsTo(text, k);
    forall j | TrimsTo(text, j) ensures j == k {
    }
  }

  lemma {:induction false} SmallDecimalShort(n: nat, places: nat, bound: nat)
    requires places >= 1 && n < bound && bound == Power10(places)
    ensures |Decimal(n)| <= places
    decreases places
  {
    if n >= 10 {
      SmallDecimalShort(n / 10, places - 1, Power10(places - 1));
    }
  }

  function Power10(k: nat): nat { if k == 0 then 1 else 10 * Power10(k - 1) }

  lemma DecimalFirstDigit(n: nat)
    ensures |Decimal(n)| > 1 ==> Decimal(n)[0] != '0'
  {
  }

  function PortValue(port: nat): J.Value { J.StructOf(FIELDS, [J.Num(Decimal(port))]) }

  lemma PortWritable(port: nat)
    ensures J.Writable(PortValue(port))
  {
    DecimalFirstDigit(port);
    var d := Decimal(port);
    assert forall c | c in d :: IsDigit(c);
    hide Decimal;
    assert J.PlainInteger(d);
  }

  lemma QuotedPort()
    ensures PrintString("port") == "\"port\""
  {
    assert EscapeAll("t") == "t";
    assert "rt"[1..] == "t" && "ort"[1..] == "rt" && "port"[1..] == "ort";
    assert EscapeAll("rt") == "rt";
    assert EscapeAll("ort") == "ort";
  }

  /** The line is the compact writing of its object. */
  lemma ReadinessIsPrinted(port: nat)
    ensures J.Writable(PortValue(port)) && PrintReadiness(port) == J.Print(PortValue(port), "")
  {
    PortWritable(port);
    QuotedPort();
    hide Decimal, PrintString;
    var m := PortValue(port).members;
    assert |m| == 1 && m[0] == J.Member(Some("port"), J.Num(Decimal(port)));
    assert J.Print(PortValue(port), "") == "{" + J.PrintMember(m[0], "}" + "");
    assert J.PrintMember(m[0], "}") == "\"port\"" + (":" + (Decimal(port) + "}"));
  }

  /** Every u16 port survives the readiness line. */
  lemma ReadinessRoundTrip(port: nat, after: string)
    requires port < 0x1_0000 && J.Blank(after)
    ensures ReadReadiness(PrintReadiness(port) + after) == Some(port)
    ensures |PrintReadiness(port)| <= 14
  {
    PortParses(port);
    PortShort(port);
    ReadinessIsPrinted(port);
    J.ReadPrintedDocument(PortValue(port), after);
    J.StructReadsBack(FIELDS, [J.Num(Decimal(port))]);
    hide Decimal, ParseDigits, J.ReadDocument, J.Print, J.Fields, J.Writable;
  }

  lemma PortParses(port: nat)
    requires port < 0x1_0000
    ensures ParseDigits(0, Decimal(port), 0x1_0000) == Some(port)
  {
    assert "" + Decimal(port) == Decimal(port);
    ParseDigitsExact("", Decimal(port), 0x1_0000);
  }

  lemma PortShort(port: nat)
    requires port < 0x1_0000
    ensures |Decimal(port)| <= 5
  {
    assert Power10(5) == 100000;
    SmallDecimalShort(port, 5, 100000);
  }

  lemma TrimEndKeeps(s: string)
    requires s != "" && !IsWhitespace(s[|s| - 1])
    ensures TrimEnd(s + "\n") == s && TrimEnd(s) == s
  {
    assert (s + "\n")[..|s|] == s;
  }
}
