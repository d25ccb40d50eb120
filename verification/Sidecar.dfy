/** src/sidecar.rs: starting the sidecar, the readiness it must report, and its removal. */
module Sidecar {
  import opened Wrappers
  import opened Utf8
  import opened Text
  import opened Protocol
  import Readiness
  import J = Journal

  datatype SidecarError =
    | Name | TransferNotSingleLine | Start | Transfer | ExitedBeforeReady | Readiness | UnusableReadiness

  const READINESS_LIMIT := 256

  /** How the world treats one start: a name may not be drawable, the runtime may not start, the pipe may
      not take the transfer, and stdout carries any bytes (None is a read error). */
  datatype Conditions = Conditions(name: Option<string>, spawns: bool, delivers: bool, stdout: Option<seq<byte>>)

  /** The capped read: no more than the limit is taken from the stream, whatever it holds. */
  function ReadinessLine(stdout: seq<byte>): (line: seq<byte>)
    ensures |line| <= READINESS_LIMIT && line <= stdout
  {
    Readiness.LineOf(if |stdout| > READINESS_LIMIT then stdout[..READINESS_LIMIT] else stdout)
  }

  /** What the text of a readiness line comes to. */
  function Parsed(line: seq<byte>): Result<nat, SidecarError> {
    match Decode(line)
    case None => Err(SidecarError.Readiness)
    case Some(text) =>
      match Readiness.ReadReadiness(Readiness.TrimEnd(text))
      case None => Err(UnusableReadiness)
      case Some(port) => Ok(port)
  }

  function Reported(stdout: Option<seq<byte>>): Result<nat, SidecarError> {
    if stdout.None? then Err(SidecarError.Readiness)
    else if ReadinessLine(stdout.value) == [] then Err(ExitedBeforeReady)
    else Parsed(ReadinessLine(stdout.value))
  }

  /** What a start comes to. */
  function Started(w: Conditions, transfer: string): Result<nat, SidecarError> {
    if '\n' in transfer then Err(TransferNotSingleLine)
    else if w.name.None? then Err(Name)
    else if !w.spawns then Err(Start)
    else if !w.delivers then Err(Transfer)
    else Reported(w.stdout)
  }

  /** What the read takes: the first line of the first 256 bytes. */
  ghost predicate LineTaken(stdout: seq<byte>, line: seq<byte>) {
    Readiness.FirstLine(if |stdout| > 256 then stdout[..256] else stdout, line)
  }

  /** A port is reported exactly when stdout can be read and the line taken from it is the UTF-8 of a readiness
      object. */
  lemma ReportedExactly(stdout: Option<seq<byte>>, port: nat)
    ensures Reported(stdout) == Ok(port)
       <==> && stdout.Some?
            && exists text: string ::
                 text != "" && LineTaken(stdout.value, Encode(text)) && Readiness.IsReadiness(text, port)
    ensures Reported(None) == Err(SidecarError.Readiness)
  {
    if stdout.Some? {
      var line := ReadinessLine(stdout.value);
      forall other ensures LineTaken(stdout.value, other) <==> other == line {
        Readiness.LineExactly(if |stdout.value| > 256 then stdout.value[..256] else stdout.value, other);
      }
      if Decode(line).Some? {
        EncodeDecode(line);
        Readiness.ReadinessExactly(Decode(line).value, port);
      }
      forall text | text != "" && LineTaken(stdout.value, Encode(text))
        ensures Decode(line) == Some(text) && line != [] {
        DecodeEncode(text);
      }
    }
    hide ReadinessLine, LineTaken, Readiness.ReadReadiness, Readiness.TrimEnd, Readiness.IsReadiness, Encode, Decode;
  }

  /** No port is reported for its own reason: nothing was written, the stream or its UTF-8 failed, or the line is no
      readiness object. */
  lemma ReportedErrors(stdout: Option<seq<byte>>)
    ensures Reported(stdout) == Err(ExitedBeforeReady) <==> stdout == Some([])
    ensures Reported(stdout) == Err(SidecarError.Readiness)
       <==> stdout.None? || exists line :: LineTaken(stdout.value, line) && NotText(line)
    ensures Reported(stdout) == Err(UnusableReadiness)
       <==> && stdout.Some? && stdout != Some([])
            && exists line :: LineTaken(stdout.value, line) && UnusableText(line)
  {
    if stdout.Some? {
      var line := ReadinessLine(stdout.value);
      forall other ensures LineTaken(stdout.value, other) <==> other == line {
        Readiness.LineExactly(if |stdout.value| > 256 then stdout.value[..256] else stdout.value, other);
      }
      EmptyLine(stdout.value);
      EmptyIsUnusable();
      ParsedErrors(line);
    }
    hide ReadinessLine, LineTaken, Parsed, NotText, UnusableText;
  }

  /** No text has these bytes. */
  ghost predicate NotText(line: seq<byte>) { forall text: string :: Encode(text) != line }

  lemma UndecodedIsNoText(line: seq<byte>)
    ensures Decode(line) == None <==> NotText(line)
  {
    if Decode(line).Some? {
      EncodeDecode(line);
    } else {
      forall text: string ensures Encode(text) != line { DecodeEncode(text); }
    }
    hide Decode, Encode;
  }

  /** The bytes are a text that is no readiness object for any port. */
  ghost predicate UnusableText(line: seq<byte>) { exists text :: Encode(text) == line && Unusable(text) }

  ghost predicate Unusable(text: string) { forall port: nat :: !Readiness.IsReadiness(text, port) }

  lemma UnusableExactly(text: string)
    ensures Unusable(text) <==> Readiness.ReadReadiness(Readiness.TrimEnd(text)) == None
  {
    forall port: nat
      ensures Readiness.ReadReadiness(Readiness.TrimEnd(text)) == Some(port) <==> Readiness.IsReadiness(text, port)
    {
      Readiness.ReadinessExactly(text, port);
    }
    var read := Readiness.ReadReadiness(Readiness.TrimEnd(text));
    if read.Some? {
      assert Readiness.IsReadiness(text, read.value);
    }
    hide Readiness.ReadReadiness, Readiness.TrimEnd, Readiness.IsReadiness;
  }

  lemma UnusableTextExactly(line: seq<byte>)
    ensures UnusableText(line) <==> Decode(line).Some? && Unusable(Decode(line).value)
  {
    if Decode(line).Some? { EncodeDecode(line); }
    hide Encode, Decode, Unusable;
    if text :| Encode(text) == line && Unusable(text) {
      DecodeEncode(text);
    }
    if Decode(line).Some? && Unusable(Decode(line).value) {
      assert Encode(Decode(line).value) == line;
    }
  }

  lemma ParsedErrors(line: seq<byte>)
    ensures Parsed(line) == Err(SidecarError.Readiness) <==> NotText(line)
    ensures Parsed(line) == Err(UnusableReadiness) <==> UnusableText(line)
    ensures Parsed(line).Err? ==> Parsed(line).error in {SidecarError.Readiness, UnusableReadiness}
  {
    UndecodedIsNoText(line);
    UnusableTextExactly(line);
    if Decode(line).Some? { UnusableExactly(Decode(line).value); }
    hide NotText, UnusableText, Unusable, Readiness.ReadReadiness, Readiness.TrimEnd, Decode;
  }

  lemma EmptyIsUnusable()
    ensures !NotText([])
  {
    assert Encode("") == [];
  }

  lemma EmptyLine(stdout: seq<byte>)
    ensures ReadinessLine(stdout) == [] <==> stdout == []
  {
    var taken := if |stdout| > READINESS_LIMIT then stdout[..READINESS_LIMIT] else stdout;
    Readiness.LineExactly(taken, Readiness.LineOf(taken));
    hide Readiness.LineOf;
  }

  class Sidecar {
    const containerName: string
    var port: nat
    /** What has gone into the container's stdin. */
    var stdin: seq<byte>

    constructor (containerName: string, stdin: seq<byte>)
      ensures this.containerName == containerName && port == 0 && this.stdin == stdin
    {
      this.containerName := containerName;
      this.stdin := stdin;
      port := 0;
    }

    /** `teardown`, which is what dropping the sidecar runs. */
    method Teardown(journal: J.Journal)
      requires journal.Valid() && !journal.Now().over && journal.Now().target != Running
      requires journal.Now().sidecar == Up(containerName) || journal.Now().sidecar == Ready(containerName)
      modifies journal
      ensures journal.Valid() && journal.log == old(journal.log) + [SidecarRemoved(containerName)]
      ensures journal.Now() == old(journal.Now()).(sidecar := Removed(containerName))
    {
      journal.SidecarRemoved(containerName);
    }
  }

  /** `Sidecar::start`: a failure after the spawn drops the sidecar, a failure before it has none to drop. */
  method StartSidecar(w: Conditions, transfer: string, journal: J.Journal) returns (r: Result<Sidecar, SidecarError>)
    requires journal.Valid() && !journal.Now().over && journal.Now().sidecar == NoSidecar && journal.Now().image
    requires journal.Now().asking == None
    requires journal.Now().target == NotStarted && AllResolved(journal.plan, journal.Now())
    modifies journal
    ensures journal.Valid() && journal.Now() == old(journal.Now()).(sidecar := journal.Now().sidecar)
    ensures match Started(w, transfer)
            case Err(e) => r == Err(e) && (journal.Now().sidecar == NoSidecar || journal.Now().sidecar.Removed?)
            case Ok(port) =>
              && r.Ok? && fresh(r.value) && r.value.port == port
              && journal.Now().sidecar == Ready(r.value.containerName)
              && r.value.stdin == Encode(transfer) + [0x0A]
  {
    if '\n' in transfer { return Err(TransferNotSingleLine); }
    if w.name.None? { return Err(Name); }
    if !w.spawns { return Err(Start); }
    journal.SidecarSpawned(w.name.value);
    var sidecar := new Sidecar(w.name.value, if w.delivers then Encode(transfer) + [0x0A] else []);
    if !w.delivers {
      sidecar.Teardown(journal);
      return Err(Transfer);
    }
    var reported := Reported(w.stdout);
    if reported.Err? {
      sidecar.Teardown(journal);
      return Err(reported.error);
    }
    sidecar.port := reported.value;
    journal.SidecarReady(reported.value);
    r := Ok(sidecar);
  }

  lemma CappedLine(body: seq<byte>, after: seq<byte>)
    requires |body| < READINESS_LIMIT && 0x0A !in body
    ensures ReadinessLine(body + [0x0A] + after) == body + [0x0A]
  {
    var stdout := body + [0x0A] + after;
    if |stdout| > READINESS_LIMIT {
      var rest := after[..READINESS_LIMIT - |body| - 1];
      assert stdout[..READINESS_LIMIT] == body + [0x0A] + rest;
      Readiness.LineStopsAtNewline(body, rest);
    } else {
      Readiness.LineStopsAtNewline(body, after);
    }
  }

  lemma EncodedLine(text: string)
    ensures Encode(text + "\n") == Encode(text) + [0x0A]
  {
    EncodeConcat(text, "\n");
    assert "\n"[1..] == "";
    assert Encode("\n") == [0x0A];
  }

  /** A short line of plain text is what the capped read takes, whatever follows it. */
  lemma ShortLineRead(text: string, after: seq<byte>)
    requires |text| < READINESS_LIMIT && forall c | c in text :: 0x20 <= c as int < 0x7F
    ensures ReadinessLine(Encode(text + "\n") + after) == Encode(text + "\n")
  {
    hide Encode, ReadinessLine;
    AsciiEncoded(text);
    AsciiBytes(text, 0x0A);
    EncodedLine(text);
    CappedLine(Encode(text), after);
  }

  /** The readiness line a proxy writes is understood, whatever it writes afterwards. */
  lemma ReadinessHandshake(port: nat, after: seq<byte>)
    requires port < 0x1_0000
    ensures Reported(Some(Readiness.Announced(port) + after)) == Ok(port)
  {
    var text := Readiness.PrintReadiness(port);
    Readiness.ReadinessRoundTrip(port, "");
    assert text + "" == text;
    ReadinessPlain(port);
    hide Readiness.PrintReadiness, Readiness.ReadReadiness, ReadinessLine, Encode, Decode, Readiness.TrimEnd;
    ShortLineRead(text, after);
    DecodeEncode(text + "\n");
    Readiness.TrimEndKeeps(text);
  }

  lemma ReadinessPlain(port: nat)
    ensures var text := Readiness.PrintReadiness(port);
            text != "" && text[|text| - 1] == '}' && forall c | c in text :: 0x20 <= c as int < 0x7F
  {
    var d := Decimal(port);
    assert forall c | c in d :: IsDigit(c);
  }

  lemma {:induction false} AsciiEncoded(s: string)
    requires forall c | c in s :: c as int < 0x80
    ensures |Encode(s)| == |s|
  {
    if s != "" {
      assert s[0] in s;
      assert forall c | c in s[1..] :: c in s;
      AsciiEncoded(s[1..]);
    }
  }

  /** Nothing beyond the cap has any influence, and a stream with no newline within it is judged by the bytes within it
      alone: it is rejected exactly when these are not a readiness object in UTF-8. */
  lemma FloodIsCapped(stdout: seq<byte>)
    requires |stdout| > READINESS_LIMIT
    ensures Reported(Some(stdout)) == Reported(Some(stdout[..READINESS_LIMIT]))
    ensures 0x0A !in stdout[..READINESS_LIMIT] ==> Reported(Some(stdout)) == Parsed(stdout[..READINESS_LIMIT])
  {
    var taken := stdout[..READINESS_LIMIT];
    assert taken[..READINESS_LIMIT] == taken;
    if 0x0A !in taken { Readiness.LineWhole(taken); }
    hide Readiness.ReadReadiness, Decode, Readiness.TrimEnd;
  }

  lemma {:induction false} TrimSpaces(text: string, n: nat)
    requires text != "" && !IsWhitespace(text[|text| - 1])
    ensures Readiness.TrimEnd(text + seq(n, _ => ' ')) == text
  {
    var padded := text + seq(n, _ => ' ');
    if n == 0 {
      assert padded == text;
    } else {
      assert padded[..|padded| - 1] == text + seq(n - 1, _ => ' ');
      TrimSpaces(text, n - 1);
    }
  }

  /** A readiness object padded with spaces to the cap. */
  function Padded(port: nat): string {
    var text := Readiness.PrintReadiness(port);
    text + seq(if |text| < READINESS_LIMIT then READINESS_LIMIT - |text| else 0, _ => ' ')
  }

  /** So a flood without a newline is not always rejected: a readiness object followed by white space up to the cap,
      and by anything beyond it, is taken for readiness. */
  lemma PaddedFloodAccepted(port: nat, after: seq<byte>)
    requires port < 0x1_0000 && after != []
    ensures var stdout := Encode(Padded(port)) + after;
            && |stdout| > READINESS_LIMIT && 0x0A !in stdout[..READINESS_LIMIT]
            && Reported(Some(stdout)) == Ok(port)
  {
    var text, padded := Readiness.PrintReadiness(port), Padded(port);
    Readiness.ReadinessRoundTrip(port, "");
    assert text + "" == text;
    ReadinessPlain(port);
    TrimSpaces(text, READINESS_LIMIT - |text|);
    assert forall c | c in padded :: 0x20 <= c as int < 0x7F;
    hide Readiness.PrintReadiness, Readiness.ReadReadiness, Encode, Decode, Readiness.TrimEnd, Reported, Padded;
    AsciiEncoded(padded);
    AsciiBytes(padded, 0x0A);
    DecodeEncode(padded);
    var stdout := Encode(padded) + after;
    assert stdout[..READINESS_LIMIT] == Encode(padded);
    FloodIsCapped(stdout);
  }
}
