/** `/proc/self/maps` as the kernel writes it and as src/proxy_image.rs reads it. */
module Maps {
  import opened Wrappers
  import opened Text

  // ----- One line -----

  function TrimStart(s: string): (r: string)
    ensures |r| <= |s|
    ensures s == "" || !IsWhitespace(s[0]) ==> r == s
  {
    if s != "" && IsWhitespace(s[0]) then TrimStart(s[1..]) else s
  }

  /** It drops white space, all of it and nothing else. */
  lemma {:induction false} TrimStartExactly(s: string) returns (k: nat)
    ensures k <= |s| && TrimStart(s) == s[k..]
    ensures (forall i | 0 <= i < k :: IsWhitespace(s[i])) && (k < |s| ==> !IsWhitespace(s[k]))
  {
    hide IsWhitespace;
    if s != "" && IsWhitespace(s[0]) {
      var rest := TrimStartExactly(s[1..]);
      k := rest + 1;
    } else {
      k := 0;
    }
  }

  function FirstWhitespace(s: string): (n: nat)
    ensures n <= |s|
    ensures n < |s| ==> IsWhitespace(s[n])
    ensures forall i | 0 <= i < n :: !IsWhitespace(s[i])
  {
    if s == "" || IsWhitespace(s[0]) then 0 else 1 + FirstWhitespace(s[1..])
  }

  /** The text after the first n whitespace-separated fields. */
  function SkipFields(line: string, n: nat): Option<string>
    decreases n
  {
    if n == 0 then Some(line)
    else if FirstWhitespace(line) == |line| then None
    else SkipFields(TrimStart(line[FirstWhitespace(line)..]), n - 1)
  }

  const DELETED := " (deleted)"

  predicate EndsWith(s: string, t: string) { |t| <= |s| && s[|s| - |t|..] == t }

  function StripSuffix(s: string, t: string): string { if EndsWith(s, t) then s[..|s| - |t|] else s }

  function Pathname(line: string): Option<string> {
    var rest :- SkipFields(line, 5);
    var path := StripSuffix(rest, DELETED);
    if path == "" then None else Some(path)
  }

  /** `mapped_pathname` */
  method MappedPathname(line: string) returns (r: Option<string>)
    ensures r == Pathname(line)
  {
    hide TrimStart, FirstWhitespace, StripSuffix;
    var rest := line;
    for i := 0 to 5
      invariant SkipFields(line, 5) == SkipFields(rest, 5 - i)
    {
      var separator := FirstWhitespace(rest);
      if separator == |rest| { return None; }
      rest := TrimStart(rest[separator..]);
    }
    var pathname := StripSuffix(rest, DELETED);
    r := if pathname == "" then None else Some(pathname);
  }

  /** A maps line: five fields each followed by padding, then the pathname as it is. */
  function RenderLine(fields: seq<string>, padding: seq<string>, pathname: string): string
    requires |fields| == |padding|
  {
    if fields == [] then pathname else fields[0] + (padding[0] + RenderLine(fields[1..], padding[1..], pathname))
  }

  predicate Solid(s: string) { forall c | c in s :: !IsWhitespace(c) }

  /** What the kernel puts between fields. */
  predicate Padding(s: string) { s != "" && forall c | c in s :: c == ' ' }

  lemma {:induction false} TrimPadding(padding: string, rest: string)
    requires (forall c | c in padding :: IsWhitespace(c)) && (rest == "" || !IsWhitespace(rest[0]))
    ensures TrimStart(padding + rest) == rest
  {
    if padding == "" {
      assert padding + rest == rest;
    } else {
      assert padding[0] in padding;
      assert (padding + rest)[1..] == padding[1..] + rest;
      TrimPadding(padding[1..], rest);
    }
  }

  lemma {:induction false} FieldEnds(field: string, rest: string)
    requires Solid(field) && rest != "" && IsWhitespace(rest[0])
    ensures FirstWhitespace(field + rest) == |field|
  {
    hide IsWhitespace;
    if field == "" {
      assert field + rest == rest;
    } else {
      assert field[0] in field && forall c | c in field[1..] :: c in field;
      assert (field + rest)[0] == field[0] && (field + rest)[1..] == field[1..] + rest;
      FieldEnds(field[1..], rest);
    }
  }

  lemma SkipOne(field: string, padding: string, rest: string, n: nat)
    requires field != "" && Solid(field) && Padding(padding) && (rest == "" || !IsWhitespace(rest[0]))
    ensures SkipFields(field + (padding + rest), n + 1) == SkipFields(rest, n)
    ensures !IsWhitespace((field + (padding + rest))[0])
  {
    var line := field + (padding + rest);
    assert padding[0] in padding && (padding + rest)[0] == padding[0];
    assert field[0] in field && line[0] == field[0];
    FieldEnds(field, padding + rest);
    assert line[|field|..] == padding + rest;
    TrimPadding(padding, rest);
  }

  lemma NothingSkipped(line: string)
    ensures SkipFields(line, 0) == Some(line)
  {
  }

  lemma {:induction false} SkipRendered(fields: seq<string>, padding: seq<string>, pathname: string)
    requires |fields| == |padding|
    requires forall f | f in fields :: f != "" && Solid(f)
    requires forall p | p in padding :: Padding(p)
    requires pathname == "" || !IsWhitespace(pathname[0])
    ensures SkipFields(RenderLine(fields, padding, pathname), |fields|) == Some(pathname)
    ensures var line := RenderLine(fields, padding, pathname); line == "" || !IsWhitespace(line[0])
  {
    hide IsWhitespace, Solid, Padding, SkipFields;
    if fields == [] {
      NothingSkipped(pathname);
    } else {
      assert fields[0] in fields && padding[0] in padding;
      assert forall f | f in fields[1..] :: f in fields;
      assert forall p | p in padding[1..] :: p in padding;
      SkipRendered(fields[1..], padding[1..], pathname);
      SkipOne(fields[0], padding[0], RenderLine(fields[1..], padding[1..], pathname), |fields| - 1);
    }
  }

  /** Stripping takes off the suffix where it stands at the end, once, and nothing otherwise. */
  lemma StripExactly(s: string, t: string, r: string)
    ensures r == StripSuffix(s, t) <==> s == r + t || (r == s && forall q :: s != q + t)
  {
    if EndsWith(s, t) { assert s == s[..|s| - |t|] + t; }
    if s == r + t { assert s[|r|..] == t && s[..|r|] == r; }
    forall q | s == q + t ensures EndsWith(s, t) { assert s[|q|..] == t; }
  }

  lemma Stripped(s: string, t: string)
    requires s != "" && t != ""
    ensures StripSuffix(s, t) == s <==> !EndsWith(s, t)
    ensures StripSuffix(s + t, t) == s
  {
    assert (s + t)[|s|..] == t;
    assert (s + t)[..|s|] == s;
  }

  // ----- The whole text -----

  function WithoutReturn(line: string): string {
    if line != "" && line[|line| - 1] == '\r' then line[..|line| - 1] else line
  }

  /** `str::lines` */
  function Lines(text: string): seq<string>
    decreases |text|
  {
    if text == "" then []
    else
      match SplitOnce(text, '\n')
      case None => [text]
      case Some((line, rest)) => [WithoutReturn(line)] + Lines(rest)
  }

  function MapsText(lines: seq<string>): string {
    if lines == [] then "" else lines[0] + ['\n'] + MapsText(lines[1..])
  }

  lemma {:induction false} LinesOfText(lines: seq<string>, i: nat)
    requires forall l | l in lines :: '\n' !in l
    ensures |Lines(MapsText(lines))| == |lines|
    ensures i < |lines| ==> Lines(MapsText(lines))[i] == WithoutReturn(lines[i])
  {
    if lines != [] {
      var text, more := MapsText(lines), MapsText(lines[1..]);
      assert lines[0] in lines;
      assert text == lines[0] + ['\n'] + more && text[|lines[0]|] == '\n';
      var (line, rest) := SplitOnce(text, '\n').value;
      SplitUnique(lines[0], more, line, rest, '\n');
      LinesOfText(lines[1..], if i > 0 then i - 1 else 0);
    }
  }

  /** A last line that no newline ends is a line too, as it stands. */
  lemma {:induction false} LinesUnterminated(lines: seq<string>, last: string)
    requires (forall l | l in lines :: '\n' !in l) && '\n' !in last && last != ""
    ensures Lines(MapsText(lines) + last) == Lines(MapsText(lines)) + [last]
  {
    if lines == [] {
      assert MapsText(lines) + last == last;
    } else {
      var text, more := MapsText(lines), MapsText(lines[1..]);
      assert lines[0] in lines;
      assert text == lines[0] + ['\n'] + more && text + last == lines[0] + ['\n'] + (more + last);
      assert text[|lines[0]|] == '\n' && (text + last)[|lines[0]|] == '\n';
      var (a, b) := SplitOnce(text, '\n').value;
      SplitUnique(lines[0], more, a, b, '\n');
      var (c, d) := SplitOnce(text + last, '\n').value;
      SplitUnique(lines[0], more + last, c, d, '\n');
      LinesUnterminated(lines[1..], last);
    }
  }

  /** How the kernel writes a pathname: a newline becomes an octal escape, everything else stays. */
  function Escaped(pathname: string): (r: string)
    ensures '\n' !in r
    ensures '\n' !in pathname ==> r == pathname
    ensures pathname != "" ==> r != "" && (r[0] == pathname[0] || pathname[0] == '\n')
  {
    if pathname == "" then ""
    else
      var first := if pathname[0] == '\n' then "\\012" else [pathname[0]];
      assert pathname == [pathname[0]] + pathname[1..];
      first + Escaped(pathname[1..])
  }

  datatype Mapping = Mapping(fields: seq<string>, padding: seq<string>, pathname: string, deleted: bool)

  /** Five fields, then a pathname that does not begin with white space. */
  ghost predicate FileBacked(m: Mapping) {
    && |m.fields| == |m.padding| == 5
    && (forall f | f in m.fields :: f != "" && Solid(f))
    && (forall p | p in m.padding :: Padding(p))
    && m.pathname != "" && !IsWhitespace(m.pathname[0])
  }

  function Tail(m: Mapping): string { Escaped(m.pathname) + if m.deleted then " (deleted)" else "" }

  function Rendered(m: Mapping): string
    requires |m.fields| == |m.padding|
  {
    RenderLine(m.fields, m.padding, Tail(m))
  }

  lemma {:induction false} RenderEnds(fields: seq<string>, padding: seq<string>) returns (head: string)
    requires |fields| == |padding|
    requires forall f | f in fields :: f != "" && Solid(f)
    requires forall p | p in padding :: Padding(p)
    ensures forall t :: RenderLine(fields, padding, t) == head + t
    ensures '\n' !in head
  {
    head := "";
    if fields != [] {
      assert fields[0] in fields && padding[0] in padding;
      assert forall f | f in fields[1..] :: f in fields;
      assert forall p | p in padding[1..] :: p in padding;
      var rest := RenderEnds(fields[1..], padding[1..]);
      head := fields[0] + padding[0] + rest;
      forall t ensures RenderLine(fields, padding, t) == head + t {
        assert fields[0] + (padding[0] + (rest + t)) == head + t;
      }
    }
  }

  /** What is read back of a mapping's line. */
  function ReadTail(tail: string): string { StripSuffix(WithoutReturn(tail), DELETED) }

  lemma TailPlain(m: Mapping)
    requires FileBacked(m)
    ensures '\n' !in Tail(m) && Tail(m) != "" && Tail(m)[0] == m.pathname[0]
  {
    assert m.pathname[0] != '\n';
  }

  lemma ReadRendered(m: Mapping)
    requires FileBacked(m)
    ensures '\n' !in Rendered(m)
    ensures Pathname(WithoutReturn(Rendered(m))) == if ReadTail(Tail(m)) == "" then None else Some(ReadTail(Tail(m)))
  {
    hide RenderLine, SkipFields, StripSuffix, Tail, Solid, Padding, IsWhitespace;
    var tail, kept := Tail(m), WithoutReturn(Tail(m));
    TailPlain(m);
    var head := RenderEnds(m.fields, m.padding);
    assert WithoutReturn(head + tail) == head + kept;
    assert kept == "" || kept[0] == tail[0];
    SkipRendered(m.fields, m.padding, kept);
  }

  lemma PlainTailKept(pathname: string)
    requires pathname != ""
    ensures ReadTail(pathname) == pathname <==> !EndsWith(pathname, DELETED) && !EndsWith(pathname, "\r")
  {
    Stripped(pathname, DELETED);
    assert EndsWith(pathname, "\r") <==> pathname[|pathname| - 1] == '\r';
    hide EndsWith;
    assert |StripSuffix(WithoutReturn(pathname), DELETED)| <= |WithoutReturn(pathname)|;
  }

  lemma MarkedTailKept(pathname: string)
    requires pathname != ""
    ensures ReadTail(pathname + DELETED) == pathname
  {
    var tail := pathname + DELETED;
    assert tail[|tail| - 1] == DELETED[|DELETED| - 1] == ')';
    assert WithoutReturn(tail) == tail;
    Stripped(pathname, DELETED);
  }

  lemma TailKept(m: Mapping)
    requires FileBacked(m)
    ensures ReadTail(Tail(m)) == m.pathname
       <==> '\n' !in m.pathname && (m.deleted || (!EndsWith(m.pathname, " (deleted)") && !EndsWith(m.pathname, "\r")))
  {
    TailPlain(m);
    if '\n' !in m.pathname { TailOf(m); }
    hide ReadTail, EndsWith, Tail, FileBacked;
    if '\n' in m.pathname {
      ReadTailPlain(Tail(m));
    } else if m.deleted {
      MarkedTailKept(m.pathname);
    } else {
      PlainTailKept(m.pathname);
    }
  }

  lemma TailOf(m: Mapping)
    requires '\n' !in m.pathname
    ensures Tail(m) == if m.deleted then m.pathname + " (deleted)" else m.pathname
  {
  }

  lemma ReadTailPlain(tail: string)
    requires '\n' !in tail
    ensures '\n' !in ReadTail(tail)
  {
  }

  /** A pathname, spaces included, survives the maps text exactly when the kernel had no newline to escape in it and,
      unless the marker of a deleted file follows, it ends neither in that marker nor in a carriage return. */
  lemma PathnameSurvives(lines: seq<string>, i: nat, m: Mapping)
    requires i < |lines| && FileBacked(m) && lines[i] == Rendered(m) && forall l | l in lines :: '\n' !in l
    ensures |Lines(MapsText(lines))| == |lines|
    ensures Pathname(Lines(MapsText(lines))[i]) == Some(m.pathname)
       <==> '\n' !in m.pathname && (m.deleted || (!EndsWith(m.pathname, " (deleted)") && !EndsWith(m.pathname, "\r")))
  {
    LinesOfText(lines, i);
    ReadRendered(m);
    TailKept(m);
    hide Pathname, ReadTail, Tail, Rendered, WithoutReturn, EndsWith;
  }
}
