/** `program_interpreter` of src/proxy_image.rs: an ELF64 little-endian reader
    (Program Header section of the System V ABI) with every offset and size bounded first. */
module Elf {
  import opened Wrappers
  import opened Utf8
  import opened ImageFile

  const PT_INTERP := 3
  const INTERPRETER_PATH_LIMIT := 4096
  const U64_LIMIT := 0x1_0000_0000_0000_0000

  function CheckedMul(a: nat, b: nat): Option<nat> { if a * b < U64_LIMIT then Some(a * b) else None }

  function CheckedAdd(a: nat, b: nat): Option<nat> { if a + b < U64_LIMIT then Some(a + b) else None }

  // ----- The layout -----

  predicate IsElf64(content: seq<byte>) {
    |content| >= 64 && content[..4] == [0x7F, 0x45, 0x4C, 0x46] && content[4] == 2 && content[5] == 1
  }

  function TableOffset(content: seq<byte>): nat requires |content| >= 64 { LeNat(content[0x20..0x28]) }

  function EntrySize(content: seq<byte>): nat requires |content| >= 64 { LeNat(content[0x36..0x38]) }

  function EntryCount(content: seq<byte>): nat requires |content| >= 64 { LeNat(content[0x38..0x3A]) }

  function EntryOffset(content: seq<byte>, i: nat): nat
    requires |content| >= 64
  {
    TableOffset(content) + i * EntrySize(content)
  }

  predicate Addressable(content: seq<byte>, i: nat) requires |content| >= 64 { EntryOffset(content, i) < U64_LIMIT }

  predicate Readable(content: seq<byte>, i: nat)
    requires |content| >= 64
  {
    Addressable(content, i) && EntryOffset(content, i) + 56 <= |content|
  }

  function EntryType(content: seq<byte>, i: nat): nat
    requires |content| >= 64 && Readable(content, i)
  {
    LeNat(content[EntryOffset(content, i)..EntryOffset(content, i) + 4])
  }

  function SegmentOffset(content: seq<byte>, i: nat): nat
    requires |content| >= 64 && Readable(content, i)
  {
    LeNat(content[EntryOffset(content, i) + 0x8..EntryOffset(content, i) + 0x10])
  }

  function SegmentSize(content: seq<byte>, i: nat): nat
    requires |content| >= 64 && Readable(content, i)
  {
    LeNat(content[EntryOffset(content, i) + 0x20..EntryOffset(content, i) + 0x28])
  }

  /** Entry i is there and is not an interpreter entry. */
  predicate Passed(content: seq<byte>, i: nat)
    requires |content| >= 64
  {
    Readable(content, i) && EntryType(content, i) != PT_INTERP
  }

  /** The scan gets as far as entry i. */
  ghost predicate Reached(content: seq<byte>, i: nat)
    requires |content| >= 64
  {
    i < EntryCount(content) && forall j: nat | j < i :: Passed(content, j)
  }

  ghost predicate FirstInterpreter(content: seq<byte>, i: nat)
    requires |content| >= 64
  {
    Reached(content, i) && Readable(content, i) && EntryType(content, i) == PT_INTERP
  }

  predicate SizeOk(content: seq<byte>, i: nat)
    requires |content| >= 64 && Readable(content, i)
  {
    0 < SegmentSize(content, i) <= INTERPRETER_PATH_LIMIT
  }

  predicate SegmentReadable(content: seq<byte>, i: nat)
    requires |content| >= 64 && Readable(content, i)
  {
    SegmentOffset(content, i) + SegmentSize(content, i) <= |content|
  }

  function WithoutTrailingNuls(b: seq<byte>): (r: seq<byte>)
    ensures r <= b && (r == [] || r[|r| - 1] != 0)
    ensures forall i | |r| <= i < |b| :: b[i] == 0
  {
    if b != [] && b[|b| - 1] == 0 then WithoutTrailingNuls(b[..|b| - 1]) else b
  }

  function PathAt(content: seq<byte>, i: nat): Option<string>
    requires |content| >= 64 && Readable(content, i) && SegmentReadable(content, i)
  {
    Decode(WithoutTrailingNuls(content[SegmentOffset(content, i)..SegmentOffset(content, i) + SegmentSize(content, i)]))
  }

  /** What the entry that stops the scan yields. */
  function Verdict(content: seq<byte>, i: nat): Result<Option<string>, ImageError>
    requires |content| >= 64 && !Passed(content, i)
  {
    if !Addressable(content, i) then Err(UnsupportedExecutable)
    else if !Readable(content, i) then Err(Exe)
    else if !SizeOk(content, i) then Err(UnsupportedExecutable)
    else if !SegmentReadable(content, i) then Err(Exe)
    else
      match PathAt(content, i)
      case None => Err(UnsupportedExecutable)
      case Some(path) => Ok(Some(path))
  }

  ghost predicate StopsAt(content: seq<byte>, i: nat)
    requires |content| >= 64
  {
    Reached(content, i) && !Passed(content, i)
  }

  /** Which answer is right for which image. */
  ghost predicate Interprets(content: seq<byte>, r: Result<Option<string>, ImageError>) {
    if |content| < 64 then r == Err(Exe)
    else if !IsElf64(content) then r == Err(UnsupportedExecutable)
    else
      || (r == Ok(None) && forall i: nat | i < EntryCount(content) :: Passed(content, i))
      || exists i: nat :: StopsAt(content, i) && r == Verdict(content, i)
  }

  lemma StopsOnce(content: seq<byte>, i: nat, j: nat)
    requires |content| >= 64 && StopsAt(content, i) && StopsAt(content, j)
    ensures i == j
  {
  }

  /** There is only one right answer. */
  lemma InterpretsOnce(content: seq<byte>, r: Result<Option<string>, ImageError>, s: Result<Option<string>, ImageError>)
    requires Interprets(content, r) && Interprets(content, s)
    ensures r == s
  {
    hide Verdict, Passed;
    if IsElf64(content) {
      if i: nat :| StopsAt(content, i) && r == Verdict(content, i) {
        if j: nat :| StopsAt(content, j) && s == Verdict(content, j) {
          StopsOnce(content, i, j);
        }
      }
    }
  }

  ghost predicate PathOfFirst(content: seq<byte>, i: nat, path: string) {
    && IsElf64(content) && FirstInterpreter(content, i) && SizeOk(content, i) && SegmentReadable(content, i)
    && PathAt(content, i) == Some(path)
  }

  /** On an ELF64 image: no interpreter exactly when the readable table has no such entry, and
      a path exactly when it is the one the first such entry names. */
  lemma InterpreterMeaning(content: seq<byte>, r: Result<Option<string>, ImageError>)
    requires Interprets(content, r)
    ensures r == Ok(None) <==> IsElf64(content) && forall i: nat | i < EntryCount(content) :: Passed(content, i)
    ensures forall path :: r == Ok(Some(path)) <==> exists i: nat :: PathOfFirst(content, i, path)
  {
    if IsElf64(content) {
      forall path, i: nat | PathOfFirst(content, i, path) ensures r == Ok(Some(path)) {
        assert StopsAt(content, i) && Verdict(content, i) == Ok(Some(path));
        InterpretsOnce(content, r, Ok(Some(path)));
      }
      if i: nat :| StopsAt(content, i) && r == Verdict(content, i) {
        if r.Ok? { assert PathOfFirst(content, i, r.value.value); }
      }
    }
  }

  // ----- The same on the bytes of the image -----

  /** What the little-endian bytes from..to denote. */
  function Field(content: seq<byte>, from: nat, to: nat): nat
    requires from <= to <= |content|
  {
    LeNat(content[from..to])
  }

  predicate ElfHeader(content: seq<byte>) {
    && |content| >= 64 && content[0] == 0x7F && content[1] == 0x45 && content[2] == 0x4C && content[3] == 0x46
    && content[4] == 2 && content[5] == 1
  }

  /** Where entry i of the program header table starts. */
  function EntryStart(content: seq<byte>, i: nat): nat
    requires |content| >= 64
  {
    Field(content, 32, 40) + i * Field(content, 54, 56)
  }

  predicate EntryInFile(content: seq<byte>, i: nat)
    requires |content| >= 64
  {
    EntryStart(content, i) + 56 <= |content| && EntryStart(content, i) < 18446744073709551616
  }

  /** The entry at o is of the interpreter type: its first four bytes are 3 0 0 0. */
  predicate InterpreterBytes(content: seq<byte>, o: nat)
    requires o + 56 <= |content|
  {
    content[o] == 3 && content[o + 1] == 0 && content[o + 2] == 0 && content[o + 3] == 0
  }

  ghost predicate OtherEntry(content: seq<byte>, i: nat)
    requires |content| >= 64
  {
    EntryInFile(content, i) && !InterpreterBytes(content, EntryStart(content, i))
  }

  /** Entry i is the first interpreter entry, and its segment of 1 to 4096 bytes is the path, then NULs. */
  ghost predicate InterpreterAt(content: seq<byte>, i: nat, path: string)
    requires |content| >= 64
  {
    && i < Field(content, 56, 58) && (forall j: nat | j < i :: OtherEntry(content, j))
    && EntryInFile(content, i) && InterpreterBytes(content, EntryStart(content, i))
    && var o := EntryStart(content, i);
       var at, size := Field(content, o + 8, o + 16), Field(content, o + 32, o + 40);
       && 1 <= size <= 4096 && at + size <= |content|
       && PaddedPath(content[at..at + size], path)
  }

  /** The UTF-8 of a text that does not end in NUL, and then only NULs. */
  ghost predicate PaddedPath(b: seq<byte>, path: string) {
    var text := Encode(path);
    && text <= b && (text == [] || text[|text| - 1] != 0)
    && forall i | |text| <= i < |b| :: b[i] == 0
  }

  lemma LeThree(b: seq<byte>)
    requires |b| == 4
    ensures LeNat(b) == 3 <==> b[0] == 3 && b[1] == 0 && b[2] == 0 && b[3] == 0
  {
    var w: int, x: int, y: int, z: int := b[0], b[1], b[2], b[3];
    assert b[1..][1..] == b[2..] && b[2..][1..] == b[3..] && b[3..][1..] == [];
    assert LeNat(b[3..]) == z;
    assert LeNat(b[2..]) == y + 256 * z;
    assert LeNat(b[1..]) == x + 256 * (y + 256 * z);
    assert LeNat(b) == w + 256 * (x + 256 * (y + 256 * z));
  }

  lemma HeaderBytes(content: seq<byte>)
    ensures IsElf64(content) <==> ElfHeader(content)
  {
    if |content| >= 64 {
      assert content[..4] == [content[0], content[1], content[2], content[3]];
    }
  }

  lemma EntryBytes(content: seq<byte>, i: nat, o: nat)
    requires |content| >= 64 && o == EntryStart(content, i)
    ensures EntryOffset(content, i) == o && (Readable(content, i) <==> EntryInFile(content, i))
    ensures Readable(content, i) ==> (EntryType(content, i) == PT_INTERP <==> InterpreterBytes(content, o))
    ensures Readable(content, i) ==> SegmentOffset(content, i) == Field(content, o + 8, o + 16)
                                     && SegmentSize(content, i) == Field(content, o + 32, o + 40)
  {
    if Readable(content, i) {
      LeThree(content[o..o + 4]);
    }
    hide LeNat;
  }

  lemma OtherBytes(content: seq<byte>, i: nat)
    requires |content| >= 64
    ensures Passed(content, i) <==> OtherEntry(content, i)
  {
    EntryBytes(content, i, EntryStart(content, i));
    hide Readable, EntryType, InterpreterBytes, LeNat;
  }

  lemma PathBytes(b: seq<byte>, path: string)
    ensures Decode(WithoutTrailingNuls(b)) == Some(path) <==> PaddedPath(b, path)
  {
    var r := WithoutTrailingNuls(b);
    if Decode(r) == Some(path) {
      EncodeDecode(r);
    }
    if PaddedPath(b, path) {
      var text := Encode(path);
      assert r != [] ==> b[|r| - 1] != 0;
      assert text != [] ==> b[|text| - 1] != 0;
      assert text == b[..|text|] == r;
      DecodeEncode(path);
    }
  }

  lemma PathOfBytes(content: seq<byte>, i: nat, path: string)
    requires ElfHeader(content)
    ensures PathOfFirst(content, i, path) <==> InterpreterAt(content, i, path)
  {
    var o := EntryStart(content, i);
    HeaderBytes(content);
    EntryBytes(content, i, o);
    forall j: nat ensures Passed(content, j) <==> OtherEntry(content, j) { OtherBytes(content, j); }
    if Readable(content, i) && SegmentReadable(content, i) {
      PathBytes(content[SegmentOffset(content, i)..SegmentOffset(content, i) + SegmentSize(content, i)], path);
    }
    hide Passed, OtherEntry, PaddedPath, LeNat, InterpreterBytes, EntryType, Decode, WithoutTrailingNuls, Encode;
  }

  /** On the bytes: the file is taken for static exactly when its table has no entry that starts 3 0 0 0, and a path is
      found exactly when the first such entry holds it. */
  lemma InterpreterByBytes(content: seq<byte>, r: Result<Option<string>, ImageError>)
    requires Interprets(content, r)
    ensures r == Ok(None)
       <==> ElfHeader(content) && forall i: nat | i < Field(content, 56, 58) :: OtherEntry(content, i)
    ensures forall path ::
              r == Ok(Some(path))
              <==> ElfHeader(content) && exists i: nat :: InterpreterAt(content, i, path)
  {
    InterpreterMeaning(content, r);
    HeaderBytes(content);
    if ElfHeader(content) {
      forall i: nat ensures Passed(content, i) <==> OtherEntry(content, i) { OtherBytes(content, i); }
      forall path, i: nat
        ensures PathOfFirst(content, i, path) <==> InterpreterAt(content, i, path)
      {
        PathOfBytes(content, i, path);
      }
    }
    hide Passed, OtherEntry, PathOfFirst, Interprets, IsElf64, LeNat;
  }

  // ----- An ordinary dynamic executable -----

  predicate StartsWith4(content: seq<byte>, o: nat, w: byte, x: byte, y: byte, z: byte) {
    o + 4 <= |content| && content[o] == w && content[o + 1] == x && content[o + 2] == y && content[o + 3] == z
  }

  /** A header, a loadable segment's entry (it starts 1 0 0 0), an interpreter's entry (3 0 0 0), and the path with
      its NUL at the end of the file. */
  ghost predicate Dynamic(content: seq<byte>, path: string) {
    var size := |Encode(path)| + 1;
    && |content| == 176 + size && size <= 4096 && ElfHeader(content)
    && Field(content, 32, 40) == 64 && Field(content, 54, 56) == 56 && Field(content, 56, 58) == 2
    && StartsWith4(content, 64, 1, 0, 0, 0) && StartsWith4(content, 120, 3, 0, 0, 0)
    && Field(content, 128, 136) == 176 && Field(content, 152, 160) == size
    && content[176..176 + size] == Encode(path) + [0]
  }

  /** Such an executable names its interpreter, whatever else is in it and whatever path of at most 4095 bytes it is. */
  lemma DynamicNamesItsInterpreter(content: seq<byte>, path: string)
    requires Dynamic(content, path) && (path != "" ==> path[|path| - 1] != '\0')
    ensures Interprets(content, Ok(Some(path)))
  {
    NoTrailingNul(path);
    hide Encode, LeNat;
    var segment := content[176..176 + (|Encode(path)| + 1)];
    assert segment[..|Encode(path)|] == Encode(path) && segment[|Encode(path)|] == 0;
    assert PaddedPath(segment, path);
    hide PaddedPath;
    assert EntryStart(content, 0) == 64 && EntryStart(content, 1) == 120;
    assert OtherEntry(content, 0);
    assert InterpreterAt(content, 1, path);
    PathOfBytes(content, 1, path);
    PathInterprets(content, 1, path);
  }

  lemma PathInterprets(content: seq<byte>, i: nat, path: string)
    requires PathOfFirst(content, i, path)
    ensures Interprets(content, Ok(Some(path)))
  {
    assert StopsAt(content, i) && Verdict(content, i) == Ok(Some(path));
  }

  lemma NoTrailingNul(path: string)
    requires path != "" ==> path[|path| - 1] != '\0'
    ensures Encode(path) != [] ==> Encode(path)[|Encode(path)| - 1] != 0
  {
    if path != "" {
      var n := |path| - 1;
      EncodeConcat(path[..n], path[n..]);
      assert path == path[..n] + path[n..];
      assert Encode(path[n..]) == EncodeChar(path[n]) + Encode(path[n..][1..]);
    }
  }

  const LOADER_IMAGE: seq<byte> :=
    seq(178, i => if i == 0 then 0x7F else if i == 1 then 0x45 else if i == 2 then 0x4C else if i == 3 then 0x46
                  else if i == 4 then 2 else if i == 5 then 1 else if i == 32 then 64 else if i == 54 then 56
                  else if i == 56 then 2 else if i == 64 then 1 else if i == 120 then 3 else if i == 128 then 176
                  else if i == 152 then 2 else if i == 176 then 0x6C else 0)

  lemma {:induction false} LeFirst(b: seq<byte>)
    requires b != [] && forall i | 1 <= i < |b| :: b[i] == 0
    ensures LeNat(b) == b[0]
  {
    if |b| > 1 {
      LeFirst(b[1..]);
    } else {
      assert b[1..] == [];
    }
  }

  lemma LoaderFields()
    ensures |LOADER_IMAGE| == 178 && ElfHeader(LOADER_IMAGE)
    ensures Field(LOADER_IMAGE, 32, 40) == 64 && Field(LOADER_IMAGE, 54, 56) == 56 && Field(LOADER_IMAGE, 56, 58) == 2
    ensures Field(LOADER_IMAGE, 128, 136) == 176 && Field(LOADER_IMAGE, 152, 160) == 2
  {
    hide LeNat;
    LeFirst(LOADER_IMAGE[32..40]);
    LeFirst(LOADER_IMAGE[54..56]);
    LeFirst(LOADER_IMAGE[56..58]);
    LeFirst(LOADER_IMAGE[128..136]);
    LeFirst(LOADER_IMAGE[152..160]);
  }

  lemma LoaderBytes()
    ensures |LOADER_IMAGE| == 178 && LOADER_IMAGE[176..178] == [0x6C, 0]
    ensures StartsWith4(LOADER_IMAGE, 64, 1, 0, 0, 0) && StartsWith4(LOADER_IMAGE, 120, 3, 0, 0, 0)
  {
  }

  /** There are such executables: one of 178 bytes names `l`. */
  lemma LoaderNamed()
    ensures Dynamic(LOADER_IMAGE, "l") && Interprets(LOADER_IMAGE, Ok(Some("l")))
  {
    assert Encode("l") == [0x6C] by { assert "l"[1..] == ""; }
    LoaderFields();
    LoaderBytes();
    hide Encode, LeNat, LOADER_IMAGE, StartsWith4, ElfHeader, Interprets;
    DynamicNamesItsInterpreter(LOADER_IMAGE, "l");
  }

  lemma SliceOfSlice(content: seq<byte>, o: nat, from: nat, to: nat)
    requires from <= to <= 56 && o + 56 <= |content|
    ensures content[o..o + 56][from..to] == content[o + from..o + to]
  {
    var l, r := content[o..o + 56][from..to], content[o + from..o + to];
    forall k | 0 <= k < to - from ensures l[k] == r[k] {
      assert content[o..o + 56][from + k] == content[o + from + k];
    }
  }

  lemma ParsedEntry(content: seq<byte>, i: nat, e: seq<byte>)
    requires |content| >= 64 && Readable(content, i)
             && e == content[EntryOffset(content, i)..EntryOffset(content, i) + 56]
    ensures LeNat(e[0..4]) == EntryType(content, i)
    ensures LeNat(e[0x8..0x10]) == SegmentOffset(content, i) && LeNat(e[0x20..0x28]) == SegmentSize(content, i)
  {
    var o := EntryOffset(content, i);
    SliceOfSlice(content, o, 0, 4);
    SliceOfSlice(content, o, 0x8, 0x10);
    SliceOfSlice(content, o, 0x20, 0x28);
  }

  lemma ParsedHeader(content: seq<byte>, h: seq<byte>)
    requires |content| >= 64 && h == content[..64]
    ensures h[..4] == content[..4] && LeNat(h[0x20..0x28]) == TableOffset(content)
    ensures LeNat(h[0x36..0x38]) == EntrySize(content) < 0x1_0000
            && LeNat(h[0x38..0x3A]) == EntryCount(content) < 0x1_0000
  {
    assert h[..4] == content[..4] && h[0x20..0x28] == content[0x20..0x28];
    assert h[0x36..0x38] == content[0x36..0x38] && h[0x38..0x3A] == content[0x38..0x3A];
    LeBound(h[0x36..0x38]);
    LeBound(h[0x38..0x3A]);
    assert Power256(2) == 0x1_0000;
  }

  lemma SmallProduct(a: nat, b: nat)
    requires a < 0x1_0000 && b < 0x1_0000
    ensures a * b < 0x1_0000_0000
  {
    var spare: nat := 0x1_0000 - a;
    assert spare * b >= 0;
    assert (a + spare) * b == a * b + spare * b;
  }

  /** Seeking to and reading entry `index`, with checked arithmetic. */
  method ReadEntry(file: File, index: nat, phOffset: nat, phEntrySize: nat) returns (r: Result<seq<byte>, ImageError>)
    requires |file.content| >= 64 && index < 0x1_0000 && phEntrySize < 0x1_0000
    requires phOffset == TableOffset(file.content) && phEntrySize == EntrySize(file.content)
    modifies file
    ensures (r.Ok? <==> Readable(file.content, index)) && (r.Ok? ==> |r.value| == 56)
    ensures r.Ok? ==> r.value == file.content[EntryOffset(file.content, index)..EntryOffset(file.content, index) + 56]
    ensures r.Err? ==> r.error == if Addressable(file.content, index) then Exe else UnsupportedExecutable
    ensures file.largest <= Larger(old(file.largest), 56)
  {
    SmallProduct(index, phEntrySize);
    var tableOffset := CheckedMul(index, phEntrySize);
    if tableOffset.None? { return Err(UnsupportedExecutable); }
    var entryOffset := CheckedAdd(phOffset, tableOffset.value);
    if entryOffset.None? { return Err(UnsupportedExecutable); }
    file.Seek(entryOffset.value);
    var entry := file.ReadExact(56);
    r := if entry.Some? then Ok(entry.value) else Err(Exe);
  }

  lemma StopUnreadable(content: seq<byte>, i: nat)
    requires IsElf64(content) && Reached(content, i) && !Readable(content, i)
    ensures Interprets(content, Err(if Addressable(content, i) then Exe else UnsupportedExecutable))
  {
    assert StopsAt(content, i);
  }

  /** What reading the segment of entry i comes to. */
  ghost predicate PathRead(content: seq<byte>, offset: nat, size: nat, r: Result<Option<string>, ImageError>) {
    if size == 0 || size > INTERPRETER_PATH_LIMIT then r == Err(UnsupportedExecutable)
    else if offset + size > |content| then r == Err(Exe)
    else
      match Decode(WithoutTrailingNuls(content[offset..offset + size]))
      case None => r == Err(UnsupportedExecutable)
      case Some(path) => r == Ok(Some(path))
  }

  lemma StopAtPath(content: seq<byte>, i: nat, r: Result<Option<string>, ImageError>)
    requires IsElf64(content) && FirstInterpreter(content, i)
    requires PathRead(content, SegmentOffset(content, i), SegmentSize(content, i), r)
    ensures Interprets(content, r)
  {
    assert StopsAt(content, i);
  }

  /** `program_interpreter`: total on every file, and no buffer above the bound is asked for. */
  method ProgramInterpreter(file: File) returns (r: Result<Option<string>, ImageError>)
    modifies file
    ensures Interprets(file.content, r)
    ensures file.largest <= Larger(old(file.largest), INTERPRETER_PATH_LIMIT)
  {
    hide Verdict, StopsAt, PathAt, PathRead, SegmentOffset, SegmentSize, EntryOffset, Readable, Addressable, EntryType,
        LeNat;
    file.Seek(0);
    var header := file.ReadExact(64);
    if header.None? { return Err(Exe); }
    ghost var content := file.content;
    var h := header.value;
    ParsedHeader(content, h);
    if h[..4] != [0x7F, 0x45, 0x4C, 0x46] || h[4] != 2 || h[5] != 1 { return Err(UnsupportedExecutable); }
    var phOffset, phEntrySize, phCount := LeNat(h[0x20..0x28]), LeNat(h[0x36..0x38]), LeNat(h[0x38..0x3A]);
    for index := 0 to phCount
      invariant forall j: nat | j < index :: Passed(content, j)
      invariant file.largest <= Larger(old(file.largest), INTERPRETER_PATH_LIMIT)
    {
      assert Reached(content, index);
      var entry := ReadEntry(file, index, phOffset, phEntrySize);
      if entry.Err? {
        StopUnreadable(content, index);
        return Err(entry.error);
      }
      var e := entry.value;
      ParsedEntry(content, index, e);
      if LeNat(e[0..4]) == PT_INTERP {
        r := ReadPath(file, LeNat(e[0x8..0x10]), LeNat(e[0x20..0x28]));
        StopAtPath(content, index, r);
        return;
      }
    }
    r := Ok(None);
  }

  method ReadPath(file: File, offset: nat, size: nat) returns (r: Result<Option<string>, ImageError>)
    modifies file
    ensures file.largest <= Larger(old(file.largest), INTERPRETER_PATH_LIMIT)
    ensures PathRead(file.content, offset, size, r)
  {
    if size == 0 || size > INTERPRETER_PATH_LIMIT { return Err(UnsupportedExecutable); }
    file.Seek(offset);
    var bytes := file.ReadExact(size);
    if bytes.None? { return Err(Exe); }
    var path := bytes.value;
    while path != [] && path[|path| - 1] == 0
      invariant WithoutTrailingNuls(path) == WithoutTrailingNuls(bytes.value)
    {
      path := path[..|path| - 1];
    }
    var text := Decode(path);
    r := if text.None? then Err(UnsupportedExecutable) else Ok(text);
  }
}
