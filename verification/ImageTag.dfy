/** `image_tag` of src/proxy_image.rs: the bytes fed to the digest. The digest itself is not modelled. */
module ImageTag {
  import opened Wrappers
  import opened Utf8
  import opened ImageFile
  import opened Canonical
  import Elf
  import M = ImageMaterial
  import Maps

  const RECIPE := "FROM scratch\nCOPY rootfs/ /\nENTRYPOINT [\"/iwaya\", \"proxy\"]\n"
  const CHUNK := 65536

  /** One material entry as values: `length` is what the metadata says, `content` what reading yields. */
  datatype Piece = Piece(destination: string, length: nat, content: seq<byte>)

  /** What the digest is meant to identify. */
  datatype Shipped = Shipped(destination: string, content: seq<byte>)

  predicate Fits(p: Piece) { |Encode(p.destination)| < Power256(8) && p.length < Power256(8) }

  predicate Honest(p: Piece) { p.length == |p.content| }

  function EncodePiece(p: Piece, rest: seq<byte>): seq<byte> {
    LeBytes(|Encode(p.destination)|, 8) + (Encode(p.destination) + (LeBytes(p.length, 8) + (p.content + rest)))
  }

  function EncodeAll(ps: seq<Piece>): seq<byte> {
    if ps == [] then [] else EncodePiece(ps[0], EncodeAll(ps[1..]))
  }

  function ShippedAll(ps: seq<Piece>): seq<Shipped> {
    seq(|ps|, i requires 0 <= i < |ps| => Shipped(ps[i].destination, ps[i].content))
  }

  // ----- Reading the encoding back -----

  /** A length-prefixed field and what follows it. */
  function ReadPrefixed(b: seq<byte>): (r: Option<(seq<byte>, seq<byte>)>)
    ensures r.Some? ==> |r.value.1| < |b|
  {
    if |b| < 8 then None
    else
      var n := LeNat(b[..8]);
      if 8 + n > |b| then None else Some((b[8..8 + n], b[8 + n..]))
  }

  function DecodeAll(b: seq<byte>): Option<seq<Shipped>>
    decreases |b|
  {
    if b == [] then Some([])
    else
      var (name, b1) :- ReadPrefixed(b);
      var destination :- Decode(name);
      var (content, b2) :- ReadPrefixed(b1);
      var rest :- DecodeAll(b2);
      Some([Shipped(destination, content)] + rest)
  }

  lemma ReadPrefixedField(n: nat, field: seq<byte>, rest: seq<byte>)
    requires n < Power256(8)
    ensures var r := ReadPrefixed(LeBytes(n, 8) + (field + rest));
            && (n == |field| ==> r == Some((field, rest)))
            && (r.Some? ==> |r.value.0| == n)
  {
    var b := LeBytes(n, 8) + (field + rest);
    assert b[..8] == LeBytes(n, 8);
    LeRoundTrip(n, 8);
    if n == |field| {
      assert b[8..8 + n] == field && b[8 + n..] == rest;
    }
  }

  lemma ShippedFirst(ps: seq<Piece>)
    requires ps != []
    ensures ShippedAll(ps) == [Shipped(ps[0].destination, ps[0].content)] + ShippedAll(ps[1..])
  {
  }

  lemma NothingShipped()
    ensures DecodeAll(EncodeAll([])) == Some(ShippedAll([]))
  {
    assert EncodeAll([]) == [] && ShippedAll([]) == [];
  }

  lemma {:induction false} HonestReadsBack(ps: seq<Piece>)
    requires forall p | p in ps :: Fits(p) && Honest(p)
    ensures DecodeAll(EncodeAll(ps)) == Some(ShippedAll(ps))
  {
    hide EncodePiece, DecodeAll;
    if ps != [] {
      assert ps[0] in ps && forall p | p in ps[1..] :: p in ps;
      HonestReadsBack(ps[1..]);
      FirstRead(ps[0], EncodeAll(ps[1..]));
      ShippedFirst(ps);
    } else {
      NothingShipped();
    }
  }

  lemma {:induction false} ReadBackIsHonest(ps: seq<Piece>)
    requires forall p | p in ps :: Fits(p)
    requires DecodeAll(EncodeAll(ps)) == Some(ShippedAll(ps))
    ensures forall p | p in ps :: Honest(p)
  {
    hide EncodePiece, DecodeAll;
    if ps != [] {
      var p, rest, shipped := ps[0], EncodeAll(ps[1..]), ShippedAll(ps);
      assert p in ps && ps == [p] + ps[1..] && forall q | q in ps[1..] :: q in ps;
      FirstRead(p, rest);
      ShippedFirst(ps);
      assert shipped[0].content == p.content && shipped[1..] == ShippedAll(ps[1..]);
      assert DecodeAll(rest).value == shipped[1..];
      ReadBackIsHonest(ps[1..]);
    }
  }

  /** The fed bytes give back the ordered destinations and contents exactly when every length
      taken from the metadata is the number of bytes then read. */
  lemma EncodingReadsBack(ps: seq<Piece>)
    requires forall p | p in ps :: Fits(p)
    ensures DecodeAll(EncodeAll(ps)) == Some(ShippedAll(ps)) <==> forall p | p in ps :: Honest(p)
  {
    if DecodeAll(EncodeAll(ps)) == Some(ShippedAll(ps)) {
      ReadBackIsHonest(ps);
    } else if forall p | p in ps :: Honest(p) {
      HonestReadsBack(ps);
    }
  }

  lemma FirstRead(p: Piece, rest: seq<byte>)
    requires Fits(p)
    ensures var r := DecodeAll(EncodePiece(p, rest));
            && (Honest(p) ==>
                  match DecodeAll(rest)
                  case None => r == None
                  case Some(more) => r == Some([Shipped(p.destination, p.content)] + more))
            && (r.Some? ==> r.value != [] && |r.value[0].content| == p.length)
  {
    ReadPrefixedField(|Encode(p.destination)|, Encode(p.destination), LeBytes(p.length, 8) + (p.content + rest));
    DecodeEncode(p.destination);
    ReadPrefixedField(p.length, p.content, rest);
  }

  /** Different material feeds different bytes, after whatever recipe both were preceded by. */
  lemma EncodingInjective(recipe: seq<byte>, ps: seq<Piece>, qs: seq<Piece>)
    requires forall p | p in ps + qs :: Fits(p) && Honest(p)
    requires recipe + EncodeAll(ps) == recipe + EncodeAll(qs)
    ensures ShippedAll(ps) == ShippedAll(qs)
  {
    assert (recipe + EncodeAll(ps))[|recipe|..] == EncodeAll(ps);
    assert (recipe + EncodeAll(qs))[|recipe|..] == EncodeAll(qs);
    assert forall p | p in ps :: p in ps + qs;
    assert forall q | q in qs :: q in ps + qs;
    EncodingReadsBack(ps);
    EncodingReadsBack(qs);
  }

  lemma {:induction false} EncodeAppend(ps: seq<Piece>, qs: seq<Piece>)
    ensures EncodeAll(ps + qs) == EncodeAll(ps) + EncodeAll(qs)
  {
    if ps == [] {
      assert ps + qs == qs;
    } else {
      assert (ps + qs)[1..] == ps[1..] + qs;
      EncodeAppend(ps[1..], qs);
      assert EncodePiece(ps[0], EncodeAll(ps[1..]) + EncodeAll(qs))
          == EncodePiece(ps[0], EncodeAll(ps[1..])) + EncodeAll(qs);
    }
  }

  /** Without that agreement it fails everywhere: when a file grows, between the reading of its metadata and of its
      content, by the encoding of any further files, the bytes are those of the list with these files added. */
  lemma LengthDisagreementCollides(before: seq<Piece>, p: Piece, added: seq<Piece>)
    ensures EncodeAll(before + [p.(content := p.content + EncodeAll(added))]) == EncodeAll(before + [p] + added)
    ensures added != [] ==>
              ShippedAll(before + [p.(content := p.content + EncodeAll(added))]) != ShippedAll(before + [p] + added)
  {
    var grown := p.(content := p.content + EncodeAll(added));
    EncodeAppend(before, [grown]);
    EncodeAppend(before, [p] + added);
    assert before + [p] + added == before + ([p] + added);
    assert ([p] + added)[1..] == added && [grown][1..] == [];
    assert EncodePiece(grown, []) == EncodePiece(p, EncodeAll(added));
    assert |ShippedAll(before + [grown])| == |before| + 1
           && |ShippedAll(before + [p] + added)| == |before| + 1 + |added|;
  }

  // ----- An instance among lists that collection produces -----

  function Destinations(ps: seq<Piece>): seq<string> {
    seq(|ps|, i requires 0 <= i < |ps| => ps[i].destination)
  }

  function CollectedDestinations(ms: seq<M.Material>): seq<string> {
    seq(|ms|, i requires 0 <= i < |ms| => ms[i].destination)
  }

  /** For a static binary, collection yields the binary and its objects if they are in order after it. */
  lemma CollectedInOrder(exe: string, maps: string, objects: seq<string>)
    requires StrictlySorted(M.Identity, ["/iwaya"] + objects)
    requires forall p :: p in objects <==> M.SharedObject(p, exe) && M.Mapped(maps, p)
    ensures CollectedDestinations(M.Collected(exe, None, maps)) == ["/iwaya"] + objects
  {
    hide M.Collected, M.Mapped, M.SharedObject;
    M.MaterialCanonical(exe, None, maps);
    var ms := M.Collected(exe, None, maps);
    var r, expected := CollectedDestinations(ms), ["/iwaya"] + objects;
    assert StrictlySorted(M.Identity, r) by {
      forall i, j | 0 <= i < j < |r| ensures StrLt(r[i], r[j]) {
        assert StrLt(M.Destination(ms[i]), M.Destination(ms[j]));
      }
    }
    forall d ensures d in r <==> d in Keys(M.Destination, ms) {
      if d in r {
        var i :| 0 <= i < |r| && r[i] == d;
        assert ms[i] in ms && M.Destination(ms[i]) == d;
      }
      if d in Keys(M.Destination, ms) {
        var m :| m in ms && M.Destination(m) == d;
        var i :| 0 <= i < |ms| && ms[i] == m;
        assert r[i] == d;
      }
    }
    forall d ensures d in expected <==> d == "/iwaya" || d in objects {
      assert expected[0] == "/iwaya" && expected[1..] == objects;
    }
    StrictUnique(M.Identity, r, expected);
  }

  /** A maps line of a shared object. */
  function ObjectLine(path: string): string {
    Maps.Rendered(Maps.Mapping(["0-1", "r-xp", "0", "8:1", "7"], [" ", " ", " ", " ", " "], path, false))
  }

  function ObjectLines(paths: seq<string>): seq<string> {
    seq(|paths|, i requires 0 <= i < |paths| => ObjectLine(paths[i]))
  }

  /** What is needed of a path to stand in a maps line as it is. */
  predicate Plain(path: string) { "/" <= path && path[|path| - 1] == 'o' && '\n' !in path }

  lemma ObjectLineReads(paths: seq<string>, i: nat)
    requires i < |paths| && forall p | p in paths :: Plain(p)
    requires forall l | l in ObjectLines(paths) :: '\n' !in l
    ensures |Maps.Lines(Maps.MapsText(ObjectLines(paths)))| == |paths|
    ensures Maps.Pathname(Maps.Lines(Maps.MapsText(ObjectLines(paths)))[i]) == Some(paths[i])
  {
    var m := Maps.Mapping(["0-1", "r-xp", "0", "8:1", "7"], [" ", " ", " ", " ", " "], paths[i], false);
    ObjectFileBacked(paths[i]);
    assert paths[i] in paths && paths[i][0] == '/';
    assert !Maps.EndsWith(paths[i], Maps.DELETED) by { assert Maps.DELETED[|Maps.DELETED| - 1] == ')'; }
    assert !Maps.EndsWith(paths[i], "\r") by { assert "\r"[0] == '\r'; }
    hide Maps.MapsText, Maps.Lines, Maps.Pathname, Maps.Rendered, Maps.EndsWith;
    Maps.PathnameSurvives(ObjectLines(paths), i, m);
  }

  lemma ObjectFileBacked(path: string)
    requires Plain(path)
    ensures var m := Maps.Mapping(["0-1", "r-xp", "0", "8:1", "7"], [" ", " ", " ", " ", " "], path, false);
            Maps.FileBacked(m) && '\n' !in Maps.Rendered(m)
  {
    var m := Maps.Mapping(["0-1", "r-xp", "0", "8:1", "7"], [" ", " ", " ", " ", " "], path, false);
    assert path[0] == '/';
    Maps.ReadRendered(m);
  }

  lemma ObjectsMapped(paths: seq<string>)
    requires forall p | p in paths :: Plain(p)
    ensures forall p :: M.Mapped(Maps.MapsText(ObjectLines(paths)), p) <==> p in paths
  {
    forall l | l in ObjectLines(paths) ensures '\n' !in l {
      var i :| 0 <= i < |paths| && ObjectLines(paths)[i] == l;
      assert paths[i] in paths;
      ObjectFileBacked(paths[i]);
    }
    var lines := Maps.Lines(Maps.MapsText(ObjectLines(paths)));
    if paths != [] { ObjectLineReads(paths, 0); }
    hide Maps.MapsText, Maps.Lines, Maps.Pathname;
    forall i | 0 <= i < |paths| ensures |lines| == |paths| && Maps.Pathname(lines[i]) == Some(paths[i]) {
      ObjectLineReads(paths, i);
    }
    forall p ensures M.Mapped(Maps.MapsText(ObjectLines(paths)), p) <==> p in paths {
      if p in paths {
        var i :| 0 <= i < |paths| && paths[i] == p;
        assert lines[i] in lines;
      }
    }
  }

  const FIRST_OBJECT := "/l.so"
  const SECOND_OBJECT := "/m.so"

  lemma ObjectsOrdered()
    ensures StrLt("/iwaya", FIRST_OBJECT) && StrLt("/iwaya", SECOND_OBJECT) && StrLt(FIRST_OBJECT, SECOND_OBJECT)
  {
    SecondByteDecides("/iwaya", "/l.so");
    SecondByteDecides("/iwaya", "/m.so");
    SecondByteDecides("/l.so", "/m.so");
  }

  lemma SecondByteDecides(a: string, b: string)
    requires |a| >= 2 && |b| >= 2 && a[0] == b[0] == '/' && a[1] < b[1] && b[1] as int < 0x80
    ensures StrLt(a, b)
  {
    var x, y := Encode(a), Encode(b);
    assert a[1..][0] == a[1] && b[1..][0] == b[1];
    assert x == [0x2F] + Encode(a[1..]) && y == [0x2F] + Encode(b[1..]);
    assert Encode(a[1..])[0] == a[1] as int && Encode(b[1..])[0] == b[1] as int;
    assert x[1..] == Encode(a[1..]) && y[1..] == Encode(b[1..]);
  }

  lemma ObjectsQualify()
    ensures M.SharedObject(FIRST_OBJECT, "/x") && M.SharedObject(SECOND_OBJECT, "/x") && Plain(FIRST_OBJECT)
            && Plain(SECOND_OBJECT)
  {
    assert M.SoAt(FIRST_OBJECT, 2) && M.SoAt(SECOND_OBJECT, 2);
    assert |"/x"| == 2;
  }

  lemma CollectedOne()
    ensures CollectedDestinations(M.Collected("/x", None, Maps.MapsText(ObjectLines([FIRST_OBJECT]))))
        == ["/iwaya", FIRST_OBJECT]
  {
    var objects := [FIRST_OBJECT];
    ObjectsOrdered();
    ObjectsQualify();
    hide M.SharedObject, M.Mapped, M.Collected, Maps.MapsText, StrLt, Plain, ObjectLines, CollectedDestinations,
        FIRST_OBJECT;
    ObjectsMapped(objects);
    assert ["/iwaya"] + objects == ["/iwaya", FIRST_OBJECT];
    CollectedInOrder("/x", Maps.MapsText(ObjectLines(objects)), objects);
  }

  lemma CollectedTwo()
    ensures CollectedDestinations(M.Collected("/x", None, Maps.MapsText(ObjectLines([FIRST_OBJECT, SECOND_OBJECT]))))
         == ["/iwaya", FIRST_OBJECT, SECOND_OBJECT]
  {
    var objects := [FIRST_OBJECT, SECOND_OBJECT];
    ObjectsOrdered();
    ObjectsQualify();
    hide M.SharedObject, M.Mapped, M.Collected, Maps.MapsText, StrLt, Plain, ObjectLines, CollectedDestinations;
    hide FIRST_OBJECT, SECOND_OBJECT;
    ObjectsMapped(objects);
    assert ["/iwaya"] + objects == ["/iwaya", FIRST_OBJECT, SECOND_OBJECT];
    CollectedInOrder("/x", Maps.MapsText(ObjectLines(objects)), objects);
  }

  /** The entry of a binary that the interpreter reader takes for a static one. */
  ghost predicate IsStaticBinary(binary: Piece) {
    && binary.destination == "/iwaya" && Fits(binary) && Honest(binary)
    && Elf.Interprets(binary.content, Ok(None))
  }

  const BARE_HEADER: seq<byte> := [0x7F, 0x45, 0x4C, 0x46, 2, 1] + seq(58, _ => 0)

  lemma BareHeaderStatic()
    ensures Elf.Interprets(BARE_HEADER, Ok(None)) && |BARE_HEADER| == 64
  {
    assert BARE_HEADER[..4] == [0x7F, 0x45, 0x4C, 0x46] && BARE_HEADER[4] == 2 && BARE_HEADER[5] == 1;
    assert BARE_HEADER[0x38..0x3A] == LeBytes(0, 2);
    LeRoundTrip(0, 2);
    assert Elf.EntryCount(BARE_HEADER) == 0;
    hide LeNat, LeBytes, Elf.Passed, Elf.StopsAt, Elf.Verdict, BARE_HEADER;
  }

  /** There are such binaries: a header without program headers is one. */
  lemma StaticBinary() returns (binary: Piece)
    ensures IsStaticBinary(binary)
  {
    BareHeaderStatic();
    ShortNames();
    hide BARE_HEADER, Elf.Interprets, Encode;
    assert Power256(8) > 100;
    binary := Piece("/iwaya", 64, BARE_HEADER);
  }

  /** Any static binary and one object that grows by an encoded second object feed the bytes of the binary and both
      objects, although collection produces both lists and the second one's lengths agree. */
  lemma CollectedListsCollide(binary: Piece) returns (maps: string, maps': string, ps: seq<Piece>, qs: seq<Piece>)
    requires IsStaticBinary(binary)
    ensures ps != [] && qs != [] && ps[0] == qs[0] == binary
    ensures Destinations(ps) == CollectedDestinations(M.Collected("/x", None, maps))
    ensures Destinations(qs) == CollectedDestinations(M.Collected("/x", None, maps'))
    ensures (forall p | p in ps + qs :: Fits(p)) && (forall q | q in qs :: Honest(q))
    ensures EncodeAll(ps) == EncodeAll(qs) && ShippedAll(ps) != ShippedAll(qs)
  {
    maps, maps' := Maps.MapsText(ObjectLines([FIRST_OBJECT])),
        Maps.MapsText(ObjectLines([FIRST_OBJECT, SECOND_OBJECT]));
    CollectedOne();
    CollectedTwo();
    ShortNames();
    hide M.Collected, Maps.MapsText, ObjectLines, CollectedDestinations, EncodeAll, EncodePiece, ShippedAll, Encode,
        Power256;
    hide FIRST_OBJECT, SECOND_OBJECT, Elf.Interprets;
    var first, second := Piece(FIRST_OBJECT, 0, []), Piece(SECOND_OBJECT, 0, []);
    var grown := first.(content := first.content + EncodeAll([second]));
    LengthDisagreementCollides([binary], first, [second]);
    ps, qs := [binary] + [grown], [binary] + [first] + [second];
  }

  lemma ShortNames()
    ensures forall n | n in ["/iwaya", FIRST_OBJECT, SECOND_OBJECT] :: |Encode(n)| < Power256(8)
    ensures 0 < Power256(8)
  {
    assert Power256(8) > 100;
    forall n | n in ["/iwaya", FIRST_OBJECT, SECOND_OBJECT] ensures |Encode(n)| <= 24 { ShortName(n); }
  }

  lemma {:induction false} ShortName(s: string)
    ensures |Encode(s)| <= 4 * |s|
  {
    if s != "" { ShortName(s[1..]); }
  }

  // ----- Feeding it -----

  class Hasher {
    var fed: seq<byte>

    constructor ()
      ensures fed == []
    {
      fed := [];
    }

    method Update(data: seq<byte>)
      modifies this
      ensures fed == old(fed) + data
    {
      fed := fed + data;
    }
  }

  datatype Entry = Entry(destination: string, file: File)

  function PieceOf(e: Entry): Piece { Piece(e.destination, e.file.length, e.file.content) }

  function Pieces(material: seq<Entry>): seq<Piece> {
    seq(|material|, i requires 0 <= i < |material| => PieceOf(material[i]))
  }

  /** The chunk loop: whatever sizes the reads come in, what is fed is the content. */
  method FeedContent(hasher: Hasher, file: File) returns (ok: bool)
    modifies hasher, file`position
    ensures ok ==> hasher.fed == old(hasher.fed) + file.content
  {
    file.Seek(0);
    while true
      invariant file.position <= |file.content|
      invariant hasher.fed == old(hasher.fed) + file.content[..file.position]
      decreases |file.content| - file.position
    {
      ghost var before := file.position;
      var read := file.Read(CHUNK);
      if read.None? { return false; }
      if read.value == [] { break; }
      assert file.content[..before] + file.content[before..file.position] == file.content[..file.position];
      hasher.Update(read.value);
    }
    assert file.content[..|file.content|] == file.content;
    ok := true;
  }

  /** `image_tag`, up to finishing the digest. A read may fail; the entry is then the error. */
  method FeedTag(hasher: Hasher, material: seq<Entry>) returns (r: Result<(), ImageError>)
    modifies hasher, set e | e in material :: e.file
    ensures r.Ok? ==>
              hasher.fed == old(hasher.fed)
                            + (Encode("FROM scratch\nCOPY rootfs/ /\nENTRYPOINT [\"/iwaya\", \"proxy\"]\n")
                               + EncodeAll(Pieces(material)))
    ensures r.Err? ==> exists e | e in material :: r.error == Unreadable(e.destination)
  {
    hide Encode, LeBytes;
    hasher.Update(Encode(RECIPE));
    ghost var start := hasher.fed;
    assert material[0..] == material;
    for i := 0 to |material|
      invariant hasher.fed + EncodeAll(Pieces(material[i..])) == start + EncodeAll(Pieces(material))
    {
      ghost var fed := hasher.fed;
      var entry := material[i];
      hasher.Update(LeBytes(|Encode(entry.destination)|, 8));
      hasher.Update(Encode(entry.destination));
      hasher.Update(LeBytes(entry.file.length, 8));
      var ok := FeedContent(hasher, entry.file);
      if !ok { return Err(Unreadable(entry.destination)); }
      EntryFed(fed, material, i);
    }
    assert Pieces(material[|material|..]) == [];
    assert hasher.fed == start + EncodeAll(Pieces(material));
    r := Ok(());
  }

  /** One entry's four feeds advance the encoding by exactly that entry. */
  lemma EntryFed(fed: seq<byte>, material: seq<Entry>, i: nat)
    requires i < |material|
    ensures var e := material[i];
            fed + LeBytes(|Encode(e.destination)|, 8) + Encode(e.destination) + LeBytes(e.file.length, 8)
            + e.file.content + EncodeAll(Pieces(material[i + 1..])) == fed + EncodeAll(Pieces(material[i..]))
  {
    var e := material[i];
    assert Pieces(material[i..])[1..] == Pieces(material[i + 1..]);
    Regroup(fed, LeBytes(|Encode(e.destination)|, 8), Encode(e.destination), LeBytes(e.file.length, 8), e.file.content,
            EncodeAll(Pieces(material[i + 1..])));
  }

  lemma Regroup(a: seq<byte>, b: seq<byte>, c: seq<byte>, d: seq<byte>, e: seq<byte>, f: seq<byte>)
    ensures a + b + c + d + e + f == a + (b + (c + (d + (e + f))))
  {
  }
}
