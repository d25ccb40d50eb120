/** src/proxy_image.rs: collecting the files of the proxy image. */
module ImageMaterial {
  import opened Wrappers
  import opened Text
  import opened Canonical
  import opened ImageFile
  import opened Maps
  import Elf

  // ----- Mapped objects -----

  predicate Contains(s: string, t: string) { t <= s || (s != "" && Contains(s[1..], t)) }

  predicate IsObject(path: string, exe: string) { "/" <= path && Contains(path, ".so") && path != exe }

  predicate SoAt(path: string, i: int) {
    0 <= i && i + 2 < |path| && path[i] == '.' && path[i + 1] == 's' && path[i + 2] == 'o'
  }

  /** An absolute path with ".so" somewhere in it that is not the binary's own. */
  ghost predicate SharedObject(path: string, exe: string) {
    path != "" && path[0] as int == 47 && path != exe && exists i :: SoAt(path, i)
  }

  lemma {:induction false} ContainsSo(s: string)
    ensures Contains(s, ".so") <==> exists i :: SoAt(s, i)
  {
    assert SoAt(s, 0) ==> s[..3] == ".so";
    if ".so" <= s {
      assert SoAt(s, 0);
    } else if s != "" {
      ContainsSo(s[1..]);
      if i :| SoAt(s[1..], i) {
        assert SoAt(s, i + 1);
      }
      if i :| SoAt(s, i) {
        assert SoAt(s[1..], i - 1);
      }
    }
  }

  lemma ObjectExactly(path: string, exe: string)
    ensures IsObject(path, exe) <==> SharedObject(path, exe)
  {
    ContainsSo(path);
    hide Contains, SoAt;
  }

  /** The filtered pathnames in line order. */
  function MappedObjects(lines: seq<string>, exe: string): seq<string> {
    if lines == [] then []
    else
      var rest := MappedObjects(lines[..|lines| - 1], exe);
      match Pathname(lines[|lines| - 1])
      case None => rest
      case Some(path) => if IsObject(path, exe) then rest + [path] else rest
  }

  function Identity(s: string): string { s }

  /** `loaded_shared_objects` */
  function LoadedObjects(maps: string, exe: string): seq<string> {
    Dedup(Identity, StableSort(Identity, MappedObjects(Lines(maps), exe)))
  }

  ghost predicate NamedIn(lines: seq<string>, path: string) { exists l | l in lines :: Pathname(l) == Some(path) }

  lemma {:induction false} MappedMembers(lines: seq<string>, exe: string)
    ensures forall p :: p in MappedObjects(lines, exe) <==> IsObject(p, exe) && NamedIn(lines, p)
  {
    if lines != [] {
      var front, last := lines[..|lines| - 1], lines[|lines| - 1];
      assert lines == front + [last];
      MappedMembers(front, exe);
      forall p ensures p in MappedObjects(lines, exe) <==> IsObject(p, exe) && NamedIn(lines, p) {
        assert last in lines;
      }
    }
  }

  /** Some line of the maps names the path. */
  ghost predicate Mapped(maps: string, path: string) { NamedIn(Lines(maps), path) }

  lemma LoadedMembers(maps: string, exe: string)
    ensures StrictlySorted(Identity, LoadedObjects(maps, exe))
    ensures forall p :: p in LoadedObjects(maps, exe) <==> SharedObject(p, exe) && Mapped(maps, p)
  {
    forall p ensures IsObject(p, exe) <==> SharedObject(p, exe) { ObjectExactly(p, exe); }
    hide IsObject, SharedObject, Mapped;
    var mapped, r := MappedObjects(Lines(maps), exe), LoadedObjects(maps, exe);
    MappedMembers(Lines(maps), exe);
    SortedDedup(Identity, mapped);
    forall p ensures p in r <==> p in mapped {
      if p in r { assert Identity(p) in Keys(Identity, mapped); }
      if p in mapped { assert Identity(p) in Keys(Identity, r); }
    }
  }

  /** An image file: where it lands and where its bytes come from. The handle the source keeps is
      the one opened from `path`; for the binary itself that is `/proc/self/exe`. */
  datatype Material = Material(destination: string, path: string)

  function Destination(m: Material): string { m.destination }

  function SamePath(path: string): Material { Material(path, path) }

  function Paths(objects: seq<string>): seq<Material> {
    seq(|objects|, i requires 0 <= i < |objects| => SamePath(objects[i]))
  }

  /** Everything pushed, in push order: the binary, its interpreter, the mapped objects. */
  function Pushed(exe: string, interpreter: Option<string>, objects: seq<string>): seq<Material> {
    [Material("/iwaya", exe)]
    + (if interpreter.Some? then [SamePath(interpreter.value)] else [])
    + Paths(objects)
  }

  function Collected(exe: string, interpreter: Option<string>, maps: string): seq<Material> {
    Dedup(Destination, StableSort(Destination, Pushed(exe, interpreter, LoadedObjects(maps, exe))))
  }

  /** Opening an image file whose destination is its host path. */
  function OpenMaterial(path: string, readable: set<string>): Result<Material, ImageError> {
    if path in readable then Ok(SamePath(path)) else Err(Unreadable(path))
  }

  /** `build_material`: the binary's path and handle, the maps text and the set of paths that open are the system's. */
  method BuildMaterial(exePath: Option<string>, exe: Option<File>, maps: Option<string>, readable: set<string>)
    returns (r: Result<seq<Material>, ImageError>)
    modifies if exe.Some? then {exe.value} else {}
    ensures exePath.None? || exe.None? ==> r == Err(Exe)
    ensures exePath.Some? && exe.Some? ==>
              && (forall e | Elf.Interprets(exe.value.content, Err(e)) :: r == Err(e))
              && (forall i | Elf.Interprets(exe.value.content, Ok(i)) ::
                    AfterInterpreter(exePath.value, i, maps, readable, r))
  {
    if exePath.None? || exe.None? { return Err(Exe); }
    var interpreter := Elf.ProgramInterpreter(exe.value);
    forall s | Elf.Interprets(exe.value.content, s) ensures s == interpreter {
      Elf.InterpretsOnce(exe.value.content, s, interpreter);
    }
    hide Elf.Interprets;
    if interpreter.Err? { return Err(interpreter.error); }
    r := CollectMaterial(exePath.value, interpreter.value, maps, readable);
  }

  method CollectMaterial(exePath: string, interpreter: Option<string>, maps: Option<string>, readable: set<string>)
    returns (r: Result<seq<Material>, ImageError>)
    ensures AfterInterpreter(exePath, interpreter, maps, readable, r)
  {
    hide LoadedObjects, StableSort, Dedup;
    var material := [Material("/iwaya", exePath)];
    if interpreter.Some? {
      var entry := OpenMaterial(interpreter.value, readable);
      if entry.Err? { return Err(entry.error); }
      material := material + [entry.value];
    }
    if maps.None? { return Err(ImageError.Maps); }
    var objects := LoadedObjects(maps.value, exePath);
    ghost var before := material;
    for i := 0 to |objects|
      invariant material == before + Paths(objects[..i])
      invariant forall j | 0 <= j < i :: objects[j] in readable
    {
      var entry := OpenMaterial(objects[i], readable);
      if entry.Err? {
        assert FirstUnreadable(objects, readable, i);
        return Err(entry.error);
      }
      material := material + [entry.value];
    }
    assert objects[..|objects|] == objects;
    assert material == Pushed(exePath, interpreter, objects);
    r := Ok(Dedup(Destination, StableSort(Destination, material)));
  }

  /** With the interpreter known: what does not open or read is the failure, the interpreter before the maps before
      the objects in their order, and otherwise the result is the collected material. */
  ghost predicate AfterInterpreter(exePath: string, interpreter: Option<string>, maps: Option<string>,
                                   readable: set<string>, r: Result<seq<Material>, ImageError>)
  {
    if interpreter.Some? && interpreter.value !in readable then r == Err(Unreadable(interpreter.value))
    else if maps.None? then r == Err(ImageError.Maps)
    else if forall p | p in LoadedObjects(maps.value, exePath) :: p in readable then
      r == Ok(Collected(exePath, interpreter, maps.value))
    else
      var objects := LoadedObjects(maps.value, exePath);
      exists i :: FirstUnreadable(objects, readable, i) && r == Err(Unreadable(objects[i]))
  }

  ghost predicate FirstUnreadable(objects: seq<string>, readable: set<string>, i: int) {
    0 <= i < |objects| && objects[i] !in readable && forall j | 0 <= j < i :: objects[j] in readable
  }

  // ----- Canonical form -----

  /** Strictly increasing destinations, which are the binary's, the interpreter's and the mapped
      objects'; the running binary is what lands at /iwaya; everything else lands where it lives. */
  lemma MaterialCanonical(exe: string, interpreter: Option<string>, maps: string)
    ensures var r := Collected(exe, interpreter, maps);
            && StrictlySorted(Destination, r)
            && (forall d :: d in Keys(Destination, r) <==>
                  d == "/iwaya" || interpreter == Some(d) || (SharedObject(d, exe) && Mapped(maps, d)))
            && (forall m | m in r ::
                  m == if m.destination == "/iwaya" then Material("/iwaya", exe) else SamePath(m.destination))
  {
    var objects := LoadedObjects(maps, exe);
    var pushed := Pushed(exe, interpreter, objects);
    LoadedMembers(maps, exe);
    SortedDedup(Destination, pushed);
    PushedKeys(exe, interpreter, objects);
    forall m | m in Collected(exe, interpreter, maps)
      ensures m == if m.destination == "/iwaya" then Material("/iwaya", exe) else SamePath(m.destination)
    {
      FirstAtFound(Destination, pushed, Destination(m));
      assert m in pushed;
      if m.destination == "/iwaya" { FirstAtHead(pushed); }
    }
  }

  lemma PushedKeys(exe: string, interpreter: Option<string>, objects: seq<string>)
    ensures forall d ::
              d in Keys(Destination, Pushed(exe, interpreter, objects))
              <==> d == "/iwaya" || interpreter == Some(d) || d in objects
    ensures forall m | m in Pushed(exe, interpreter, objects) ::
        m == Material("/iwaya", exe) || m == SamePath(m.destination)
  {
    var pushed := Pushed(exe, interpreter, objects);
    var head := if interpreter.Some? then [SamePath(interpreter.value)] else [];
    assert pushed == [Material("/iwaya", exe)] + head + Paths(objects);
    forall d | d in objects ensures SamePath(d) in pushed {
      var i :| 0 <= i < |objects| && objects[i] == d;
      assert Paths(objects)[i] == SamePath(d);
    }
    forall d | d == "/iwaya" || interpreter == Some(d) || d in objects ensures d in Keys(Destination, pushed) {
      var m := if d == "/iwaya" then Material("/iwaya", exe) else SamePath(d);
      assert m in pushed && Destination(m) == d;
    }
  }

  lemma {:induction false} FirstAtHead(ms: seq<Material>)
    requires ms != [] && ms[0].destination == "/iwaya"
    ensures FirstAt(Destination, ms, "/iwaya") == Some(ms[0])
  {
    if |ms| > 1 {
      FirstAtHead(ms[..|ms| - 1]);
    } else {
      assert FirstAt(Destination, ms[..0], "/iwaya") == None;
    }
  }

  /** Any order and any repetition of the same map lines collects the same material, or fails on the same file. */
  lemma MapOrderFree(exe: string, interpreter: Option<string>, maps: string, maps': string, readable: set<string>,
                     r: Result<seq<Material>, ImageError>, r': Result<seq<Material>, ImageError>)
    requires forall l :: l in Lines(maps) <==> l in Lines(maps')
    requires AfterInterpreter(exe, interpreter, Some(maps), readable, r)
    requires AfterInterpreter(exe, interpreter, Some(maps'), readable, r')
    ensures r == r' && Collected(exe, interpreter, maps) == Collected(exe, interpreter, maps')
  {
    LoadedMembers(maps, exe);
    LoadedMembers(maps', exe);
    StrictUnique(Identity, LoadedObjects(maps, exe), LoadedObjects(maps', exe));
    hide LoadedObjects, Lines, Mapped;
    OneVerdict(exe, interpreter, maps, maps', readable, r, r');
  }

  lemma OneVerdict(exe: string, interpreter: Option<string>, maps: string, maps': string, readable: set<string>,
                   r: Result<seq<Material>, ImageError>, r': Result<seq<Material>, ImageError>)
    requires LoadedObjects(maps, exe) == LoadedObjects(maps', exe)
    requires AfterInterpreter(exe, interpreter, Some(maps), readable, r)
    requires AfterInterpreter(exe, interpreter, Some(maps'), readable, r')
    ensures r == r'
  {
    hide LoadedObjects;
  }
}
