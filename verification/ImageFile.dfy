/** Files as the image code uses them: a fixed content and a moving position. */
module ImageFile {
  import opened Wrappers
  import opened Utf8

  datatype ImageError = Exe | Maps | UnsupportedExecutable | Unreadable(path: string)

  function Larger(a: nat, b: nat): nat { if a > b then a else b }

  class File {
    const content: seq<byte>
    /** What the file's metadata says its length is. */
    const length: nat
    var position: nat
    /** The largest buffer any exact read has asked for. */
    var largest: nat

    constructor (content: seq<byte>, length: nat)
      ensures this.content == content && this.length == length && position == 0 && largest == 0
    {
      this.content, this.length := content, length;
      position, largest := 0, 0;
    }

    method Seek(offset: nat)
      modifies this`position
      ensures position == offset
    {
      position := offset;
    }

    /** `read_exact` into a fresh buffer of n bytes. */
    method ReadExact(n: nat) returns (r: Option<seq<byte>>)
      modifies this
      ensures r.Some? <==> old(position) + n <= |content|
      ensures r.Some? ==> r.value == content[old(position)..old(position) + n]
      ensures largest == Larger(n, old(largest))
    {
      largest := Larger(n, largest);
      if position + n <= |content| {
        r := Some(content[position..position + n]);
        position := position + n;
      } else {
        r := None;
      }
    }

    /** `read`: how much arrives, up to the buffer's size, is the system's choice; so is failing. */
    method Read(max: nat) returns (r: Option<seq<byte>>)
      requires max > 0 && position <= |content|
      modifies this`position
      ensures r.Some? ==> && old(position) <= position <= |content| && |r.value| <= max
                          && r.value == content[old(position)..position]
                          && (r.value == [] <==> old(position) == |content|)
      ensures r.None? ==> position == old(position)
    {
      if * {
        return None;
      }
      if position == |content| {
        return Some([]);
      }
      var n: nat :| 1 <= n <= max && position + n <= |content|;
      r := Some(content[position..position + n]);
      position := position + n;
    }
  }

  // ----- Little-endian integers -----

  function LeBytes(n: nat, width: nat): (r: seq<byte>)
    ensures |r| == width
  {
    if width == 0 then [] else [n % 256] + LeBytes(n / 256, width - 1)
  }

  function LeNat(b: seq<byte>): nat {
    if b == [] then 0 else b[0] + 256 * LeNat(b[1..])
  }

  function Power256(k: nat): nat { if k == 0 then 1 else 256 * Power256(k - 1) }

  lemma {:induction false} LeRoundTrip(n: nat, width: nat)
    requires n < Power256(width)
    ensures LeNat(LeBytes(n, width)) == n
  {
    if width > 0 {
      LeRoundTrip(n / 256, width - 1);
      assert LeBytes(n, width)[1..] == LeBytes(n / 256, width - 1);
    }
  }

  lemma {:induction false} LeBound(b: seq<byte>)
    ensures LeNat(b) < Power256(|b|)
  {
    if b != [] {
      LeBound(b[1..]);
    }
  }
}
