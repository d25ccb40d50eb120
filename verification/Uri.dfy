/** The outbound URI of src/proxy.rs `forward`: configured upstream followed by the caller's target. */
module Uri {
  import opened Wrappers
  import opened Text
  import opened Origin

  /** `is_origin_form` */
  predicate IsOriginForm(target: string) {
    "/" <= target && !("//" <= target) && !("/\\" <= target)
  }

  /** The generic split of section 3 of RFC 3986: the authority runs to the next '/', '?', '#' or the end. */
  datatype Parts = Parts(scheme: string, authority: string, remainder: string)

  function AuthorityEnd(s: string): (n: nat)
    ensures n <= |s|
    ensures forall c | c in s[..n] :: c !in "/?#"
    ensures n < |s| ==> s[n] in "/?#"
  {
    if s == "" || s[0] in "/?#" then 0
    else
      assert s[..1 + AuthorityEnd(s[1..])] == [s[0]] + s[1..][..AuthorityEnd(s[1..])];
      1 + AuthorityEnd(s[1..])
  }

  function SplitUri(uri: string): Option<Parts> {
    match SplitOnce(uri, ':')
    case None => None
    case Some((scheme, rest)) =>
      if "//" <= rest then
        var n := AuthorityEnd(rest[2..]);
        Some(Parts(scheme, rest[2..][..n], rest[2..][n..]))
      else None
  }

  /** Section 4.2 of RFC 3986: a reference beginning with two slashes names its own authority. */
  predicate NetworkPathReference(reference: string) { "//" <= reference }

  /** How WHATWG URL parsing reads a backslash in an http URL. */
  function Slashed(s: string): string {
    seq(|s|, i requires 0 <= i < |s| => if s[i] == '\\' then '/' else s[i])
  }

  lemma {:induction false} AuthorityEndsAtSlash(authority: string, target: string)
    requires "/" <= target && forall c | c in authority :: c !in "/?#"
    ensures AuthorityEnd(authority + target) == |authority|
  {
    if authority == "" {
      assert authority + target == target;
    } else {
      assert authority[0] in authority;
      assert (authority + target)[1..] == authority[1..] + target;
      AuthorityEndsAtSlash(authority[1..], target);
    }
  }

  lemma Regroup(a: string, b: string, c: string, d: string)
    ensures a + b + c + d == a + b + (c + d)
  {
  }

  lemma SplitAtScheme(scheme: string, tail: string)
    requires ':' !in scheme
    ensures SplitOnce(scheme + "://" + tail, ':') == Some((scheme, "//" + tail))
  {
    var uri := scheme + "://" + tail;
    assert uri == scheme + ":" + ("//" + tail);
    assert uri[|scheme|] == ':';
    var (before, rest) := SplitOnce(uri, ':').value;
    SplitUnique(scheme, "//" + tail, before, rest, ':');
  }

  /** The caller cannot move the authority: it is the configured one, userinfo included,
      and the target is the whole of what follows. */
  lemma AuthorityFixed(upstream: string, target: string)
    requires IsHttpOrigin(upstream) && IsOriginForm(target)
    ensures var o := Decompose(upstream);
            && SplitUri(upstream + target) == Some(Parts(Scheme(o), Authority(o), target))
            && '@' !in Authority(o)
  {
    var o := Decompose(upstream);
    var scheme, authority := Scheme(o), Authority(o);
    AuthorityChars(o);
    SplitRendered(scheme, authority, target);
    Regroup(scheme, "://", authority, target);
  }

  lemma SplitRendered(scheme: string, authority: string, target: string)
    requires ':' !in scheme && "/" <= target && forall c | c in authority :: c !in "/?#"
    ensures SplitUri(scheme + "://" + (authority + target)) == Some(Parts(scheme, authority, target))
  {
    var tail := authority + target;
    SplitAtScheme(scheme, tail);
    AuthorityEndsAtSlash(authority, target);
    assert ("//" + tail)[2..] == tail;
    assert tail[..|authority|] == authority && tail[|authority|..] == target;
  }

  /** The outbound URI determines both of its halves. */
  lemma UriDetermines(u1: string, t1: string, u2: string, t2: string)
    requires IsHttpOrigin(u1) && IsOriginForm(t1) && IsHttpOrigin(u2) && IsOriginForm(t2)
    requires u1 + t1 == u2 + t2
    ensures u1 == u2 && t1 == t2
  {
    AuthorityFixed(u1, t1);
    AuthorityFixed(u2, t2);
    var o1, o2 := Decompose(u1), Decompose(u2);
    assert Render(o1) == Render(o2);
  }

  /** Accepted targets are exactly the rooted ones that name no authority, whether or
      not the reader treats a backslash as a slash. */
  lemma OriginFormExactly(target: string)
    ensures IsOriginForm(target)
       <==> "/" <= target && !NetworkPathReference(target) && !NetworkPathReference(Slashed(target))
  {
    if |target| >= 2 {
      assert Slashed(target)[0] == (if target[0] == '\\' then '/' else target[0]);
      assert Slashed(target)[1] == (if target[1] == '\\' then '/' else target[1]);
    }
  }
}
