/** The origin test of src/config/validate.rs, shared by configuration and proxy. */
module Origin {
  import opened Wrappers
  import opened Text

  predicate HostChar(c: char) { !IsWhitespace(c) && !IsControl(c) && c !in "/?#@\\:[]" }

  predicate NameHost(host: string) { host != "" && forall c | c in host :: HostChar(c) }

  predicate LiteralHost(host: string) {
    host != "" && forall c | c in host :: IsHexDigit(c) || c == ':' || c == '.'
  }

  predicate PortParses(port: string) {
    AllDigits(port)
    && match ParseU32(port)
       case None => false
       case Some(n) => 1 <= n <= 65535
  }

  predicate AuthorityAccepted(authority: string) {
    if "[" <= authority then
      match SplitOnce(authority[1..], ']')
      case None => false
      case Some((host, after)) =>
        if ":" <= after then LiteralHost(host) && PortParses(after[1..])
        else if after == "" then LiteralHost(host)
        else false
    else
      match RSplitOnce(authority, ':')
      case Some((host, port)) => NameHost(host) && PortParses(port)
      case None => NameHost(authority)
  }

  /** `is_http_origin` */
  predicate IsHttpOrigin(upstream: string) {
    if "https://" <= upstream then AuthorityAccepted(upstream[8..])
    else if "http://" <= upstream then AuthorityAccepted(upstream[7..])
    else false
  }

  // ----- What the test accepts, said without scanning: http(s)://host[:port]. -----

  datatype Host = Name(text: string) | Literal(text: string)
  datatype HttpOrigin = HttpOrigin(secure: bool, host: Host, port: Option<string>)

  ghost predicate PortInRange(port: string) {
    AllDigits(port) && 1 <= Numeral(port) <= 65535
  }

  ghost predicate WellFormed(o: HttpOrigin) { HostOk(o.host) && PortOk(o.port) }

  /** The code points a host name must not have: the eight delimiters / ? # @ \ : [ ], the control characters, and
      the white space that is no control character. */
  predicate RefusedInName(u: int) {
    || u in {47, 63, 35, 64, 92, 58, 91, 93}
    || 0 <= u <= 31 || 127 <= u <= 159
    || u in {32, 160, 5760, 8192, 8193, 8194, 8195, 8196, 8197, 8198, 8199, 8200, 8201, 8202, 8232, 8233, 8239, 8287,
             12288}
  }

  /** The code points of an address literal: hexadecimal digits, the full stop and the colon. */
  predicate AllowedInLiteral(u: int) { 48 <= u <= 57 || 65 <= u <= 70 || 97 <= u <= 102 || u == 46 || u == 58 }

  ghost predicate HostOk(h: Host) {
    && h.text != ""
    && match h
       case Name(t) => forall c | c in t :: !RefusedInName(c as int)
       case Literal(t) => forall c | c in t :: AllowedInLiteral(c as int)
  }

  /** A host name is refused exactly when it is empty or has one of the listed code points. */
  lemma NameHostExactly(host: string)
    ensures NameHost(host) <==> HostOk(Name(host))
  {
    forall c: char ensures HostChar(c) <==> !RefusedInName(c as int) {
      ClassesByCodePoint(c);
    }
    hide HostChar, RefusedInName;
  }

  /** An address literal is refused exactly when it is empty or has any other code point than the listed ones. */
  lemma LiteralHostExactly(host: string)
    ensures LiteralHost(host) <==> HostOk(Literal(host))
  {
    forall c: char ensures IsHexDigit(c) || c == ':' || c == '.' <==> AllowedInLiteral(c as int) {
      ClassesByCodePoint(c);
    }
    hide IsHexDigit, AllowedInLiteral;
  }

  ghost predicate PortOk(port: Option<string>) { port.Some? ==> PortInRange(port.value) }

  function Scheme(o: HttpOrigin): string { if o.secure then "https" else "http" }

  function HostText(h: Host): string {
    match h case Name(t) => t case Literal(t) => "[" + t + "]"
  }

  function PortText(port: Option<string>): string {
    match port case None => "" case Some(p) => ":" + p
  }

  function Authority(o: HttpOrigin): string { HostText(o.host) + PortText(o.port) }

  function Render(o: HttpOrigin): string { Scheme(o) + "://" + Authority(o) }

  /** The u32 loop with its overflow failure decides the range of the unbounded numeral,
      leading zeros and any number of digits included. */
  lemma PortParsesExactly(port: string)
    ensures PortParses(port) <==> PortInRange(port)
  {
    if AllDigits(port) {
      ParseDigitsExact("", port, 0x1_0000_0000);
      assert "" + port == port;
    }
  }

  /** An accepted authority as host and port. */
  function SplitAuthority(authority: string): (r: (Host, Option<string>))
    requires AuthorityAccepted(authority)
    ensures HostOk(r.0) && PortOk(r.1) && authority == HostText(r.0) + PortText(r.1)
  {
    if "[" <= authority then
      var (host, after) := SplitOnce(authority[1..], ']').value;
      LiteralHostExactly(host);
      assert authority == "[" + authority[1..] == "[" + host + "]" + after;
      if ":" <= after then
        PortParsesExactly(after[1..]);
        assert after == ":" + after[1..];
        (Literal(host), Some(after[1..]))
      else (Literal(host), None)
    else
      match RSplitOnce(authority, ':')
      case Some((host, port)) =>
        PortParsesExactly(port);
        NameHostExactly(host);
        (Name(host), Some(port))
      case None =>
        NameHostExactly(authority);
        (Name(authority), None)
  }

  /** What follows the scheme. */
  function AuthorityOf(upstream: string): (authority: string)
    requires IsHttpOrigin(upstream)
    ensures AuthorityAccepted(authority)
    ensures upstream == (if "https://" <= upstream then "https" else "http") + "://" + authority
  {
    if "https://" <= upstream then upstream[8..] else upstream[7..]
  }

  /** An accepted string as scheme, host and port. */
  function Decompose(upstream: string): (o: HttpOrigin)
    requires IsHttpOrigin(upstream)
    ensures WellFormed(o) && Render(o) == upstream
  {
    var (host, port) := SplitAuthority(AuthorityOf(upstream));
    HttpOrigin("https://" <= upstream, host, port)
  }

  lemma LiteralRenders(text: string, port: Option<string>)
    requires HostOk(Literal(text)) && PortOk(port)
    ensures var a := "[" + text + "]" + PortText(port);
            AuthorityAccepted(a) && SplitAuthority(a) == (Literal(text), port)
  {
    LiteralHostExactly(text);
    var a, tail := "[" + text + "]" + PortText(port), PortText(port);
    if port.Some? {
      PortParsesExactly(port.value);
      assert tail[1..] == port.value;
    }
    assert a[1..] == text + "]" + tail;
    var (host, after) := SplitOnce(a[1..], ']').value;
    SplitUnique(text, tail, host, after, ']');
  }

  lemma NameRenders(text: string, port: Option<string>)
    requires HostOk(Name(text)) && PortOk(port)
    ensures AuthorityAccepted(text + PortText(port)) && SplitAuthority(text + PortText(port)) == (Name(text), port)
  {
    var a := text + PortText(port);
    NameHostExactly(text);
    assert HostChar(text[0]) && a[0] == text[0];
    if port.Some? {
      PortParsesExactly(port.value);
      assert a == text + ":" + port.value;
      var (host, tail) := RSplitOnce(a, ':').value;
      SplitUnique(text, port.value, host, tail, ':');
    } else {
      assert a == text;
    }
  }

  lemma AuthorityRenders(o: HttpOrigin)
    requires WellFormed(o)
    ensures AuthorityAccepted(Authority(o)) && SplitAuthority(Authority(o)) == (o.host, o.port)
  {
    match o.host
    case Literal(t) => LiteralRenders(t, o.port);
    case Name(t) => NameRenders(t, o.port);
  }

  /** Every well-formed triple renders to an accepted string, and to no other triple's. */
  lemma RenderAccepted(o: HttpOrigin)
    requires WellFormed(o)
    ensures IsHttpOrigin(Render(o)) && Decompose(Render(o)) == o
  {
    AuthorityRenders(o);
    StripScheme(o.secure, Authority(o));
  }

  lemma StripScheme(secure: bool, authority: string)
    requires AuthorityAccepted(authority)
    ensures var s := (if secure then "https" else "http") + "://" + authority;
            && IsHttpOrigin(s)
            && Decompose(s) == HttpOrigin(secure, SplitAuthority(authority).0, SplitAuthority(authority).1)
  {
    hide AuthorityAccepted, SplitAuthority, WellFormed, Render;
    if secure {
      var s := "https" + "://" + authority;
      assert s[..8] == "https://" && s[8..] == authority;
    } else {
      var s := "http" + "://" + authority;
      assert s[..7] == "http://" && s[7..] == authority && s[4] == ':';
    }
  }

  /** Acceptance is exactly being a rendering. */
  lemma AcceptsExactlyRenderings(s: string)
    ensures IsHttpOrigin(s) <==> exists o :: WellFormed(o) && Render(o) == s
  {
    if IsHttpOrigin(s) {
      assert WellFormed(Decompose(s)) && Render(Decompose(s)) == s;
    }
    forall o | WellFormed(o) && Render(o) == s ensures IsHttpOrigin(s) {
      RenderAccepted(o);
    }
  }

  lemma DecompositionUnique(o: HttpOrigin, p: HttpOrigin)
    requires WellFormed(o) && WellFormed(p) && Render(o) == Render(p)
    ensures o == p
  {
    RenderAccepted(o);
    RenderAccepted(p);
  }

  /** The characters of a registered name in section 3.2.2 of RFC 3986: unreserved ones, sub-delimiters, and the percent
      sign of an encoded octet. */
  predicate InRegisteredName(u: int) {
    || 65 <= u <= 90 || 97 <= u <= 122 || 48 <= u <= 57 || u in {45, 46, 95, 126}
    || u in {33, 36, 38, 39, 40, 41, 42, 43, 44, 59, 61}
    || u == 37
  }

  lemma RegisteredNameIsHost(name: string)
    requires name != "" && forall c | c in name :: InRegisteredName(c as int)
    ensures HostOk(Name(name))
  {
    forall c | c in name ensures !RefusedInName(c as int) {
      assert InRegisteredName(c as int);
    }
  }

  /** Every registered name is an accepted host, under either scheme and with any port in range. */
  lemma RegisteredNamesAccepted(name: string, port: string)
    requires name != "" && (forall c | c in name :: InRegisteredName(c as int)) && PortInRange(port)
    ensures IsHttpOrigin("http://" + name) && IsHttpOrigin("https://" + name)
    ensures IsHttpOrigin("http://" + (name + (":" + port))) && IsHttpOrigin("https://" + (name + (":" + port)))
  {
    RegisteredNameIsHost(name);
    hide InRegisteredName, HostOk, IsHttpOrigin, AuthorityAccepted, PortInRange, SplitAuthority, Decompose;
    NameRenders(name, None);
    NameRenders(name, Some(port));
    assert name + "" == name;
    assert "http" + "://" == "http://" && "https" + "://" == "https://";
    StripScheme(false, name);
    StripScheme(true, name);
    StripScheme(false, name + (":" + port));
    StripScheme(true, name + (":" + port));
  }

  /** No accepted authority carries userinfo, a path, a query or a fragment. */
  lemma AuthorityChars(o: HttpOrigin)
    requires WellFormed(o)
    ensures Authority(o) != ""
    ensures forall c | c in Authority(o) :: c !in "/?#@\\"
  {
  }
}
