/** src/proxy.rs: route selection, the outbound request, and the start of proxy mode. */
module Proxy {
  import opened Wrappers
  import opened Utf8
  import opened Text
  import opened Transfer
  import opened Origin
  import opened Uri
  import J = JsonValue
  import JsonText
  import Template
  import Phantom
  import Readiness

  datatype ProxyRoute = ProxyRoute(
    headerName: string, template: string, phantom: string, rawValue: string, upstream: string)

  type Header = (string, string)

  // ----- Selecting a route -----

  datatype Reason = NotOriginForm | RepeatedCredential | UnusableMethod | NotConstructible
  datatype Rejection = BadRequest(reason: Reason) | NoMatch | Ambiguous

  function Filter<T>(p: T -> bool, s: seq<T>): (r: seq<T>)
    ensures forall x | x in r :: x in s && p(x)
    ensures forall x | x in s && p(x) :: x in r
  {
    if s == [] then []
    else
      var kept := Filter(p, s[..|s| - 1]);
      assert s == s[..|s| - 1] + [s[|s| - 1]];
      if p(s[|s| - 1]) then kept + [s[|s| - 1]] else kept
  }

  /** The headers presented under a name, in any letter case. */
  function Presented(headers: seq<Header>, name: string): seq<Header> {
    Filter((h: Header) => SameIgnoringCase(h.0, name), headers)
  }

  predicate Repeated(route: ProxyRoute, headers: seq<Header>) { |Presented(headers, route.headerName)| > 1 }

  predicate Matches(route: ProxyRoute, headers: seq<Header>) {
    var p := Presented(headers, route.headerName);
    |p| == 1 && p[0].1 == route.phantom
  }

  function Matching(routes: seq<ProxyRoute>, headers: seq<Header>): seq<ProxyRoute> {
    Filter((r: ProxyRoute) => Matches(r, headers), routes)
  }

  function Selection(routes: seq<ProxyRoute>, headers: seq<Header>): Result<ProxyRoute, Rejection> {
    if exists r | r in routes :: Repeated(r, headers) then Err(BadRequest(RepeatedCredential))
    else
      var matched := Matching(routes, headers);
      if |matched| == 1 then Ok(matched[0]) else if matched == [] then Err(NoMatch) else Err(Ambiguous)
  }

  /** `select_route` */
  method SelectRoute(routes: seq<ProxyRoute>, headers: seq<Header>) returns (r: Result<ProxyRoute, Rejection>)
    ensures r == Selection(routes, headers)
  {
    var matched: seq<ProxyRoute> := [];
    for i := 0 to |routes|
      invariant forall j | 0 <= j < i :: !Repeated(routes[j], headers)
      invariant matched == Matching(routes[..i], headers)
    {
      var route := routes[i];
      var values := Presented(headers, route.headerName);
      assert routes[..i + 1][..i] == routes[..i];
      if |values| == 1 && Phantom.MatchesPresented(route.phantom, values[0].1) {
        matched := matched + [route];
      } else if |values| > 1 {
        assert Repeated(route, headers);
        return Err(BadRequest(RepeatedCredential));
      }
    }
    assert routes[..|routes|] == routes;
    if |matched| == 1 {
      r := Ok(matched[0]);
    } else if matched == [] {
      r := Err(NoMatch);
    } else {
      r := Err(Ambiguous);
    }
  }

  // ----- The same said by positions and letters -----

  /** Position i has a header of the name, in some letter case. */
  ghost predicate OffersAt(headers: seq<Header>, name: string, i: int) {
    0 <= i < |headers| && CaseVariants(headers[i].0, name)
  }

  ghost predicate OfferedTwice(headers: seq<Header>, name: string) {
    exists i, j :: i != j && OffersAt(headers, name, i) && OffersAt(headers, name, j)
  }

  /** One position has a header of the name, and it has the value. */
  ghost predicate OfferedOnce(headers: seq<Header>, name: string, value: string) {
    exists i :: OffersAt(headers, name, i) && headers[i].1 == value && forall j | OffersAt(headers, name, j) :: j == i
  }

  /** The route's phantom is presented, once, under the route's header name. */
  ghost predicate Offered(route: ProxyRoute, headers: seq<Header>) {
    OfferedOnce(headers, route.headerName, route.phantom)
  }

  lemma PositionsPresented(headers: seq<Header>, name: string)
    ensures |Presented(headers, name)| > 1 <==> OfferedTwice(headers, name)
    ensures forall value ::
              |Presented(headers, name)| == 1 && Presented(headers, name)[0].1 == value
              <==> OfferedOnce(headers, name, value)
  {
    var p := (h: Header) => SameIgnoringCase(h.0, name);
    var found := Presented(headers, name);
    forall i ensures OffersAt(headers, name, i) <==> 0 <= i < |headers| && p(headers[i]) {
      if 0 <= i < |headers| { SameIsVariant(headers[i].0, name); }
    }
    hide CaseVariants, OffersAt, SameIgnoringCase;
    if |found| == 1 {
      var i := FilterOne(p, headers);
      assert OffersAt(headers, name, i);
    } else if |found| > 1 {
      TwoFiltered(p, headers);
    }
    forall i | OffersAt(headers, name, i) && forall j | OffersAt(headers, name, j) :: j == i
      ensures found == [headers[i]]
    {
      FilterSingle(p, headers, i);
    }
  }

  lemma {:induction false} TwoFiltered<T(!new)>(p: T -> bool, s: seq<T>)
    requires |Filter(p, s)| > 1
    ensures exists i, j | 0 <= i < j < |s| :: p(s[i]) && p(s[j])
  {
    var n := |s| - 1;
    if p(s[n]) {
      var x := Filter(p, s[..n])[0];
      assert x in s[..n];
      var i :| 0 <= i < n && s[..n][i] == x;
      assert p(s[i]);
    } else {
      TwoFiltered(p, s[..n]);
    }
  }

  lemma RouteOffered(route: ProxyRoute, headers: seq<Header>)
    ensures Matches(route, headers) <==> Offered(route, headers)
    ensures Repeated(route, headers) <==> OfferedTwice(headers, route.headerName)
  {
    PositionsPresented(headers, route.headerName);
    hide Presented, OfferedTwice, OfferedOnce;
  }

  ghost predicate SoleMatch(routes: seq<ProxyRoute>, headers: seq<Header>, i: int) {
    && 0 <= i < |routes| && Offered(routes[i], headers)
    && forall j | 0 <= j < |routes| && Offered(routes[j], headers) :: j == i
  }

  lemma {:induction false} FilterSingle<T>(p: T -> bool, s: seq<T>, i: int)
    requires 0 <= i < |s| && p(s[i]) && forall j | 0 <= j < |s| && p(s[j]) :: j == i
    ensures Filter(p, s) == [s[i]]
  {
    var n := |s| - 1;
    if i == n {
      FilterNone(p, s[..n]);
    } else {
      FilterSingle(p, s[..n], i);
    }
  }

  lemma {:induction false} FilterNone<T>(p: T -> bool, s: seq<T>)
    requires forall x | x in s :: !p(x)
    ensures Filter(p, s) == []
  {
    if s != [] {
      FilterNone(p, s[..|s| - 1]);
    }
  }

  lemma {:induction false} FilterOne<T>(p: T -> bool, s: seq<T>) returns (i: int)
    requires |Filter(p, s)| == 1
    ensures 0 <= i < |s| && p(s[i]) && Filter(p, s) == [s[i]]
    ensures forall j | 0 <= j < |s| && p(s[j]) :: j == i
  {
    var n := |s| - 1;
    if p(s[n]) {
      i := n;
      forall j | 0 <= j < n ensures !p(s[j]) {
        assert s[..n][j] in s[..n];
      }
    } else {
      i := FilterOne(p, s[..n]);
    }
  }

  ghost predicate NoneRepeated(routes: seq<ProxyRoute>, headers: seq<Header>) {
    forall x | x in routes :: !OfferedTwice(headers, x.headerName)
  }

  ghost predicate TwoMatch(routes: seq<ProxyRoute>, headers: seq<Header>) {
    exists i, j | 0 <= i < j < |routes| :: Offered(routes[i], headers) && Offered(routes[j], headers)
  }

  /** What selection means, independently of how it scans: a repeated credential name is a
      bad request; otherwise success is a single matching entry. */
  lemma SelectionMeaning(routes: seq<ProxyRoute>, headers: seq<Header>)
    ensures var r := Selection(routes, headers);
            && (r == Err(BadRequest(RepeatedCredential)) <==> !NoneRepeated(routes, headers))
            && (r.Ok? <==> NoneRepeated(routes, headers) && exists i :: SoleMatch(routes, headers, i))
            && (forall i | SoleMatch(routes, headers, i) && r.Ok? :: r.value == routes[i])
            && (r == Err(NoMatch) <==> NoneRepeated(routes, headers) && forall x | x in routes :: !Offered(x, headers))
            && (r == Err(Ambiguous) <==> NoneRepeated(routes, headers) && TwoMatch(routes, headers))
  {
    forall x: ProxyRoute
      ensures Matches(x, headers) <==> Offered(x, headers)
      ensures Repeated(x, headers) <==> OfferedTwice(headers, x.headerName)
    {
      RouteOffered(x, headers);
    }
    hide Matches, Repeated, Offered, OfferedTwice;
    var p := (r: ProxyRoute) => Matches(r, headers);
    var matched := Matching(routes, headers);
    if |matched| == 1 {
      var i := FilterOne(p, routes);
      assert SoleMatch(routes, headers, i);
    } else if |matched| > 1 {
      TwoFiltered(p, routes);
    }
    forall i | SoleMatch(routes, headers, i) ensures matched == [routes[i]] {
      FilterSingle(p, routes, i);
    }
  }

  /** The single match of an unambiguous, unrepeated presentation is what is selected. */
  lemma SelectsSoleMatch(routes: seq<ProxyRoute>, headers: seq<Header>, i: int)
    requires SoleMatch(routes, headers, i) && NoneRepeated(routes, headers)
    ensures Selection(routes, headers) == Ok(routes[i])
  {
    SelectionMeaning(routes, headers);
    hide Selection, NoneRepeated, SoleMatch;
  }

  lemma VariantsJoin(a: string, b: string, c: string)
    requires CaseVariants(a, b)
    ensures CaseVariants(b, a)
    ensures (CaseVariants(b, c) <==> CaseVariants(a, c)) && (CaseVariants(c, b) <==> CaseVariants(c, a))
  {
    SameIsVariant(a, b);
    SameIsVariant(b, a);
    SameIsVariant(b, c);
    SameIsVariant(a, c);
    SameIsVariant(c, b);
    SameIsVariant(c, a);
    hide CaseVariants, Lower;
  }

  /** Headers with the same values under names that differ in letter case only. */
  ghost predicate HeaderVariants(headers: seq<Header>, headers': seq<Header>) {
    |headers| == |headers'|
    && forall i | 0 <= i < |headers| :: CaseVariants(headers[i].0, headers'[i].0) && headers[i].1 == headers'[i].1
  }

  ghost predicate RouteVariants(routes: seq<ProxyRoute>, routes': seq<ProxyRoute>) {
    |routes| == |routes'|
    && forall i | 0 <= i < |routes| ::
         CaseVariants(routes[i].headerName, routes'[i].headerName)
         && routes'[i] == routes[i].(headerName := routes'[i].headerName)
  }

  lemma OfferVariants(headers: seq<Header>, headers': seq<Header>, name: string, name': string, value: string)
    requires HeaderVariants(headers, headers') && CaseVariants(name, name')
    ensures OfferedTwice(headers, name) <==> OfferedTwice(headers', name')
    ensures OfferedOnce(headers, name, value) <==> OfferedOnce(headers', name', value)
  {
    forall i ensures OffersAt(headers, name, i) <==> OffersAt(headers', name', i) {
      if 0 <= i < |headers| {
        VariantsJoin(headers[i].0, headers'[i].0, name);
        VariantsJoin(name, name', headers'[i].0);
      }
    }
    hide OffersAt, CaseVariants;
  }

  /** The letter case of header names, in the request and in the routes, has no influence on what is selected. */
  lemma SelectionCaseFree(routes: seq<ProxyRoute>, routes': seq<ProxyRoute>, headers: seq<Header>,
                          headers': seq<Header>)
    requires RouteVariants(routes, routes') && HeaderVariants(headers, headers')
    ensures var r, r' := Selection(routes, headers), Selection(routes', headers');
            && (r.Err? ==> r' == r)
            && (r.Ok? ==> exists i | 0 <= i < |routes| :: r == Ok(routes[i]) && r' == Ok(routes'[i]))
  {
    forall i | 0 <= i < |routes|
      ensures Offered(routes[i], headers) <==> Offered(routes'[i], headers')
      ensures OfferedTwice(headers, routes[i].headerName) <==> OfferedTwice(headers', routes'[i].headerName)
    {
      OfferVariants(headers, headers', routes[i].headerName, routes'[i].headerName, routes[i].phantom);
    }
    SelectionMeaning(routes, headers);
    SelectionMeaning(routes', headers');
    SameMatches(routes, routes', headers, headers');
    hide Selection, NoneRepeated, SoleMatch, TwoMatch, Offered, RouteVariants, HeaderVariants;
  }

  lemma SameMatches(routes: seq<ProxyRoute>, routes': seq<ProxyRoute>, headers: seq<Header>, headers': seq<Header>)
    requires |routes| == |routes'|
    requires forall i | 0 <= i < |routes| :: Offered(routes[i], headers) <==> Offered(routes'[i], headers')
    requires forall i | 0 <= i < |routes| ::
               OfferedTwice(headers, routes[i].headerName) <==> OfferedTwice(headers', routes'[i].headerName)
    ensures forall i :: SoleMatch(routes, headers, i) <==> SoleMatch(routes', headers', i)
    ensures NoneRepeated(routes, headers) <==> NoneRepeated(routes', headers')
    ensures TwoMatch(routes, headers) <==> TwoMatch(routes', headers')
  {
    hide Offered, OfferedTwice;
    if x :| x in routes && OfferedTwice(headers, x.headerName) {
      var i :| 0 <= i < |routes| && routes[i] == x;
      assert routes'[i] in routes';
    }
    if x :| x in routes' && OfferedTwice(headers', x.headerName) {
      var i :| 0 <= i < |routes'| && routes'[i] == x;
      assert routes[i] in routes;
    }
  }

  lemma {:induction false} FilterMultiset<T>(p: T -> bool, s: seq<T>, x: T)
    ensures multiset(Filter(p, s))[x] == if p(x) then multiset(s)[x] else 0
  {
    if s != [] {
      FilterMultiset(p, s[..|s| - 1], x);
      assert s == s[..|s| - 1] + [s[|s| - 1]];
    }
  }

  lemma FilterPermuted<T(!new)>(p: T -> bool, s: seq<T>, t: seq<T>)
    requires multiset(s) == multiset(t)
    ensures |Filter(p, s)| == |Filter(p, t)|
    ensures |Filter(p, s)| == 1 ==> Filter(p, s) == Filter(p, t)
  {
    var a, b := Filter(p, s), Filter(p, t);
    forall x ensures multiset(a)[x] == multiset(b)[x] {
      FilterMultiset(p, s, x);
      FilterMultiset(p, t, x);
    }
    assert multiset(a) == multiset(b);
    assert |a| == |multiset(a)| && |b| == |multiset(b)|;
    if |a| == 1 {
      assert a[0] in multiset(b);
    }
  }

  lemma SameMembers<T(!new)>(s: seq<T>, t: seq<T>)
    requires multiset(s) == multiset(t)
    ensures forall x :: x in s <==> x in t
  {
    forall x ensures x in s <==> x in t {
      assert x in s <==> x in multiset(s);
      assert x in t <==> x in multiset(t);
    }
  }

  /** Neither the order of the routes nor the order of the headers influences selection. */
  lemma SelectionOrderFree(routes: seq<ProxyRoute>, routes': seq<ProxyRoute>, headers: seq<Header>,
                           headers': seq<Header>)
    requires multiset(routes) == multiset(routes') && multiset(headers) == multiset(headers')
    ensures Selection(routes, headers) == Selection(routes', headers')
  {
    forall r: ProxyRoute
      ensures Repeated(r, headers) == Repeated(r, headers') && Matches(r, headers) == Matches(r, headers')
    {
      FilterPermuted((h: Header) => SameIgnoringCase(h.0, r.headerName), headers, headers');
    }
    SameMembers(routes, routes');
    var p, q := (r: ProxyRoute) => Matches(r, headers), (r: ProxyRoute) => Matches(r, headers');
    FilterExtensional(p, q, routes');
    FilterPermuted(p, routes, routes');
  }

  lemma {:induction false} FilterExtensional<T>(p: T -> bool, q: T -> bool, s: seq<T>)
    requires forall x | x in s :: p(x) == q(x)
    ensures Filter(p, s) == Filter(q, s)
  {
    if s != [] {
      FilterExtensional(p, q, s[..|s| - 1]);
    }
  }

  lemma PresentedSameName(headers: seq<Header>, a: string, b: string)
    requires SameIgnoringCase(a, b)
    ensures Presented(headers, a) == Presented(headers, b)
  {
    FilterExtensional((h: Header) => SameIgnoringCase(h.0, a), (h: Header) => SameIgnoringCase(h.0, b), headers);
  }

  /** Routes sharing a header name, whatever its letter case, are told apart by their phantoms alone. */
  lemma SharedHeaderExclusive(a: ProxyRoute, b: ProxyRoute, headers: seq<Header>)
    requires CaseVariants(a.headerName, b.headerName) && a.phantom != b.phantom
    ensures !(Offered(a, headers) && Offered(b, headers))
  {
    forall i ensures OffersAt(headers, a.headerName, i) <==> OffersAt(headers, b.headerName, i) {
      if 0 <= i < |headers| { VariantsJoin(a.headerName, b.headerName, headers[i].0); }
    }
    hide OffersAt, CaseVariants;
  }

  // ----- Building the outbound request -----

  predicate IsHopByHop(name: string) {
    name in ["connection", "keep-alive", "proxy-authenticate", "proxy-authorization",
             "te", "trailer", "transfer-encoding", "upgrade"]
  }

  /** Header names whose caller-supplied values never travel on. */
  predicate ProxyOwned(name: string, routes: seq<ProxyRoute>) {
    || IsHopByHop(name)
    || name in ["host", "content-length", "expect"]
    || exists r | r in routes :: SameIgnoringCase(r.headerName, name)
  }

  predicate ForwardsRequestHeader(name: string, routes: seq<ProxyRoute>) {
    if IsHopByHop(name) then false
    else if name == "host" || name == "content-length" || name == "expect" then false
    else !exists r | r in routes :: SameIgnoringCase(r.headerName, name)
  }

  /** What the HTTP library accepts; the properties below hold for any answer it gives. */
  datatype HttpRules = HttpRules(verb: string -> bool, uri: string -> bool, name: string -> bool, value: string -> bool)

  datatype Request = Request(target: string, verb: string, headers: seq<Header>, bodyLength: Option<nat>)
  datatype Outbound = Outbound(verb: string, uri: string, headers: seq<Header>, hasBody: bool)

  /** The request builder keeps its first failure and reports it when the request is finished. */
  datatype Builder = Building(headers: seq<Header>) | Broken {
    function Add(name: string, value: string, rules: HttpRules): Builder {
      if Broken? || !rules.name(name) || !rules.value(value) then Broken
      else Building(headers + [(Lower(name), value)])
    }
  }

  function Lowered(headers: seq<Header>): seq<Header> {
    seq(|headers|, i requires 0 <= i < |headers| => (Lower(headers[i].0), headers[i].1))
  }

  /** The caller headers that travel on, in the caller's order. */
  function PassedOn(headers: seq<Header>, routes: seq<ProxyRoute>): seq<Header> {
    Filter((h: Header) => !ProxyOwned(h.0, routes), headers)
  }

  function Injected(route: ProxyRoute): Header {
    (Lower(route.headerName), Template.ReplaceFirst(route.template, route.rawValue))
  }

  /** The whole header list of the outbound request. */
  function OutboundHeaders(headers: seq<Header>, routes: seq<ProxyRoute>, route: ProxyRoute): seq<Header> {
    PassedOn(headers, routes) + [Injected(route)]
  }

  function HasBody(request: Request, headers: seq<Header>): bool {
    match request.bodyLength
    case Some(n) => n > 0
    case None => exists h | h in headers :: h.0 == "transfer-encoding"
  }

  predicate HeadersUsable(headers: seq<Header>, rules: HttpRules) {
    forall h | h in headers :: rules.name(h.0) && rules.value(h.1)
  }

  function Forwarded(request: Request, routes: seq<ProxyRoute>, rules: HttpRules): Result<Outbound, Rejection> {
    if !IsOriginForm(request.target) then Err(BadRequest(NotOriginForm))
    else
      var headers := Lowered(request.headers);
      match Selection(routes, headers)
      case Err(e) => Err(e)
      case Ok(route) =>
        if !rules.verb(request.verb) then Err(BadRequest(UnusableMethod))
        else if !rules.uri(route.upstream + request.target)
                || !HeadersUsable(PassedOn(headers, routes), rules)
                || !rules.name(route.headerName) || !rules.value(Injected(route).1)
        then Err(BadRequest(NotConstructible))
        else Ok(Outbound(request.verb, route.upstream + request.target,
                         OutboundHeaders(headers, routes, route), HasBody(request, headers)))
  }

  /** The loop of `forward` that copies the caller's headers onto the builder. */
  method PassHeaders(given: seq<Header>, routes: seq<ProxyRoute>, start: Builder, rules: HttpRules)
    returns (builder: Builder)
    requires start.Building? ==> start.headers == []
    ensures var passed := PassedOn(Lowered(given), routes);
            builder == if start.Building? && HeadersUsable(passed, rules) then Building(passed) else Broken
  {
    var headers := Lowered(given);
    builder := start;
    for i := 0 to |headers|
      invariant builder == if start.Building? && HeadersUsable(PassedOn(headers[..i], routes), rules)
                           then Building(PassedOn(headers[..i], routes)) else Broken
    {
      var (name, value) := headers[i];
      assert headers[..i + 1][..i] == headers[..i];
      if ForwardsRequestHeader(name, routes) {
        LowerIdempotent(given[i].0);
        builder := builder.Add(name, value, rules);
      }
    }
    assert headers[..|headers|] == headers;
  }

  /** `forward`, up to the upstream call */
  method Forward(request: Request, routes: seq<ProxyRoute>, rules: HttpRules) returns (r: Result<Outbound, Rejection>)
    ensures r == Forwarded(request, routes, rules)
  {
    hide PassedOn, Lowered, Selection, HeadersUsable, Template.ReplaceFirst, HasBody;
    if !IsOriginForm(request.target) {
      return Err(BadRequest(NotOriginForm));
    }
    var headers := Lowered(request.headers);
    var selected := SelectRoute(routes, headers);
    if selected.Err? {
      return Err(selected.error);
    }
    var route := selected.value;
    if !rules.verb(request.verb) {
      return Err(BadRequest(UnusableMethod));
    }
    var uri := route.upstream + request.target;
    var builder := if rules.uri(uri) then Building([]) else Broken;
    builder := PassHeaders(request.headers, routes, builder, rules);
    builder := builder.Add(route.headerName, Template.ReplaceFirst(route.template, route.rawValue), rules);
    if builder.Broken? {
      return Err(BadRequest(NotConstructible));
    }
    r := Ok(Outbound(request.verb, uri, builder.headers, HasBody(request, headers)));
  }

  lemma FilterSnoc<T>(p: T -> bool, s: seq<T>, x: T)
    ensures Filter(p, s + [x]) == Filter(p, s) + if p(x) then [x] else []
  {
    assert (s + [x])[..|s|] == s;
  }

  lemma {:induction false} FilterFilter<T>(p: T -> bool, q: T -> bool, s: seq<T>)
    requires forall x | x in s && p(x) :: q(x)
    ensures Filter(p, Filter(q, s)) == Filter(p, s)
  {
    hide Filter;
    if s != [] {
      var front, last := s[..|s| - 1], s[|s| - 1];
      assert s == front + [last];
      FilterFilter(p, q, front);
      FilterSnoc(p, front, last);
      FilterSnoc(q, front, last);
      FilterSnoc(p, Filter(q, front), last);
      assert Filter(q, front) + [] == Filter(q, front) && Filter(p, front) + [] == Filter(p, front);
      assert last in s;
    } else {
      NothingFiltered(p);
      NothingFiltered(q);
    }
  }

  lemma NothingFiltered<T>(p: T -> bool)
    ensures Filter(p, []) == []
  {
  }

  ghost predicate Increasing(at: seq<int>, n: int) {
    && (forall k | 0 <= k < |at| :: 0 <= at[k] < n)
    && forall j, k | 0 <= j < k < |at| :: at[j] < at[k]
  }

  /** Where the elements satisfying p stand. */
  function Positions<T>(p: T -> bool, s: seq<T>): (at: seq<int>)
    ensures Increasing(at, |s|)
  {
    if s == [] then []
    else
      var before := Positions(p, s[..|s| - 1]);
      if p(s[|s| - 1]) then before + [|s| - 1] else before
  }

  lemma {:induction false} FilteredAt<T>(p: T -> bool, s: seq<T>)
    ensures var at := Positions(p, s);
            |at| == |Filter(p, s)| && forall k | 0 <= k < |at| :: Filter(p, s)[k] == s[at[k]]
  {
    hide Filter;
    if s != [] {
      var n := |s| - 1;
      assert s == s[..n] + [s[n]];
      FilteredAt(p, s[..n]);
      FilterSnoc(p, s[..n], s[n]);
    } else {
      NothingFiltered(p);
    }
  }

  lemma {:induction false} NoneMissing<T>(p: T -> bool, s: seq<T>, i: int)
    requires 0 <= i < |s|
    ensures i in Positions(p, s) <==> p(s[i])
  {
    if i < |s| - 1 {
      NoneMissing(p, s[..|s| - 1], i);
    } else {
      assert i !in Positions(p, s[..i]);
    }
  }

  /** The caller headers that travel on are the ones the proxy does not own, each at its own place in the
      caller's order: positions strictly increase and none is missing. */
  lemma PassedInOrder(headers: seq<Header>, routes: seq<ProxyRoute>) returns (at: seq<int>)
    ensures |at| == |PassedOn(headers, routes)| && Increasing(at, |headers|)
    ensures forall k | 0 <= k < |at| :: PassedOn(headers, routes)[k] == headers[at[k]]
    ensures forall i | 0 <= i < |headers| :: i in at <==> !ProxyOwned(headers[i].0, routes)
  {
    var p := (h: Header) => !ProxyOwned(h.0, routes);
    at := Positions(p, headers);
    FilteredAt(p, headers);
    forall i | 0 <= i < |headers| ensures i in at <==> !ProxyOwned(headers[i].0, routes) {
      NoneMissing(p, headers, i);
    }
  }

  /** Exact counts of the outbound header list. For the selected route's name there is one
      value, the template around the raw value. Any other configured name occurs not at all.
      No caller-supplied framing, host, expect or hop-by-hop header is in the caller's part.
      Under every remaining name the caller's values are unchanged and in order. */
  lemma OutboundHeaderCounts(headers: seq<Header>, routes: seq<ProxyRoute>, route: ProxyRoute)
    requires route in routes && headers == Lowered(headers)
    ensures var out := OutboundHeaders(headers, routes, route);
            && Presented(out, route.headerName) == [Injected(route)]
            && (forall r | r in routes && !SameIgnoringCase(r.headerName, route.headerName) ::
                  Presented(out, r.headerName) == [])
            && (forall h | h in out[..|out| - 1] :: !ProxyOwned(h.0, routes))
            && (forall name | name == Lower(name) && !ProxyOwned(name, routes) ::
                  Presented(out, name) == Presented(headers, name))
  {
    var passed := PassedOn(headers, routes);
    var out := OutboundHeaders(headers, routes, route);
    assert out[..|out| - 1] == passed;
    LowerIdempotent(route.headerName);
    forall name
      ensures Presented(out, name)
           == Presented(passed, name) + if SameIgnoringCase(route.headerName, name) then [Injected(route)] else []
    {
    }
    forall r | r in routes ensures Presented(passed, r.headerName) == [] {
      FilterNone((h: Header) => SameIgnoringCase(h.0, r.headerName), passed);
    }
    forall name | name == Lower(name) && !ProxyOwned(name, routes)
      ensures Presented(out, name) == Presented(headers, name) {
      var p, q := (h: Header) => SameIgnoringCase(h.0, name), (h: Header) => !ProxyOwned(h.0, routes);
      forall h | h in headers && p(h) ensures q(h) {
        var i :| 0 <= i < |headers| && headers[i] == h;
        assert h.0 == Lowered(headers)[i].0 == Lower(h.0);
      }
      FilterFilter(p, q, headers);
    }
  }

  // ----- What goes out, said by positions, letters and lengths -----

  /** A name whose headers the proxy keeps to itself: in some letter case a hop-by-hop field of its list, a field it
      derives anew, or a configured credential header. */
  ghost predicate Withheld(name: string, routes: seq<ProxyRoute>) {
    || (exists small | small in WITHHELD_NAMES :: CaseVariants(name, small))
    || exists r | r in routes :: CaseVariants(name, r.headerName)
  }

  lemma SmallName(name: string, small: string)
    requires NoCapitals(small)
    ensures Lower(name) == small <==> CaseVariants(name, small)
  {
    LowerIsTheSmallVariant(name, small);
  }

  /** Comparing the lowered name with small names asks for a letter-case variant of one of them. */
  lemma SmallNames(name: string, smalls: seq<string>)
    requires forall small | small in smalls :: NoCapitals(small)
    ensures Lower(name) in smalls <==> exists small | small in smalls :: CaseVariants(name, small)
  {
    forall small | small in smalls ensures Lower(name) == small <==> CaseVariants(name, small) {
      SmallName(name, small);
    }
    hide Lower, CaseVariants;
  }

  const WITHHELD_NAMES := [
    "connection", "keep-alive", "proxy-authenticate", "proxy-authorization", "te", "trailer", "transfer-encoding",
    "upgrade", "host", "content-length", "expect"]

  lemma WithheldSmall()
    ensures forall small | small in WITHHELD_NAMES :: NoCapitals(small)
  {
    forall i | 0 <= i < |WITHHELD_NAMES| ensures NoCapitals(WITHHELD_NAMES[i]) {}
  }

  lemma OwnedIsListed(name: string)
    ensures IsHopByHop(name) || name in ["host", "content-length", "expect"] <==> name in WITHHELD_NAMES
  {
  }

  /** A header is withheld for its name alone, in any letter case. */
  lemma OwnedExactly(name: string, routes: seq<ProxyRoute>)
    ensures ProxyOwned(Lower(name), routes) <==> Withheld(name, routes)
  {
    WithheldSmall();
    SmallNames(name, WITHHELD_NAMES);
    OwnedIsListed(Lower(name));
    LowerIdempotent(name);
    forall r | r in routes ensures SameIgnoringCase(r.headerName, Lower(name)) <==> CaseVariants(name, r.headerName) {
      SameIsVariant(name, r.headerName);
    }
    hide Lower, CaseVariants, IsHopByHop, WITHHELD_NAMES;
  }

  /** Of the given headers exactly those not withheld are passed on, in their order, each with its own value and its
      name in small letters; `at` says where each of them stands. */
  ghost predicate PassesOn(given: seq<Header>, routes: seq<ProxyRoute>, passed: seq<Header>, at: seq<int>) {
    && |at| == |passed| && Increasing(at, |given|)
    && (forall i | 0 <= i < |given| :: i in at <==> !Withheld(given[i].0, routes))
    && forall k | 0 <= k < |at| ::
         && CaseVariants(given[at[k]].0, passed[k].0) && NoCapitals(passed[k].0)
         && passed[k].1 == given[at[k]].1
  }

  ghost predicate Passes(given: seq<Header>, routes: seq<ProxyRoute>, passed: seq<Header>) {
    exists at :: PassesOn(given, routes, passed, at)
  }

  lemma PassedExactly(given: seq<Header>, routes: seq<ProxyRoute>) returns (at: seq<int>)
    ensures PassesOn(given, routes, PassedOn(Lowered(given), routes), at)
  {
    at := PassedInOrder(Lowered(given), routes);
    forall i | 0 <= i < |given|
      ensures ProxyOwned(Lowered(given)[i].0, routes) <==> Withheld(given[i].0, routes)
      ensures CaseVariants(given[i].0, Lowered(given)[i].0) && NoCapitals(Lowered(given)[i].0)
      ensures Lowered(given)[i].1 == given[i].1
    {
      OwnedExactly(given[i].0, routes);
      LowerIsTheSmallVariant(given[i].0, Lower(given[i].0));
    }
    hide Lowered, PassedOn, ProxyOwned, Withheld, CaseVariants, NoCapitals;
  }

  /** The library takes each header that travels on. */
  ghost predicate PassedUsable(given: seq<Header>, routes: seq<ProxyRoute>, rules: HttpRules) {
    forall i | 0 <= i < |given| && !Withheld(given[i].0, routes) ::
      rules.name(Lower(given[i].0)) && rules.value(given[i].1)
  }

  lemma UsableExactly(given: seq<Header>, routes: seq<ProxyRoute>, rules: HttpRules)
    ensures HeadersUsable(PassedOn(Lowered(given), routes), rules) <==> PassedUsable(given, routes, rules)
  {
    var lowered, passed := Lowered(given), PassedOn(Lowered(given), routes);
    forall i | 0 <= i < |given|
      ensures lowered[i] == (Lower(given[i].0), given[i].1)
      ensures lowered[i] in passed <==> !Withheld(given[i].0, routes)
    {
      OwnedExactly(given[i].0, routes);
      assert lowered[i] in lowered;
    }
    assert forall h | h in passed :: h in lowered;
    hide Lowered, PassedOn, Withheld, Lower;
  }

  /** The caller sends a body: of a positive length, or of none declared but with a transfer-encoding header. */
  ghost predicate SendsBody(request: Request) {
    match request.bodyLength
    case Some(n) => n >= 1
    case None => exists i :: OffersAt(request.headers, "transfer-encoding", i)
  }

  lemma BodyExactly(request: Request)
    ensures HasBody(request, Lowered(request.headers)) <==> SendsBody(request)
  {
    var headers, lowered := request.headers, Lowered(request.headers);
    forall i | 0 <= i < |headers|
      ensures lowered[i].0 == "transfer-encoding" <==> CaseVariants(headers[i].0, "transfer-encoding")
    {
      assert lowered[i].0 == Lower(headers[i].0);
      SmallName(headers[i].0, "transfer-encoding");
    }
    hide Lowered, Lower, CaseVariants;
    if h :| h in lowered && h.0 == "transfer-encoding" {
      var i :| 0 <= i < |lowered| && lowered[i] == h;
      assert OffersAt(headers, "transfer-encoding", i);
    }
    if i :| OffersAt(headers, "transfer-encoding", i) {
      assert lowered[i] in lowered;
    }
  }

  /** What leaves for the upstream: the selected route's URI, the caller's method, the caller's headers that are not
      withheld followed by the one credential, and a body exactly when the caller sends one. */
  lemma ForwardedExactly(request: Request, routes: seq<ProxyRoute>, rules: HttpRules, out: Outbound)
    returns (route: ProxyRoute)
    requires Forwarded(request, routes, rules) == Ok(out)
    ensures Selection(routes, Lowered(request.headers)) == Ok(route)
    ensures out.verb == request.verb && out.uri == route.upstream + request.target
    ensures out.headers != [] && Passes(request.headers, routes, out.headers[..|out.headers| - 1])
    ensures out.headers[|out.headers| - 1] == Injected(route)
    ensures out.hasBody <==> SendsBody(request)
  {
    route := Selection(routes, Lowered(request.headers)).value;
    var at := PassedExactly(request.headers, routes);
    BodyExactly(request);
    hide Selection, PassedOn, Lowered, PassesOn, SendsBody, HasBody, HeadersUsable, Injected;
    var headers := OutboundHeaders(Lowered(request.headers), routes, route);
    assert headers[..|headers| - 1] == PassedOn(Lowered(request.headers), routes);
  }

  // ----- Hop-by-hop fields, section 7.6.1 of RFC 9110 -----

  const HOP_BY_HOP := ["connection", "proxy-connection", "keep-alive", "te", "transfer-encoding", "upgrade"]

  /** Optional white space around a list element. */
  function Trimmed(s: string): string
    decreases |s|
  {
    if s != "" && s[0] in " \t" then Trimmed(s[1..])
    else if s != "" && s[|s| - 1] in " \t" then Trimmed(s[..|s| - 1])
    else s
  }

  /** The elements of a comma-separated field value. */
  function Elements(value: string): seq<string>
    decreases |value|
  {
    match SplitOnce(value, ',')
    case None => [Trimmed(value)]
    case Some((first, rest)) => [Trimmed(first)] + Elements(rest)
  }

  predicate NominatedBy(value: string, name: string) {
    exists e | e in Elements(value) :: e != "" && SameIgnoringCase(e, name)
  }

  /** A connection option of the request names the field. */
  predicate Nominated(headers: seq<Header>, name: string) {
    exists h | h in headers :: SameIgnoringCase(h.0, "connection") && NominatedBy(h.1, name)
  }

  /** What the standard wants removed before forwarding: the fields known to be hop-by-hop, and those nominated. */
  predicate HopByHop(headers: seq<Header>, name: string) { Lower(name) in HOP_BY_HOP || Nominated(headers, name) }

  /** The fields the fixed list of the proxy does not cover. */
  predicate BeyondList(headers: seq<Header>, name: string) { name == "proxy-connection" || Nominated(headers, name) }

  lemma ListCovers(headers: seq<Header>, name: string)
    requires name == Lower(name)
    ensures HopByHop(headers, name) ==> IsHopByHop(name) || BeyondList(headers, name)
    ensures BeyondList(headers, name) ==> HopByHop(headers, name)
  {
    hide Nominated, Lower;
    if name == "proxy-connection" { assert HOP_BY_HOP[1] == name; }
  }

  /** The caller's part of the outbound list has no hop-by-hop field exactly when every field that only the caller's
      connection options make one, or `proxy-connection`, is a name the proxy withholds anyway. */
  lemma HopByHopWithheld(headers: seq<Header>, routes: seq<ProxyRoute>, route: ProxyRoute)
    requires route in routes && headers == Lowered(headers)
    ensures var out := OutboundHeaders(headers, routes, route);
            ((forall h | h in out[..|out| - 1] :: !HopByHop(headers, h.0))
             <==> (forall h | h in headers && BeyondList(headers, h.0) :: ProxyOwned(h.0, routes)))
  {
    var out, passed := OutboundHeaders(headers, routes, route), PassedOn(headers, routes);
    assert out[..|out| - 1] == passed;
    forall h | h in headers
      ensures h.0 == Lower(h.0)
      ensures HopByHop(headers, h.0) ==> IsHopByHop(h.0) || BeyondList(headers, h.0)
      ensures BeyondList(headers, h.0) ==> HopByHop(headers, h.0)
      ensures h in passed <==> !ProxyOwned(h.0, routes)
    {
      var i :| 0 <= i < |headers| && headers[i] == h;
      assert h.0 == Lowered(headers)[i].0;
      LowerIdempotent(h.0);
      ListCovers(headers, h.0);
    }
    hide HopByHop, BeyondList, PassedOn, Lowered;
  }

  lemma LowerFixed(s: string)
    requires forall c | c in s :: !('A' <= c <= 'Z')
    ensures Lower(s) == s
  {
    forall i | 0 <= i < |s| ensures Lower(s)[i] == s[i] { assert s[i] in s; }
  }

  lemma OtherLength(a: string, b: string)
    requires |a| != |b|
    ensures !SameIgnoringCase(a, b)
  {
    assert |Lower(a)| == |a| && |Lower(b)| == |b|;
  }

  const LEAK_ROUTE := ProxyRoute("k", "{}", "phantom", "raw", "http://h")

  const LEAK_HEADERS: seq<Header> := [("connection", "xf"), ("xf", "1"), ("proxy-connection", "close"),
                                      ("k", "phantom")]

  lemma LeakPresented()
    ensures Presented(LEAK_HEADERS, "k") == [("k", "phantom")]
  {
    OtherLength("connection", "k");
    OtherLength("xf", "k");
    OtherLength("proxy-connection", "k");
    FilterSingle((h: Header) => SameIgnoringCase(h.0, "k"), LEAK_HEADERS, 3);
  }

  lemma LeakSelected()
    ensures Selection([LEAK_ROUTE], LEAK_HEADERS) == Ok(LEAK_ROUTE)
  {
    LeakPresented();
    hide Presented, Offered, OfferedTwice;
    assert Matches(LEAK_ROUTE, LEAK_HEADERS);
    RouteOffered(LEAK_ROUTE, LEAK_HEADERS);
    assert SoleMatch([LEAK_ROUTE], LEAK_HEADERS, 0);
    SelectsSoleMatch([LEAK_ROUTE], LEAK_HEADERS, 0);
  }

  lemma LeakNominates()
    ensures Nominated(LEAK_HEADERS, "xf")
  {
    assert "xf"[0] == 'x' && "xf"[1] == 'f';
    assert Trimmed("xf") == "xf";
    assert Elements("xf") == ["xf"];
    assert "xf" in Elements("xf");
    assert LEAK_HEADERS[0] in LEAK_HEADERS;
  }

  lemma LeakPasses(name: string, value: string)
    requires (name, value) in LEAK_HEADERS && |name| != 1 && !IsHopByHop(name)
             && name !in ["host", "content-length", "expect"]
    ensures (name, value) in PassedOn(LEAK_HEADERS, [LEAK_ROUTE])
  {
    OtherLength("k", name);
    assert !ProxyOwned(name, [LEAK_ROUTE]);
  }

  lemma XfPasses()
    ensures ("xf", "1") in PassedOn(LEAK_HEADERS, [LEAK_ROUTE])
  {
    hide PassedOn;
    assert LEAK_HEADERS[1] == ("xf", "1");
    assert "xf"[0] == 'x' && "te"[0] == 't';
    LeakPasses("xf", "1");
  }

  lemma ProxyConnectionPasses()
    ensures ("proxy-connection", "close") in PassedOn(LEAK_HEADERS, [LEAK_ROUTE])
  {
    hide PassedOn;
    assert LEAK_HEADERS[2] == ("proxy-connection", "close");
    assert |"proxy-connection"| == 16;
    LeakPasses("proxy-connection", "close");
  }

  /** What an HTTP library has to accept for the request below to go out. */
  predicate LeakUsable(rules: HttpRules) {
    rules.verb("GET") && rules.uri("http://h/") && HeadersUsable(LEAK_HEADERS, rules) && rules.value("raw")
  }

  lemma LeakForwarded(rules: HttpRules)
    requires LeakUsable(rules)
    ensures Forwarded(Request("/", "GET", LEAK_HEADERS, None), [LEAK_ROUTE], rules)
         == Ok(Outbound("GET", "http://h/", OutboundHeaders(LEAK_HEADERS, [LEAK_ROUTE], LEAK_ROUTE), false))
  {
    LeakSelected();
    LeakLowered();
    assert Template.ReplaceFirst("{}", "raw") == "raw" by { assert "{}"[2..] == "" && "raw" + "" == "raw"; }
    assert LEAK_ROUTE.upstream + "/" == "http://h/";
    assert LEAK_HEADERS[3] in LEAK_HEADERS;
    assert forall h | h in PassedOn(LEAK_HEADERS, [LEAK_ROUTE]) :: h in LEAK_HEADERS;
    NoTransferEncoding();
    hide Selection, PassedOn, Lowered;
  }

  lemma LeakLowered()
    ensures Lowered(LEAK_HEADERS) == LEAK_HEADERS
  {
    LowerFixed("connection");
    LowerFixed("xf");
    LowerFixed("proxy-connection");
    LowerFixed("k");
    hide Lower;
    forall i | 0 <= i < 4 ensures Lowered(LEAK_HEADERS)[i] == LEAK_HEADERS[i] {}
  }

  lemma NoTransferEncoding()
    ensures !HasBody(Request("/", "GET", LEAK_HEADERS, None), LEAK_HEADERS)
  {
    forall h | h in LEAK_HEADERS ensures |h.0| != |"transfer-encoding"| {}
  }

  /** It can fail: a request from which a nominated field, and `proxy-connection`, go out to the upstream. */
  lemma HopByHopTravels(rules: HttpRules)
    requires LeakUsable(rules)
    ensures HopByHop(LEAK_HEADERS, "xf") && HopByHop(LEAK_HEADERS, "proxy-connection")
    ensures var r := Forwarded(Request("/", "GET", LEAK_HEADERS, None), [LEAK_ROUTE], rules);
            && r.Ok? && r.value.uri == "http://h/"
            && ("xf", "1") in r.value.headers && ("proxy-connection", "close") in r.value.headers
  {
    hide Forwarded, Selection, PassedOn, Nominated, Lower, LeakUsable;
    LeakForwarded(rules);
    LeakNominates();
    LowerFixed("proxy-connection");
    assert HOP_BY_HOP[1] == "proxy-connection";
    XfPasses();
    ProxyConnectionPasses();
  }

  // ----- Starting proxy mode -----

  datatype ProxyModeError = Read | Parse | EmptyTransfer | InvalidUpstream(index: nat) | Bind | Readiness

  /** `position` */
  function Position<T>(p: T -> bool, s: seq<T>): (r: Option<nat>)
    ensures r.Some? ==> r.value < |s| && p(s[r.value]) && forall i | 0 <= i < r.value :: !p(s[i])
    ensures r.None? <==> forall i | 0 <= i < |s| :: !p(s[i])
  {
    if s == [] then None
    else if p(s[0]) then Some(0)
    else
      match Position(p, s[1..])
      case None =>
        assert forall i | 1 <= i < |s| :: s[i] == s[1..][i - 1];
        None
      case Some(i) =>
        assert forall j | 1 <= j <= i :: s[j] == s[1..][j - 1];
        Some(i + 1)
  }

  function FirstInvalidUpstream(routes: seq<RouteTransfer>): (r: Option<nat>)
    ensures r.Some? ==> r.value < |routes| && !IsHttpOrigin(routes[r.value].upstream)
    ensures r.Some? ==> forall i | 0 <= i < r.value :: IsHttpOrigin(routes[i].upstream)
    ensures r.None? <==> forall x | x in routes :: IsHttpOrigin(x.upstream)
  {
    Position((x: RouteTransfer) => !IsHttpOrigin(x.upstream), routes)
  }

  function Armed(r: RouteTransfer): ProxyRoute {
    ProxyRoute(r.headerName, r.template, r.phantom, r.secret, r.upstream)
  }

  function ArmedAll(routes: seq<RouteTransfer>): seq<ProxyRoute> {
    seq(|routes|, i requires 0 <= i < |routes| => Armed(routes[i]))
  }

  /** What becomes of the routes of a document. */
  function Admit(routes: seq<RouteTransfer>): Result<seq<ProxyRoute>, ProxyModeError> {
    if routes == [] then Err(EmptyTransfer)
    else
      match FirstInvalidUpstream(routes)
      case Some(i) => Err(InvalidUpstream(i))
      case None => Ok(ArmedAll(routes))
  }

  /** `parse_transfer` */
  function ParseTransfer(input: string): Result<seq<ProxyRoute>, ProxyModeError> {
    match ReadDocument(input)
    case None => Err(Parse)
    case Some(routes) => Admit(routes)
  }

  /** The text is a JSON document of these routes. */
  ghost predicate Transfers(input: string, routes: seq<RouteTransfer>) {
    exists v :: JsonText.IsTextOf(input, v) && DocumentIs(v, routes)
  }

  ghost predicate Serves(routes: seq<RouteTransfer>, served: seq<ProxyRoute>) {
    |served| == |routes|
    && forall i | 0 <= i < |routes| ::
         && served[i].headerName == routes[i].headerName && served[i].template == routes[i].template
         && served[i].phantom == routes[i].phantom && served[i].rawValue == routes[i].secret
         && served[i].upstream == routes[i].upstream
  }

  ghost predicate FirstRefused(routes: seq<RouteTransfer>, i: nat) {
    i < |routes| && !IsHttpOrigin(routes[i].upstream) && forall j | 0 <= j < i :: IsHttpOrigin(routes[j].upstream)
  }

  lemma TransfersExactly(input: string, routes: seq<RouteTransfer>)
    ensures Transfers(input, routes) <==> ReadDocument(input) == Some(routes)
  {
    forall v ensures J.ReadDocument(input) == Some(v) <==> JsonText.IsTextOf(input, v) {
      JsonText.ReadsExactly(input, v);
    }
    if J.ReadDocument(input).Some? { DocumentExactly(J.ReadDocument(input).value, routes); }
    hide DocumentOf, DocumentIs, JsonText.IsTextOf, J.ReadDocument;
  }

  lemma ServesExactly(routes: seq<RouteTransfer>, served: seq<ProxyRoute>)
    ensures Serves(routes, served) <==> served == ArmedAll(routes)
  {
    if Serves(routes, served) {
      forall i | 0 <= i < |served| ensures served[i] == ArmedAll(routes)[i] {}
    }
  }

  lemma AdmitExactly(routes: seq<RouteTransfer>)
    ensures forall served ::
              Admit(routes) == Ok(served)
              <==> && Serves(routes, served) && routes != []
                   && forall i | 0 <= i < |routes| :: IsHttpOrigin(routes[i].upstream)
    ensures Admit(routes) == Err(EmptyTransfer) <==> routes == []
    ensures forall i :: Admit(routes) == Err(InvalidUpstream(i)) <==> FirstRefused(routes, i)
    ensures Admit(routes) != Err(Parse)
  {
    forall served ensures Serves(routes, served) <==> served == ArmedAll(routes) { ServesExactly(routes, served); }
    hide IsHttpOrigin, Serves, ArmedAll;
    assert (forall x | x in routes :: IsHttpOrigin(x.upstream))
        <==> forall i | 0 <= i < |routes| :: IsHttpOrigin(routes[i].upstream);
  }

  /** Routes are served exactly when the text is a document of at least one and all their upstreams are origins. */
  lemma ParseTransferServes(input: string, served: seq<ProxyRoute>)
    ensures ParseTransfer(input) == Ok(served)
       <==> exists routes: seq<RouteTransfer> ::
              && Transfers(input, routes) && Serves(routes, served) && routes != []
              && forall i | 0 <= i < |routes| :: IsHttpOrigin(routes[i].upstream)
  {
    forall routes ensures Transfers(input, routes) <==> ReadDocument(input) == Some(routes) {
      TransfersExactly(input, routes);
    }
    if ReadDocument(input).Some? { AdmitExactly(ReadDocument(input).value); }
    hide Transfers, ReadDocument, IsHttpOrigin, Admit, Serves;
  }

  /** An empty document, the first upstream that is no origin, and any other text each have their own error. */
  lemma ParseTransferRefuses(input: string, i: nat)
    ensures ParseTransfer(input) == Err(EmptyTransfer) <==> Transfers(input, [])
    ensures ParseTransfer(input) == Err(InvalidUpstream(i))
       <==> exists routes :: Transfers(input, routes) && FirstRefused(routes, i)
    ensures ParseTransfer(input) == Err(Parse) <==> forall routes :: !Transfers(input, routes)
  {
    forall routes ensures Transfers(input, routes) <==> ReadDocument(input) == Some(routes) {
      TransfersExactly(input, routes);
    }
    if ReadDocument(input).Some? { AdmitExactly(ReadDocument(input).value); }
    hide Transfers, ReadDocument, Admit, Serves, FirstRefused;
  }

  /** `run_proxy_mode`: the stdin bytes, the port the listener got and whether stdout takes
      the readiness line are the world's; `written` is what stdout receives. */
  method RunProxyMode(input: seq<byte>, listener: Option<nat>, writable: bool)
    returns (r: Result<(seq<ProxyRoute>, nat), ProxyModeError>, written: seq<byte>)
    ensures r.Ok? <==> && Decode(Readiness.LineOf(input)).Some? && listener.Some? && writable
                       && ParseTransfer(Decode(Readiness.LineOf(input)).value).Ok?
    ensures r.Ok? ==> && ParseTransfer(Decode(Readiness.LineOf(input)).value) == Ok(r.value.0)
                      && listener == Some(r.value.1)
                      && written == Readiness.Announced(r.value.1)
    ensures r.Err? ==> written == []
  {
    written := [];
    var raw := Decode(Readiness.LineOf(input));
    if raw.None? { return Err(Read), []; }
    var routes := ParseTransfer(raw.value);
    if routes.Err? { return Err(routes.error), []; }
    if listener.None? { return Err(Bind), []; }
    if !writable { return Err(ProxyModeError.Readiness), []; }
    written := Readiness.Announced(listener.value);
    r := Ok((routes.value, listener.value));
  }

  /** The proxy receives the supervisor's routes unchanged, in order, and refuses none of
      them when every upstream is an accepted origin. */
  lemma TransferRoundTrip(routes: seq<RouteTransfer>, rest: seq<byte>)
    requires routes != [] && forall x | x in routes :: IsHttpOrigin(x.upstream)
    ensures var stdin := Encode(PrintDocument(routes)) + [0x0A] + rest;
            && Decode(Readiness.LineOf(stdin)) == Some(PrintDocument(routes) + "\n")
            && ParseTransfer(PrintDocument(routes) + "\n") == Ok(ArmedAll(routes))
  {
    DocumentIsOneLine(routes);
    Readiness.FramedLineArrives(PrintDocument(routes), rest);
    ReadPrintedDocument(routes, "\n");
  }
}
