/** From a validated policy to the upstream: what the pieces give together. */
module EndToEnd {
  import opened Wrappers
  import opened Utf8
  import opened Config
  import opened Resolution
  import opened Invocation
  import opened Text
  import opened Delivery
  import opened Values
  import Origin
  import Phantom
  import Proxy
  import Readiness
  import Run
  import Sidecar
  import Supervise
  import Template
  import Transfer
  import Uri
  import Validate

  /** Everything a policy needs to be served: validated, resolved, and with entropy that never repeats. */
  ghost predicate Serveable(config: Config, policy: CommandPolicy, w: World) {
    && Validate.PolicyOk(config, policy)
    && policy.proxySecrets != [] && Resolvable(config, policy, w.answers) && AllDrawn(policy, w.draws)
    && forall i: nat, j: nat | i < j < |policy.proxySecrets| :: w.draws[i] != w.draws[j]
  }

  /** What the proxy is meant to serve, said by the policy alone: entry i keeps its own header, template, upstream,
      phantom and raw value. */
  function Served(config: Config, policy: CommandPolicy, w: World): (r: seq<Proxy.ProxyRoute>)
    requires Resolvable(config, policy, w.answers) && AllDrawn(policy, w.draws)
    ensures |r| == |policy.proxySecrets|
  {
    KeyDeclared(policy);
    seq(|policy.proxySecrets|, i requires 0 <= i < |policy.proxySecrets| =>
      Proxy.ProxyRoute(policy.proxySecrets[i].injectHeader.name, policy.proxySecrets[i].injectHeader.template,
                       Phantom.Minted(w.draws[i]), ValueOf(config, policy, w.answers, ProxyKey(policy.proxySecrets[i])),
                       policy.proxySecrets[i].upstream))
  }

  /** Entry i serves the value of its own secret: the one listed last under the secret name it declares, in the answer
      of the provider it declares. */
  lemma ServedGiven(config: Config, policy: CommandPolicy, w: World, i: nat)
    requires Resolvable(config, policy, w.answers) && AllDrawn(policy, w.draws) && i < |policy.proxySecrets|
    ensures GivenBy(config, w.answers, policy.proxySecrets[i].provider, policy.proxySecrets[i].secretName,
                    Served(config, policy, w)[i].rawValue)
  {
    KeyDeclared(policy);
    var k := ProxyKey(policy.proxySecrets[i]);
    assert k in DeclaredKeys(policy);
    RawValueGiven(config, DeclaredKeys(policy), w.answers, k);
    hide RawValue, DeclaredKeys, GivenBy, Phantom.Minted;
  }

  lemma ServedIsProvisioned(config: Config, policy: CommandPolicy, w: World)
    requires Resolvable(config, policy, w.answers) && AllDrawn(policy, w.draws)
    ensures Proxy.ArmedAll(Transfer.Routes(ProvisionedOf(config, policy, w))) == Served(config, policy, w)
  {
    KeyDeclared(policy);
    hide ValueOf, Phantom.Minted, ProxyKey, DeclaredKeys, Resolvable;
    var routes, served := Proxy.ArmedAll(Transfer.Routes(ProvisionedOf(config, policy, w))), Served(config, policy, w);
    forall i | 0 <= i < |served| ensures routes[i] == served[i] {
    }
  }

  lemma UpstreamsAccepted(config: Config, policy: CommandPolicy, w: World)
    requires Serveable(config, policy, w)
    ensures forall x | x in Transfer.Routes(ProvisionedOf(config, policy, w)) :: Origin.IsHttpOrigin(x.upstream)
  {
    hide Origin.IsHttpOrigin, Resolvable, ValueOf;
    var routes := Transfer.Routes(ProvisionedOf(config, policy, w));
    forall x | x in routes ensures Origin.IsHttpOrigin(x.upstream) {
      var i :| 0 <= i < |routes| && routes[i] == x;
      assert x.upstream == policy.proxySecrets[i].upstream;
      assert policy.proxySecrets[i] in policy.proxySecrets;
    }
  }

  /** What the proxy makes of the bytes on its stdin. */
  function Understood(stdin: seq<byte>): Result<seq<Proxy.ProxyRoute>, Proxy.ProxyModeError> {
    match Decode(Readiness.LineOf(stdin))
    case None => Err(Proxy.Read)
    case Some(line) => Proxy.ParseTransfer(line)
  }

  /** The proxy serves exactly the policy's entries, in their order, whatever the field contents and whatever
      follows the line on its stdin. */
  lemma ProxyServesPolicy(config: Config, policy: CommandPolicy, w: World, after: seq<byte>)
    requires Serveable(config, policy, w)
    ensures var line := Transfer.PrintDocument(Transfer.Routes(ProvisionedOf(config, policy, w)));
            Understood(Encode(line) + [0x0A] + after) == Ok(Served(config, policy, w))
  {
    UpstreamsAccepted(config, policy, w);
    ServedIsProvisioned(config, policy, w);
    hide Transfer.PrintDocument, Proxy.ParseTransfer, Served, Serveable, ProvisionedOf, Proxy.ArmedAll, Decode, Encode;
    var routes := Transfer.Routes(ProvisionedOf(config, policy, w));
    Proxy.TransferRoundTrip(routes, after);
  }

  /** Distinct entropy keeps the phantoms of any two entries apart, also when they share a header name. */
  lemma PhantomsApart(config: Config, policy: CommandPolicy, w: World, i: nat, j: nat)
    requires Serveable(config, policy, w) && i < |policy.proxySecrets| && j < |policy.proxySecrets| && i != j
    ensures Served(config, policy, w)[i].phantom != Served(config, policy, w)[j].phantom
  {
    Phantom.MintedDistinct(w.draws[i], w.draws[j]);
  }

  /** A request that carries `value` once under entry i's header, repeats no credential header, and matches no
      entry with another header name; names are meant in any letter case. */
  ghost predicate Carries(routes: seq<Proxy.ProxyRoute>, headers: seq<Proxy.Header>, i: nat, value: string) {
    && i < |routes|
    && Proxy.OfferedOnce(headers, routes[i].headerName, value)
    && Proxy.NoneRepeated(routes, headers)
    && forall j | 0 <= j < |routes| && Proxy.Offered(routes[j], headers) ::
        CaseVariants(routes[j].headerName, routes[i].headerName)
  }

  lemma LoweredVariants(headers: seq<Proxy.Header>)
    ensures Proxy.HeaderVariants(headers, Proxy.Lowered(headers))
  {
    var lowered := Proxy.Lowered(headers);
    forall i | 0 <= i < |headers| ensures CaseVariants(headers[i].0, lowered[i].0) && headers[i].1 == lowered[i].1 {
      LowerIsTheSmallVariant(headers[i].0, Lower(headers[i].0));
    }
  }

  /** Lowering the names, as the proxy does first, changes nothing in what is selected. */
  lemma LoweredSelects(routes: seq<Proxy.ProxyRoute>, headers: seq<Proxy.Header>)
    ensures Proxy.Selection(routes, Proxy.Lowered(headers)) == Proxy.Selection(routes, headers)
  {
    LoweredVariants(headers);
    Proxy.SelectionCaseFree(routes, routes, headers, Proxy.Lowered(headers));
    hide Proxy.Selection, Proxy.Lowered, Proxy.HeaderVariants;
  }

  lemma CarriedSelects(config: Config, policy: CommandPolicy, w: World, headers: seq<Proxy.Header>, i: nat)
    requires Serveable(config, policy, w) && i < |policy.proxySecrets|
    requires Carries(Served(config, policy, w), headers, i, Phantom.Minted(w.draws[i]))
    ensures Proxy.Selection(Served(config, policy, w), headers) == Ok(Served(config, policy, w)[i])
  {
    var routes := Served(config, policy, w);
    assert routes[i].phantom == Phantom.Minted(w.draws[i]);
    forall j: nat | j < |routes| && j != i ensures j != i ==> routes[j].phantom != routes[i].phantom {
      PhantomsApart(config, policy, w, i, j);
    }
    assert Proxy.Offered(routes[i], headers);
    hide Served, Serveable, Phantom.Minted, Proxy.Offered;
    forall j | 0 <= j < |routes| && Proxy.Offered(routes[j], headers) ensures j == i {
      if j != i {
        Proxy.SharedHeaderExclusive(routes[j], routes[i], headers);
      }
    }
    assert Proxy.SoleMatch(routes, headers, i);
    Proxy.SelectsSoleMatch(routes, headers, i);
  }

  /** The credential that goes out for an entry: its template with the raw value at its one placeholder. */
  ghost predicate Credential(template: string, raw: string, value: string) {
    exists k: nat ::
        k + 2 <= |template| && Template.OnlyPlaceholderAt(template, k)
            && value == template[..k] + raw + template[k + 2..]
  }

  /** The outbound URI is the configured upstream with the caller's target as the whole of its remainder. */
  ghost predicate UpstreamKept(upstream: string, target: string, uri: string) {
    && uri == upstream + target
    && Origin.IsHttpOrigin(upstream)
    && Uri.SplitUri(uri)
        == Some(Uri.Parts(Origin.Scheme(Origin.Decompose(upstream)), Origin.Authority(Origin.Decompose(upstream)),
                          target))
  }

  /** The caller's headers that are not withheld, in order and with their values, and after them the one credential
      with the raw value. */
  ghost predicate HeadersSwapped(header: InjectHeader, raw: string, routes: seq<Proxy.ProxyRoute>,
                                 headers: seq<Proxy.Header>, out: seq<Proxy.Header>) {
    && out != []
    && Proxy.Passes(headers, routes, out[..|out| - 1])
    && var (name, value) := out[|out| - 1];
       CaseVariants(header.name, name) && NoCapitals(name) && Credential(header.template, raw, value)
  }

  /** The request as it leaves for the upstream. */
  ghost predicate Swapped(spec: ProxySecretSpec, raw: string, routes: seq<Proxy.ProxyRoute>, request: Proxy.Request,
                          out: Proxy.Outbound) {
    && out.verb == request.verb
    && UpstreamKept(spec.upstream, request.target, out.uri)
    && HeadersSwapped(spec.injectHeader, raw, routes, request.headers, out.headers)
    && (out.hasBody <==> Proxy.SendsBody(request))
  }

  lemma CredentialInjected(spec: ProxySecretSpec, config: Config, raw: string)
    requires Validate.ProxySecretOk(config, spec)
    ensures Credential(spec.injectHeader.template, raw, Template.ReplaceFirst(spec.injectHeader.template, raw))
  {
    var t := spec.injectHeader.template;
    var k :| Template.OnlyPlaceholderAt(t, k);
    Template.ReplaceAtPlaceholder(t, k, raw);
    assert Template.OnlyPlaceholderAt(t, k as nat);
  }

  lemma InjectedHeaders(spec: ProxySecretSpec, config: Config, raw: string, routes: seq<Proxy.ProxyRoute>,
                        route: Proxy.ProxyRoute, headers: seq<Proxy.Header>)
    requires Validate.ProxySecretOk(config, spec) && route.rawValue == raw
    requires route.headerName == spec.injectHeader.name && route.template == spec.injectHeader.template
    ensures HeadersSwapped(spec.injectHeader, raw, routes, headers,
                           Proxy.OutboundHeaders(Proxy.Lowered(headers), routes, route))
  {
    CredentialInjected(spec, config, raw);
    var at := Proxy.PassedExactly(headers, routes);
    LowerIsTheSmallVariant(spec.injectHeader.name, Lower(spec.injectHeader.name));
    hide Credential, Proxy.PassesOn, Proxy.PassedOn, Proxy.Lowered, Validate.ProxySecretOk, Template.ReplaceFirst,
        Lower, CaseVariants;
    var passed := Proxy.PassedOn(Proxy.Lowered(headers), routes);
    var out := Proxy.OutboundHeaders(Proxy.Lowered(headers), routes, route);
    assert out[..|out| - 1] == passed;
  }

  lemma UpstreamStays(upstream: string, target: string)
    requires Origin.IsHttpOrigin(upstream) && Uri.IsOriginForm(target)
    ensures UpstreamKept(upstream, target, upstream + target)
  {
    hide Origin.IsHttpOrigin, Uri.IsOriginForm, Uri.SplitUri, Origin.Decompose, Origin.Scheme, Origin.Authority;
    Uri.AuthorityFixed(upstream, target);
  }

  /** What the HTTP library has to agree to before the request of a selected entry can go out. */
  ghost predicate Sendable(spec: ProxySecretSpec, raw: string, routes: seq<Proxy.ProxyRoute>, request: Proxy.Request,
                     rules: Proxy.HttpRules) {
    && rules.verb(request.verb) && rules.uri(spec.upstream + request.target)
    && Proxy.PassedUsable(request.headers, routes, rules)
    && rules.name(spec.injectHeader.name) && rules.value(Template.ReplaceFirst(spec.injectHeader.template, raw))
  }

  ghost predicate SentAs(spec: ProxySecretSpec, raw: string, routes: seq<Proxy.ProxyRoute>, request: Proxy.Request,
                         rules: Proxy.HttpRules, r: Result<Proxy.Outbound, Proxy.Rejection>) {
    if Sendable(spec, raw, routes, request, rules) then r.Ok? && Swapped(spec, raw, routes, request, r.value)
    else r == Err(Proxy.BadRequest(if rules.verb(request.verb) then Proxy.NotConstructible else Proxy.UnusableMethod))
  }

  lemma ExpectedSwapped(spec: ProxySecretSpec, config: Config, raw: string, routes: seq<Proxy.ProxyRoute>,
                        route: Proxy.ProxyRoute, request: Proxy.Request)
    requires Validate.ProxySecretOk(config, spec) && Uri.IsOriginForm(request.target)
    requires route.headerName == spec.injectHeader.name && route.template == spec.injectHeader.template
             && route.rawValue == raw
    ensures var headers := Proxy.Lowered(request.headers);
            Swapped(spec, raw, routes, request,
                    Proxy.Outbound(request.verb, spec.upstream + request.target,
                                   Proxy.OutboundHeaders(headers, routes, route), Proxy.HasBody(request, headers)))
  {
    InjectedHeaders(spec, config, raw, routes, route, request.headers);
    UpstreamStays(spec.upstream, request.target);
    Proxy.BodyExactly(request);
    hide Proxy.SendsBody, HeadersSwapped, UpstreamKept, Proxy.PassedOn, Proxy.OutboundHeaders, Proxy.Lowered,
        Proxy.HasBody, Uri.IsOriginForm;
  }

  lemma SelectedIsSwapped(spec: ProxySecretSpec, config: Config, raw: string, routes: seq<Proxy.ProxyRoute>,
                          route: Proxy.ProxyRoute, request: Proxy.Request, rules: Proxy.HttpRules)
    requires Validate.ProxySecretOk(config, spec) && Uri.IsOriginForm(request.target)
    requires route.headerName == spec.injectHeader.name && route.template == spec.injectHeader.template
    requires route.upstream == spec.upstream && route.rawValue == raw
    requires Proxy.Selection(routes, request.headers) == Ok(route)
    ensures SentAs(spec, raw, routes, request, rules, Proxy.Forwarded(request, routes, rules))
  {
    ExpectedSwapped(spec, config, raw, routes, route, request);
    LoweredSelects(routes, request.headers);
    Proxy.UsableExactly(request.headers, routes, rules);
    hide Proxy.PassedUsable, Swapped, Proxy.PassedOn, Proxy.OutboundHeaders, Proxy.Selection, Proxy.Lowered,
        Template.ReplaceFirst;
    hide Uri.IsOriginForm, Proxy.HasBody, Proxy.HeadersUsable, Validate.ProxySecretOk;
  }

  // ----- End to end -----

  /** What a run that reached its target had selected. */
  ghost predicate Chosen(w: World, request: Request, config: Config, context: DockerContext, policy: CommandPolicy) {
    && w.loaded == Some(config) && FindContext(config.contexts, request.context) == Some(context)
    && FindPolicy(config.policies, request.command) == Some(policy)
    && Validate.PolicyOk(config, policy) && Validate.ContextOk(context)
  }

  lemma ChosenBy(w: World, request: Request, r: Outcome)
    returns (config: Config, context: DockerContext, policy: CommandPolicy)
    requires Yields(w, request, r) && !r.Failed?
    ensures Chosen(w, request, config, context, policy)
    ensures YieldsSelected(config, context, policy, request.args, w, r)
  {
    config := w.loaded.value;
    context := FindContext(config.contexts, request.context).value;
    policy := FindPolicy(config.policies, request.command).value;
    hide Validate.PolicyOk, Validate.ContextOk, YieldsSelected, Validate.Distinct;
    assert policy in config.policies && context in config.contexts;
  }

  lemma LaunchOf(config: Config, context: DockerContext, policy: CommandPolicy, args: seq<string>, w: World, r: Outcome)
    requires YieldsSelected(config, context, policy, args, w, r)
    ensures r.Replaced? ==> DirectLaunch(config, context, policy, args, w, r.launch)
    ensures r.Exited? || r.Unwaited? ==>
              && SupervisedLaunch(config, context, policy, args, w, r.launch)
              && policy.proxySecrets != [] && Resolvable(config, policy, w.answers) && AllDrawn(policy, w.draws)
  {
    hide DirectLaunch, SupervisedLaunch, Resolvable, AllDrawn, ProvisionedOf, Sidecar.Started, Transfer.PrintDocument,
        Supervise.Ran, Supervise.WaitedFor, Run.ExitCodeOf;
  }

  /** A run of `execute` that replaces its process does so with a validated policy's launch, and one whose secrets are
      all delivered directly. */
  lemma ReplacedServes(w: World, request: Request, r: Outcome)
    returns (config: Config, context: DockerContext, policy: CommandPolicy)
    requires Yields(w, request, r) && r.Replaced?
    ensures Chosen(w, request, config, context, policy)
    ensures DirectLaunch(config, context, policy, request.args, w, r.launch)
  {
    config, context, policy := ChosenBy(w, request, r);
    hide Yields, YieldsSelected, Chosen, DirectLaunch, SupervisedLaunch, Resolvable, AllDrawn;
    LaunchOf(config, context, policy, request.args, w, r);
  }

  ghost predicate NoneTwice(draws: map<nat, Entropy>) {
    forall i: nat, j: nat | i < j && i in draws && j in draws :: draws[i] != draws[j]
  }

  /** A supervised run of `execute` that reaches its target, whether or not it could then wait for it, meets everything
      the results below ask for, provided no entropy is drawn twice. */
  lemma SupervisedServes(w: World, request: Request, r: Outcome)
    returns (config: Config, context: DockerContext, policy: CommandPolicy)
    requires Yields(w, request, r) && (r.Exited? || r.Unwaited?)
    requires NoneTwice(w.draws)
    ensures Chosen(w, request, config, context, policy) && Serveable(config, policy, w)
    ensures SupervisedLaunch(config, context, policy, request.args, w, r.launch)
  {
    config, context, policy := ChosenBy(w, request, r);
    hide Yields, YieldsSelected, Validate.PolicyOk, Validate.ContextOk, DirectLaunch, SupervisedLaunch, Resolvable;
    LaunchOf(config, context, policy, request.args, w, r);
  }

  lemma ListenerKnown(config: Config, context: DockerContext, policy: CommandPolicy, args: seq<string>, w: World,
                      l: Launch, port: nat, after: seq<byte>)
    requires SupervisedLaunch(config, context, policy, args, w, l)
    requires port < 0x1_0000 && w.sidecar.stdout == Some(Readiness.Announced(port) + after)
    ensures l.port == port
  {
    hide Resolvable, ProvisionedOf, Transfer.PrintDocument, Readiness.Announced, Sidecar.Reported, Run.Argv,
        Run.Overlay;
    Sidecar.ReadinessHandshake(port, after);
  }

  /** What the target is told is the URL of the proxy of this invocation is where that proxy listens: if the sidecar's
      output starts with what proxy mode writes for its listener's port, whatever it writes afterwards, every base-url
      name has that port. */
  lemma TargetReachesProxy(config: Config, context: DockerContext, policy: CommandPolicy, args: seq<string>, w: World,
                           l: Launch, parent: map<string, string>, port: nat, after: seq<byte>)
    requires Validate.PolicyOk(config, policy) && Validate.ContextOk(context)
    requires SupervisedLaunch(config, context, policy, args, w, l)
    requires port < 0x1_0000 && w.sidecar.stdout == Some(Readiness.Announced(port) + after)
    ensures l.port == port
    ensures forall i: nat | i < |policy.proxySecrets| ::
              var name := policy.proxySecrets[i].baseUrlEnv;
              name in TargetEnvironment(parent, l) && Transfer.IsLoopbackUrl(TargetEnvironment(parent, l)[name], port)
  {
    ListenerKnown(config, context, policy, args, w, l, port, after);
    hide SupervisedLaunch, Resolvable, AllDrawn, TargetEnvironment, Validate.PolicyOk, Validate.ContextOk;
    hide Validate.EnvNames, DirectSeen, Readiness.Announced, Transfer.IsLoopbackUrl;
    TargetGetsDeclared(config, context, policy, args, w, l, parent);
  }

  /** A supervised invocation, from its launch to the upstream. Whatever the target puts in a request, if it is the
      value forwarded to it under entry i's name, once under entry i's header, then exactly entry i's raw value
      goes out, in entry i's template, to entry i's upstream. */
  lemma PhantomBecomesItsSecret(config: Config, context: DockerContext, policy: CommandPolicy, args: seq<string>,
                                w: World, l: Launch, parent: map<string, string>, request: Proxy.Request,
                                rules: Proxy.HttpRules, i: nat)
    requires Serveable(config, policy, w) && Validate.ContextOk(context) && i < |policy.proxySecrets|
    requires SupervisedLaunch(config, context, policy, args, w, l) && Uri.IsOriginForm(request.target)
    requires policy.proxySecrets[i].envName in TargetEnvironment(parent, l) && Understood(l.delivered).Ok? ==>
               Carries(Understood(l.delivered).value, request.headers, i,
                       TargetEnvironment(parent, l)[policy.proxySecrets[i].envName])
    ensures Gives(config, policy, w, l.port, TargetEnvironment(parent, l))
    ensures forall k :: k in TargetEnvironment(parent, l) <==> k in Validate.EnvNames(policy)
    ensures Understood(l.delivered) == Ok(Served(config, policy, w))
    ensures GivenBy(config, w.answers, policy.proxySecrets[i].provider, policy.proxySecrets[i].secretName,
                    Served(config, policy, w)[i].rawValue)
    ensures SentAs(policy.proxySecrets[i], Served(config, policy, w)[i].rawValue, Served(config, policy, w), request,
                   rules, Proxy.Forwarded(request, Understood(l.delivered).value, rules))
  {
    var spec, routes, headers := policy.proxySecrets[i], Served(config, policy, w), request.headers;
    TargetGetsDeclared(config, context, policy, args, w, l, parent);
    ProxyServesPolicy(config, policy, w, []);
    assert l.delivered + [] == l.delivered;
    assert spec in policy.proxySecrets;
    ServedGiven(config, policy, w, i);
    hide TargetEnvironment, GivenBy;
    CarriedSelects(config, policy, w, headers, i);
    SelectedIsSwapped(spec, config, routes[i].rawValue, routes, routes[i], request, rules);
  }

  /** Whatever a caller sends, a raw value leaves only for its own upstream, in its own header and template, and only
      in exchange for its own phantom. */
  lemma SecretsKeepTheirUpstream(config: Config, policy: CommandPolicy, w: World, request: Proxy.Request,
                                 rules: Proxy.HttpRules)
    requires Serveable(config, policy, w)
    ensures var routes := Served(config, policy, w);
            var r := Proxy.Forwarded(request, routes, rules);
            r.Ok? ==> exists i :: && Proxy.SoleMatch(routes, request.headers, i)
                                  && Swapped(policy.proxySecrets[i], routes[i].rawValue, routes, request, r.value)
                                  && GivenBy(config, w.answers, policy.proxySecrets[i].provider,
                                             policy.proxySecrets[i].secretName, routes[i].rawValue)
  {
    var routes, headers := Served(config, policy, w), request.headers;
    LoweredSelects(routes, headers);
    var r := Proxy.Forwarded(request, routes, rules);
    if r.Ok? {
      assert Uri.IsOriginForm(request.target) && Proxy.Selection(routes, headers).Ok?;
      Proxy.SelectionMeaning(routes, headers);
      var i :| Proxy.SoleMatch(routes, headers, i);
      assert policy.proxySecrets[i] in policy.proxySecrets;
      ServedGiven(config, policy, w, i);
      SelectedIsSwapped(policy.proxySecrets[i], config, routes[i].rawValue, routes, routes[i], request, rules);
    }
  }
}
