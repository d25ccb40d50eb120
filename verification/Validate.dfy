/** src/config/validate.rs: whole-configuration validation. */
module Validate {
  import opened Wrappers
  import opened Text
  import opened Config
  import opened Origin
  import Template

  datatype Field = User | Workdir | ContainerName

  datatype Defect =
    | DuplicateProvider(id: string)
    | DuplicateContext(id: string)
    | NotContainerName(context: DockerContext)
    | NulInContext(context: DockerContext, field: Field)
    | DuplicateCommand(id: string)
    | NotCommandName(id: string)
    | NotEnvName(policy: CommandPolicy, name: string)
    | DuplicateEnvName(policy: CommandPolicy, name: string)
    | UnknownProvider(policy: CommandPolicy, provider: string)
    | NotOrigin(policy: CommandPolicy, upstream: string)
    | NotHeaderName(policy: CommandPolicy, name: string)
    | ProxyOwnedHeader(policy: CommandPolicy, name: string)
    | PlaceholderCount(policy: CommandPolicy, template: string)
    | TemplateCharacter(policy: CommandPolicy, template: string)

  // ----- Well-formedness of a whole configuration -----

  ghost predicate Distinct<T(!new)>(s: seq<T>) { forall i, j | 0 <= i < j < |s| :: s[i] != s[j] }

  ghost predicate RepeatedIn<T(!new)>(s: seq<T>, x: T) { exists i, j | 0 <= i < j < |s| :: s[i] == x == s[j] }

  function Members<T(!new)>(s: seq<T>): set<T> { set x | x in s }

  /** What inserting element i into the set of its predecessors reveals. */
  lemma InsertNext<T(!new)>(s: seq<T>, i: nat)
    requires i < |s| && Distinct(s[..i])
    ensures s[i] in Members(s[..i]) ==> RepeatedIn(s, s[i]) && !Distinct(s)
    ensures s[i] !in Members(s[..i]) ==> Distinct(s[..i + 1])
    ensures Members(s[..i + 1]) == Members(s[..i]) + {s[i]}
    ensures s[..|s|] == s
  {
    assert s[..i + 1] == s[..i] + [s[i]];
    if s[i] in Members(s[..i]) {
      var j :| 0 <= j < i && s[..i][j] == s[i];
      assert s[j] == s[i];
    }
  }

  function ProviderIds(config: Config): seq<string> {
    seq(|config.providers|, i requires 0 <= i < |config.providers| => config.providers[i].id)
  }

  function ContextIds(config: Config): seq<string> {
    seq(|config.contexts|, i requires 0 <= i < |config.contexts| => config.contexts[i].id)
  }

  function CommandIds(config: Config): seq<string> {
    seq(|config.policies|, i requires 0 <= i < |config.policies| => config.policies[i].id)
  }

  function FieldValue(c: DockerContext, f: Field): string {
    match f case User => c.user case Workdir => c.workdir case ContainerName => c.containerName
  }

  ghost predicate FreeOf(s: string, u: int) { forall c | c in s :: c as int != u }

  /** Not empty, and no hyphen at the start to make an option of it. */
  ghost predicate IsPositional(s: string) { s != "" && s[0] as int != 45 }

  ghost predicate ContextOk(c: DockerContext) {
    IsPositional(c.containerName) && FreeOf(c.user, 0) && FreeOf(c.workdir, 0) && FreeOf(c.containerName, 0)
  }

  predicate IsCommandName(id: string) { id != "" && !("-" <= id) && '\0' !in id }

  predicate IsEnvName(name: string) { name != "" && !("-" <= name) && '=' !in name && '\0' !in name }

  function SecretNames(secrets: seq<SecretSpec>): seq<string> {
    seq(|secrets|, i requires 0 <= i < |secrets| => secrets[i].envName)
  }

  function ProxyNames(proxies: seq<ProxySecretSpec>): (r: seq<string>)
    ensures |r| == 2 * |proxies|
    ensures forall i | 0 <= i < |proxies| :: r[2 * i] == proxies[i].envName && r[2 * i + 1] == proxies[i].baseUrlEnv
  {
    if proxies == [] then []
    else
      var n := |proxies| - 1;
      ProxyNames(proxies[..n]) + [proxies[n].envName, proxies[n].baseUrlEnv]
  }

  /** Every environment variable a policy injects, in declaration order. */
  function EnvNames(p: CommandPolicy): seq<string> { SecretNames(p.secrets) + ProxyNames(p.proxySecrets) }

  predicate IsTokenChar(c: char) {
    'a' <= c <= 'z' || 'A' <= c <= 'Z' || IsDigit(c) || c in "!#$%&'*+-.^_`|~"
  }

  predicate IsHeaderName(name: string) { name != "" && forall c | c in name :: IsTokenChar(c) }

  predicate IsProxyOwned(name: string) {
    Lower(name) in ["host", "content-length", "transfer-encoding", "connection"]
  }

  predicate IsHeaderText(s: string) { forall c | c in s :: 0x20 <= c as int < 0x7F }

  predicate Known(config: Config, provider: string) { FindProvider(config.providers, provider).Some? }

  /** What `Known` looks up. */
  ghost predicate Configured(config: Config, provider: string) {
    exists q | q in config.providers :: q.id == provider
  }

  lemma KnownExactly(config: Config, provider: string)
    ensures Known(config, provider) <==> Configured(config, provider)
  {
  }

  // What those tests decide, by code point.

  ghost predicate CommandNameOk(id: string) { IsPositional(id) && FreeOf(id, 0) }

  /** No equals sign, which would give the option a value. */
  ghost predicate EnvNameOk(name: string) { IsPositional(name) && FreeOf(name, 61) && FreeOf(name, 0) }

  /** The token characters of section 5.6.2 of RFC 9110: letters, digits and ! # $ % & ' * + - . ^ _ ` | ~ */
  predicate InToken(u: int) {
    48 <= u <= 57 || 65 <= u <= 90 || 97 <= u <= 122
    || u in {33, 35, 36, 37, 38, 39, 42, 43, 45, 46, 94, 95, 96, 124, 126}
  }

  ghost predicate HeaderNameOk(name: string) { name != "" && forall c | c in name :: InToken(c as int) }

  /** In some letter case one of the four names the proxy fills in itself. */
  ghost predicate Reserved(name: string) {
    || CaseVariants(name, "host") || CaseVariants(name, "content-length")
    || CaseVariants(name, "transfer-encoding") || CaseVariants(name, "connection")
  }

  /** Printable ASCII. */
  ghost predicate HeaderTextOk(s: string) { forall c | c in s :: 32 <= c as int <= 126 }

  lemma CommandNameExactly(id: string)
    ensures IsCommandName(id) <==> CommandNameOk(id)
  {
  }

  lemma EnvNameExactly(name: string)
    ensures IsEnvName(name) <==> EnvNameOk(name)
  {
  }

  lemma HeaderNameExactly(name: string)
    ensures IsHeaderName(name) <==> HeaderNameOk(name)
  {
    forall c: char ensures IsTokenChar(c) <==> InToken(c as int) {
    }
    hide IsTokenChar, InToken;
  }

  lemma ReservedExactly(name: string)
    ensures IsProxyOwned(name) <==> Reserved(name)
  {
    assert NoCapitals("host") && NoCapitals("content-length") && NoCapitals("transfer-encoding")
           && NoCapitals("connection");
    LowerIsTheSmallVariant(name, "host");
    LowerIsTheSmallVariant(name, "content-length");
    LowerIsTheSmallVariant(name, "transfer-encoding");
    LowerIsTheSmallVariant(name, "connection");
    hide Lower, CaseVariants;
  }

  lemma HeaderTextExactly(s: string)
    ensures IsHeaderText(s) <==> HeaderTextOk(s)
  {
  }

  ghost predicate ProxySecretOk(config: Config, p: ProxySecretSpec) {
    && Configured(config, p.provider)
    && IsHttpOrigin(p.upstream)
    && HeaderNameOk(p.injectHeader.name) && !Reserved(p.injectHeader.name)
    && (exists i :: Template.OnlyPlaceholderAt(p.injectHeader.template, i))
    && HeaderTextOk(p.injectHeader.template)
  }

  ghost predicate PolicyOk(config: Config, p: CommandPolicy) {
    && CommandNameOk(p.id)
    && (forall name | name in EnvNames(p) :: EnvNameOk(name))
    && Distinct(EnvNames(p))
    && (forall s | s in p.secrets :: Configured(config, s.provider))
    && (forall x | x in p.proxySecrets :: ProxySecretOk(config, x))
  }

  ghost predicate WellFormed(config: Config) {
    && Distinct(ProviderIds(config))
    && Distinct(ContextIds(config)) && (forall c | c in config.contexts :: ContextOk(c))
    && Distinct(CommandIds(config)) && (forall p | p in config.policies :: PolicyOk(config, p))
  }

  // ----- Defects -----

  ghost predicate EnvNameDefect(p: CommandPolicy, d: Defect) {
    match d
    case NotEnvName(q, name) => q == p && name in EnvNames(p) && !EnvNameOk(name)
    case DuplicateEnvName(q, name) => q == p && RepeatedIn(EnvNames(p), name)
    case _ => false
  }

  /** The defect is really in the policy it names. */
  ghost predicate PolicyExhibits(config: Config, p: CommandPolicy, d: Defect) {
    match d
    case NotCommandName(id) => id == p.id && !CommandNameOk(id)
    case UnknownProvider(q, id) =>
      && q == p && (forall x | x in config.providers :: x.id != id)
      && ((exists s | s in p.secrets :: s.provider == id) || exists x | x in p.proxySecrets :: x.provider == id)
    case NotOrigin(q, u) => q == p && !IsHttpOrigin(u) && exists x | x in p.proxySecrets :: x.upstream == u
    case NotHeaderName(q, h) => q == p && !HeaderNameOk(h) && exists x | x in p.proxySecrets :: x.injectHeader.name == h
    case ProxyOwnedHeader(q, h) => q == p && Reserved(h) && exists x | x in p.proxySecrets ::
        x.injectHeader.name == h
    case PlaceholderCount(q, t) =>
      && q == p && (forall i :: !Template.OnlyPlaceholderAt(t, i))
      && exists x | x in p.proxySecrets :: x.injectHeader.template == t
    case TemplateCharacter(q, t) => q == p && !HeaderTextOk(t) && exists x | x in p.proxySecrets ::
        x.injectHeader.template == t
    case _ => EnvNameDefect(p, d)
  }

  ghost predicate Exhibits(config: Config, d: Defect) {
    match d
    case DuplicateProvider(id) => RepeatedIn(ProviderIds(config), id)
    case DuplicateContext(id) => RepeatedIn(ContextIds(config), id)
    case NotContainerName(c) => c in config.contexts && !IsPositional(c.containerName)
    case NulInContext(c, f) =>
      && c in config.contexts
      && !FreeOf(match f case User => c.user case Workdir => c.workdir case ContainerName => c.containerName, 0)
    case DuplicateCommand(id) => RepeatedIn(CommandIds(config), id)
    case _ => exists p | p in config.policies :: PolicyExhibits(config, p, d)
  }

  // ----- The checks, in the order the code makes them -----

  method ValidateProxySecret(config: Config, policy: CommandPolicy, proxy: ProxySecretSpec) returns (r: Option<Defect>)
    requires proxy in policy.proxySecrets
    ensures r.None? <==> ProxySecretOk(config, proxy)
    ensures r.Some? ==> PolicyExhibits(config, policy, r.value)
  {
    Template.CountsOne(proxy.injectHeader.template);
    HeaderNameExactly(proxy.injectHeader.name);
    ReservedExactly(proxy.injectHeader.name);
    HeaderTextExactly(proxy.injectHeader.template);
    var name, template := proxy.injectHeader.name, proxy.injectHeader.template;
    if !Known(config, proxy.provider) { return Some(UnknownProvider(policy, proxy.provider)); }
    if !IsHttpOrigin(proxy.upstream) { return Some(NotOrigin(policy, proxy.upstream)); }
    if !IsHeaderName(name) { return Some(NotHeaderName(policy, name)); }
    if IsProxyOwned(name) { return Some(ProxyOwnedHeader(policy, name)); }
    if Template.CountPlaceholders(template) != 1 { return Some(PlaceholderCount(policy, template)); }
    if !IsHeaderText(template) { return Some(TemplateCharacter(policy, template)); }
    r := None;
  }

  /** `declare_env_name`: the names before position i are the ones in `declared`. */
  method DeclareEnvName(policy: CommandPolicy, i: nat, declared: set<string>)
    returns (r: Option<Defect>, declared': set<string>)
    requires i < |EnvNames(policy)| && declared == Members(EnvNames(policy)[..i])
    requires Distinct(EnvNames(policy)[..i]) && forall x | x in declared :: EnvNameOk(x)
    ensures r.None? ==> declared' == Members(EnvNames(policy)[..i + 1])
    ensures r.None? ==> Distinct(EnvNames(policy)[..i + 1]) && forall x | x in declared' :: EnvNameOk(x)
    ensures r.Some? ==> EnvNameDefect(policy, r.value)
  {
    var names := EnvNames(policy);
    var name := names[i];
    declared' := declared;
    EnvNameExactly(name);
    if !IsEnvName(name) { return Some(NotEnvName(policy, name)), declared; }
    InsertNext(names, i);
    if name in declared { return Some(DuplicateEnvName(policy, name)), declared; }
    declared' := declared + {name};
    r := None;
  }

  method ValidateEnvNames(policy: CommandPolicy) returns (r: Option<Defect>)
    ensures r.None? <==> Distinct(EnvNames(policy)) && forall x | x in EnvNames(policy) :: EnvNameOk(x)
    ensures r.Some? ==> EnvNameDefect(policy, r.value)
  {
    ghost var names := EnvNames(policy);
    var declared: set<string> := {};
    for i := 0 to |policy.secrets|
      invariant declared == Members(names[..i]) && Distinct(names[..i]) && forall x | x in declared :: EnvNameOk(x)
    {
      assert names[i] == policy.secrets[i].envName;
      r, declared := DeclareEnvName(policy, i, declared);
      if r.Some? { return; }
    }
    for i := 0 to |policy.proxySecrets|
      invariant |policy.secrets| + 2 * i <= |names|
      invariant declared == Members(names[..|policy.secrets| + 2 * i])
      invariant Distinct(names[..|policy.secrets| + 2 * i]) && forall x | x in declared :: EnvNameOk(x)
    {
      r, declared := DeclareEnvName(policy, |policy.secrets| + 2 * i, declared);
      if r.Some? { return; }
      r, declared := DeclareEnvName(policy, |policy.secrets| + 2 * i + 1, declared);
      if r.Some? { return; }
    }
    assert names[..|names|] == names;
    r := None;
  }

  method ValidatePolicy(config: Config, policy: CommandPolicy) returns (r: Option<Defect>)
    ensures r.None? <==> PolicyOk(config, policy)
    ensures r.Some? ==> PolicyExhibits(config, policy, r.value)
  {
    CommandNameExactly(policy.id);
    hide ProxySecretOk, EnvNameOk, IsCommandName, EnvNames, EnvNameDefect, Known, Configured, Distinct;
    if !IsCommandName(policy.id) { return Some(NotCommandName(policy.id)); }
    r := ValidateEnvNames(policy);
    if r.Some? { return; }
    for i := 0 to |policy.secrets|
      invariant forall j | 0 <= j < i :: Configured(config, policy.secrets[j].provider)
    {
      KnownExactly(config, policy.secrets[i].provider);
      if !Known(config, policy.secrets[i].provider) {
        UnknownIsDefect(config, policy, i);
        return Some(UnknownProvider(policy, policy.secrets[i].provider));
      }
    }
    for i := 0 to |policy.proxySecrets|
      invariant forall j | 0 <= j < i :: ProxySecretOk(config, policy.proxySecrets[j])
    {
      r := ValidateProxySecret(config, policy, policy.proxySecrets[i]);
      if r.Some? { return; }
    }
    r := None;
  }

  lemma UnknownIsDefect(config: Config, policy: CommandPolicy, i: nat)
    requires i < |policy.secrets| && !Configured(config, policy.secrets[i].provider)
    ensures PolicyExhibits(config, policy, UnknownProvider(policy, policy.secrets[i].provider))
    ensures !PolicyOk(config, policy)
  {
    assert policy.secrets[i] in policy.secrets;
  }

  method ValidateContext(config: Config, context: DockerContext) returns (r: Option<Defect>)
    requires context in config.contexts
    ensures r.None? <==> ContextOk(context)
    ensures r.Some? ==> Exhibits(config, r.value)
  {
    if context.containerName == "" || "-" <= context.containerName { return Some(NotContainerName(context)); }
    var fields := [User, Workdir, ContainerName];
    for i := 0 to |fields|
      invariant forall j | 0 <= j < i :: FreeOf(FieldValue(context, fields[j]), 0)
    {
      assert '\0' in FieldValue(context, fields[i]) <==> !FreeOf(FieldValue(context, fields[i]), 0);
      if '\0' in FieldValue(context, fields[i]) { return Some(NulInContext(context, fields[i])); }
    }
    assert fields[0] == User && fields[1] == Workdir && fields[2] == ContainerName;
    r := None;
  }

  /** `validate`: success is exactly well-formedness, and a reported defect is present. */
  method Validate(config: Config) returns (r: Option<Defect>)
    ensures r.None? <==> WellFormed(config)
    ensures r.Some? ==> Exhibits(config, r.value)
  {
    var ids: set<string> := {};
    for i := 0 to |config.providers|
      invariant ids == Members(ProviderIds(config)[..i]) && Distinct(ProviderIds(config)[..i])
    {
      InsertNext(ProviderIds(config), i);
      if config.providers[i].id in ids { return Some(DuplicateProvider(config.providers[i].id)); }
      ids := ids + {config.providers[i].id};
    }
    assert ProviderIds(config)[..|config.providers|] == ProviderIds(config);

    ids := {};
    for i := 0 to |config.contexts|
      invariant ids == Members(ContextIds(config)[..i]) && Distinct(ContextIds(config)[..i])
      invariant forall c | c in config.contexts[..i] :: ContextOk(c)
    {
      InsertNext(ContextIds(config), i);
      if config.contexts[i].id in ids { return Some(DuplicateContext(config.contexts[i].id)); }
      ids := ids + {config.contexts[i].id};
      r := ValidateContext(config, config.contexts[i]);
      if r.Some? { return; }
    }
    assert ContextIds(config)[..|config.contexts|] == ContextIds(config);

    ids := {};
    for i := 0 to |config.policies|
      invariant ids == Members(CommandIds(config)[..i]) && Distinct(CommandIds(config)[..i])
      invariant forall p | p in config.policies[..i] :: PolicyOk(config, p)
    {
      InsertNext(CommandIds(config), i);
      if config.policies[i].id in ids { return Some(DuplicateCommand(config.policies[i].id)); }
      ids := ids + {config.policies[i].id};
      r := ValidatePolicy(config, config.policies[i]);
      if r.Some? { return; }
    }
    assert CommandIds(config)[..|config.policies|] == CommandIds(config);
    r := None;
  }
}
