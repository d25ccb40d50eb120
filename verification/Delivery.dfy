/** What a launch delivers: the environment of the runtime client, and what of it the client forwards to the target. */
module Delivery {
  import opened Wrappers
  import opened Config
  import opened Resolution
  import opened Invocation
  import opened Values
  import Phantom
  import Run
  import Transfer
  import Validate

  // ----- What is injected -----

  /** The names and values a policy injects, in the order they are set. */
  function Injected(config: Config, policy: CommandPolicy, w: World, port: nat): seq<Run.Entry>
    requires Resolvable(config, policy, w.answers) && AllDrawn(policy, w.draws)
  {
    DirectEntries(config, policy, w.answers) + Transfer.TargetEntries(Transfer.Plans(ProvisionedOf(config, policy, w)),
                                                                      port)
  }

  /** Either path of `execute`: by replacement or supervised. */
  ghost predicate Launched(config: Config, context: DockerContext, policy: CommandPolicy, args: seq<string>, w: World,
                           l: Launch) {
    || DirectLaunch(config, context, policy, args, w, l)
    || SupervisedLaunch(config, context, policy, args, w, l)
  }

  lemma NothingProxied(config: Config, policy: CommandPolicy, w: World, port: nat)
    requires Resolvable(config, policy, w.answers) && policy.proxySecrets == []
    ensures AllDrawn(policy, w.draws) && Injected(config, policy, w, port) == DirectEntries(config, policy, w.answers)
  {
    hide Resolvable, DirectEntries;
    assert ProvisionedOf(config, policy, w) == [];
  }

  /** Both paths start the same argv with the injected entries and nothing else set. */
  lemma LaunchSets(config: Config, context: DockerContext, policy: CommandPolicy, args: seq<string>, w: World,
                   l: Launch)
    requires Launched(config, context, policy, args, w, l)
    ensures Resolvable(config, policy, w.answers) && AllDrawn(policy, w.draws)
    ensures l.argv == Run.Argv(context, policy, args)
    ensures l.environment == Run.Overlay(map[], Injected(config, policy, w, l.port))
  {
    if policy.proxySecrets == [] {
      NothingProxied(config, policy, w, l.port);
    } else {
      var direct, plans := DirectEntries(config, policy, w.answers), Transfer.Plans(ProvisionedOf(config, policy, w));
      Run.OverlayAppend(map[], direct, Transfer.TargetEntries(plans, l.port));
    }
  }

  lemma {:induction false} ProxyEntryNames(plans: seq<Transfer.ProxySecretPlan>, proxies: seq<ProxySecretSpec>,
                                           port: nat)
    requires |plans| == |proxies|
    requires forall i | 0 <= i < |plans| ::
        plans[i].envName == proxies[i].envName && plans[i].baseUrlEnv == proxies[i].baseUrlEnv
    ensures Run.Names(Transfer.TargetEntries(plans, port)) == Validate.ProxyNames(proxies)
  {
    if plans != [] {
      var n := |plans| - 1;
      ProxyEntryNames(plans[..n], proxies[..n], port);
      hide Transfer.BaseUrl;
      var before := Transfer.TargetEntries(plans[..n], port);
      var last := [(plans[n].envName, plans[n].phantom), (plans[n].baseUrlEnv, Transfer.BaseUrl(port))];
      assert Run.Names(last) == [proxies[n].envName, proxies[n].baseUrlEnv];
      Run.NamesAppend(before, last);
    }
  }

  lemma EntryNames(config: Config, policy: CommandPolicy, w: World, port: nat)
    requires Resolvable(config, policy, w.answers) && AllDrawn(policy, w.draws)
    ensures Run.Names(DirectEntries(config, policy, w.answers)) == Validate.SecretNames(policy.secrets)
    ensures Run.Names(Transfer.TargetEntries(Transfer.Plans(ProvisionedOf(config, policy, w)), port))
        == Validate.ProxyNames(policy.proxySecrets)
  {
    KeyDeclared(policy);
    hide Resolvable, ValueOf, ProxyKey, SecretKey, DeclaredKeys, Phantom.Minted, Transfer.TargetEntries,
        Validate.ProxyNames;
    ProxyEntryNames(Transfer.Plans(ProvisionedOf(config, policy, w)), policy.proxySecrets, port);
    var l, r := Run.Names(DirectEntries(config, policy, w.answers)), Validate.SecretNames(policy.secrets);
    forall i | 0 <= i < |policy.secrets| ensures l[i] == r[i] {
    }
  }

  ghost predicate DirectSeen(config: Config, policy: CommandPolicy, answers: map<string, Answers>,
                             child: map<string, string>) {
    forall s | s in policy.secrets ::
      s.envName in child && GivenBy(config, answers, s.provider, s.secretName, child[s.envName])
  }

  ghost predicate PhantomsSeen(policy: CommandPolicy, w: World, port: nat, child: map<string, string>)
    requires AllDrawn(policy, w.draws)
  {
    forall i: nat | i < |policy.proxySecrets| ::
      var p := policy.proxySecrets[i];
      && p.envName in child && child[p.envName] == Phantom.Minted(w.draws[i])
      && p.baseUrlEnv in child && Transfer.IsLoopbackUrl(child[p.baseUrlEnv], port)
  }

  lemma ProxyEntries(config: Config, policy: CommandPolicy, w: World, port: nat, i: nat)
    requires Resolvable(config, policy, w.answers) && AllDrawn(policy, w.draws) && i < |policy.proxySecrets|
    ensures var proxied := Transfer.TargetEntries(Transfer.Plans(ProvisionedOf(config, policy, w)), port);
            && |proxied| == 2 * |policy.proxySecrets|
            && proxied[2 * i].0 == policy.proxySecrets[i].envName && proxied[2 * i].1 == Phantom.Minted(w.draws[i])
            && proxied[2 * i + 1].0 == policy.proxySecrets[i].baseUrlEnv
                && proxied[2 * i + 1].1 == Transfer.BaseUrl(port)
  {
    KeyDeclared(policy);
    hide Resolvable, ValueOf, ProxyKey, DeclaredKeys, Phantom.Minted, Transfer.TargetEntries, Transfer.BaseUrl;
    var plans := Transfer.Plans(ProvisionedOf(config, policy, w));
    assert plans[i]
        == Transfer.ProxySecretPlan(policy.proxySecrets[i].envName, policy.proxySecrets[i].baseUrlEnv,
                                    Phantom.Minted(w.draws[i]));
  }

  lemma DirectEntry(config: Config, policy: CommandPolicy, answers: map<string, Answers>, i: nat)
    requires Resolvable(config, policy, answers) && i < |policy.secrets|
    ensures var direct, s := DirectEntries(config, policy, answers), policy.secrets[i];
            && |direct| == |policy.secrets| && direct[i].0 == s.envName
            && GivenBy(config, answers, s.provider, s.secretName, direct[i].1)
  {
    KeyDeclared(policy);
    var k := SecretKey(policy.secrets[i]);
    assert k in DeclaredKeys(policy);
    RawValueGiven(config, DeclaredKeys(policy), answers, k);
    hide RawValue, DeclaredKeys, GivenBy;
  }

  lemma SeesDirect(config: Config, policy: CommandPolicy, answers: map<string, Answers>, child: map<string, string>)
    requires Resolvable(config, policy, answers) && Run.Sees(child, DirectEntries(config, policy, answers))
    ensures DirectSeen(config, policy, answers, child)
  {
    hide Resolvable, DirectEntries, GivenBy;
    var direct := DirectEntries(config, policy, answers);
    forall s | s in policy.secrets
      ensures s.envName in child && GivenBy(config, answers, s.provider, s.secretName, child[s.envName])
    {
      var i :| 0 <= i < |policy.secrets| && policy.secrets[i] == s;
      DirectEntry(config, policy, answers, i);
      assert direct[i].0 in child;
    }
  }

  lemma SeesPhantoms(config: Config, policy: CommandPolicy, w: World, port: nat, child: map<string, string>)
    requires Resolvable(config, policy, w.answers) && AllDrawn(policy, w.draws)
    requires Run.Sees(child, Transfer.TargetEntries(Transfer.Plans(ProvisionedOf(config, policy, w)), port))
    ensures PhantomsSeen(policy, w, port, child)
  {
    hide Resolvable, ProvisionedOf, Transfer.Plans, Transfer.TargetEntries, Phantom.Minted, Transfer.BaseUrl,
        Transfer.IsLoopbackUrl;
    var proxied := Transfer.TargetEntries(Transfer.Plans(ProvisionedOf(config, policy, w)), port);
    forall i: nat | i < |policy.proxySecrets|
      ensures var p := policy.proxySecrets[i];
              && p.envName in child && child[p.envName] == Phantom.Minted(w.draws[i])
              && p.baseUrlEnv in child && Transfer.IsLoopbackUrl(child[p.baseUrlEnv], port)
    {
      Transfer.BaseUrlIsLoopback(port);
      ProxyEntries(config, policy, w, port, i);
      assert proxied[2 * i].0 in child && proxied[2 * i + 1].0 in child;
    }
  }

  lemma InjectedNames(config: Config, policy: CommandPolicy, w: World, port: nat)
    requires Resolvable(config, policy, w.answers) && AllDrawn(policy, w.draws)
    ensures Run.Names(Injected(config, policy, w, port)) == Validate.EnvNames(policy)
  {
    EntryNames(config, policy, w, port);
    hide Resolvable, DirectEntries, Transfer.TargetEntries, ProvisionedOf, Transfer.Plans, Validate.SecretNames,
        Validate.ProxyNames, Run.Names;
    var direct, proxied := DirectEntries(config, policy, w.answers),
        Transfer.TargetEntries(Transfer.Plans(ProvisionedOf(config, policy, w)), port);
    Run.NamesAppend(direct, proxied);
  }

  // ----- Who gets it -----

  /** Every declared name with its own value: the raw one if it is delivered directly, a phantom and the proxy's
      URL if it is proxy-backed. */
  ghost predicate Gives(config: Config, policy: CommandPolicy, w: World, port: nat, environment: map<string, string>)
    requires Resolvable(config, policy, w.answers) && AllDrawn(policy, w.draws)
  {
    DirectSeen(config, policy, w.answers, environment) && PhantomsSeen(policy, w, port, environment)
  }

  lemma SeenGives(config: Config, policy: CommandPolicy, w: World, port: nat, environment: map<string, string>)
    requires Resolvable(config, policy, w.answers) && AllDrawn(policy, w.draws)
    requires Run.Sees(environment, Injected(config, policy, w, port))
    ensures Gives(config, policy, w, port, environment)
  {
    hide Resolvable, DirectEntries, Transfer.TargetEntries, ProvisionedOf, Transfer.Plans, DirectSeen, PhantomsSeen;
    var direct, proxied := DirectEntries(config, policy, w.answers),
        Transfer.TargetEntries(Transfer.Plans(ProvisionedOf(config, policy, w)), port);
    assert Run.Sees(environment, direct) by {
      forall i | 0 <= i < |direct| ensures (direct + proxied)[i] == direct[i] {}
    }
    assert Run.Sees(environment, proxied) by {
      forall i | 0 <= i < |proxied| ensures (direct + proxied)[|direct| + i] == proxied[i] {}
    }
    SeesDirect(config, policy, w.answers, environment);
    SeesPhantoms(config, policy, w, port, environment);
  }

  /** The runtime client: its parent's environment with every declared name overridden by its own value. */
  lemma ClientEnvironment(config: Config, context: DockerContext, policy: CommandPolicy, args: seq<string>, w: World,
                          l: Launch, parent: map<string, string>)
    requires Validate.PolicyOk(config, policy) && Launched(config, context, policy, args, w, l)
    ensures Resolvable(config, policy, w.answers) && AllDrawn(policy, w.draws)
    ensures Gives(config, policy, w, l.port, Run.Inherit(parent, l.environment))
    ensures forall k | k !in Validate.EnvNames(policy) ::
              var client := Run.Inherit(parent, l.environment);
              (k in client <==> k in parent) && (k in client ==> client[k] == parent[k])
  {
    LaunchSets(config, context, policy, args, w, l);
    InjectedNames(config, policy, w, l.port);
    hide Resolvable, Launched, Injected, Run.Overlay, Run.Names, Validate.EnvNames, Gives, Run.Argv;
    Run.ChildSeesDeclared(parent, Injected(config, policy, w, l.port));
    SeenGives(config, policy, w, l.port, Run.Inherit(parent, l.environment));
  }

  /** What the target gets: of the client's environment, the names the argv says to forward. */
  function TargetEnvironment(parent: map<string, string>, l: Launch): map<string, string> {
    match Run.ReadExec(l.argv)
    case None => map[]
    case Some(read) => Run.Forward(Run.Inherit(parent, l.environment), read.env)
  }

  /** The names the runtime is told to forward are exactly the declared ones, which are exactly the ones set in its
      environment, and the argv gives back everything else the user said. */
  lemma ArgvNamesEnvironment(config: Config, context: DockerContext, policy: CommandPolicy, args: seq<string>, w: World,
                             l: Launch)
    requires Launched(config, context, policy, args, w, l) && Validate.ContextOk(context)
    ensures var read := Run.ReadExec(l.argv);
            && read == Some(Run.Meant(context, policy, args))
            && read.value.env == Validate.EnvNames(policy)
            && forall k :: k in l.environment <==> k in read.value.env
  {
    LaunchSets(config, context, policy, args, w, l);
    InjectedNames(config, policy, w, l.port);
    Run.ArgvReadsBack(context, policy, args);
    hide Launched, Injected, Run.Argv, Run.ReadExec, Run.Overlay, Run.Names, Validate.EnvNames, Resolvable;
    Run.OverlayKeys(Injected(config, policy, w, l.port));
  }

  /** The target gets exactly the declared names, each with its own value, whatever the invoking environment holds. */
  lemma TargetGetsDeclared(config: Config, context: DockerContext, policy: CommandPolicy, args: seq<string>, w: World,
                           l: Launch, parent: map<string, string>)
    requires Validate.PolicyOk(config, policy) && Validate.ContextOk(context)
             && Launched(config, context, policy, args, w, l)
    ensures Resolvable(config, policy, w.answers) && AllDrawn(policy, w.draws)
    ensures Gives(config, policy, w, l.port, TargetEnvironment(parent, l))
    ensures forall k :: k in TargetEnvironment(parent, l) <==> k in Validate.EnvNames(policy)
  {
    LaunchSets(config, context, policy, args, w, l);
    InjectedNames(config, policy, w, l.port);
    ArgvNamesEnvironment(config, context, policy, args, w, l);
    hide Resolvable, Launched, Injected, Run.Overlay, Run.Names, Run.ReadExec, Run.Argv, Validate.EnvNames, Gives;
    var entries := Injected(config, policy, w, l.port);
    Run.ChildSeesDeclared(parent, entries);
    Run.ForwardSees(Run.Inherit(parent, l.environment), entries);
    SeenGives(config, policy, w, l.port, TargetEnvironment(parent, l));
  }
}
