/** `execute` of src/main.rs: one invocation from configuration to exit, with every outside
    step free to fail. */
module Invocation {
  import opened Wrappers
  import opened Utf8
  import opened Config
  import opened Resolution
  import opened Protocol
  import Phantom
  import Validate
  import Transfer
  import Sidecar
  import Run
  import Supervise
  import J = Journal

  datatype Failure =
    | Configuration | UnknownContext | UnknownCommand | Resolution | Provision
    | ProxyImage | SidecarStart | Execution

  type Entropy = b: seq<byte> | |b| == Phantom.ENTROPY_BYTES witness seq(Phantom.ENTROPY_BYTES, _ => 0)

  /** Everything outside iwaya that an invocation meets. */
  datatype World = World(
    loaded: Option<Config>,            // the configuration file, if it reads and parses
    answers: map<string, Answers>,     // what each provider's subprocesses answer; absent is a failure
    draws: map<nat, Entropy>,          // the entropy behind each phantom; absent is a failed draw
    image: bool,                       // whether the proxy image can be prepared
    sidecar: Sidecar.Conditions,
    execs: bool,                       // whether replacing the process succeeds
    supervision: Supervise.Supervision,  // how the system, the relay and the waiting thread interleave
    status: Run.ExitStatus)            // what a successful wait for the runtime yields

  datatype Request = Request(context: string, command: string, args: seq<string>)

  /** What the runtime process is started with, and what the sidecar was given before. */
  datatype Launch = Launch(argv: seq<string>, environment: map<string, string>, delivered: seq<byte>, port: nat)

  datatype Outcome =
    | Replaced(launch: Launch)
    | Exited(launch: Launch, code: nat)
    | Unwaited(launch: Launch)           // ran, and is reported as an execution failure
    | Failed(failure: Failure)

  // ----- What an invocation means -----

  function PlanOf(policy: CommandPolicy): Plan {
    Plan(multiset(SecretKeys(policy.secrets)), multiset(ProxyKeys(policy.proxySecrets)))
  }

  /** The selected policy of a request, if the configuration is there and has one. */
  function Selected(w: World, request: Request): Option<CommandPolicy> {
    if w.loaded.None? then None else FindPolicy(w.loaded.value.policies, request.command)
  }

  function PlanFor(w: World, request: Request): Plan {
    match Selected(w, request) case None => Plan(multiset{}, multiset{}) case Some(p) => PlanOf(p)
  }

  function AnswerOf(answers: map<string, Answers>, provider: string): Answers {
    if provider in answers then answers[provider] else Answers(None, None, map[])
  }

  /** The value a declaration resolves to. */
  function RawValue(config: Config, declared: seq<Key>, answers: map<string, Answers>, k: Key): Option<string> {
    match FindProvider(config.providers, k.0)
    case None => None
    case Some(p) =>
      match Resolve(p.project, NamesFor(declared, k.0), AnswerOf(answers, k.0))
      case Err(_) => None
      case Ok(found) => if k.1 in found then Some(found[k.1]) else None
  }

  /** Every declaration of the policy has a value. */
  predicate Resolvable(config: Config, policy: CommandPolicy, answers: map<string, Answers>) {
    forall k | k in DeclaredKeys(policy) :: RawValue(config, DeclaredKeys(policy), answers, k).Some?
  }

  function ValueOf(config: Config, policy: CommandPolicy, answers: map<string, Answers>, k: Key): string
    requires Resolvable(config, policy, answers) && k in DeclaredKeys(policy)
  {
    RawValue(config, DeclaredKeys(policy), answers, k).value
  }

  lemma KeyDeclared(policy: CommandPolicy)
    ensures forall i | 0 <= i < |policy.secrets| :: SecretKey(policy.secrets[i]) in DeclaredKeys(policy)
    ensures forall i | 0 <= i < |policy.proxySecrets| :: ProxyKey(policy.proxySecrets[i]) in DeclaredKeys(policy)
    ensures forall k :: k in DeclaredKeys(policy) <==> k in PlanOf(policy).direct + PlanOf(policy).proxied
  {
    hide SecretKey, ProxyKey;
    var keys, n := DeclaredKeys(policy), |policy.secrets|;
    forall i | 0 <= i < n ensures SecretKey(policy.secrets[i]) in keys {
      assert keys[i] == SecretKey(policy.secrets[i]);
    }
    forall i | 0 <= i < |policy.proxySecrets| ensures ProxyKey(policy.proxySecrets[i]) in keys {
      assert keys[n + i] == ProxyKey(policy.proxySecrets[i]);
    }
    forall k ensures k in DeclaredKeys(policy) <==> k in PlanOf(policy).direct + PlanOf(policy).proxied {
      assert k in SecretKeys(policy.secrets) <==> k in PlanOf(policy).direct;
      assert k in ProxyKeys(policy.proxySecrets) <==> k in PlanOf(policy).proxied;
    }
  }

  /** Direct delivery: each declared name with its own value. */
  function DirectEntries(config: Config, policy: CommandPolicy, answers: map<string, Answers>): seq<Run.Entry>
    requires Resolvable(config, policy, answers)
  {
    KeyDeclared(policy);
    seq(|policy.secrets|, i requires 0 <= i < |policy.secrets| =>
      (policy.secrets[i].envName, ValueOf(config, policy, answers, SecretKey(policy.secrets[i]))))
  }

  predicate AllDrawn(policy: CommandPolicy, draws: map<nat, Entropy>) {
    forall i: nat | i < |policy.proxySecrets| :: i in draws
  }

  /** Proxy-backed delivery: each spec bound to its raw value under its own phantom. */
  function ProvisionedOf(config: Config, policy: CommandPolicy, w: World): (r: seq<Transfer.ProvisionedProxySecret>)
    requires Resolvable(config, policy, w.answers) && AllDrawn(policy, w.draws)
  {
    KeyDeclared(policy);
    seq(|policy.proxySecrets|, i requires 0 <= i < |policy.proxySecrets| =>
      Transfer.Provision(policy.proxySecrets[i], ValueOf(config, policy, w.answers, ProxyKey(policy.proxySecrets[i])),
                         Phantom.Minted(w.draws[i])))
  }

  /** What a launch must be for a direct-only policy. */
  ghost predicate DirectLaunch(config: Config, context: DockerContext, policy: CommandPolicy, args: seq<string>,
                               w: World, l: Launch) {
    && policy.proxySecrets == [] && Resolvable(config, policy, w.answers)
    && l.argv == Run.Argv(context, policy, args)
    && l.environment == Run.Overlay(map[], DirectEntries(config, policy, w.answers))
    && l.delivered == [] && l.port == 0
  }

  /** What a launch must be for a policy with proxy-backed secrets. */
  ghost predicate SupervisedLaunch(config: Config, context: DockerContext, policy: CommandPolicy, args: seq<string>,
                                   w: World, l: Launch) {
    && policy.proxySecrets != [] && Resolvable(config, policy, w.answers) && AllDrawn(policy, w.draws)
    && var provisioned := ProvisionedOf(config, policy, w);
       && l.argv == Run.Argv(context, policy, args)
       && l.delivered == Encode(Transfer.PrintDocument(Transfer.Routes(provisioned))) + [0x0A]
       && Sidecar.Started(w.sidecar, Transfer.PrintDocument(Transfer.Routes(provisioned))) == Ok(l.port)
       && l.environment == Run.Overlay(Run.Overlay(map[], DirectEntries(config, policy, w.answers)),
                                       Transfer.TargetEntries(Transfer.Plans(provisioned), l.port))
  }

  // ----- Resolving -----

  ghost predicate HoldsOnly(s: State, resolver: multiset<Key>, environment: multiset<Key>, provisioned: multiset<Key>,
                            line: multiset<Key>) {
    && Held(s, Listing) == multiset{} && Held(s, ResolverMap) == resolver
    && Held(s, Environment) == environment && Held(s, Provisioned) == provisioned
    && Held(s, RouteList) == multiset{} && Held(s, TransferLine) == line && Held(s, CommandTable) == multiset{}
  }

  /** Validated, nothing started, still going. */
  ghost predicate Unstarted(s: State) {
    s.validated && !s.over && !s.handedOver && s.sidecar == NoSidecar && s.target == NotStarted
  }

  /** The same, and no provider's answer is awaited. */
  ghost predicate Preparing(s: State) { Unstarted(s) && s.asking == None }

  /** The declarations of one provider's group. */
  function GroupKeys(provider: string, names: seq<string>): set<Key> { KeysOf(provider, set n | n in names) }

  lemma GroupDeclared(declared: seq<Key>, i: nat)
    requires i < |GroupsOf(declared)|
    ensures forall k ::
              k in GroupKeys(GroupsOf(declared)[i].0, GroupsOf(declared)[i].1)
              <==> k in declared && k.0 == GroupsOf(declared)[i].0
  {
    var (p, names) := GroupsOf(declared)[i];
    GroupsPartition(declared);
    forall k ensures k in GroupKeys(p, names) <==> k in declared && k.0 == p {
      if k.0 == p {
        assert multiset(names)[k.1] == multiset(declared)[(p, k.1)];
        assert k == (p, k.1);
        assert k.1 in names <==> k.1 in multiset(names);
        assert k in declared <==> k in multiset(declared);
      }
    }
  }

  /** What is kept of a complete answer are the declarations it newly resolves. */
  lemma AnswerFits(plan: Plan, s: State, provider: string, names: seq<string>, listed: seq<BwsSecret>)
    requires Select(names, listed).Ok? && s.asking == Some(provider)
    requires Held(s, Listing) == multiset(ListedKeys(provider, listed))
    requires GroupKeys(provider, names) !! s.resolved
    requires forall k | k in GroupKeys(provider, names) :: k in plan.direct + plan.proxied
    ensures MayResolve(plan, s, provider, GroupKeys(provider, names))
    ensures multiset(s.resolved) + multiset(GroupKeys(provider, names))
        == multiset(s.resolved + GroupKeys(provider, names))
  {
    AnswerListsRequested(provider, names, listed);
    hide Select, Held, ListedKeys;
    var keys, listing := GroupKeys(provider, names), ListedKeys(provider, listed);
    forall k | k in keys ensures k in multiset(listing) {
      assert k in listing;
    }
  }

  /** Asking one provider, until its listing is parsed or some step of that fails. */
  method Ask(provider: string, project: string, answer: Answers, journal: J.Journal)
    returns (r: Result<seq<BwsSecret>, ResolveError>)
    requires journal.Valid() && Preparing(journal.Now()) && MayAsk(journal.plan, journal.Now(), provider)
    requires Held(journal.Now(), Listing) == multiset{}
    modifies journal
    ensures r == Listed(project, answer)
    ensures journal.Valid() && journal.Now() == old(journal.Now()).(held := journal.Now().held,
              asked := old(journal.Now()).asked + {provider}, asking := Some(provider))
    ensures Held(journal.Now(), Listing) == if r.Ok? then multiset(ListedKeys(provider, r.value)) else multiset{}
    ensures forall g | g != Listing :: Held(journal.Now(), g) == old(Held(journal.Now(), g))
  {
    hide Step, Protocol.Run, Put;
    journal.ProviderAsked(provider);
    r := Listed(project, answer);
    if r.Ok? {
      var keys := ListedKeys(provider, r.value);
      forall k: Key | k in multiset(keys) ensures k.0 == provider {
        assert k in keys;
      }
      journal.Gain(Listing, multiset(keys));
    }
  }

  /** Filtering and collecting a listing; an incomplete one is dropped. */
  method Take(provider: string, names: seq<string>, listed: seq<BwsSecret>, journal: J.Journal)
    returns (r: Option<Secrets>)
    requires journal.Valid() && Unstarted(journal.Now()) && journal.Now().asking == Some(provider)
    requires forall k | k in GroupKeys(provider, names) ::
        k in journal.plan.direct + journal.plan.proxied && k !in journal.Now().resolved
    requires Held(journal.Now(), Listing) == multiset(ListedKeys(provider, listed))
    requires Held(journal.Now(), ResolverMap) == multiset(journal.Now().resolved)
    modifies journal
    ensures r == match Select(names, listed) case Ok(found) => Some(found) case Err(_) => None
    ensures journal.Valid()
            && journal.Now()
                == old(journal.Now()).(held := journal.Now().held, asking := journal.Now().asking,
                                       resolved := journal.Now().resolved)
    ensures Held(journal.Now(), Listing) == multiset{}
            && Held(journal.Now(), ResolverMap) == multiset(journal.Now().resolved)
    ensures forall g | g != Listing && g != ResolverMap :: Held(journal.Now(), g) == old(Held(journal.Now(), g))
    ensures r.Some? ==> journal.Now().asking == None
                        && journal.Now().resolved == old(journal.Now().resolved) + GroupKeys(provider, names)
  {
    hide Step, Protocol.Run, Put, Held, Select;
    var found := Select(names, listed);
    if found.Err? {
      journal.Release(Listing);
      return None;
    }
    AnswerFits(journal.plan, journal.Now(), provider, names, listed);
    journal.ProviderResolved(provider, set n | n in names);
    r := Some(found.value);
  }

  /** Resolving one group. Validation guarantees the provider exists, so the lookup cannot miss. */
  method ResolveGroup(config: Config, declared: seq<Key>, provider: string, names: seq<string>,
                      answers: map<string, Answers>, journal: J.Journal)
    returns (r: Option<Secrets>)
    requires FindProvider(config.providers, provider).Some?
    requires names == NamesFor(declared, provider)
    requires forall k :: k in GroupKeys(provider, names) <==> k in declared && k.0 == provider
    requires forall k | k in declared :: k in journal.plan.direct + journal.plan.proxied
    requires exists k | k in declared :: k.0 == provider
    requires journal.Valid() && Preparing(journal.Now()) && provider !in journal.Now().asked
    requires forall k | k in journal.Now().resolved :: k.0 in journal.Now().asked
    requires HoldsOnly(journal.Now(), multiset(journal.Now().resolved), multiset{}, multiset{}, multiset{})
    modifies journal
    ensures journal.Valid() && Unstarted(journal.Now()) && journal.Now().asked == old(journal.Now().asked) + {provider}
    ensures r.Some?
       <==> Resolve(FindProvider(config.providers, provider).value.project, names, AnswerOf(answers, provider)).Ok?
    ensures r.Some? ==>
        && r
            == Some(Resolve(FindProvider(config.providers, provider).value.project, names,
                            AnswerOf(answers, provider)).value)
                        && Preparing(journal.Now())
                        && journal.Now().resolved == old(journal.Now().resolved) + GroupKeys(provider, names)
                        && HoldsOnly(journal.Now(), multiset(journal.Now().resolved), multiset{}, multiset{},
                                     multiset{})
  {
    hide Step, Protocol.Run, Put, Held, Listed, Select;
    var project := FindProvider(config.providers, provider).value.project;
    var listed := Ask(provider, project, AnswerOf(answers, provider), journal);
    if listed.Err? { return None; }
    r := Take(provider, names, listed.value, journal);
  }

  lemma GroupUnresolved(config: Config, declared: seq<Key>, answers: map<string, Answers>, k: Key)
    requires k in declared && FindProvider(config.providers, k.0).Some?
    requires Resolve(FindProvider(config.providers, k.0).value.project, NamesFor(declared, k.0),
                     AnswerOf(answers, k.0)).Err?
    ensures RawValue(config, declared, answers, k).None?
  {
  }

  lemma GroupResolved(config: Config, declared: seq<Key>, answers: map<string, Answers>, k: Key)
    requires k in declared && FindProvider(config.providers, k.0).Some?
    requires Resolve(FindProvider(config.providers, k.0).value.project, NamesFor(declared, k.0),
                     AnswerOf(answers, k.0)).Ok?
    ensures var m := Resolve(FindProvider(config.providers, k.0).value.project, NamesFor(declared, k.0),
                             AnswerOf(answers, k.0)).value;
            k.1 in m && RawValue(config, declared, answers, k) == Some(m[k.1])
  {
    ResolveKeys(FindProvider(config.providers, k.0).value.project, NamesFor(declared, k.0), AnswerOf(answers, k.0));
    NamesForCount(declared, k);
    assert k.1 in multiset(NamesFor(declared, k.0)) <==> k in multiset(declared);
    assert k in declared <==> k in multiset(declared);
    assert k.1 in NamesFor(declared, k.0) <==> k.1 in multiset(NamesFor(declared, k.0));
  }

  /** The resolver map answers every declaration resolved so far. */
  ghost predicate Answered(config: Config, declared: seq<Key>, answers: map<string, Answers>, keys: set<Key>,
                           resolved: map<string, Secrets>) {
    forall k | k in keys ::
        k.0 in resolved && k.1 in resolved[k.0] && Some(resolved[k.0][k.1]) == RawValue(config, declared, answers, k)
  }

  lemma AnswersGrow(config: Config, declared: seq<Key>, answers: map<string, Answers>, keys: set<Key>,
                    resolved: map<string, Secrets>, provider: string, found: Secrets)
    requires Answered(config, declared, answers, keys, resolved)
    requires forall k | k in keys :: k.0 != provider
    requires forall k | k in declared :: FindProvider(config.providers, k.0).Some?
    requires FindProvider(config.providers, provider).Some?
    requires Resolve(FindProvider(config.providers, provider).value.project, NamesFor(declared, provider),
                     AnswerOf(answers, provider)) == Ok(found)
    requires forall k :: k in GroupKeys(provider, NamesFor(declared, provider)) <==> k in declared && k.0 == provider
    ensures Answered(config, declared, answers, keys + GroupKeys(provider, NamesFor(declared, provider)),
                     resolved[provider := found])
  {
    hide Resolve, NamesFor, FindProvider, RawValue;
    forall k | k in GroupKeys(provider, NamesFor(declared, provider))
      ensures k.1 in found && Some(found[k.1]) == RawValue(config, declared, answers, k)
    {
      GroupResolved(config, declared, answers, k);
    }
  }

  lemma AllAnswered(config: Config, declared: seq<Key>, answers: map<string, Answers>, keys: set<Key>,
                    resolved: map<string, Secrets>)
    requires Answered(config, declared, answers, keys, resolved)
    requires forall k :: k in keys <==> k in declared && k.0 in Validate.Members(Providers(declared))
    ensures keys == Validate.Members(declared)
    ensures forall k | k in declared :: RawValue(config, declared, answers, k).Some?
  {
    ProvidersDistinct(declared);
    forall k | k in declared ensures k in keys && RawValue(config, declared, answers, k).Some? {
      assert k.0 in Providers(declared);
    }
  }

  lemma Fresh(s: State)
    requires s == INITIAL.(validated := true)
    ensures Preparing(s) && HoldsOnly(s, multiset(s.resolved), multiset{}, multiset{}, multiset{})
  {
  }

  lemma GroupNamed(declared: seq<Key>, i: nat) returns (k: Key)
    requires i < |GroupsOf(declared)|
    ensures k in declared && k.0 == GroupsOf(declared)[i].0 == Providers(declared)[i]
    ensures Validate.Distinct(Providers(declared))
  {
    ProvidersDistinct(declared);
    assert Providers(declared)[i] in Providers(declared);
    k :| k in declared && k.0 == Providers(declared)[i];
  }

  /** The resolution loop: one request per group; the first failure drops what was resolved. */
  method ResolveAll(config: Config, declared: seq<Key>, answers: map<string, Answers>, journal: J.Journal)
    returns (r: Option<map<string, Secrets>>)
    requires forall k | k in declared :: FindProvider(config.providers, k.0).Some?
    requires forall k :: k in declared <==> k in journal.plan.direct + journal.plan.proxied
    requires journal.Valid() && journal.Now() == INITIAL.(validated := true)
    modifies journal
    ensures journal.Valid() && Unstarted(journal.Now())
    ensures r.Some? <==> forall k | k in declared :: RawValue(config, declared, answers, k).Some?
    ensures r.Some? ==> && Preparing(journal.Now()) && AllResolved(journal.plan, journal.Now())
                        && HoldsOnly(journal.Now(), multiset(journal.Now().resolved), multiset{}, multiset{},
                                     multiset{})
                        && Answered(config, declared, answers, Validate.Members(declared), r.value)
  {
    hide Step, Protocol.Run, Put, Held, Resolve, NamesFor, FindProvider, RawValue, Providers, HoldsOnly;
    ghost var providers := Providers(declared);
    var groups := GroupByProvider(declared);
    var resolved: map<string, Secrets> := map[];
    Fresh(journal.Now());
    for i := 0 to |groups|
      invariant journal.Valid() && Preparing(journal.Now())
      invariant journal.Now().asked == Validate.Members(providers[..i])
      invariant forall k :: k in journal.Now().resolved <==> k in declared && k.0 in journal.Now().asked
      invariant HoldsOnly(journal.Now(), multiset(journal.Now().resolved), multiset{}, multiset{}, multiset{})
      invariant Answered(config, declared, answers, journal.Now().resolved, resolved)
    {
      var (provider, names) := groups[i];
      ghost var k := GroupNamed(declared, i);
      GroupDeclared(declared, i);
      Validate.InsertNext(providers, i);
      var found := ResolveGroup(config, declared, provider, names, answers, journal);
      if found.None? {
        GroupUnresolved(config, declared, answers, k);
        return None;
      }
      AnswersGrow(config, declared, answers, journal.Now().resolved - GroupKeys(provider, names), resolved, provider,
                  found.value);
      resolved := resolved[provider := found.value];
    }
    AllAnswered(config, declared, answers, journal.Now().resolved, resolved);
    r := Some(resolved);
  }

  // ----- Running -----

  /** What `execute` has in hand once every declaration is resolved. */
  ghost predicate Holding(config: Config, policy: CommandPolicy, answers: map<string, Answers>,
                          resolved: map<string, Secrets>) {
    && Resolvable(config, policy, answers)
    && Answered(config, DeclaredKeys(policy), answers, Validate.Members(DeclaredKeys(policy)), resolved)
  }

  /** Ready to go on: all declarations resolved, and nothing but the resolver map and the direct environment held. */
  ghost predicate Gathered(journal: J.Journal, policy: CommandPolicy)
    reads journal
  {
    && journal.Valid() && journal.plan == PlanOf(policy) && Preparing(journal.Now())
        && AllResolved(journal.plan, journal.Now())
    && HoldsOnly(journal.Now(), multiset(journal.Now().resolved), journal.plan.direct, multiset{}, multiset{})
  }

  ghost predicate EndsWith(journal: J.Journal, e: Event)
    reads journal
  {
    journal.Valid() && journal.log != [] && journal.log[|journal.log| - 1] == e
  }

  /** Leaving `execute` drops every local that still owns a raw value. */
  method Leave(journal: J.Journal)
    requires journal.Valid() && !journal.Now().over && journal.Now().target != Running
    requires journal.Now().sidecar == NoSidecar || journal.Now().sidecar.Removed?
    modifies journal
    ensures EndsWith(journal, Returned) && journal.Now().target == old(journal.Now().target)
    ensures forall e | e in old(journal.log) :: e in journal.log
  {
    hide Step, Protocol.Run, Put, Held;
    var holders := [CommandTable, TransferLine, RouteList, Provisioned, Environment, ResolverMap, Listing];
    for i := 0 to |holders|
      invariant journal.Valid() && journal.Now() == old(journal.Now()).(held := journal.Now().held)
      invariant forall j | 0 <= j < i :: Empty(journal.Now(), holders[j])
      invariant forall e | e in old(journal.log) :: e in journal.log
    {
      journal.Release(holders[i]);
    }
    assert OwnsNothing(journal.Now()) by {
      assert holders[0] == CommandTable && holders[1] == TransferLine && holders[2] == RouteList;
      assert holders[3] == Provisioned && holders[4] == Environment && holders[5] == ResolverMap;
      assert holders[6] == Listing;
    }
    journal.Returned();
  }

  predicate Present(resolved: map<string, Secrets>, k: Key) { k.0 in resolved && k.1 in resolved[k.0] }

  /** `resolved_value`: after resolution its lookup cannot miss. */
  function ResolvedValue(resolved: map<string, Secrets>, k: Key): string
    requires Present(resolved, k)
  {
    resolved[k.0][k.1]
  }

  lemma LookUp(config: Config, policy: CommandPolicy, answers: map<string, Answers>, resolved: map<string, Secrets>)
    requires Holding(config, policy, answers, resolved)
    ensures forall i | 0 <= i < |policy.secrets| ::
              var k := SecretKey(policy.secrets[i]);
              k in DeclaredKeys(policy) && Present(resolved, k)
                  && ResolvedValue(resolved, k) == ValueOf(config, policy, answers, k)
    ensures forall i | 0 <= i < |policy.proxySecrets| ::
              var k := ProxyKey(policy.proxySecrets[i]);
              k in DeclaredKeys(policy) && Present(resolved, k)
                  && ResolvedValue(resolved, k) == ValueOf(config, policy, answers, k)
  {
    KeyDeclared(policy);
    hide RawValue;
    forall k | k in DeclaredKeys(policy)
      ensures Present(resolved, k) && ResolvedValue(resolved, k) == ValueOf(config, policy, answers, k) {
      assert k in Validate.Members(DeclaredKeys(policy));
    }
  }

  lemma EnvironmentIs(config: Config, policy: CommandPolicy, answers: map<string, Answers>,
                      resolved: map<string, Secrets>, environment: seq<Run.Entry>)
    requires Holding(config, policy, answers, resolved) && |environment| == |policy.secrets|
    requires forall i | 0 <= i < |policy.secrets| :: Present(resolved, SecretKey(policy.secrets[i]))
    requires forall i | 0 <= i < |policy.secrets| ::
               environment[i] == (policy.secrets[i].envName, ResolvedValue(resolved, SecretKey(policy.secrets[i])))
    ensures environment == DirectEntries(config, policy, answers)
  {
    LookUp(config, policy, answers, resolved);
    hide ValueOf, Holding, ResolvedValue, Present, DeclaredKeys, SecretKeys;
    var expected := DirectEntries(config, policy, answers);
    forall i | 0 <= i < |environment| ensures environment[i] == expected[i] {
      assert environment[i].0 == expected[i].0;
      assert environment[i].1 == expected[i].1;
    }
  }

  lemma SameHoldings(s: State, t: State, resolver: multiset<Key>, environment: multiset<Key>,
                     provisioned: multiset<Key>, line: multiset<Key>)
    requires HoldsOnly(s, resolver, environment, provisioned, line) && t.held == s.held
    ensures HoldsOnly(t, resolver, environment, provisioned, line)
  {
    assert forall h :: Held(t, h) == Held(s, h);
  }

  /** Cloning out of the resolver map stays within what the plan declares. */
  lemma CloneFits(plan: Plan, s: State)
    requires HoldsOnly(s, multiset(s.resolved), multiset{}, multiset{}, multiset{}) && AllResolved(plan, s)
             && !s.handedOver && s.asking == None
    ensures MayGain(plan, s, Environment, plan.direct)
  {
  }

  lemma ProvisionFits(plan: Plan, s: State, keys: seq<Key>, i: nat)
    requires i < |keys| && plan.proxied == multiset(keys) && AllResolved(plan, s) && !s.handedOver && s.asking == None
    requires HoldsOnly(s, multiset(s.resolved), plan.direct, multiset(keys[..i]), multiset{})
    ensures MayGain(plan, s, Provisioned, multiset{keys[i]})
    ensures multiset(keys[..i]) + multiset{keys[i]} == multiset(keys[..i + 1])
  {
    assert keys[..i + 1] == keys[..i] + [keys[i]];
    assert keys == keys[..i + 1] + keys[i + 1..];
    assert keys[i] in multiset(keys);
  }

  /** The direct environment: one clone per declaration. */
  method CollectEnvironment(policy: CommandPolicy, resolved: map<string, Secrets>, journal: J.Journal)
    returns (environment: seq<Run.Entry>)
    requires forall i | 0 <= i < |policy.secrets| :: Present(resolved, SecretKey(policy.secrets[i]))
    requires journal.Valid() && journal.plan == PlanOf(policy) && Preparing(journal.Now())
             && AllResolved(journal.plan, journal.Now())
    requires HoldsOnly(journal.Now(), multiset(journal.Now().resolved), multiset{}, multiset{}, multiset{})
    modifies journal
    ensures |environment| == |policy.secrets|
    ensures forall i | 0 <= i < |environment| ::
              environment[i] == (policy.secrets[i].envName, ResolvedValue(resolved, SecretKey(policy.secrets[i])))
    ensures Gathered(journal, policy)
  {
    hide Step, Protocol.Run, Put, Held, MayGain, SecretKey, Present;
    environment := [];
    for i := 0 to |policy.secrets|
      invariant |environment| == i
      invariant forall j | 0 <= j < i ::
                  environment[j] == (policy.secrets[j].envName, ResolvedValue(resolved, SecretKey(policy.secrets[j])))
    {
      var k := SecretKey(policy.secrets[i]);
      environment := environment + [(policy.secrets[i].envName, ResolvedValue(resolved, k))];
    }
    CloneFits(journal.plan, journal.Now());
    journal.Gain(Environment, PlanOf(policy).direct);
  }

  /** One spec bound to its raw value under a phantom minted for it. */
  function Bound(spec: ProxySecretSpec, resolved: map<string, Secrets>,
                 entropy: Entropy): Transfer.ProvisionedProxySecret
    requires Present(resolved, ProxyKey(spec))
  {
    Transfer.Provision(spec, ResolvedValue(resolved, ProxyKey(spec)), Phantom.Minted(entropy))
  }

  /** `provision`: nothing is taken when no phantom can be minted. */
  method ProvisionOne(spec: ProxySecretSpec, rawValue: string, draw: Option<Entropy>)
    returns (r: Option<Transfer.ProvisionedProxySecret>)
    ensures r.Some? <==> draw.Some?
    ensures r.Some? ==> r.value == Transfer.Provision(spec, rawValue, Phantom.Minted(draw.value))
  {
    if draw.None? { return None; }
    var phantom := Phantom.Generate(draw.value);
    r := Some(Transfer.Provision(spec, rawValue, phantom));
  }

  /** The first secrets of the policy, each bound to its own raw value and its own phantom. */
  ghost predicate BoundSoFar(policy: CommandPolicy, draws: map<nat, Entropy>, resolved: map<string, Secrets>,
                             provisioned: seq<Transfer.ProvisionedProxySecret>) {
    && |provisioned| <= |policy.proxySecrets|
    && forall i | 0 <= i < |provisioned| ::
         && i in draws && Present(resolved, ProxyKey(policy.proxySecrets[i]))
         && provisioned[i] == Bound(policy.proxySecrets[i], resolved, draws[i])
  }

  lemma BindNext(policy: CommandPolicy, draws: map<nat, Entropy>, resolved: map<string, Secrets>,
                 provisioned: seq<Transfer.ProvisionedProxySecret>)
    requires BoundSoFar(policy, draws, resolved, provisioned) && |provisioned| < |policy.proxySecrets|
    requires |provisioned| in draws && Present(resolved, ProxyKey(policy.proxySecrets[|provisioned|]))
    ensures BoundSoFar(policy, draws, resolved,
                       provisioned + [Bound(policy.proxySecrets[|provisioned|], resolved, draws[|provisioned|])])
  {
    hide Bound, Present;
  }

  lemma ProvisionedIs(config: Config, policy: CommandPolicy, w: World, resolved: map<string, Secrets>,
                      provisioned: seq<Transfer.ProvisionedProxySecret>)
    requires Holding(config, policy, w.answers, resolved) && AllDrawn(policy, w.draws)
    requires |provisioned| == |policy.proxySecrets| && BoundSoFar(policy, w.draws, resolved, provisioned)
    ensures provisioned == ProvisionedOf(config, policy, w)
  {
    LookUp(config, policy, w.answers, resolved);
    hide ValueOf, Holding, Present, DeclaredKeys, Transfer.Provision, Phantom.Minted;
    var expected := ProvisionedOf(config, policy, w);
    forall i | 0 <= i < |provisioned| ensures provisioned[i] == expected[i] {
    }
  }

  lemma AllBound(policy: CommandPolicy, draws: map<nat, Entropy>, resolved: map<string, Secrets>,
                 provisioned: seq<Transfer.ProvisionedProxySecret>)
    requires BoundSoFar(policy, draws, resolved, provisioned) && |provisioned| == |policy.proxySecrets|
    ensures AllDrawn(policy, draws)
  {
    hide Bound, Present;
    forall i: nat | i < |policy.proxySecrets| ensures i in draws {
      assert provisioned[i] == Bound(policy.proxySecrets[i], resolved, draws[i]);
    }
  }

  lemma Undrawn(policy: CommandPolicy, draws: map<nat, Entropy>, i: nat)
    requires i < |policy.proxySecrets| && i !in draws
    ensures !AllDrawn(policy, draws)
  {
  }

  /** The copy of the i-th proxy-backed value that its provisioned secret takes. */
  method TakeCopy(keys: seq<Key>, i: nat, journal: J.Journal)
    requires i < |keys| && journal.plan.proxied == multiset(keys)
    requires journal.Valid() && Preparing(journal.Now()) && AllResolved(journal.plan, journal.Now())
    requires HoldsOnly(journal.Now(), multiset(journal.Now().resolved), journal.plan.direct, multiset(keys[..i]),
                       multiset{})
    modifies journal
    ensures journal.Valid() && journal.Now() == old(journal.Now()).(held := journal.Now().held)
    ensures HoldsOnly(journal.Now(), multiset(journal.Now().resolved), journal.plan.direct, multiset(keys[..i + 1]),
                      multiset{})
  {
    hide Step, Protocol.Run, Put, Held, MayGain;
    ProvisionFits(journal.plan, journal.Now(), keys, i);
    journal.Gain(Provisioned, multiset{keys[i]});
  }

  method ProvisionAll(policy: CommandPolicy, draws: map<nat, Entropy>, resolved: map<string, Secrets>,
                      journal: J.Journal)
    returns (r: Option<seq<Transfer.ProvisionedProxySecret>>)
    requires forall i | 0 <= i < |policy.proxySecrets| :: Present(resolved, ProxyKey(policy.proxySecrets[i]))
    requires Gathered(journal, policy)
    modifies journal
    ensures journal.Valid() && journal.Now() == old(journal.Now()).(held := journal.Now().held)
    ensures r.Some? <==> AllDrawn(policy, draws)
    ensures r.Some? ==> |r.value| == |policy.proxySecrets| && BoundSoFar(policy, draws, resolved, r.value)
    ensures r.Some? ==>
        HoldsOnly(journal.Now(), multiset(journal.Now().resolved), journal.plan.direct, journal.plan.proxied,
                  multiset{})
  {
    var keys := ProxyKeys(policy.proxySecrets);
    var provisioned: seq<Transfer.ProvisionedProxySecret> := [];
    assert BoundSoFar(policy, draws, resolved, provisioned);
    assert keys[..0] == []
           && HoldsOnly(journal.Now(), multiset(journal.Now().resolved), journal.plan.direct, multiset(keys[..0]),
                        multiset{});
    hide Step, Protocol.Run, Put, Held, MayGain, ProxyKey, Transfer.Provision, Phantom.Minted, Present, ResolvedValue,
        BoundSoFar;
    hide AllDrawn, HoldsOnly, ProxyKeys, Bound;
    for i := 0 to |policy.proxySecrets|
      invariant journal.Valid() && journal.Now() == old(journal.Now()).(held := journal.Now().held)
      invariant HoldsOnly(journal.Now(), multiset(journal.Now().resolved), journal.plan.direct, multiset(keys[..i]),
                          multiset{})
      invariant |provisioned| == i && BoundSoFar(policy, draws, resolved, provisioned)
    {
      var spec := policy.proxySecrets[i];
      var secret := ProvisionOne(spec, ResolvedValue(resolved, ProxyKey(spec)), if i in draws then Some(draws[i])
        else None);
      if secret.None? {
        Undrawn(policy, draws, i);
        return None;
      }
      BindNext(policy, draws, resolved, provisioned);
      TakeCopy(keys, i, journal);
      provisioned := provisioned + [secret.value];
    }
    AllBound(policy, draws, resolved, provisioned);
    assert keys[..|keys|] == keys;
    r := Some(provisioned);
  }

  /** The outcome of a request whose context and policy were found. */
  ghost predicate YieldsSelected(config: Config, context: DockerContext, policy: CommandPolicy, args: seq<string>,
                                 w: World, r: Outcome) {
    if !Resolvable(config, policy, w.answers) then r == Failed(Failure.Resolution)
    else if policy.proxySecrets == [] then
      if w.execs then r.Replaced? && DirectLaunch(config, context, policy, args, w, r.launch)
        else r == Failed(Execution)
    else if !AllDrawn(policy, w.draws) then r == Failed(Failure.Provision)
    else YieldsProvisioned(config, context, policy, args, w, ProvisionedOf(config, policy, w), r)
  }

  ghost predicate YieldsProvisioned(config: Config, context: DockerContext, policy: CommandPolicy, args: seq<string>,
                                    w: World, provisioned: seq<Transfer.ProvisionedProxySecret>, r: Outcome) {
    if !w.image then r == Failed(ProxyImage)
    else if Sidecar.Started(w.sidecar, Transfer.PrintDocument(Transfer.Routes(provisioned))).Err? then
      r == Failed(SidecarStart)
    else if !Supervise.Ran(w.supervision) then r == Failed(Execution)
    else
      && (r.Exited? || r.Unwaited?) && SupervisedLaunch(config, context, policy, args, w, r.launch)
      && (r.Exited? <==> Supervise.WaitedFor(w.supervision))
      && (r.Exited? ==> r.code == Run.ExitCodeOf(w.status))
  }

  /** The one outcome each world allows: every failure is reported for its own cause and no other,
      a cause further down never hides an earlier one, and success is a launch with the right contents. */
  ghost predicate Yields(w: World, request: Request, r: Outcome) {
    if w.loaded.None? || !Validate.WellFormed(w.loaded.value) then r == Failed(Configuration)
    else if FindContext(w.loaded.value.contexts, request.context).None? then r == Failed(UnknownContext)
    else if FindPolicy(w.loaded.value.policies, request.command).None? then r == Failed(UnknownCommand)
    else YieldsSelected(w.loaded.value, FindContext(w.loaded.value.contexts, request.context).value,
                        FindPolicy(w.loaded.value.policies, request.command).value, request.args, w, r)
  }

  /** No world has two outcomes. */
  lemma OneOutcome(w: World, request: Request, r: Outcome, r': Outcome)
    requires Yields(w, request, r) && Yields(w, request, r')
    ensures r == r'
  {
    hide Validate.WellFormed, Resolvable, AllDrawn, ProvisionedOf, DirectEntries, Sidecar.Started, Run.Argv,
        Run.Overlay, Run.ExitCodeOf, Transfer.PrintDocument, Transfer.TargetEntries, Encode, Supervise.Ran,
        Supervise.WaitedFor, FindContext, FindPolicy;
  }

  /** Which target states an outcome can leave. */
  ghost predicate TargetFits(r: Outcome, t: Target) {
    match r
    case Replaced(_) => t == Target.Replaced
    case Exited(_, _) => t == Ended
    case Unwaited(_) => t == Ended
    case Failed(_) => t == NotStarted
  }

  /** How the log of an invocation ends, and that it holds the supervision of a target that ran. */
  ghost predicate Closed(w: World, r: Outcome, journal: J.Journal)
    reads journal
  {
    && EndsWith(journal, if r.Replaced? then TargetReplaces else Returned)
    && TargetFits(r, journal.Now().target)
    && (r.Exited? || r.Unwaited? ==> TargetEnded(w.supervision) in journal.log)
  }

  /** `exec_runtime`: the command and its environment; it comes back only if the process was not replaced. */
  method ExecRuntime(context: DockerContext, policy: CommandPolicy, args: seq<string>, environment: seq<Run.Entry>,
                     execs: bool, journal: J.Journal)
    returns (launch: Option<Launch>)
    requires Gathered(journal, policy) && journal.plan.proxied == multiset{}
    modifies journal
    ensures launch.Some? <==> execs
    ensures execs ==> launch.value == Launch(Run.Argv(context, policy, args), Run.Overlay(map[], environment), [], 0)
    ensures execs ==> EndsWith(journal, TargetReplaces) && journal.Now().target == Target.Replaced
    ensures !execs ==> journal.Valid() && Preparing(journal.Now())
  {
    hide Step, Protocol.Run, Put, Held, Run.Argv, Run.Overlay;
    var argv := Run.BuildArgv(context, policy, args);
    var command := new Run.Command(argv);
    Run.ApplyEnvironment(command, environment);
    journal.Move(Environment, CommandTable);
    if !execs { return None; }
    journal.TargetReplaces();
    launch := Some(Launch(argv, command.environment, [], 0));
  }

  lemma NothingProxied(policy: CommandPolicy)
    requires policy.proxySecrets == []
    ensures PlanOf(policy).proxied == multiset{}
  {
  }

  method RunDirect(config: Config, context: DockerContext, policy: CommandPolicy, args: seq<string>, w: World,
                   environment: seq<Run.Entry>, journal: J.Journal) returns (r: Outcome)
    requires Resolvable(config, policy, w.answers) && policy.proxySecrets == []
    requires environment == DirectEntries(config, policy, w.answers) && Gathered(journal, policy)
    modifies journal
    ensures YieldsSelected(config, context, policy, args, w, r) && Closed(w, r, journal)
  {
    NothingProxied(policy);
    hide Step, Protocol.Run, Put, Held, Run.Argv, Run.Overlay, DirectEntries, Resolvable, PlanOf, SupervisedLaunch,
        YieldsProvisioned;
    var launch := ExecRuntime(context, policy, args, environment, w.execs, journal);
    if launch.Some? { return Outcome.Replaced(launch.value); }
    Leave(journal);
    r := Failed(Execution);
  }

  /** From the provisioned secrets to the transfer line, which is then the only proxy-backed copy. */
  method Serialize(provisioned: seq<Transfer.ProvisionedProxySecret>, journal: J.Journal)
    returns (line: string, plans: seq<Transfer.ProxySecretPlan>)
    requires journal.Valid() && Preparing(journal.Now())
    requires HoldsOnly(journal.Now(), multiset{}, journal.plan.direct, journal.plan.proxied, multiset{})
    modifies journal
    ensures line == Transfer.PrintDocument(Transfer.Routes(provisioned)) && plans == Transfer.Plans(provisioned)
    ensures journal.Valid() && journal.Now() == old(journal.Now()).(held := journal.Now().held)
    ensures HoldsOnly(journal.Now(), multiset{}, journal.plan.direct, multiset{}, journal.plan.proxied)
  {
    hide Step, Protocol.Run, Put, Held;
    journal.Move(Provisioned, RouteList);
    journal.Gain(TransferLine, journal.plan.proxied);
    line, plans := Transfer.IntoTransfer(provisioned);
    journal.Release(RouteList);
  }

  function ExitCode(w: World): (code: Option<nat>)
    ensures code.Some? ==> Supervise.Ran(w.supervision)
  {
    Supervise.OnlyARunIsWaitedFor(w.supervision);
    if Supervise.WaitedFor(w.supervision) then Some(Run.ExitCodeOf(w.status)) else None
  }

  function SupervisedOutcome(w: World, launch: Launch, code: Option<nat>): Outcome {
    if code.Some? then Exited(launch, code.value)
    else if Supervise.Ran(w.supervision) then Unwaited(launch)
    else Failed(Execution)
  }

  /** `supervise_runtime`: the command, its environment, and the exit code if the runtime ran and could be
      waited for. What is recorded of a runtime that ran is the whole `supervise` call. */
  method SuperviseRuntime(context: DockerContext, policy: CommandPolicy, args: seq<string>, environment: seq<Run.Entry>,
                          proxyEnvironment: seq<Run.Entry>, w: World, journal: J.Journal)
    returns (argv: seq<string>, child: map<string, string>, code: Option<nat>)
    requires journal.Valid() && !journal.Now().over && journal.Now().validated && journal.Now().target == NotStarted
    requires AllResolved(journal.plan, journal.Now()) && journal.Now().sidecar.Ready? && journal.Now().handedOver
    requires Empty(journal.Now(), CommandTable)
    modifies journal
    ensures argv == Run.Argv(context, policy, args)
    ensures child == Run.Overlay(Run.Overlay(map[], environment), proxyEnvironment)
    ensures code == ExitCode(w)
    ensures journal.Valid() && !journal.Now().over && journal.Now().sidecar == old(journal.Now().sidecar)
    ensures journal.Now().target == if Supervise.Ran(w.supervision) then Ended else NotStarted
    ensures Supervise.Ran(w.supervision) ==> TargetEnded(w.supervision) in journal.log
  {
    hide Step, Protocol.Run, Put, Held, Run.Argv, Run.Overlay, Run.ExitCodeOf, Supervise.Ran, Supervise.WaitedFor;
    argv := Run.BuildArgv(context, policy, args);
    var command := new Run.Command(argv);
    Run.ApplyEnvironment(command, environment);
    Run.ApplyEnvironment(command, proxyEnvironment);
    child := command.environment;
    journal.Move(Environment, CommandTable);
    code := None;
    if Supervise.Ran(w.supervision) {
      journal.TargetRan(w.supervision);
      if Supervise.WaitedFor(w.supervision) { code := Some(Run.ExitCodeOf(w.status)); }
    }
  }

  lemma SupervisedYields(config: Config, context: DockerContext, policy: CommandPolicy, args: seq<string>, w: World,
                         launch: Launch)
    requires policy.proxySecrets != [] && Resolvable(config, policy, w.answers) && AllDrawn(policy, w.draws) && w.image
    requires SupervisedLaunch(config, context, policy, args, w, launch)
    ensures YieldsSelected(config, context, policy, args, w, SupervisedOutcome(w, launch, ExitCode(w)))
  {
    hide Transfer.PrintDocument, Sidecar.Started, Run.Argv, ProvisionedOf, Transfer.Routes, Run.Overlay, Run.ExitCodeOf;
    hide Supervise.Ran, Supervise.WaitedFor;
  }

  /** The transfer line goes and the target runs. */
  method RunTarget(context: DockerContext, policy: CommandPolicy, args: seq<string>, environment: seq<Run.Entry>,
                   plans: seq<Transfer.ProxySecretPlan>, port: nat, w: World, journal: J.Journal)
    returns (argv: seq<string>, child: map<string, string>, code: Option<nat>)
    requires journal.Valid() && !journal.Now().over && journal.Now().validated && journal.Now().target == NotStarted
    requires AllResolved(journal.plan, journal.Now()) && journal.Now().sidecar.Ready?
    requires HoldsOnly(journal.Now(), multiset{}, journal.plan.direct, multiset{}, journal.plan.proxied)
    modifies journal
    ensures argv == Run.Argv(context, policy, args)
    ensures child == Run.Overlay(Run.Overlay(map[], environment), Transfer.TargetEntries(plans, port))
    ensures code == ExitCode(w)
    ensures journal.Valid() && !journal.Now().over && journal.Now().sidecar == old(journal.Now().sidecar)
    ensures journal.Now().target == if Supervise.Ran(w.supervision) then Ended else NotStarted
    ensures Supervise.Ran(w.supervision) ==> TargetEnded(w.supervision) in journal.log
  {
    hide Step, Protocol.Run, Put, Held, Run.Argv, Run.Overlay, Supervise.Ran, Supervise.WaitedFor, ExitCode;
    hide Transfer.TargetEntries;
    journal.HandOver();
    var proxyEnvironment := Transfer.TargetEnvironment(plans, port);
    argv, child, code := SuperviseRuntime(context, policy, args, environment, proxyEnvironment, w, journal);
  }

  /** The sidecar is up and ready; the target runs, the sidecar goes. */
  method RunSupervised(config: Config, context: DockerContext, policy: CommandPolicy, args: seq<string>, w: World,
                       environment: seq<Run.Entry>, plans: seq<Transfer.ProxySecretPlan>, sidecar: Sidecar.Sidecar,
                       journal: J.Journal)
    returns (r: Outcome)
    requires policy.proxySecrets != [] && Resolvable(config, policy, w.answers) && AllDrawn(policy, w.draws)
    requires environment == DirectEntries(config, policy, w.answers)
    requires w.image && plans == Transfer.Plans(ProvisionedOf(config, policy, w))
    requires var line := Transfer.PrintDocument(Transfer.Routes(ProvisionedOf(config, policy, w)));
             Sidecar.Started(w.sidecar, line) == Ok(sidecar.port) && sidecar.stdin == Encode(line) + [0x0A]
    requires journal.Valid() && !journal.Now().over && journal.Now().validated && journal.Now().target == NotStarted
    requires AllResolved(journal.plan, journal.Now()) && journal.Now().sidecar == Ready(sidecar.containerName)
    requires HoldsOnly(journal.Now(), multiset{}, journal.plan.direct, multiset{}, journal.plan.proxied)
    modifies journal
    ensures YieldsSelected(config, context, policy, args, w, r) && Closed(w, r, journal)
  {
    hide Step, Protocol.Run, Put, Held, Transfer.PrintDocument, Sidecar.Started, Run.Argv, Run.Overlay, Run.ExitCodeOf;
    hide YieldsSelected, ProvisionedOf, DirectEntries, Transfer.Routes, Transfer.Plans, Transfer.TargetEntries;
    hide Resolvable, AllDrawn, Encode, HoldsOnly, Supervise.Ran, Supervise.WaitedFor, ExitCode;
    var argv, child, code := RunTarget(context, policy, args, environment, plans, sidecar.port, w, journal);
    sidecar.Teardown(journal);
    Leave(journal);
    var launch := Launch(argv, child, sidecar.stdin, sidecar.port);
    SupervisedYields(config, context, policy, args, w, launch);
    r := SupervisedOutcome(w, launch, code);
  }

  /** With the image prepared: serialize, start the sidecar, run the target. */
  method StartAndRun(config: Config, context: DockerContext, policy: CommandPolicy, args: seq<string>, w: World,
                     environment: seq<Run.Entry>, provisioned: seq<Transfer.ProvisionedProxySecret>, journal: J.Journal)
    returns (r: Outcome)
    requires policy.proxySecrets != [] && Resolvable(config, policy, w.answers) && AllDrawn(policy, w.draws) && w.image
    requires environment == DirectEntries(config, policy, w.answers) && provisioned == ProvisionedOf(config, policy, w)
    requires journal.Valid() && Preparing(journal.Now()) && AllResolved(journal.plan, journal.Now())
    requires HoldsOnly(journal.Now(), multiset{}, journal.plan.direct, journal.plan.proxied, multiset{})
    modifies journal
    ensures YieldsSelected(config, context, policy, args, w, r) && Closed(w, r, journal)
  {
    hide Step, Protocol.Run, Put, Held, HoldsOnly, Transfer.PrintDocument, Sidecar.Started, Run.Argv;
    hide ProvisionedOf, Transfer.Routes, Transfer.Plans, SupervisedLaunch;
    ghost var before := journal.Now();
    journal.ImagePrepared();
    SameHoldings(before, journal.Now(), multiset{}, journal.plan.direct, journal.plan.proxied, multiset{});
    var line, plans := Serialize(provisioned, journal);
    ghost var ready := journal.Now();
    var sidecar := Sidecar.StartSidecar(w.sidecar, line, journal);
    if sidecar.Err? {
      Leave(journal);
      return Failed(SidecarStart);
    }
    SameHoldings(ready, journal.Now(), multiset{}, journal.plan.direct, multiset{}, journal.plan.proxied);
    r := RunSupervised(config, context, policy, args, w, environment, plans, sidecar.value, journal);
  }

  /** `drop(resolved)` */
  method DropResolved(journal: J.Journal)
    requires journal.Valid() && Preparing(journal.Now())
    requires HoldsOnly(journal.Now(), multiset(journal.Now().resolved), journal.plan.direct, journal.plan.proxied,
                       multiset{})
    modifies journal
    ensures journal.Valid() && journal.Now() == old(journal.Now()).(held := journal.Now().held)
    ensures HoldsOnly(journal.Now(), multiset{}, journal.plan.direct, journal.plan.proxied, multiset{})
  {
    hide Step, Protocol.Run, Put, Held;
    journal.Release(ResolverMap);
  }

  lemma UnprovisionedYields(config: Config, context: DockerContext, policy: CommandPolicy, args: seq<string>, w: World)
    requires Resolvable(config, policy, w.answers) && policy.proxySecrets != []
    ensures !AllDrawn(policy, w.draws) ==> YieldsSelected(config, context, policy, args, w, Failed(Failure.Provision))
    ensures AllDrawn(policy, w.draws) && !w.image ==>
        YieldsSelected(config, context, policy, args, w, Failed(ProxyImage))
  {
  }

  /** The secrets the proxy is to serve, and the resolver map dropped after them. */
  method ProvisionPolicy(config: Config, policy: CommandPolicy, w: World, resolved: map<string, Secrets>,
                         journal: J.Journal)
    returns (r: Option<seq<Transfer.ProvisionedProxySecret>>)
    requires Holding(config, policy, w.answers, resolved) && Gathered(journal, policy)
    modifies journal
    ensures journal.Valid() && Preparing(journal.Now()) && AllResolved(journal.plan, journal.Now())
    ensures r.Some? <==> AllDrawn(policy, w.draws)
    ensures r.Some? ==> r.value == ProvisionedOf(config, policy, w)
    ensures r.Some? ==> HoldsOnly(journal.Now(), multiset{}, journal.plan.direct, journal.plan.proxied, multiset{})
  {
    LookUp(config, policy, w.answers, resolved);
    hide Step, Protocol.Run, Put, Held, Holding, Present, ResolvedValue, ProvisionedOf, DirectEntries, Bound,
        BoundSoFar, HoldsOnly, AllDrawn, Resolvable, PlanOf;
    r := ProvisionAll(policy, w.draws, resolved, journal);
    if r.Some? {
      ProvisionedIs(config, policy, w, resolved, r.value);
      DropResolved(journal);
    }
  }

  /** The proxy-backed order: provision, image, sidecar, target. */
  method RunProxied(config: Config, context: DockerContext, policy: CommandPolicy, args: seq<string>, w: World,
                    resolved: map<string, Secrets>, environment: seq<Run.Entry>, journal: J.Journal)
    returns (r: Outcome)
    requires Holding(config, policy, w.answers, resolved) && policy.proxySecrets != []
    requires environment == DirectEntries(config, policy, w.answers) && Gathered(journal, policy)
    modifies journal
    ensures YieldsSelected(config, context, policy, args, w, r) && Closed(w, r, journal)
  {
    hide YieldsSelected, Step, Protocol.Run, Put, Held, ProvisionedOf, DirectEntries, HoldsOnly, AllDrawn, Resolvable;
    hide Answered, DeclaredKeys, Gathered, AllResolved, PlanOf;
    UnprovisionedYields(config, context, policy, args, w);
    var provisioned := ProvisionPolicy(config, policy, w, resolved, journal);
    if provisioned.None? {
      Leave(journal);
      return Failed(Failure.Provision);
    }
    if !w.image {
      Leave(journal);
      return Failed(ProxyImage);
    }
    r := StartAndRun(config, context, policy, args, w, environment, provisioned.value, journal);
  }

  method RunSelected(config: Config, context: DockerContext, policy: CommandPolicy, args: seq<string>, w: World,
                     journal: J.Journal)
    returns (r: Outcome)
    requires Validate.PolicyOk(config, policy)
    requires journal.Valid() && journal.plan == PlanOf(policy) && journal.Now() == INITIAL.(validated := true)
    modifies journal
    ensures YieldsSelected(config, context, policy, args, w, r) && Closed(w, r, journal)
  {
    hide Step, Protocol.Run, Put, Held, Validate.PolicyOk, PlanOf, SecretKeys, ProxyKeys, DirectEntries;
    KeyDeclared(policy);
    DeclaredProviders(config, policy);
    var resolved := ResolveAll(config, DeclaredKeys(policy), w.answers, journal);
    if resolved.None? {
      Leave(journal);
      return Failed(Failure.Resolution);
    }
    LookUp(config, policy, w.answers, resolved.value);
    var environment := CollectEnvironment(policy, resolved.value, journal);
    EnvironmentIs(config, policy, w.answers, resolved.value, environment);
    if policy.proxySecrets == [] {
      r := RunDirect(config, context, policy, args, w, environment, journal);
    } else {
      r := RunProxied(config, context, policy, args, w, resolved.value, environment, journal);
    }
  }

  lemma DeclaredProviders(config: Config, policy: CommandPolicy)
    requires Validate.PolicyOk(config, policy)
    ensures forall k | k in DeclaredKeys(policy) :: FindProvider(config.providers, k.0).Some?
  {
    hide Validate.EnvNames, Validate.Distinct, Validate.EnvNameOk, Validate.CommandNameOk, FindProvider;
    forall i | 0 <= i < |policy.secrets| ensures FindProvider(config.providers, SecretKeys(policy.secrets)[i].0).Some? {
      assert policy.secrets[i] in policy.secrets;
    }
    forall i | 0 <= i < |policy.proxySecrets|
      ensures FindProvider(config.providers, ProxyKeys(policy.proxySecrets)[i].0).Some? {
      assert policy.proxySecrets[i] in policy.proxySecrets;
    }
    hide Validate.PolicyOk, SecretKeys, ProxyKeys;
  }

  /** `config::load` */
  method Load(w: World, journal: J.Journal) returns (r: Option<Config>)
    requires journal.Valid() && journal.Now() == INITIAL
    modifies journal
    ensures r == if w.loaded.Some? && Validate.WellFormed(w.loaded.value) then w.loaded else None
    ensures journal.Valid() && journal.Now() == INITIAL.(validated := r.Some?)
  {
    hide Step, Protocol.Run, Validate.WellFormed;
    if w.loaded.None? { return None; }
    var defect := Validate.Validate(w.loaded.value);
    if defect.Some? { return None; }
    journal.Validated();
    r := w.loaded;
  }

  /** `execute` */
  method Execute(w: World, request: Request, journal: J.Journal) returns (r: Outcome)
    requires journal.plan == PlanFor(w, request) && journal.log == []
    modifies journal
    ensures Yields(w, request, r)
    ensures Closed(w, r, journal)
  {
    hide Validate.WellFormed, YieldsSelected, Step, PlanOf;
    var config := Load(w, journal);
    if config.None? {
      Leave(journal);
      return Failed(Configuration);
    }
    var context := FindContext(config.value.contexts, request.context);
    if context.None? {
      Leave(journal);
      return Failed(UnknownContext);
    }
    var policy := FindPolicy(config.value.policies, request.command);
    if policy.None? {
      Leave(journal);
      return Failed(UnknownCommand);
    }
    PolicyOfWellFormed(config.value, policy.value);
    r := RunSelected(config.value, context.value, policy.value, request.args, w, journal);
  }

  lemma PolicyOfWellFormed(config: Config, policy: CommandPolicy)
    requires Validate.WellFormed(config) && policy in config.policies
    ensures Validate.PolicyOk(config, policy)
  {
  }
}
