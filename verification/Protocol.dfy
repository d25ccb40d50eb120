/** What a log of one invocation may contain, event by event: the order of stages in src/main.rs
    `execute`, the sidecar's lifetime (src/sidecar.rs), and who owns copies of raw values (src/secret.rs). */
module Protocol {
  import opened Wrappers
  import opened Resolution
  import Supervise

  /** The places of the supervisor that own copies of raw values. `Listing` is what one provider's answer parses to:
      every secret of its project, declared or not. */
  datatype Holder = Listing | ResolverMap | Environment | Provisioned | RouteList | TransferLine | CommandTable

  datatype Event =
    | Validated
    | ProviderAsked(provider: string)
    | ProviderResolved(provider: string, names: set<string>)
    | Gain(holder: Holder, keys: multiset<Key>)
    | Move(from: Holder, to: Holder)
    | Release(holder: Holder)
    | ImagePrepared
    | SidecarSpawned(name: string)
    | SidecarReady(port: nat)
    | SidecarRemoved(name: string)
    | TargetReplaces
    | TargetStarted
    | TargetEnded(supervision: Supervise.Supervision)
    | Returned

  datatype Sidecar = NoSidecar | Up(name: string) | Ready(name: string) | Removed(name: string)
  datatype Target = NotStarted | Running | Ended | Replaced

  /** The declarations of the selected policy: each occurrence is one delivery. */
  datatype Plan = Plan(direct: multiset<Key>, proxied: multiset<Key>)

  datatype State = State(
    validated: bool, asked: set<string>, asking: Option<string>, resolved: set<Key>, held: map<Holder, multiset<Key>>,
    image: bool, sidecar: Sidecar, handedOver: bool, target: Target, over: bool)

  const INITIAL := State(false, {}, None, {}, map[], false, NoSidecar, false, NotStarted, false)

  function Held(s: State, h: Holder): multiset<Key> { if h in s.held then s.held[h] else multiset{} }

  /** The declarations one provider answers for at once. */
  function KeysOf(provider: string, names: set<string>): set<Key> { set n | n in names :: (provider, n) }

  function Put(s: State, h: Holder, keys: multiset<Key>): State { s.(held := s.held[h := keys]) }

  predicate AllResolved(plan: Plan, s: State) {
    forall k | k in plan.direct + plan.proxied :: k in s.resolved
  }

  predicate Empty(s: State, h: Holder) { Held(s, h) == multiset{} }

  predicate OwnsNothing(s: State) {
    && Empty(s, Listing) && Empty(s, ResolverMap) && Empty(s, Environment) && Empty(s, Provisioned)
    && Empty(s, RouteList) && Empty(s, TransferLine) && Empty(s, CommandTable)
  }

  /** Where copies may come from: the answer of the provider being asked, a clone of what the resolver map holds
      for one declared delivery, or the serialization of the routes. */
  predicate MayGain(plan: Plan, s: State, h: Holder, keys: multiset<Key>) {
    && !s.handedOver
    && (s.asking.Some? <==> h == Listing)
    && match h
       case Listing => Empty(s, h) && forall k | k in keys :: Some(k.0) == s.asking
       case Environment =>
         && Held(s, h) + Held(s, CommandTable) + keys <= plan.direct
         && forall k | k in keys :: k in Held(s, ResolverMap)
       case Provisioned =>
         && Held(s, h) + Held(s, RouteList) + keys <= plan.proxied
         && forall k | k in keys :: k in Held(s, ResolverMap)
       case TransferLine => Empty(s, h) && keys == Held(s, RouteList)
       case _ => false
  }

  predicate MayMove(s: State, from: Holder, to: Holder) {
    && Empty(s, to)
    && ((from == Provisioned && to == RouteList) || (from == Environment && to == CommandTable))
  }

  /** The transfer line of a ready sidecar is the last proxy-backed copy to go. */
  predicate HandsOver(s: State, h: Holder) { h == TransferLine && s.sidecar.Ready? }

  predicate MayRelease(plan: Plan, s: State, h: Holder) {
    HandsOver(s, h) ==>
      && Empty(s, Listing) && Empty(s, ResolverMap) && Empty(s, Provisioned) && Empty(s, RouteList)
          && Empty(s, CommandTable)
      && Held(s, Environment) == plan.direct
  }

  /** Something is declared for the provider. */
  predicate Declares(plan: Plan, provider: string) {
    exists k | k in plan.direct + plan.proxied :: k.0 == provider
  }

  /** A provider is asked after validation, for something declared, once, and before anything runs. */
  predicate MayAsk(plan: Plan, s: State, p: string) {
    && s.validated && s.asking == None && p !in s.asked && s.sidecar == NoSidecar && s.target == NotStarted
    && Declares(plan, p)
  }

  /** Only the provider being asked answers, from what it listed, for what is declared and not yet resolved. */
  predicate MayResolve(plan: Plan, s: State, p: string, keys: set<Key>) {
    && s.asking == Some(p) && multiset(keys) <= Held(s, Listing) && keys !! s.resolved
    && forall k | k in keys :: k in plan.direct + plan.proxied
  }

  /** Collecting an answer: the requested values move into the resolver map, the rest of the listing is dropped. */
  function AfterAnswer(s: State, keys: set<Key>): State {
    Put(Put(s, ResolverMap, Held(s, ResolverMap) + multiset(keys)), Listing, multiset{})
      .(asking := None, resolved := s.resolved + keys)
  }

  function Step(plan: Plan, s: State, e: Event): Option<State> {
    if s.over then None
    else
      match e
      case Validated => if s.validated then None else Some(s.(validated := true))
      case ProviderAsked(p) =>
        if MayAsk(plan, s, p) then Some(s.(asked := s.asked + {p}, asking := Some(p))) else None
      case ProviderResolved(p, names) =>
        if MayResolve(plan, s, p, KeysOf(p, names)) then Some(AfterAnswer(s, KeysOf(p, names))) else None
      case Gain(h, keys) => if MayGain(plan, s, h, keys) then Some(Put(s, h, Held(s, h) + keys)) else None
      case Move(from, to) =>
        if MayMove(s, from, to) then Some(Put(Put(s, to, Held(s, from)), from, multiset{})) else None
      case Release(h) =>
        if MayRelease(plan, s, h) then Some(Put(s, h, multiset{}).(handedOver := s.handedOver || HandsOver(s, h)))
          else None
      case ImagePrepared => Some(s.(image := true))
      case SidecarSpawned(n) =>
        if s.sidecar == NoSidecar && s.asking == None && s.image && AllResolved(plan, s) && s.target == NotStarted then
          Some(s.(sidecar := Up(n))) else None
      case SidecarReady(port) => if s.sidecar.Up? then Some(s.(sidecar := Ready(s.sidecar.name))) else None
      case SidecarRemoved(n) =>
        if (s.sidecar == Up(n) || s.sidecar == Ready(n)) && s.target != Running then Some(s.(sidecar := Removed(n)))
          else None
      case TargetReplaces =>
        if AllResolved(plan, s) && plan.proxied == multiset{} && s.sidecar == NoSidecar && s.asking == None
            && s.target == NotStarted && s.validated
        then Some(s.(target := Replaced, over := true)) else None
      case TargetStarted =>
        if AllResolved(plan, s) && s.sidecar.Ready? && s.handedOver && s.target == NotStarted && s.validated
        then Some(s.(target := Running)) else None
      case TargetEnded(supervision) =>
        if s.target == Running && Supervise.Ran(supervision) then Some(s.(target := Ended)) else None
      case Returned =>
        if s.target != Running && (s.sidecar == NoSidecar || s.sidecar.Removed?) && OwnsNothing(s)
        then Some(s.(over := true)) else None
  }

  function Run(plan: Plan, log: seq<Event>): Option<State> {
    if log == [] then Some(INITIAL)
    else
      var s :- Run(plan, log[..|log| - 1]);
      Step(plan, s, log[|log| - 1])
  }

  lemma RunExtend(plan: Plan, log: seq<Event>, e: Event)
    ensures Run(plan, log + [e]) == match Run(plan, log) case None => None case Some(s) => Step(plan, s, e)
  {
    assert (log + [e])[..|log|] == log;
  }

  lemma {:induction false} PrefixRuns(plan: Plan, log: seq<Event>, n: nat)
    requires Run(plan, log).Some? && n <= |log|
    ensures Run(plan, log[..n]).Some?
  {
    if n < |log| {
      assert log[..|log| - 1][..n] == log[..n];
      PrefixRuns(plan, log[..|log| - 1], n);
    } else {
      assert log[..n] == log;
    }
  }

  /** Event i was possible in the state its predecessors led to. */
  lemma StepAt(plan: Plan, log: seq<Event>, i: nat) returns (s: State)
    requires Run(plan, log).Some? && i < |log|
    ensures Run(plan, log[..i]) == Some(s) && Step(plan, s, log[i]).Some?
  {
    PrefixRuns(plan, log, i);
    PrefixRuns(plan, log, i + 1);
    assert log[..i + 1] == log[..i] + [log[i]];
    RunExtend(plan, log[..i], log[i]);
    s := Run(plan, log[..i]).value;
  }

  /** The part of the state each event touches. */
  lemma StepEffects(plan: Plan, s: State, e: Event)
    requires Step(plan, s, e).Some?
    ensures var t := Step(plan, s, e).value;
            && !s.over && t.over == (e == Returned || e == TargetReplaces)
            && t.validated == (s.validated || e == Validated)
            && t.asked == s.asked + (if e.ProviderAsked? then {e.provider} else {})
            && t.asking
                == (if e.ProviderAsked? then Some(e.provider) else if e.ProviderResolved? then None else s.asking)
            && t.resolved == s.resolved + (if e.ProviderResolved? then KeysOf(e.provider, e.names) else {})
            && (e.ProviderAsked? ==> MayAsk(plan, s, e.provider))
            && (e.ProviderResolved? ==> MayResolve(plan, s, e.provider, KeysOf(e.provider, e.names)))
            && (s.handedOver ==> t.handedOver)
            && (t.sidecar == if e.SidecarSpawned? then Up(e.name) else if e.SidecarReady? then Ready(s.sidecar.name)
                             else if e.SidecarRemoved? then Removed(e.name) else s.sidecar)
            && (e.SidecarSpawned? ==> s.sidecar == NoSidecar)
            && (e.SidecarReady? ==> s.sidecar.Up?)
            && (e.SidecarRemoved? ==> (s.sidecar == Up(e.name) || s.sidecar == Ready(e.name)) && s.target != Running)
            && (t.target == if e == TargetStarted then Running else if e.TargetEnded? then Ended
                            else if e == TargetReplaces then Replaced else s.target)
            && (e == TargetStarted ==> s.sidecar.Ready? && s.target == NotStarted)
            && (e.TargetEnded? ==> s.target == Running && Supervise.Ran(e.supervision))
            && (e == TargetReplaces ==> s.sidecar == NoSidecar && s.target == NotStarted)
  {
    hide MayAsk, MayResolve, MayGain, MayMove, MayRelease, AllResolved, KeysOf, OwnsNothing, Held;
    hide Supervise.Ran;
  }

  // ----- What the state remembers of the log -----

  ghost predicate ResolvedIn(log: seq<Event>, k: Key) {
    exists p, names | ProviderResolved(p, names) in log :: p == k.0 && k.1 in names
  }

  ghost predicate RemembersAnswers(log: seq<Event>, s: State) { forall k | k in s.resolved :: ResolvedIn(log, k) }

  ghost predicate Remembers(log: seq<Event>, s: State) {
    && RemembersAnswers(log, s)
    && (s.validated ==> Validated in log)
    && (s.asked != {} || s.resolved != {} ==> s.validated)
    && (forall p | ProviderAsked(p) in log :: p in s.asked)
    && (s.asking.Some? ==> ProviderAsked(s.asking.value) in log && s.asking.value in s.asked)
    && (s.sidecar.Ready? ==> exists port :: SidecarReady(port) in log)
    && (s.target == NotStarted ==> TargetStarted !in log)
  }

  lemma RememberAnswer(log: seq<Event>, s: State, plan: Plan, e: Event)
    requires RemembersAnswers(log, s) && Step(plan, s, e).Some?
    ensures RemembersAnswers(log + [e], Step(plan, s, e).value)
  {
    StepEffects(plan, s, e);
    hide Step, MayAsk, MayResolve;
    var longer := log + [e];
    assert e in longer;
    forall k | ResolvedIn(log, k) ensures ResolvedIn(longer, k) {
      var p, names :| ProviderResolved(p, names) in log && p == k.0 && k.1 in names;
      assert ProviderResolved(p, names) in longer;
    }
  }

  lemma RememberOne(log: seq<Event>, s: State, plan: Plan, e: Event)
    requires Remembers(log, s) && Step(plan, s, e).Some?
    ensures Remembers(log + [e], Step(plan, s, e).value)
  {
    StepEffects(plan, s, e);
    RememberAnswer(log, s, plan, e);
    hide Step, RemembersAnswers;
    assert e in log + [e];
    if port :| SidecarReady(port) in log {
      assert SidecarReady(port) in log + [e];
    }
  }

  lemma {:induction false} StagesRemembered(plan: Plan, log: seq<Event>)
    requires Run(plan, log).Some?
    ensures Remembers(log, Run(plan, log).value)
  {
    if log != [] {
      var front, last := log[..|log| - 1], log[|log| - 1];
      assert log == front + [last];
      StagesRemembered(plan, front);
      RememberOne(front, Run(plan, front).value, plan, last);
    }
  }

  /** No provider is asked before validation, twice, or for nothing declared, whatever its answer. */
  lemma AskFollowsValidation(plan: Plan, log: seq<Event>, i: nat)
    requires Run(plan, log).Some? && i < |log| && log[i].ProviderAsked?
    ensures Validated in log[..i]
    ensures ProviderAsked(log[i].provider) !in log[..i]
    ensures Declares(plan, log[i].provider)
  {
    var s := StepAt(plan, log, i);
    StagesRemembered(plan, log[..i]);
  }

  /** Only an asked provider resolves anything, and only what is declared. */
  lemma ResolutionFollowsAsk(plan: Plan, log: seq<Event>, i: nat)
    requires Run(plan, log).Some? && i < |log| && log[i].ProviderResolved?
    ensures ProviderAsked(log[i].provider) in log[..i]
    ensures forall n | n in log[i].names :: (log[i].provider, n) in plan.direct + plan.proxied
  {
    var s := StepAt(plan, log, i);
    StagesRemembered(plan, log[..i]);
    forall n | n in log[i].names ensures (log[i].provider, n) in plan.direct + plan.proxied {
      assert (log[i].provider, n) in KeysOf(log[i].provider, log[i].names);
    }
  }

  /** No target runs, by replacement or under supervision, before every declared secret is resolved. */
  lemma TargetFollowsResolution(plan: Plan, log: seq<Event>, i: nat)
    requires Run(plan, log).Some? && i < |log| && (log[i] == TargetStarted || log[i] == TargetReplaces)
    ensures Validated in log[..i] && forall k | k in plan.direct + plan.proxied :: ResolvedIn(log[..i], k)
  {
    var s := StepAt(plan, log, i);
    StagesRemembered(plan, log[..i]);
  }

  /** No supervised target starts before the sidecar is ready, and a policy with proxy-backed
      secrets never runs its target unsupervised. */
  lemma SupervisedFollowsReadiness(plan: Plan, log: seq<Event>, i: nat)
    requires Run(plan, log).Some? && i < |log|
    ensures log[i] == TargetStarted ==> exists port :: SidecarReady(port) in log[..i]
    ensures log[i] == TargetReplaces ==> plan.proxied == multiset{}
  {
    var s := StepAt(plan, log, i);
    StagesRemembered(plan, log[..i]);
  }

  /** What each event asks of the stages before it, and leaves for those after it. */
  lemma StageEffects(plan: Plan, s: State, e: Event)
    requires Step(plan, s, e).Some?
    ensures var t := Step(plan, s, e).value;
            && t.image == (s.image || e == ImagePrepared)
            && t.handedOver == (s.handedOver || (e == Release(TransferLine) && s.sidecar.Ready?))
            && (e == Validated ==> !s.validated)
            && (e.ProviderAsked? ==> s.asking == None)
            && (e.SidecarSpawned? ==> s.image && s.asking == None && s.target == NotStarted && AllResolved(plan, s))
            && (e == TargetStarted ==> s.handedOver && AllResolved(plan, s))
            && (e == TargetReplaces ==> s.asking == None)
            && (e == Returned ==> s.target != Running && (s.sidecar == NoSidecar || s.sidecar.Removed?))
  {
    hide MayResolve, MayGain, MayMove, AllResolved, KeysOf, OwnsNothing, Held, Supervise.Ran;
  }

  ghost predicate RemembersStages(log: seq<Event>, s: State) {
    && (s.image ==> ImagePrepared in log)
    && (s.handedOver ==> Release(TransferLine) in log)
    && (s.sidecar != NoSidecar ==> exists n :: SidecarSpawned(n) in log)
    && (Validated in log ==> s.validated)
  }

  lemma StagesOne(log: seq<Event>, s: State, plan: Plan, e: Event)
    requires RemembersStages(log, s) && Step(plan, s, e).Some?
    ensures RemembersStages(log + [e], Step(plan, s, e).value)
  {
    StageEffects(plan, s, e);
    StepEffects(plan, s, e);
    hide Step, AllResolved, MayAsk, MayResolve, Supervise.Ran;
    assert e in log + [e];
    if n :| SidecarSpawned(n) in log {
      assert SidecarSpawned(n) in log + [e];
    }
  }

  lemma {:induction false} StagesKept(plan: Plan, log: seq<Event>)
    requires Run(plan, log).Some?
    ensures RemembersStages(log, Run(plan, log).value)
  {
    if log != [] {
      var front, last := log[..|log| - 1], log[|log| - 1];
      assert log == front + [last];
      StagesKept(plan, front);
      StagesOne(front, Run(plan, front).value, plan, last);
    }
  }

  /** No sidecar is spawned before its image is prepared and every declared secret is resolved, and none reports
      readiness before it is spawned. */
  lemma SpawnFollowsImage(plan: Plan, log: seq<Event>, i: nat)
    requires Run(plan, log).Some? && i < |log|
    ensures log[i].SidecarSpawned? ==>
              ImagePrepared in log[..i] && forall k | k in plan.direct + plan.proxied :: ResolvedIn(log[..i], k)
    ensures log[i].SidecarReady? ==> exists n :: SidecarSpawned(n) in log[..i]
  {
    var s := StepAt(plan, log, i);
    StageEffects(plan, s, log[i]);
    StepEffects(plan, s, log[i]);
    StagesRemembered(plan, log[..i]);
    StagesKept(plan, log[..i]);
    hide Step, Run, Supervise.Ran, MayAsk, MayResolve;
  }

  /** A supervised target starts only after the transfer line is dropped, and then no raw value is owned more often than
      it is declared for direct delivery. */
  lemma TargetFollowsHandover(plan: Plan, log: seq<Event>, i: nat, k: Key)
    requires Run(plan, log).Some? && i < |log| && log[i] == TargetStarted
    ensures Release(TransferLine) in log[..i] && Run(plan, log[..i]).Some?
    ensures Owned(Run(plan, log[..i]).value, k) <= plan.direct[k]
  {
    var s := StepAt(plan, log, i);
    StageEffects(plan, s, log[i]);
    StagesKept(plan, log[..i]);
    RunAccounts(plan, log[..i], k);
    hide Step, Run, CopiesAccounted, Owned;
    HandedOverOwns(plan, s, k);
  }

  lemma GoesOn(plan: Plan, log: seq<Event>, i: nat)
    requires Run(plan, log).Some? && i + 1 < |log|
    ensures log[i] != Returned && log[i] != TargetReplaces
  {
    hide Step, Run;
    var s := StepAt(plan, log, i);
    var t := StepAt(plan, log, i + 1);
    assert log[..i + 1] == log[..i] + [log[i]];
    RunExtend(plan, log[..i], log[i]);
    OverAfter(plan, s, log[i]);
    OverAfter(plan, t, log[i + 1]);
  }

  lemma OverAfter(plan: Plan, s: State, e: Event)
    requires Step(plan, s, e).Some?
    ensures !s.over && Step(plan, s, e).value.over == (e == Returned || e == TargetReplaces)
  {
    StepEffects(plan, s, e);
    hide Step, MayAsk, MayResolve, Supervise.Ran;
  }

  /** Validation happens once, an invocation returns only after the supervision of a target it started, and returning or
      replacing is the last thing it does. */
  lemma EndsOnce(plan: Plan, log: seq<Event>, i: nat)
    requires Run(plan, log).Some? && i < |log|
    ensures log[i] == Validated ==> Validated !in log[..i]
    ensures log[i] == Returned && TargetStarted in log[..i] ==> SupervisedIn(log[..i])
    ensures log[i] == Returned || log[i] == TargetReplaces ==> i == |log| - 1
  {
    var s := StepAt(plan, log, i);
    hide Step, Run, Supervise.Ran, MayAsk, MayResolve, SupervisedIn, AllResolved;
    StageEffects(plan, s, log[i]);
    StagesKept(plan, log[..i]);
    TargetRemembered(plan, log[..i]);
    if i + 1 < |log| { GoesOn(plan, log, i); }
  }

  /** While a provider is being asked, it has not answered and nothing has been started. */
  ghost predicate AskingMeans(log: seq<Event>, s: State) {
    && (s.asking.Some? ==> forall names :: ProviderResolved(s.asking.value, names) !in log)
    && (s.asking.Some? ==> TargetStarted !in log && TargetReplaces !in log && forall n :: SidecarSpawned(n) !in log)
    && (s.sidecar == NoSidecar ==> forall n :: SidecarSpawned(n) !in log)
    && (s.target == NotStarted ==> TargetStarted !in log && TargetReplaces !in log)
    && (forall p, names | ProviderResolved(p, names) in log :: p in s.asked)
    && (s.asking.Some? ==> s.asking.value in s.asked && s.sidecar == NoSidecar && s.target == NotStarted)
  }

  lemma AskingOne(log: seq<Event>, s: State, plan: Plan, e: Event)
    requires AskingMeans(log, s) && Step(plan, s, e).Some?
    ensures AskingMeans(log + [e], Step(plan, s, e).value)
  {
    StepEffects(plan, s, e);
    hide Step;
  }

  lemma {:induction false} AskingRemembered(plan: Plan, log: seq<Event>)
    requires Run(plan, log).Some?
    ensures AskingMeans(log, Run(plan, log).value)
    ensures !Run(plan, log).value.over ==> Returned !in log
  {
    if log != [] {
      var front, last := log[..|log| - 1], log[|log| - 1];
      assert log == front + [last];
      AskingRemembered(plan, front);
      AskingOne(front, Run(plan, front).value, plan, last);
    }
  }

  // ----- The sidecar -----

  ghost predicate CountsSidecar(log: seq<Event>, s: State, n: string) {
    var started, removed := multiset(log)[SidecarSpawned(n)], multiset(log)[SidecarRemoved(n)];
    match s.sidecar
    case NoSidecar => started == 0 && removed == 0 && s.target != Running && s.target != Ended
    case Up(m) => started == (if m == n then 1 else 0) && removed == 0
    case Ready(m) => started == (if m == n then 1 else 0) && removed == 0
    case Removed(m) => started == removed == (if m == n then 1 else 0) && s.target != Running
  }

  lemma {:induction false} SidecarRemembered(plan: Plan, log: seq<Event>, n: string)
    requires Run(plan, log).Some?
    ensures CountsSidecar(log, Run(plan, log).value, n)
  {
    if log != [] {
      var front, last := log[..|log| - 1], log[|log| - 1];
      assert log == front + [last];
      SidecarRemembered(plan, front, n);
      CountOne(front, Run(plan, front).value, plan, last, n);
    }
  }

  lemma SidecarEffects(plan: Plan, s: State, e: Event)
    requires Step(plan, s, e).Some?
    ensures var t := Step(plan, s, e).value;
            && (t.sidecar == if e.SidecarSpawned? then Up(e.name) else if e.SidecarReady? then Ready(s.sidecar.name)
                             else if e.SidecarRemoved? then Removed(e.name) else s.sidecar)
            && (e.SidecarSpawned? ==> s.sidecar == NoSidecar)
            && (e.SidecarReady? ==> s.sidecar.Up?)
            && (e.SidecarRemoved? ==> (s.sidecar == Up(e.name) || s.sidecar == Ready(e.name)) && s.target != Running)
            && (t.target == if e == TargetStarted then Running else if e.TargetEnded? then Ended
                            else if e == TargetReplaces then Replaced else s.target)
            && (e == TargetStarted ==> s.sidecar.Ready?)
            && (e.TargetEnded? ==> s.target == Running && Supervise.Ran(e.supervision))
  {
    StepEffects(plan, s, e);
    hide Step;
  }

  lemma CountOne(log: seq<Event>, s: State, plan: Plan, e: Event, n: string)
    requires CountsSidecar(log, s, n) && Step(plan, s, e).Some?
    ensures CountsSidecar(log + [e], Step(plan, s, e).value, n)
  {
    hide Step;
    SidecarEffects(plan, s, e);
    CountMore(log, e, SidecarSpawned(n));
    CountMore(log, e, SidecarRemoved(n));
  }

  lemma CountMore(log: seq<Event>, e: Event, x: Event)
    ensures multiset(log + [e])[x] == multiset(log)[x] + if e == x then 1 else 0
  {
  }

  /** Every sidecar that was spawned by the time the invocation returns has been removed exactly once. */
  lemma OneTeardown(plan: Plan, log: seq<Event>, n: string)
    requires Run(plan, log).Some? && log != [] && log[|log| - 1] == Returned && SidecarSpawned(n) in log
    ensures multiset(log)[SidecarSpawned(n)] == 1 && multiset(log)[SidecarRemoved(n)] == 1
    ensures forall m :: SidecarSpawned(m) in log ==> m == n
  {
    var s := StepAt(plan, log, |log| - 1);
    SidecarRemembered(plan, log, n);
    assert SidecarSpawned(n) in multiset(log);
    forall m | SidecarSpawned(m) in log ensures m == n {
      SidecarRemembered(plan, log, m);
      assert SidecarSpawned(m) in multiset(log);
    }
  }

  /** A whole `supervise` call that ran the target is in the log. */
  ghost predicate SupervisedIn(log: seq<Event>) {
    exists supervision: Supervise.Supervision :: TargetEnded(supervision) in log && Supervise.Ran(supervision)
  }

  /** The removal comes after the spawn and, if the target was started, after a supervision of it that has returned:
      its handle closed, its relay joined, a successful wait reaped the child, and a failed one was followed by a kill
      and a second wait. No target starts later. */
  lemma TeardownLast(plan: Plan, log: seq<Event>, i: nat, n: string)
    requires Run(plan, log).Some? && i < |log| && log[i] == SidecarRemoved(n)
    ensures SidecarSpawned(n) in log[..i]
    ensures TargetStarted in log[..i] ==>
              exists supervision: Supervise.Supervision :: && TargetEnded(supervision) in log[..i]
                                    && SupervisionOver(Supervise.Run(supervision).value)
    ensures TargetStarted !in log[i..]
  {
    SpawnedBefore(plan, log, i, n);
    NoneStartedAfter(plan, log, i, n);
    if TargetStarted in log[..i] {
      var supervision := EndedBefore(plan, log, i, n);
      ReturnedOver(supervision);
    }
  }

  /** How supervising a target that ran ends. */
  predicate SupervisionOver(s: Supervise.State) {
    && s.main.Returned? && s.child != Supervise.NotSpawned && s.closed && s.relay == Supervise.Joined
    && s.wait != Supervise.NotYet
    && (s.wait == Supervise.Succeeded ==> s.child == Supervise.Reaped)
    && (s.wait == Supervise.Failed ==> s.killed && s.waitedAgain)
  }

  lemma ReturnedOver(supervision: Supervise.Supervision)
    requires Supervise.Ran(supervision)
    ensures SupervisionOver(Supervise.Run(supervision).value)
  {
    Supervise.RunKeeps(supervision);
    hide Supervise.Run;
  }

  lemma SpawnedBefore(plan: Plan, log: seq<Event>, i: nat, n: string)
    requires Run(plan, log).Some? && i < |log| && log[i] == SidecarRemoved(n)
    ensures SidecarSpawned(n) in log[..i]
  {
    var s := StepAt(plan, log, i);
    SidecarEffects(plan, s, log[i]);
    hide Step, Run;
    SidecarRemembered(plan, log[..i], n);
    assert SidecarSpawned(n) in multiset(log[..i]);
  }

  lemma EndedBefore(plan: Plan, log: seq<Event>, i: nat, n: string) returns (supervision: Supervise.Supervision)
    requires Run(plan, log).Some? && i < |log| && log[i] == SidecarRemoved(n) && TargetStarted in log[..i]
    ensures TargetEnded(supervision) in log[..i] && Supervise.Ran(supervision)
  {
    var s := StepAt(plan, log, i);
    SidecarEffects(plan, s, log[i]);
    TargetRemembered(plan, log[..i]);
    hide Step, Run, Supervise.Ran;
    supervision :| TargetEnded(supervision) in log[..i] && Supervise.Ran(supervision);
  }

  lemma NoneStartedAfter(plan: Plan, log: seq<Event>, i: nat, n: string)
    requires Run(plan, log).Some? && i < |log| && log[i] == SidecarRemoved(n)
    ensures TargetStarted !in log[i..]
  {
    forall j | i < j < |log| ensures log[j] != TargetStarted {
      var t := StepAt(plan, log, j);
      SidecarEffects(plan, t, log[j]);
      assert log[..j][i] == SidecarRemoved(n);
      assert SidecarRemoved(n) in multiset(log[..j]);
      SidecarRemembered(plan, log[..j], n);
    }
  }

  lemma {:induction false} TargetRemembered(plan: Plan, log: seq<Event>)
    requires Run(plan, log).Some?
    ensures var s := Run(plan, log).value;
            && (TargetStarted in log ==> s.target == Running || s.target == Ended)
            && (s.target == Ended ==> SupervisedIn(log))
  {
    hide Supervise.Ran;
    if log != [] {
      var front, last := log[..|log| - 1], log[|log| - 1];
      assert log == front + [last];
      TargetRemembered(plan, front);
      StepEffects(plan, Run(plan, front).value, last);
      hide Step;
      if supervision :| TargetEnded(supervision) in front && Supervise.Ran(supervision) {
        assert TargetEnded(supervision) in log;
      }
      if last.TargetEnded? {
        assert TargetEnded(last.supervision) in log;
      }
    }
  }

  // ----- Raw copies -----

  /** The copies of one raw value outside a provider's answer. */
  function Copies(s: State, k: Key): nat {
    Held(s, ResolverMap)[k] + Held(s, Environment)[k] + Held(s, Provisioned)[k]
    + Held(s, RouteList)[k] + Held(s, TransferLine)[k] + Held(s, CommandTable)[k]
  }

  /** All the copies of one raw value. */
  function Owned(s: State, k: Key): nat { Held(s, Listing)[k] + Copies(s, k) }

  /** What one key's copies are bounded by, holder by holder. */
  ghost predicate CopiesAccounted(plan: Plan, s: State, k: Key) {
    && Held(s, ResolverMap)[k] <= multiset(s.resolved)[k]
    && Held(s, Environment)[k] + Held(s, CommandTable)[k] <= plan.direct[k]
    && Held(s, Provisioned)[k] + Held(s, RouteList)[k] <= plan.proxied[k]
    && Held(s, TransferLine)[k] <= plan.proxied[k]
    && (s.handedOver ==>
          Held(s, ResolverMap)[k] == Held(s, Provisioned)[k] == Held(s, RouteList)[k] == Held(s, TransferLine)[k] == 0)
    && (k in s.resolved ==> k in plan.direct + plan.proxied)
    && (Held(s, Listing)[k] > 0 ==> s.asking == Some(k.0) && !s.handedOver)
  }

  lemma PutHeld(s: State, h: Holder, keys: multiset<Key>)
    ensures var t := Put(s, h, keys); t == s.(held := t.held)
    ensures forall g :: Held(Put(s, h, keys), g) == if g == h then keys else Held(s, g)
  {
  }

  lemma GainAccounts(plan: Plan, s: State, h: Holder, keys: multiset<Key>, k: Key)
    requires CopiesAccounted(plan, s, k) && MayGain(plan, s, h, keys)
    ensures CopiesAccounted(plan, Put(s, h, Held(s, h) + keys), k)
  {
    PutHeld(s, h, Held(s, h) + keys);
    hide Put, Held;
    match h {
      case Listing => assert (Held(s, h) + keys)[k] == keys[k];
      case Environment => assert (Held(s, h) + Held(s, CommandTable) + keys)[k] <= plan.direct[k];
      case Provisioned => assert (Held(s, h) + Held(s, RouteList) + keys)[k] <= plan.proxied[k];
      case TransferLine => assert (Held(s, h) + keys)[k] == Held(s, RouteList)[k];
      case _ =>
    }
  }

  lemma MoveHeld(s: State, from: Holder, to: Holder)
    requires from != to
    ensures var t := Put(Put(s, to, Held(s, from)), from, multiset{});
            && t == s.(held := t.held)
            && forall g :: Held(t, g) == if g == from then multiset{} else if g == to then Held(s, from) else Held(s, g)
  {
  }

  lemma MoveAt(s: State, from: Holder, to: Holder, k: Key)
    requires MayMove(s, from, to)
    ensures var t := Put(Put(s, to, Held(s, from)), from, multiset{});
            && t == s.(held := t.held)
            && Held(t, ResolverMap)[k] == Held(s, ResolverMap)[k]
                && Held(t, TransferLine)[k] == Held(s, TransferLine)[k]
            && Held(t, Environment)[k] + Held(t, CommandTable)[k] == Held(s, Environment)[k] + Held(s, CommandTable)[k]
            && Held(t, Provisioned)[k] + Held(t, RouteList)[k] == Held(s, Provisioned)[k] + Held(s, RouteList)[k]
  {
    MoveHeld(s, from, to);
    assert Held(s, to)[k] == 0;
    hide Put, Held;
    var t := Put(Put(s, to, Held(s, from)), from, multiset{});
    assert Held(t, from)[k] == 0 && Held(t, to) == Held(s, from);
    assert Held(t, ResolverMap) == Held(s, ResolverMap) && Held(t, TransferLine) == Held(s, TransferLine);
    if from == Provisioned {
      assert Held(t, Environment) == Held(s, Environment) && Held(t, CommandTable) == Held(s, CommandTable);
    } else {
      assert Held(t, Provisioned) == Held(s, Provisioned) && Held(t, RouteList) == Held(s, RouteList);
    }
  }

  lemma MoveAccounts(plan: Plan, s: State, from: Holder, to: Holder, k: Key)
    requires CopiesAccounted(plan, s, k) && MayMove(s, from, to)
    ensures CopiesAccounted(plan, Put(Put(s, to, Held(s, from)), from, multiset{}), k)
  {
    MoveAt(s, from, to, k);
    hide Put, Held, MayMove;
  }

  lemma ReleaseAccounts(plan: Plan, s: State, h: Holder, k: Key)
    requires CopiesAccounted(plan, s, k) && MayRelease(plan, s, h)
    ensures CopiesAccounted(plan, Put(s, h, multiset{}).(handedOver := s.handedOver || HandsOver(s, h)), k)
  {
    PutHeld(s, h, multiset{});
    var t := Put(s, h, multiset{});
    var u := t.(handedOver := s.handedOver || HandsOver(s, h));
    assert forall g :: Held(u, g) == Held(t, g);
    hide Put, Held;
  }

  lemma AnswerHeld(s: State, keys: set<Key>)
    ensures var t := AfterAnswer(s, keys);
            && t == s.(held := t.held, asking := None, resolved := s.resolved + keys)
            && Held(t, Listing) == multiset{} && Held(t, ResolverMap) == Held(s, ResolverMap) + multiset(keys)
            && forall g | g != Listing && g != ResolverMap :: Held(t, g) == Held(s, g)
  {
  }

  lemma AnswerAccounts(plan: Plan, s: State, p: string, keys: set<Key>, k: Key)
    requires CopiesAccounted(plan, s, k) && MayResolve(plan, s, p, keys)
    ensures CopiesAccounted(plan, AfterAnswer(s, keys), k)
  {
    AnswerHeld(s, keys);
    hide AfterAnswer, Held;
    assert (Held(s, ResolverMap) + multiset(keys))[k] == Held(s, ResolverMap)[k] + multiset(keys)[k];
    assert multiset(s.resolved + keys)[k] == multiset(s.resolved)[k] + multiset(keys)[k];
    assert multiset(keys)[k] <= Held(s, Listing)[k];
  }

  lemma NothingMoves(plan: Plan, s: State, t: State, k: Key)
    requires CopiesAccounted(plan, s, k) && t.held == s.held && t.handedOver == s.handedOver && t.resolved == s.resolved
    requires t.asking == s.asking || s.asking == None
    ensures CopiesAccounted(plan, t, k)
  {
    assert forall g :: Held(t, g) == Held(s, g);
    hide Held;
  }

  lemma StepAccounts(plan: Plan, s: State, e: Event, k: Key)
    requires CopiesAccounted(plan, s, k) && Step(plan, s, e).Some?
    ensures CopiesAccounted(plan, Step(plan, s, e).value, k)
  {
    match e
    case Gain(h, keys) => GainAccounts(plan, s, h, keys, k);
    case Move(from, to) => MoveAccounts(plan, s, from, to, k);
    case Release(h) => ReleaseAccounts(plan, s, h, k);
    case ProviderResolved(p, names) => AnswerAccounts(plan, s, p, KeysOf(p, names), k);
    case _ => NothingMoves(plan, s, Step(plan, s, e).value, k);
  }

  lemma {:induction false} RunAccounts(plan: Plan, log: seq<Event>, k: Key)
    requires Run(plan, log).Some?
    ensures CopiesAccounted(plan, Run(plan, log).value, k)
  {
    if log != [] {
      var front, last := log[..|log| - 1], log[|log| - 1];
      assert log == front + [last];
      RunAccounts(plan, front, k);
      StepAccounts(plan, Run(plan, front).value, last, k);
    }
  }

  lemma {:induction false} HandoverStays(plan: Plan, log: seq<Event>, i: nat)
    requires Run(plan, log).Some? && i <= |log| && Run(plan, log[..i]).Some? && Run(plan, log[..i]).value.handedOver
    ensures Run(plan, log).value.handedOver
  {
    hide Step, Run;
    if i < |log| {
      var front := log[..|log| - 1];
      assert front[..i] == log[..i];
      LastStep(plan, log);
      HandoverStays(plan, front, i);
      StepEffects(plan, Run(plan, front).value, log[|log| - 1]);
    } else {
      assert log[..i] == log;
    }
  }

  lemma LastStep(plan: Plan, log: seq<Event>)
    requires log != [] && Run(plan, log).Some?
    ensures Run(plan, log[..|log| - 1]).Some?
    ensures Step(plan, Run(plan, log[..|log| - 1]).value, log[|log| - 1]) == Run(plan, log)
  {
  }

  /** Nothing outside an answer is a copy of a value that was not resolved. */
  ghost predicate OnlyResolved(s: State, k: Key) { k !in s.resolved ==> Copies(s, k) == 0 }

  lemma GainResolved(plan: Plan, s: State, h: Holder, keys: multiset<Key>, k: Key)
    requires OnlyResolved(s, k) && CopiesAccounted(plan, s, k) && MayGain(plan, s, h, keys)
    ensures OnlyResolved(Put(s, h, Held(s, h) + keys), k)
  {
    PutHeld(s, h, Held(s, h) + keys);
    assert (Held(s, h) + keys)[k] == Held(s, h)[k] + keys[k];
    hide Put, Held;
    assert keys[k] > 0 ==> k in keys;
  }

  lemma MoveResolved(s: State, from: Holder, to: Holder, k: Key)
    requires OnlyResolved(s, k) && MayMove(s, from, to)
    ensures OnlyResolved(Put(Put(s, to, Held(s, from)), from, multiset{}), k)
  {
    MoveAt(s, from, to, k);
    hide Put, Held, MayMove;
  }

  lemma ReleaseResolved(s: State, h: Holder, over: bool, k: Key)
    requires OnlyResolved(s, k)
    ensures OnlyResolved(Put(s, h, multiset{}).(handedOver := over), k)
  {
    PutHeld(s, h, multiset{});
    var t := Put(s, h, multiset{});
    assert forall g :: Held(t.(handedOver := over), g) == Held(t, g);
    hide Put, Held;
  }

  lemma AnswerResolved(s: State, keys: set<Key>, k: Key)
    requires OnlyResolved(s, k)
    ensures OnlyResolved(AfterAnswer(s, keys), k)
  {
    AnswerHeld(s, keys);
    hide AfterAnswer, Held;
    assert (Held(s, ResolverMap) + multiset(keys))[k] == Held(s, ResolverMap)[k] + multiset(keys)[k];
  }

  lemma UnmovedResolved(s: State, t: State, k: Key)
    requires OnlyResolved(s, k) && t.held == s.held && t.resolved == s.resolved
    ensures OnlyResolved(t, k)
  {
    assert forall g :: Held(t, g) == Held(s, g);
    hide Held;
  }

  lemma StepResolved(plan: Plan, s: State, e: Event, k: Key)
    requires OnlyResolved(s, k) && CopiesAccounted(plan, s, k) && Step(plan, s, e).Some?
    ensures OnlyResolved(Step(plan, s, e).value, k)
  {
    match e
    case Gain(h, keys) => GainResolved(plan, s, h, keys, k);
    case Move(from, to) => MoveResolved(s, from, to, k);
    case Release(h) => ReleaseResolved(s, h, s.handedOver || HandsOver(s, h), k);
    case ProviderResolved(p, names) => AnswerResolved(s, KeysOf(p, names), k);
    case _ => UnmovedResolved(s, Step(plan, s, e).value, k);
  }

  lemma {:induction false} RunResolved(plan: Plan, log: seq<Event>, k: Key)
    requires Run(plan, log).Some?
    ensures OnlyResolved(Run(plan, log).value, k)
  {
    if log != [] {
      var front, last := log[..|log| - 1], log[|log| - 1];
      assert log == front + [last];
      RunResolved(plan, front, k);
      RunAccounts(plan, front, k);
      StepResolved(plan, Run(plan, front).value, last, k);
    }
  }

  /** Every copy outside an answer has a resolution in the log before it. */
  lemma CopiesAreResolved(plan: Plan, log: seq<Event>, k: Key)
    requires Run(plan, log).Some? && Copies(Run(plan, log).value, k) > 0
    ensures ResolvedIn(log, k)
  {
    RunResolved(plan, log, k);
    StagesRemembered(plan, log);
    hide Run, Step, Held, Copies;
  }

  /** At every moment of every run, outside the answer of the provider just asked the number of copies of a raw value
      is bounded by its declarations; a value nothing declares is owned only within that answer. */
  lemma CopiesBounded(plan: Plan, log: seq<Event>, n: nat, k: Key)
    requires Run(plan, log).Some? && n <= |log|
    ensures Run(plan, log[..n]).Some?
    ensures var s := Run(plan, log[..n]).value;
            && Copies(s, k) <= 1 + plan.direct[k] + 2 * plan.proxied[k]
            && (k !in plan.direct + plan.proxied ==> Copies(s, k) == 0)
            && (s.asking != Some(k.0) ==> Owned(s, k) == Copies(s, k))
  {
    PrefixRuns(plan, log, n);
    RunAccounts(plan, log[..n], k);
  }

  /** A provider's answer is owned only between asking it and its resolution, or the return that follows its failure. */
  lemma ListingOnlyWhileAsking(plan: Plan, log: seq<Event>, k: Key)
    requires Run(plan, log).Some? && Held(Run(plan, log).value, Listing)[k] > 0
    ensures ProviderAsked(k.0) in log && forall names :: ProviderResolved(k.0, names) !in log
    ensures Returned !in log && TargetStarted !in log && TargetReplaces !in log && forall n :: SidecarSpawned(n) !in log
  {
    RunAccounts(plan, log, k);
    StagesRemembered(plan, log);
    AskingRemembered(plan, log);
    if Run(plan, log).value.over {
      OverAtEnd(plan, log);
      if log[|log| - 1] == Returned { ReturnOwnsNothing(plan, log, k); }
    }
    hide Run, Step, Held;
  }

  /** A run in the middle of which the answer of k's provider is owned, k's value with it. */
  lemma ListingOwned(plan: Plan, k: Key) returns (log: seq<Event>)
    requires Declares(plan, k.0)
    ensures Run(plan, log).Some? && Owned(Run(plan, log).value, k) == 1
  {
    var start, ask, list := [Validated], ProviderAsked(k.0), Gain(Listing, multiset{k});
    assert start[..0] == [];
    RunExtend(plan, start, ask);
    RunExtend(plan, start + [ask], list);
    log := start + [ask] + [list];
  }

  /** A secret the policy does not declare can be owned exactly when it declares one of the same provider. */
  lemma UndeclaredOwned(plan: Plan, k: Key)
    requires k !in plan.direct + plan.proxied
    ensures (exists log :: Run(plan, log).Some? && Owned(Run(plan, log).value, k) > 0) <==> Declares(plan, k.0)
  {
    if Declares(plan, k.0) {
      var log := ListingOwned(plan, k);
    }
    hide Run, Step, Owned;
    forall log | Run(plan, log).Some? && Owned(Run(plan, log).value, k) > 0 ensures Declares(plan, k.0) {
      OwnedIsListed(plan, log, k);
      var i :| 0 <= i < |log| && log[i] == ProviderAsked(k.0);
      AskFollowsValidation(plan, log, i);
    }
  }

  lemma OwnedIsListed(plan: Plan, log: seq<Event>, k: Key)
    requires k !in plan.direct + plan.proxied && Run(plan, log).Some? && Owned(Run(plan, log).value, k) > 0
    ensures ProviderAsked(k.0) in log
  {
    hide Run, Step, Held;
    assert log[..|log|] == log;
    CopiesBounded(plan, log, |log|, k);
    ListingOnlyWhileAsking(plan, log, k);
  }

  lemma {:induction false} OverAtEnd(plan: Plan, log: seq<Event>)
    requires Run(plan, log).Some? && Run(plan, log).value.over
    ensures log != [] && (log[|log| - 1] == Returned || log[|log| - 1] == TargetReplaces)
  {
    if log != [] {
      LastStep(plan, log);
      StepEffects(plan, Run(plan, log[..|log| - 1]).value, log[|log| - 1]);
      hide Step;
    }
  }

  lemma HandedOverAt(plan: Plan, log: seq<Event>, i: nat)
    requires Run(plan, log).Some? && i < |log| && log[i] == Release(TransferLine)
    requires Run(plan, log[..i]).Some? && Run(plan, log[..i]).value.sidecar.Ready?
    ensures Run(plan, log[..i + 1]).Some? && Run(plan, log[..i + 1]).value.handedOver
  {
    var s := StepAt(plan, log, i);
    assert log[..i + 1] == log[..i] + [log[i]];
    RunExtend(plan, log[..i], log[i]);
  }

  lemma HandedOverOwns(plan: Plan, s: State, k: Key)
    requires CopiesAccounted(plan, s, k) && s.handedOver
    ensures Owned(s, k) <= plan.direct[k]
  {
    hide Held;
  }

  /** From the moment a ready sidecar's transfer line is dropped, a raw value is owned at most as often as
      it is separately declared for direct delivery: a value that is only proxy-backed, not at all. */
  lemma NoProxyCopiesAfterHandover(plan: Plan, log: seq<Event>, i: nat, n: nat, k: Key)
    requires Run(plan, log).Some? && i < n <= |log| && log[i] == Release(TransferLine)
    requires Run(plan, log[..i]).Some? && Run(plan, log[..i]).value.sidecar.Ready?
    ensures Run(plan, log[..n]).Some? && Owned(Run(plan, log[..n]).value, k) <= plan.direct[k]
  {
    hide Run, Step, Held, CopiesAccounted, Owned;
    PrefixRuns(plan, log, n);
    HandedOverAt(plan, log, i);
    assert log[..n][..i + 1] == log[..i + 1];
    HandoverStays(plan, log[..n], i + 1);
    RunAccounts(plan, log[..n], k);
    HandedOverOwns(plan, Run(plan, log[..n]).value, k);
  }

  lemma EmptyOwnsNone(s: State, k: Key)
    requires OwnsNothing(s)
    ensures Owned(s, k) == 0
  {
    hide Held;
  }

  lemma ReturnsEmpty(plan: Plan, s: State)
    requires Step(plan, s, Returned).Some?
    ensures OwnsNothing(Step(plan, s, Returned).value)
  {
    assert forall h :: Held(Step(plan, s, Returned).value, h) == Held(s, h);
    hide Held;
  }

  /** However early an invocation returns, it then owns no copy of any raw value. */
  lemma ReturnOwnsNothing(plan: Plan, log: seq<Event>, k: Key)
    requires Run(plan, log).Some? && log != [] && log[|log| - 1] == Returned
    ensures Owned(Run(plan, log).value, k) == 0
  {
    hide Step, OwnsNothing, Owned;
    LastStep(plan, log);
    ReturnsEmpty(plan, Run(plan, log[..|log| - 1]).value);
    EmptyOwnsNone(Run(plan, log).value, k);
  }
}
