/** The log of one invocation, kept within the protocol: an event the protocol does not allow
    in the current state cannot be recorded. */
module Journal {
  import opened Wrappers
  import opened Resolution
  import opened Protocol
  import Supervise

  class Journal {
    const plan: Plan
    var log: seq<Event>

    constructor (plan: Plan)
      ensures this.plan == plan && log == [] && Valid() && Now() == INITIAL
    {
      this.plan := plan;
      log := [];
    }

    ghost predicate Valid()
      reads this
    {
      Run(plan, log).Some?
    }

    ghost function Now(): State
      reads this
      requires Valid()
    {
      Run(plan, log).value
    }

    method Record(e: Event)
      requires Valid() && Step(plan, Now(), e).Some?
      modifies this
      ensures Valid() && log == old(log) + [e]
      ensures Now() == Step(plan, old(Now()), e).value
    {
      RunExtend(plan, log, e);
      log := log + [e];
    }

    method Validated()
      requires Valid() && Now() == INITIAL
      modifies this
      ensures Valid() && log == old(log) + [Event.Validated] && Now() == INITIAL.(validated := true)
    {
      Record(Event.Validated);
    }

    method ProviderAsked(provider: string)
      requires Valid() && !Now().over && MayAsk(plan, Now(), provider)
      modifies this
      ensures Valid() && log == old(log) + [Event.ProviderAsked(provider)]
      ensures Now() == old(Now()).(asked := old(Now()).asked + {provider}, asking := Some(provider))
    {
      Record(Event.ProviderAsked(provider));
    }

    /** The requested values of an answer move into the resolver map; the rest of the listing is dropped. */
    method ProviderResolved(provider: string, names: set<string>)
      requires Valid() && !Now().over && MayResolve(plan, Now(), provider, KeysOf(provider, names))
      modifies this
      ensures Valid() && log == old(log) + [Event.ProviderResolved(provider, names)]
      ensures Now()
          == old(Now()).(held := Now().held, asking := None, resolved := old(Now()).resolved + KeysOf(provider, names))
      ensures Held(Now(), Listing) == multiset{}
      ensures Held(Now(), ResolverMap) == old(Held(Now(), ResolverMap)) + multiset(KeysOf(provider, names))
      ensures forall g | g != Listing && g != ResolverMap :: Held(Now(), g) == old(Held(Now(), g))
    {
      AnswerHeld(Now(), KeysOf(provider, names));
      Record(Event.ProviderResolved(provider, names));
    }

    method Gain(h: Holder, keys: multiset<Key>)
      requires Valid() && !Now().over && MayGain(plan, Now(), h, keys)
      modifies this
      ensures Valid() && log == old(log) + [Event.Gain(h, keys)]
      ensures Now() == old(Now()).(held := Now().held)
      ensures forall g :: Held(Now(), g) == if g == h then old(Held(Now(), h)) + keys else old(Held(Now(), g))
    {
      PutHeld(Now(), h, Held(Now(), h) + keys);
      Record(Event.Gain(h, keys));
    }

    method Move(from: Holder, to: Holder)
      requires Valid() && !Now().over && MayMove(Now(), from, to)
      modifies this
      ensures Valid() && log == old(log) + [Event.Move(from, to)]
      ensures Now() == old(Now()).(held := Now().held)
      ensures Held(Now(), from) == multiset{} && Held(Now(), to) == old(Held(Now(), from))
      ensures forall g | g != from && g != to :: Held(Now(), g) == old(Held(Now(), g))
    {
      MoveHeld(Now(), from, to);
      Record(Event.Move(from, to));
    }

    /** Dropping a holder anywhere but at the handover. */
    method Release(h: Holder)
      requires Valid() && !Now().over && !HandsOver(Now(), h)
      modifies this
      ensures Valid() && log == old(log) + [Event.Release(h)]
      ensures Now() == old(Now()).(held := Now().held)
      ensures forall g :: Held(Now(), g) == if g == h then multiset{} else old(Held(Now(), g))
    {
      PutHeld(Now(), h, multiset{});
      Record(Event.Release(h));
    }

    /** Dropping the transfer line once the sidecar is ready. */
    method HandOver()
      requires Valid() && !Now().over && Now().sidecar.Ready?
      requires Empty(Now(), Listing) && Empty(Now(), ResolverMap) && Empty(Now(), Provisioned)
               && Empty(Now(), RouteList) && Empty(Now(), CommandTable)
      requires Held(Now(), Environment) == plan.direct
      modifies this
      ensures Valid() && log == old(log) + [Event.Release(TransferLine)]
      ensures Now() == old(Now()).(held := Now().held, handedOver := true)
      ensures forall g :: Held(Now(), g) == if g == TransferLine then multiset{} else old(Held(Now(), g))
    {
      PutHeld(Now(), TransferLine, multiset{});
      Record(Event.Release(TransferLine));
    }

    method ImagePrepared()
      requires Valid() && !Now().over
      modifies this
      ensures Valid() && log == old(log) + [Event.ImagePrepared] && Now() == old(Now()).(image := true)
    {
      Record(Event.ImagePrepared);
    }

    method SidecarSpawned(name: string)
      requires Valid() && !Now().over && Now().sidecar == NoSidecar && Now().asking == None && Now().image
               && Now().target == NotStarted
      requires AllResolved(plan, Now())
      modifies this
      ensures Valid() && log == old(log) + [Event.SidecarSpawned(name)] && Now() == old(Now()).(sidecar := Up(name))
    {
      Record(Event.SidecarSpawned(name));
    }

    method SidecarReady(port: nat)
      requires Valid() && !Now().over && Now().sidecar.Up?
      modifies this
      ensures Valid() && log == old(log) + [Event.SidecarReady(port)]
      ensures Now() == old(Now()).(sidecar := Ready(old(Now()).sidecar.name))
    {
      Record(Event.SidecarReady(port));
    }

    method SidecarRemoved(name: string)
      requires Valid() && !Now().over && (Now().sidecar == Up(name) || Now().sidecar == Ready(name))
               && Now().target != Running
      modifies this
      ensures Valid() && log == old(log) + [Event.SidecarRemoved(name)]
              && Now() == old(Now()).(sidecar := Removed(name))
    {
      Record(Event.SidecarRemoved(name));
    }

    method TargetReplaces()
      requires Valid() && !Now().over && Now().validated && Now().sidecar == NoSidecar && Now().asking == None
               && Now().target == NotStarted
      requires AllResolved(plan, Now()) && plan.proxied == multiset{}
      modifies this
      ensures Valid() && log == old(log) + [Event.TargetReplaces]
      ensures Now() == old(Now()).(target := Target.Replaced, over := true)
    {
      Record(Event.TargetReplaces);
    }

    /** The target's whole supervised life. */
    method TargetRan(supervision: Supervise.Supervision)
      requires Valid() && !Now().over && Now().validated && Now().sidecar.Ready? && Now().handedOver
               && Now().target == NotStarted
      requires AllResolved(plan, Now()) && Supervise.Ran(supervision)
      modifies this
      ensures Valid() && log == old(log) + [Event.TargetStarted, Event.TargetEnded(supervision)]
              && Now() == old(Now()).(target := Ended)
    {
      Record(Event.TargetStarted);
      Record(Event.TargetEnded(supervision));
    }

    method Returned()
      requires Valid() && !Now().over && Now().target != Running
               && (Now().sidecar == NoSidecar || Now().sidecar.Removed?)
      requires OwnsNothing(Now())
      modifies this
      ensures Valid() && log == old(log) + [Event.Returned] && Now() == old(Now()).(over := true)
    {
      Record(Event.Returned);
    }
  }
}
