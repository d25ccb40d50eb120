/** `supervise` of src/run.rs as the interleaving of the system, the relay thread and the waiting thread. */
module Supervise {
  import opened Wrappers

  /** The members of FORWARDED_SIGNALS; no other signal is caught. */
  datatype Signal = Interrupt | Terminate | Hangup | Quit

  datatype Main =
    | Registering | Spawning | StartingRelay | Waiting | Closing | Joining
    | Killing | Reaping | Returned(ok: bool)

  datatype Child = NotSpawned | Running | Exited | Reaped

  datatype Relay = NotStarted | Polling | Holding(signal: Signal) | Finished | Joined

  datatype Wait = NotYet | Succeeded | Failed

  datatype State = State(
    main: Main, registered: bool, closed: bool, child: Child, relay: Relay, wait: Wait, spawnFailed: bool,
    killed: bool, waitedAgain: bool, caught: set<Signal>, queued: set<Signal>, forwarded: set<Signal>,
    strayed: set<Signal>)

  const INITIAL := State(Registering, false, false, NotSpawned, NotStarted, NotYet, false, false, false, {}, {}, {}, {})

  datatype Action =
    // the waiting thread
    | Register(ok: bool) | Spawn(ok: bool) | StartRelay | WaitReturns(ok: bool) | Close | Join | Kill | WaitAgain
    // the relay thread
    | Take(signal: Signal) | Send | EndRelay
    // the system
    | Deliver(signal: Signal) | ChildExits

  /** One step, where it is possible. Pending signals of one kind coalesce, and the relay's iterator
      takes one only while its handle is open, but sends what it has taken whatever happened since. */
  function Step(s: State, a: Action): Option<State> {
    match a
    case Register(ok) =>
      if s.main != Registering then None
      else if ok then Some(s.(main := Spawning, registered := true))
      else Some(s.(main := Returned(false)))
    case Spawn(ok) =>
      if s.main != Spawning then None
      else if ok then Some(s.(main := StartingRelay, child := Running))
      else Some(s.(main := Returned(false), closed := true, spawnFailed := true))
    case StartRelay =>
      if s.main != StartingRelay then None else Some(s.(main := Waiting, relay := Polling))
    case WaitReturns(ok) =>
      if s.main != Waiting then None
      else if !ok then Some(s.(main := Closing, wait := Failed))
      else if s.child == Exited then Some(s.(main := Closing, wait := Succeeded, child := Reaped))
      else None
    case Close => if s.main != Closing then None else Some(s.(main := Joining, closed := true))
    case Join =>
      if s.main != Joining || s.relay != Finished then None
      else if s.wait == Succeeded then Some(s.(main := Returned(true), relay := Joined))
      else Some(s.(main := Killing, relay := Joined))
    case Kill => if s.main != Killing then None else Some(s.(main := Reaping, killed := true))
    case WaitAgain =>
      if s.main != Reaping then None
      else
        var child := if s.child == Exited then Reaped else s.child;
        Some(s.(main := Returned(false), waitedAgain := true, child := child))
    case Take(signal) =>
      if s.relay != Polling || s.closed || signal !in s.queued then None
      else Some(s.(relay := Holding(signal), queued := s.queued - {signal}))
    case Send =>
      if !s.relay.Holding? then None
      else Some(s.(relay := Polling, forwarded := s.forwarded + {s.relay.signal},
                   strayed := if s.child == Reaped then s.strayed + {s.relay.signal} else s.strayed))
    case EndRelay => if s.relay != Polling || !s.closed then None else Some(s.(relay := Finished))
    case Deliver(signal) =>
      if !s.registered || s.main.Returned? then None
      else Some(s.(caught := s.caught + {signal}, queued := s.queued + {signal}))
    case ChildExits => if s.child != Running then None else Some(s.(child := Exited))
  }

  /** The state a whole interleaving ends in, if each of its steps is possible. */
  function Run(actions: seq<Action>): Option<State> {
    if actions == [] then Some(INITIAL)
    else
      var s :- Run(actions[..|actions| - 1]);
      Step(s, actions[|actions| - 1])
  }

  /** A whole call of `supervise`. */
  predicate Returns(actions: seq<Action>) { Run(actions).Some? && Run(actions).value.main.Returned? }

  type Supervision = actions: seq<Action> | Returns(actions) witness ONLY_REGISTERS

  const ONLY_REGISTERS := [Register(false)]

  /** Whether the child ever ran, and whether the call returned its exit code. */
  predicate Ran(supervision: Supervision) { Run(supervision).value.child != NotSpawned }

  predicate WaitedFor(supervision: Supervision) { Run(supervision).value.main.ok }

  function InHand(s: State): set<Signal> { if s.relay.Holding? then {s.relay.signal} else {} }

  /** Everything that holds throughout. */
  ghost predicate Invariant(s: State) {
    // handlers are in place before the child exists, and nothing is caught without them
    && (s.child != NotSpawned ==> s.registered)
    && (!s.registered ==> s.caught == {} && (s.main == Registering || s.main == Returned(false)))
    // no caught kind is ever lost: it is queued, in the relay's hand, or forwarded
    && s.caught == s.queued + InHand(s) + s.forwarded
    // the relay exists only after the child, so nothing is forwarded before it
    && (s.relay != NotStarted ==> s.child != NotSpawned)
    && (s.relay == NotStarted ==> s.forwarded == {})
    // the handle closes only after the wait returned or the spawn failed
    && (s.closed ==> s.wait != NotYet || s.spawnFailed)
    && (s.spawnFailed ==> s.closed && s.child == NotSpawned && s.main == Returned(false))
    && (s.relay == Finished || s.relay == Joined ==> s.closed)
    // where the waiting thread is
    && (match s.main
        case Registering => s == INITIAL
        case Spawning => s.registered && s.child == NotSpawned && s.relay == NotStarted && s.wait == NotYet && !s.closed
        case StartingRelay => s.child != NotSpawned && s.relay == NotStarted && s.wait == NotYet && !s.closed
        case Waiting => s.child != NotSpawned && s.relay != NotStarted && s.wait == NotYet && !s.closed
        case Closing => s.relay != NotStarted && s.relay != Joined && s.wait != NotYet && !s.closed
        case Joining => s.relay != NotStarted && s.relay != Joined && s.wait != NotYet && s.closed
        case Killing => s.relay == Joined && s.wait == Failed && s.closed
        case Reaping => s.relay == Joined && s.wait == Failed && s.closed && s.killed
        case Returned(ok) =>
          if ok then s.relay == Joined && s.wait == Succeeded && s.closed && s.child == Reaped
          else || !s.registered
               || s.spawnFailed
               || (s.relay == Joined && s.wait == Failed && s.closed && s.killed && s.waitedAgain))
    && (s.child == Reaped ==> s.wait == Succeeded || s.waitedAgain)
    && (s.waitedAgain ==> s.relay == Joined)
    && (s.wait == Succeeded ==> s.child == Reaped)
    && (s.wait != NotYet ==> s.relay != NotStarted)
    && s.strayed <= s.forwarded
    && (s.strayed != {} ==> s.wait == Succeeded)
  }

  lemma StartKeeps(s: State, a: Action)
    requires Invariant(s) && Step(s, a).Some? && (a.Register? || a.Spawn? || a.StartRelay? || a.WaitReturns?)
    ensures Invariant(Step(s, a).value)
  {
  }

  lemma EndKeeps(s: State, a: Action)
    requires Invariant(s) && Step(s, a).Some? && (a.Close? || a.Join? || a.Kill? || a.WaitAgain?)
    ensures Invariant(Step(s, a).value)
  {
  }

  lemma RelayKeeps(s: State, a: Action)
    requires Invariant(s) && Step(s, a).Some? && (a.Take? || a.Send? || a.EndRelay?)
    ensures Invariant(Step(s, a).value)
  {
  }

  lemma SystemKeeps(s: State, a: Action)
    requires Invariant(s) && Step(s, a).Some? && (a.Deliver? || a.ChildExits?)
    ensures Invariant(Step(s, a).value)
  {
  }

  lemma StepKeeps(s: State, a: Action)
    requires Invariant(s) && Step(s, a).Some?
    ensures Invariant(Step(s, a).value)
  {
    hide Invariant, Step;
    if a.Register? || a.Spawn? || a.StartRelay? || a.WaitReturns? {
      StartKeeps(s, a);
    } else if a.Close? || a.Join? || a.Kill? || a.WaitAgain? {
      EndKeeps(s, a);
    } else if a.Take? || a.Send? || a.EndRelay? {
      RelayKeeps(s, a);
    } else {
      SystemKeeps(s, a);
    }
  }

  lemma {:induction false} RunKeeps(actions: seq<Action>)
    requires Run(actions).Some?
    ensures Invariant(Run(actions).value)
  {
    if actions != [] {
      RunKeeps(actions[..|actions| - 1]);
      StepKeeps(Run(actions[..|actions| - 1]).value, actions[|actions| - 1]);
    }
  }

  /** Over every interleaving: handlers precede the child; only caught signals are forwarded and
      only once there is a child; a caught kind that is neither forwarded nor about to be can no
      longer be taken only because the wait has returned or the spawn has failed. */
  lemma RelaySafety(actions: seq<Action>)
    requires Run(actions).Some?
    ensures var s := Run(actions).value;
            && (s.child != NotSpawned ==> s.registered)
            && s.forwarded <= s.caught
            && (s.forwarded != {} ==> s.child != NotSpawned)
            && (forall x | x in s.caught - s.forwarded && x !in InHand(s) :: x in s.queued)
            && (s.closed ==> s.wait != NotYet || s.spawnFailed)
  {
    RunKeeps(actions);
  }

  /** The relay sends x as action j. */
  ghost predicate SendsAt(actions: seq<Action>, j: int, x: Signal)
    requires 0 <= j < |actions|
  {
    actions[j] == Send && Run(actions[..j]).Some? && Run(actions[..j]).value.relay == Holding(x)
  }

  ghost predicate SentAfter(actions: seq<Action>, d: nat, x: Signal) {
    exists j | d < j < |actions| :: SendsAt(actions, j, x)
  }

  predicate Pending(s: State, x: Signal) { x in s.queued || s.relay == Holding(x) }

  lemma PendingOrSent(s: State, a: Action, x: Signal)
    requires Invariant(s) && Step(s, a).Some?
    ensures Pending(s, x) ==> Pending(Step(s, a).value, x) || (a == Send && s.relay == Holding(x))
    ensures a == Deliver(x) ==> Pending(Step(s, a).value, x)
  {
  }

  /** No delivery is lost, also not a repeated one of a kind already sent: after each there is a send of that
      signal, or it is still queued or in the relay's hand. */
  lemma {:induction false} DeliveredIsSentOrPending(actions: seq<Action>, d: nat, x: Signal)
    requires Run(actions).Some? && d < |actions| && actions[d] == Deliver(x)
    ensures SentAfter(actions, d, x) || Pending(Run(actions).value, x)
  {
    var n := |actions| - 1;
    var front := actions[..n];
    RunKeeps(front);
    PendingOrSent(Run(front).value, actions[n], x);
    hide Step, Invariant, Pending;
    if d < n {
      DeliveredIsSentOrPending(front, d, x);
      if SentAfter(front, d, x) {
        var j :| d < j < n && SendsAt(front, j, x);
        assert front[..j] == actions[..j];
        assert SendsAt(actions, j, x);
      } else if actions[n] == Send && Run(front).value.relay == Holding(x) {
        assert SendsAt(actions, n, x);
      }
    }
  }

  /** Every way of returning: after registration the handle is closed; a relay that was started has been
      joined; a failed first wait has been followed by a kill and a second wait; success means reaped. */
  lemma ReturnDiscipline(actions: seq<Action>)
    requires Run(actions).Some? && Run(actions).value.main.Returned?
    ensures var s := Run(actions).value;
            && (s.registered ==> s.closed)
            && (s.relay == NotStarted || s.relay == Joined)
            && (s.child != NotSpawned ==> s.relay == Joined)
            && (s.wait == Failed ==> s.killed && s.waitedAgain && !s.main.ok)
            && (s.main.ok <==> s.wait == Succeeded && s.child == Reaped)
  {
    RunKeeps(actions);
  }

  /** What the waiting thread did, without the other two parties. */
  function MainThread(actions: seq<Action>): seq<Action> {
    if actions == [] then []
    else
      var a, before := actions[|actions| - 1], MainThread(actions[..|actions| - 1]);
      if a.Take? || a.Send? || a.EndRelay? || a.Deliver? || a.ChildExits? then before else before + [a]
  }

  /** What the waiting thread has done by each point of the code. */
  function DoneBy(s: State): seq<Action> {
    var waited := [Register(true), Spawn(true), StartRelay, WaitReturns(s.wait == Succeeded)];
    match s.main
    case Registering => []
    case Spawning => [Register(true)]
    case StartingRelay => [Register(true), Spawn(true)]
    case Waiting => [Register(true), Spawn(true), StartRelay]
    case Closing => waited
    case Joining => waited + [Close]
    case Killing => waited + [Close, Join]
    case Reaping => waited + [Close, Join, Kill]
    case Returned(ok) =>
      if !s.registered then [Register(false)]
      else if s.spawnFailed then [Register(true), Spawn(false)]
      else if ok then waited + [Close, Join]
      else waited + [Close, Join, Kill, WaitAgain]
  }

  lemma DoneNext(s: State, a: Action)
    requires Invariant(s) && Step(s, a).Some?
    ensures DoneBy(Step(s, a).value) == DoneBy(s)
                                        + if a.Take? || a.Send? || a.EndRelay? || a.Deliver? || a.ChildExits? then []
                                          else [a]
  {
  }

  /** Whatever the relay and the system do in between, the waiting thread goes through the code in its order: a call
      that returns has failed to register, failed to spawn, waited and then closed and joined, or failed to wait and
      then closed, joined, killed and waited again. */
  lemma {:induction false} MainThreadOrder(actions: seq<Action>)
    requires Run(actions).Some?
    ensures MainThread(actions) == DoneBy(Run(actions).value)
  {
    if actions != [] {
      var front := actions[..|actions| - 1];
      RunKeeps(front);
      MainThreadOrder(front);
      DoneNext(Run(front).value, actions[|actions| - 1]);
    }
  }

  lemma OnlyARunIsWaitedFor(supervision: Supervision)
    ensures WaitedFor(supervision) ==> Ran(supervision)
  {
    RunKeeps(supervision);
    hide Run;
  }

  ghost predicate Remembers(actions: seq<Action>, s: State) {
    && (s.child == Exited || s.child == Reaped ==> ChildExits in actions)
    && (Close in actions || Spawn(false) in actions ==> s.closed)
  }

  lemma RemembersOne(actions: seq<Action>, s: State, a: Action)
    requires Remembers(actions, s) && Invariant(s) && Step(s, a).Some?
    ensures Remembers(actions + [a], Step(s, a).value)
  {
  }

  lemma {:induction false} ActionsRemembered(actions: seq<Action>)
    requires Run(actions).Some?
    ensures Remembers(actions, Run(actions).value)
  {
    if actions != [] {
      var front, last := actions[..|actions| - 1], actions[|actions| - 1];
      assert actions == front + [last];
      RunKeeps(front);
      ActionsRemembered(front);
      RemembersOne(front, Run(front).value, last);
    }
  }

  lemma {:induction false} PrefixRuns(actions: seq<Action>, n: nat)
    requires Run(actions).Some? && n <= |actions|
    ensures Run(actions[..n]).Some?
  {
    if n < |actions| {
      assert actions[..|actions| - 1][..n] == actions[..n];
      PrefixRuns(actions[..|actions| - 1], n);
    } else {
      assert actions[..n] == actions;
    }
  }

  /** No signal is taken once the handle is closed, and the wait succeeds only after the child has exited. */
  lemma NothingAfterClose(actions: seq<Action>, i: nat)
    requires Run(actions).Some? && i < |actions|
    ensures actions[i].Take? ==> Close !in actions[..i] && Spawn(false) !in actions[..i]
    ensures actions[i] == WaitReturns(true) ==> ChildExits in actions[..i]
  {
    PrefixRuns(actions, i);
    PrefixRuns(actions, i + 1);
    assert actions[..i + 1] == actions[..i] + [actions[i]];
    RunExtend(actions[..i], actions[i]);
    ActionsRemembered(actions[..i]);
    hide Run;
  }

  lemma RunExtend(actions: seq<Action>, a: Action)
    ensures Run(actions + [a]) == match Run(actions) case None => None case Some(s) => Step(s, a)
  {
    assert (actions + [a])[..|actions|] == actions;
  }

  lemma RelayMoves(s: State, a: Action)
    requires Invariant(s) && !s.closed && (s.relay == Polling || s.relay.Holding?)
    requires if s.relay.Holding? then a == Send else a.Take? && a.signal in s.queued
    ensures Step(s, a).Some?
    ensures var t := Step(s, a).value;
            && !t.closed && t.caught == s.caught && (t.relay == Polling || t.relay.Holding?)
            && t.queued == s.queued - (if a.Take? then {a.signal} else {}) && (t.relay.Holding? <==> a.Take?)
  {
  }

  ghost predicate Relaying(s: State) { !s.closed && (s.relay == Polling || s.relay.Holding?) }

  lemma DrainOne(actions: seq<Action>) returns (next: Action)
    requires Run(actions).Some? && Relaying(Run(actions).value)
    requires Run(actions).value.relay.Holding? || Run(actions).value.queued != {}
    ensures (next.Take? || next == Send) && Run(actions + [next]).Some?
    ensures var s, t := Run(actions).value, Run(actions + [next]).value;
            && Relaying(t) && t.caught == s.caught
            && (t.queued < s.queued || (t.queued == s.queued && s.relay.Holding? && !t.relay.Holding?))
  {
    RunKeeps(actions);
    var s := Run(actions).value;
    next := Send;
    if !s.relay.Holding? {
      var x :| x in s.queued;
      next := Take(x);
    }
    RunExtend(actions, next);
    RelayMoves(s, next);
    hide Step, Run, Invariant;
  }

  lemma Drained(actions: seq<Action>)
    requires Run(actions).Some? && Relaying(Run(actions).value)
    requires !Run(actions).value.relay.Holding? && Run(actions).value.queued == {}
    ensures Run(actions).value.relay == Polling && Run(actions).value.forwarded == Run(actions).value.caught
  {
    RunKeeps(actions);
    hide Run;
  }

  /** Nothing else need move for the relay to forward all that is queued while the handle is open. */
  lemma {:induction false} RelayDrains(actions: seq<Action>) returns (more: seq<Action>)
    requires Run(actions).Some? && Relaying(Run(actions).value)
    ensures forall a | a in more :: a.Take? || a == Send
    ensures Run(actions + more).Some?
    ensures var s := Run(actions + more).value;
            && s.queued == {} && s.relay == Polling && s.forwarded == s.caught && s.caught == Run(actions).value.caught
    decreases Run(actions).value.queued, Run(actions).value.relay.Holding?
  {
    var s := Run(actions).value;
    hide Step, Run, Relaying;
    more := [];
    if s.relay.Holding? || s.queued != {} {
      var next := DrainOne(actions);
      var rest := RelayDrains(actions + [next]);
      more := [next] + rest;
      assert actions + more == actions + [next] + rest;
    } else {
      Drained(actions);
      assert actions + [] == actions;
    }
  }

  function StepsToJoin(s: State): nat {
    match s.relay case Holding(_) => 3 case Polling => 2 case _ => 1
  }

  /** Closing cannot block: once the handle is closed, the relay can always finish and be joined. */
  lemma {:induction false} JoinNeverBlocks(actions: seq<Action>) returns (more: seq<Action>)
    requires Run(actions).Some? && Run(actions).value.main == Joining
    ensures Run(actions + more).Some? && Run(actions + more).value.relay == Joined
    ensures |more| == StepsToJoin(Run(actions).value)
    decreases StepsToJoin(Run(actions).value)
  {
    RunKeeps(actions);
    var s := Run(actions).value;
    var next := match s.relay case Holding(_) => Send case Polling => EndRelay case _ => Join;
    RunExtend(actions, next);
    more := [next];
    if s.relay != Finished {
      var rest := JoinNeverBlocks(actions + [next]);
      more := [next] + rest;
      assert actions + more == actions + [next] + rest;
    }
  }

  /** A call in which nothing goes wrong. */
  lemma QuietRun() returns (supervision: Supervision)
    ensures Ran(supervision) && WaitedFor(supervision)
  {
    var a0 := [Register(true)];
    assert a0[..0] == [];
    RunExtend(a0, Spawn(true));
    var a1 := a0 + [Spawn(true)];
    RunExtend(a1, StartRelay);
    var a2 := a1 + [StartRelay];
    RunExtend(a2, ChildExits);
    var a3 := a2 + [ChildExits];
    RunExtend(a3, WaitReturns(true));
    var a4 := a3 + [WaitReturns(true)];
    RunExtend(a4, Close);
    var a5 := a4 + [Close];
    RunExtend(a5, EndRelay);
    var a6 := a5 + [EndRelay];
    RunExtend(a6, Join);
    supervision := a6 + [Join];
  }

  /** A signal taken before the handle closes can still be sent after the wait has reaped the child.
      That needs the wait to have succeeded, and it cannot happen once the relay is joined. */
  lemma SendAfterReap() returns (actions: seq<Action>)
    ensures Run(actions).Some? && Run(actions).value.strayed == {Terminate}
  {
    var a0 := [Register(true)];
    assert a0[..0] == [];
    RunExtend(a0, Spawn(true));
    var a1 := a0 + [Spawn(true)];
    RunExtend(a1, StartRelay);
    var a2 := a1 + [StartRelay];
    RunExtend(a2, Deliver(Terminate));
    var a3 := a2 + [Deliver(Terminate)];
    RunExtend(a3, Take(Terminate));
    var a4 := a3 + [Take(Terminate)];
    RunExtend(a4, ChildExits);
    var a5 := a4 + [ChildExits];
    RunExtend(a5, WaitReturns(true));
    var a6 := a5 + [WaitReturns(true)];
    RunExtend(a6, Send);
    actions := a6 + [Send];
  }

  /** A send reaches a reaped child exactly when it falls between the successful wait and the join. */
  lemma StrayWindow(actions: seq<Action>)
    requires Run(actions + [Send]).Some?
    ensures var s := Run(actions).value;
            && Run(actions).Some?
            && (s.child == Reaped <==> s.wait == Succeeded && (s.main == Closing || s.main == Joining))
  {
    RunExtend(actions, Send);
    RunKeeps(actions);
  }
}
