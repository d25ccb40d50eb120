/** src/run.rs: the runtime invocation and the environment of the child process. */
module Run {
  import opened Wrappers
  import opened Config
  import Validate

  type Entry = (string, string)

  // ----- argv -----

  function EnvOptions(names: seq<string>): (r: seq<string>) {
    if names == [] then [] else EnvOptions(names[..|names| - 1]) + ["--env", names[|names| - 1]]
  }

  function Head(context: DockerContext): seq<string> { [context.runtime, "exec", "--interactive", "--tty"] }

  function Tail(context: DockerContext, policy: CommandPolicy): seq<string> {
    ["--user", context.user, "--workdir", context.workdir, context.containerName, policy.id]
  }

  function Argv(context: DockerContext, policy: CommandPolicy, userArgs: seq<string>): seq<string> {
    Head(context) + EnvOptions(Validate.EnvNames(policy)) + Tail(context, policy) + userArgs
  }

  /** Two consecutive pushes. */
  method Push(argv: seq<string>, first: string, second: string) returns (argv': seq<string>)
    ensures argv' == argv + [first, second]
  {
    argv' := argv + [first];
    argv' := argv' + [second];
  }

  method PushSecretOptions(start: seq<string>, secrets: seq<SecretSpec>) returns (argv: seq<string>)
    ensures argv == start + EnvOptions(Validate.SecretNames(secrets))
  {
    ghost var names := Validate.SecretNames(secrets);
    argv := start;
    for i := 0 to |secrets|
      invariant argv == start + EnvOptions(names[..i])
    {
      PushOption(start, names, i);
      argv := Push(argv, "--env", secrets[i].envName);
    }
    assert names[..|names|] == names;
  }

  method PushProxyOptions(start: seq<string>, proxies: seq<ProxySecretSpec>) returns (argv: seq<string>)
    ensures argv == start + EnvOptions(Validate.ProxyNames(proxies))
  {
    ghost var names := Validate.ProxyNames(proxies);
    argv := start;
    for i := 0 to |proxies|
      invariant argv == start + EnvOptions(names[..2 * i])
    {
      PushOption(start, names, 2 * i);
      argv := Push(argv, "--env", proxies[i].envName);
      PushOption(start, names, 2 * i + 1);
      argv := Push(argv, "--env", proxies[i].baseUrlEnv);
    }
    assert names[..|names|] == names;
  }

  lemma {:induction false} EnvOptionsAppend(a: seq<string>, b: seq<string>)
    ensures EnvOptions(a + b) == EnvOptions(a) + EnvOptions(b)
    decreases |b|
  {
    if b == [] {
      assert a + b == a;
    } else {
      var n := |b| - 1;
      assert (a + b)[..|a| + n] == a + b[..n];
      EnvOptionsAppend(a, b[..n]);
    }
  }

  method PushTail(start: seq<string>, context: DockerContext, policy: CommandPolicy) returns (argv: seq<string>)
    ensures argv == start + Tail(context, policy)
  {
    argv := Push(start, "--user", context.user);
    argv := Push(argv, "--workdir", context.workdir);
    argv := Push(argv, context.containerName, policy.id);
    assert argv == start + Tail(context, policy);
  }

  /** `build_argv` */
  method BuildArgv(context: DockerContext, policy: CommandPolicy, userArgs: seq<string>) returns (argv: seq<string>)
    ensures argv == Argv(context, policy, userArgs)
  {
    hide EnvOptions, Head, Tail, Validate.SecretNames, Validate.ProxyNames;
    EnvOptionsAppend(Validate.SecretNames(policy.secrets), Validate.ProxyNames(policy.proxySecrets));
    argv := PushSecretOptions(Head(context), policy.secrets);
    argv := PushProxyOptions(argv, policy.proxySecrets);
    assert argv == Head(context) + EnvOptions(Validate.EnvNames(policy));
    argv := PushTail(argv, context, policy);
    argv := argv + userArgs;
  }

  lemma PushOption(start: seq<string>, names: seq<string>, i: nat)
    requires i < |names|
    ensures start + EnvOptions(names[..i + 1]) == start + EnvOptions(names[..i]) + ["--env", names[i]]
  {
    assert names[..i + 1][..i] == names[..i];
  }

  // ----- A Docker-style reader of that argv -----

  datatype Exec = Exec(
    runtime: string, interactive: bool, tty: bool, env: seq<string>, user: Option<string>, workdir: Option<string>,
    container: string, command: string, args: seq<string>)

  /** An option parser takes an element as positional unless a '-' is followed by something. */
  predicate Positional(s: string) { !("-" <= s) || s == "-" }

  /** Options up to the first positional; everything from there on is taken as it is. */
  function ReadOptions(argv: seq<string>, read: Exec): (r: Option<Exec>)
    ensures r.Some? ==> Positional(r.value.container)
    decreases |argv|
  {
    if |argv| < 2 then None
    else if Positional(argv[0]) then Some(read.(container := argv[0], command := argv[1], args := argv[2..]))
    else if argv[0] == "--interactive" then ReadOptions(argv[1..], read.(interactive := true))
    else if argv[0] == "--tty" then ReadOptions(argv[1..], read.(tty := true))
    else if argv[0] == "--env" then ReadOptions(argv[2..], read.(env := read.env + [argv[1]]))
    else if argv[0] == "--user" then ReadOptions(argv[2..], read.(user := Some(argv[1])))
    else if argv[0] == "--workdir" then ReadOptions(argv[2..], read.(workdir := Some(argv[1])))
    else None
  }

  function ReadExec(argv: seq<string>): (r: Option<Exec>)
    ensures r.Some? ==> Positional(r.value.container)
  {
    if |argv| >= 2 && argv[1] == "exec" then
      ReadOptions(argv[2..], Exec(argv[0], false, false, [], None, None, "", "", []))
    else None
  }

  /** What an invocation says, stated without its option syntax. */
  function Meant(context: DockerContext, policy: CommandPolicy, userArgs: seq<string>): Exec {
    Exec(context.runtime, true, true, Validate.EnvNames(policy), Some(context.user), Some(context.workdir),
         context.containerName, policy.id, userArgs)
  }

  lemma {:induction false} ReadEnvOptions(names: seq<string>, rest: seq<string>, read: Exec)
    ensures ReadOptions(EnvOptions(names) + rest, read) == ReadOptions(rest, read.(env := read.env + names))
    decreases |names|
  {
    if names == [] {
      assert EnvOptions(names) + rest == rest;
      assert read.env + names == read.env;
    } else {
      var n := |names| - 1;
      var option := ["--env", names[n]];
      assert EnvOptions(names) + rest == EnvOptions(names[..n]) + (option + rest);
      ReadEnvOptions(names[..n], option + rest, read);
      assert (option + rest)[2..] == rest;
      assert names == names[..n] + [names[n]];
      assert read.env + names == read.env + names[..n] + [names[n]];
    }
  }

  lemma ReadFlags(rest: seq<string>, read: Exec)
    requires |rest| >= 2
    ensures ReadOptions(["--interactive", "--tty"] + rest, read)
        == ReadOptions(rest, read.(interactive := true, tty := true))
  {
    var a := ["--interactive", "--tty"] + rest;
    assert a[1..] == ["--tty"] + rest;
    assert a[1..][1..] == rest;
  }

  lemma ReadTail(context: DockerContext, policy: CommandPolicy, userArgs: seq<string>, read: Exec)
    requires Positional(context.containerName)
    ensures ReadOptions(Tail(context, policy) + userArgs, read)
         == Some(read.(user := Some(context.user), workdir := Some(context.workdir),
                       container := context.containerName, command := policy.id, args := userArgs))
  {
    var t := Tail(context, policy) + userArgs;
    assert t[2..] == ["--workdir", context.workdir, context.containerName, policy.id] + userArgs;
    assert t[2..][2..] == [context.containerName, policy.id] + userArgs;
    assert t[2..][2..][2..] == userArgs;
    var read1 := read.(user := Some(context.user));
    assert ReadOptions(t, read) == ReadOptions(t[2..], read1);
    assert ReadOptions(t[2..], read1) == ReadOptions(t[2..][2..], read1.(workdir := Some(context.workdir)));
  }

  /** The argv can be undone, and that is what the container-name rule of validation buys:
      the reader recovers the invocation exactly when the container name is positional. */
  lemma ArgvReadsBack(context: DockerContext, policy: CommandPolicy, userArgs: seq<string>)
    ensures ReadExec(Argv(context, policy, userArgs)) == Some(Meant(context, policy, userArgs))
       <==> Positional(context.containerName)
    ensures Validate.IsPositional(context.containerName) ==> Positional(context.containerName)
  {
    if Positional(context.containerName) {
      var names := Validate.EnvNames(policy);
      var start := Exec(context.runtime, false, false, [], None, None, "", "", []);
      var last := Tail(context, policy) + userArgs;
      var argv := Argv(context, policy, userArgs);
      assert argv[2..] == ["--interactive", "--tty"] + (EnvOptions(names) + last);
      ReadFlags(EnvOptions(names) + last, start);
      ReadEnvOptions(names, last, start.(interactive := true, tty := true));
      assert [] + names == names;
      ReadTail(context, policy, userArgs, start.(interactive := true, tty := true, env := names));
    }
  }

  // ----- Environment -----

  /** A map after setting each entry in turn. */
  function Overlay(m: map<string, string>, entries: seq<Entry>): map<string, string> {
    if entries == [] then m
    else
      var n := |entries| - 1;
      Overlay(m, entries[..n])[entries[n].0 := entries[n].1]
  }

  function Names(entries: seq<Entry>): seq<string> {
    seq(|entries|, i requires 0 <= i < |entries| => entries[i].0)
  }

  lemma NamesAppend(a: seq<Entry>, b: seq<Entry>)
    ensures Names(a + b) == Names(a) + Names(b)
  {
    var l, r := Names(a + b), Names(a) + Names(b);
    forall i | 0 <= i < |a| + |b| ensures l[i] == r[i] {
      assert (a + b)[i] == if i < |a| then a[i] else b[i - |a|];
    }
  }

  /** A prepared runtime command: its explicit entries override the inherited environment. */
  class Command {
    const argv: seq<string>
    var environment: map<string, string>

    constructor (argv: seq<string>)
      ensures this.argv == argv && environment == map[]
    {
      this.argv := argv;
      environment := map[];
    }

    method Env(name: string, value: string)
      modifies this
      ensures environment == old(environment)[name := value]
    {
      environment := environment[name := value];
    }
  }

  /** `apply_injected_environment` and `apply_proxy_environment` */
  method ApplyEnvironment(command: Command, entries: seq<Entry>)
    modifies command
    ensures command.environment == Overlay(old(command.environment), entries)
  {
    for i := 0 to |entries|
      invariant command.environment == Overlay(old(command.environment), entries[..i])
    {
      assert entries[..i + 1][..i] == entries[..i];
      command.Env(entries[i].0, entries[i].1);
    }
    assert entries[..|entries|] == entries;
  }

  lemma {:induction false} OverlayDistinct(m: map<string, string>, entries: seq<Entry>)
    requires Validate.Distinct(Names(entries))
    ensures forall i | 0 <= i < |entries| ::
        entries[i].0 in Overlay(m, entries) && Overlay(m, entries)[entries[i].0] == entries[i].1
    ensures forall k | k !in Names(entries) ::
        (k in Overlay(m, entries) <==> k in m) && (k in m ==> Overlay(m, entries)[k] == m[k])
  {
    if entries != [] {
      var n := |entries| - 1;
      assert Names(entries)[..n] == Names(entries[..n]);
      OverlayDistinct(m, entries[..n]);
      forall i | 0 <= i < n ensures entries[i].0 != entries[n].0 {
        assert Names(entries)[i] != Names(entries)[n];
      }
      forall k | k !in Names(entries) ensures k !in Names(entries[..n]) && k != entries[n].0 {
        assert Names(entries)[n] == entries[n].0;
      }
    }
  }

  lemma {:induction false} OverlayAppend(m: map<string, string>, a: seq<Entry>, b: seq<Entry>)
    ensures Overlay(m, a + b) == Overlay(Overlay(m, a), b)
    decreases |b|
  {
    if b == [] {
      assert a + b == a;
    } else {
      var n := |b| - 1;
      assert (a + b)[..|a| + n] == a + b[..n];
      OverlayAppend(m, a, b[..n]);
    }
  }

  lemma {:induction false} OverlayKeys(entries: seq<Entry>)
    ensures forall k :: k in Overlay(map[], entries) <==> k in Names(entries)
  {
    if entries != [] {
      var n := |entries| - 1;
      OverlayKeys(entries[..n]);
      assert Names(entries) == Names(entries[..n]) + [entries[n].0];
    }
  }

  /** A child inherits its parent's environment, overridden by what was set on its command. */
  function Inherit(parent: map<string, string>, explicit: map<string, string>): map<string, string> {
    parent + explicit
  }

  /** What a container runtime forwards to the target: the named variables of its own environment. */
  function Forward(client: map<string, string>, names: seq<string>): map<string, string> {
    map k | k in names && k in client :: client[k]
  }

  ghost predicate Sees(environment: map<string, string>, entries: seq<Entry>) {
    forall i | 0 <= i < |entries| :: entries[i].0 in environment && environment[entries[i].0] == entries[i].1
  }

  /** With every name distinct, each one has its own value in the child and all others are inherited. */
  lemma ChildSeesDeclared(parent: map<string, string>, entries: seq<Entry>)
    requires Validate.Distinct(Names(entries))
    ensures var child := Inherit(parent, Overlay(map[], entries));
            && Sees(child, entries)
            && forall k | k !in Names(entries) ::
                (k in child <==> k in parent) && (k in parent ==> child[k] == parent[k])
  {
    OverlayDistinct(map[], entries);
    hide Overlay;
  }

  /** Forwarding by the names of the entries passes on exactly these. */
  lemma ForwardSees(client: map<string, string>, entries: seq<Entry>)
    requires Sees(client, entries)
    ensures Sees(Forward(client, Names(entries)), entries)
    ensures forall k :: k in Forward(client, Names(entries)) <==> k in Names(entries)
  {
    var names := Names(entries);
    forall i | 0 <= i < |entries| ensures entries[i].0 in Forward(client, names) { assert names[i] == entries[i].0; }
    forall k | k in names ensures k in client {
      var i :| 0 <= i < |entries| && names[i] == k;
      assert entries[i].0 == k;
    }
  }

  /** The order in which the entries are applied does not matter. */
  lemma OverlayOrderFree(m: map<string, string>, a: seq<Entry>, b: seq<Entry>)
    requires Validate.Distinct(Names(a)) && Validate.Distinct(Names(b)) && multiset(a) == multiset(b)
    ensures Overlay(m, a) == Overlay(m, b)
  {
    forall e: Entry ensures e in a <==> e in b {
      assert e in a <==> e in multiset(a);
      assert e in b <==> e in multiset(b);
    }
    SameNames(a, b);
    SameNames(b, a);
    hide Overlay, Names;
    forall k ensures k in Overlay(m, a) <==> k in Overlay(m, b) {
      OverlayAt(m, a, k);
      OverlayAt(m, b, k);
    }
    forall k | k in Overlay(m, a) && k in Overlay(m, b) ensures Overlay(m, a)[k] == Overlay(m, b)[k] {
      OverlayAt(m, a, k);
      OverlayAt(m, b, k);
      if k in Names(a) {
        var e := (k, Overlay(m, a)[k]);
        assert e in b;
        EntryGiven(m, b, e);
      }
    }
  }

  /** What a distinct overlay holds under one name. */
  lemma OverlayAt(m: map<string, string>, entries: seq<Entry>, k: string)
    requires Validate.Distinct(Names(entries))
    ensures k in Names(entries) ==> k in Overlay(m, entries) && (k, Overlay(m, entries)[k]) in entries
    ensures k !in Names(entries) ==> (k in Overlay(m, entries) <==> k in m)
    ensures k !in Names(entries) && k in m ==> Overlay(m, entries)[k] == m[k]
  {
    OverlayDistinct(m, entries);
    if k in Names(entries) {
      var i :| 0 <= i < |entries| && Names(entries)[i] == k;
      assert entries[i] == (k, Overlay(m, entries)[k]);
    }
  }

  lemma EntryGiven(m: map<string, string>, entries: seq<Entry>, e: Entry)
    requires Validate.Distinct(Names(entries)) && e in entries
    ensures e.0 in Overlay(m, entries) && Overlay(m, entries)[e.0] == e.1
  {
    OverlayDistinct(m, entries);
    var i :| 0 <= i < |entries| && entries[i] == e;
  }

  lemma SameNames(a: seq<Entry>, b: seq<Entry>)
    requires forall e | e in a :: e in b
    ensures forall k | k in Names(a) :: k in Names(b)
  {
    forall k | k in Names(a) ensures k in Names(b) {
      var i :| 0 <= i < |a| && Names(a)[i] == k;
      assert a[i] in a;
      var j :| 0 <= j < |b| && b[j] == a[i];
      assert Names(b)[j] == k;
    }
  }

  // ----- Exit code -----

  datatype ExitStatus = Exited(code: int) | Signaled(signal: nat)

  /** `exit_code_of`: the cast keeps the low eight bits, and 128 + signal wraps. */
  function ExitCodeOf(status: ExitStatus): (r: nat)
    ensures r < 256
  {
    match status
    case Exited(code) => code % 256
    case Signaled(signal) => (128 + signal % 256) % 256
  }

  /** An exit code is reduced to its low eight bits, a signal number likewise after adding 128. */
  lemma ExitCodeBits(code: int, signal: nat, r: nat)
    ensures r == ExitCodeOf(Exited(code)) <==> r < 256 && exists q :: code == 256 * q + r
    ensures r == ExitCodeOf(Signaled(signal)) <==> r < 256 && exists q :: 128 + signal == 256 * q + r
  {
    assert code == 256 * (code / 256) + code % 256;
    assert 128 + signal == 256 * ((128 + signal) / 256) + (128 + signal) % 256;
  }

  /** A code a process can exit with comes through unchanged; a signal number below 128 becomes 128 plus it. */
  lemma ExitCodeConvention(n: nat)
    ensures ExitCodeOf(Exited(n)) == n <==> n < 256
    ensures ExitCodeOf(Signaled(n)) == 128 + n <==> n < 128
  {
  }
}
