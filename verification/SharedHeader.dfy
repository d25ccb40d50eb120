/** A configuration whose policy has two entries with one header name, and an invocation of it that meets all the
    hypotheses of the end-to-end results. */
module SharedHeader {
  import opened Wrappers
  import opened Config
  import opened Resolution
  import opened Invocation
  import opened Text
  import opened Utf8
  import opened Delivery
  import opened EndToEnd
  import Origin
  import Phantom
  import Proxy
  import Readiness
  import Run
  import Sidecar
  import Supervise
  import Template
  import Transfer
  import Uri
  import Validate

  const SHARED_HEADER := InjectHeader("x", "{}")

  function SharedSpec(envName: string, baseUrlEnv: string): ProxySecretSpec {
    ProxySecretSpec(envName, "p", "n", "http://h", baseUrlEnv, SHARED_HEADER)
  }

  const SHARED_POLICY := CommandPolicy("c", [], [SharedSpec("A", "B"), SharedSpec("C", "D")])

  const SHARED_CONTEXT := DockerContext("d", "r", "u", "/", "t")

  const SHARED_CONFIG := Config([Bws("p", "j")], [SHARED_CONTEXT], [SHARED_POLICY])

  const SHARED_ANSWERS := map["p" := Answers(Some("t"), Some([BwsProject("i", "j")]),
                                             map["i" := [BwsSecret("n", "v")]])]

  lemma SharedSpecOk(envName: string, baseUrlEnv: string)
    ensures Validate.ProxySecretOk(SHARED_CONFIG, SharedSpec(envName, baseUrlEnv))
  {
    var o := Origin.HttpOrigin(false, Origin.Name("h"), None);
    assert Origin.Render(o) == "http://h";
    Origin.RenderAccepted(o);
    assert Bws("p", "j") in SHARED_CONFIG.providers;
    assert Lower("x") == "x";
    Template.CountsOne("{}");
  }

  lemma SharedNames()
    ensures Validate.EnvNames(SHARED_POLICY) == ["A", "B", "C", "D"]
  {
    hide Validate.ProxyNames;
    var r := Validate.ProxyNames(SHARED_POLICY.proxySecrets);
    assert r[2 * 0] == "A" && r[2 * 0 + 1] == "B" && r[2 * 1] == "C" && r[2 * 1 + 1] == "D";
    assert r == ["A", "B", "C", "D"];
  }

  lemma DistinctNames()
    ensures var names := ["A", "B", "C", "D"];
            Validate.Distinct(names) && forall name | name in names :: Validate.EnvNameOk(name)
  {
    var names := ["A", "B", "C", "D"];
    assert names[0][0] == 'A' && names[1][0] == 'B' && names[2][0] == 'C' && names[3][0] == 'D';
    forall name | name in names ensures Validate.EnvNameOk(name) {}
  }

  lemma SharedPolicyOk()
    ensures Validate.PolicyOk(SHARED_CONFIG, SHARED_POLICY)
  {
    SharedNames();
    DistinctNames();
    hide Validate.EnvNames, Validate.ProxySecretOk, Validate.Distinct, Validate.EnvNameOk;
    assert SHARED_POLICY.id[0] == 'c';
    forall x | x in SHARED_POLICY.proxySecrets ensures Validate.ProxySecretOk(SHARED_CONFIG, x) {
      SharedSpecOk(x.envName, x.baseUrlEnv);
    }
  }

  lemma OnlyName(declared: seq<Key>)
    requires declared != [] && forall k | k in declared :: k == ("p", "n")
    ensures NamesFor(declared, "p") != [] && forall n | n in NamesFor(declared, "p") :: n == "n"
  {
    hide NamesFor;
    var names := NamesFor(declared, "p");
    NamesForCount(declared, ("p", "n"));
    assert declared[0] in declared;
    assert ("p", "n") in multiset(declared);
    assert "n" in multiset(names);
    forall n | n in names ensures n == "n" {
      NamesForCount(declared, ("p", n));
      assert n in multiset(names) && ("p", n) in multiset(declared);
      assert ("p", n) in declared;
    }
  }

  lemma SharedAnswer(names: seq<string>)
    requires names != [] && forall n | n in names :: n == "n"
    ensures Resolve("j", names, SHARED_ANSWERS["p"]).Ok? && "n" in Resolve("j", names, SHARED_ANSWERS["p"]).value
  {
    var listed := [BwsSecret("n", "v")];
    hide Select;
    SelectExact(names, listed);
    assert listed[0] in listed && names[0] in names;
  }

  lemma SharedResolves()
    ensures Resolvable(SHARED_CONFIG, SHARED_POLICY, SHARED_ANSWERS)
  {
    var declared := DeclaredKeys(SHARED_POLICY);
    assert declared == [("p", "n"), ("p", "n")];
    OnlyName(declared);
    SharedAnswer(NamesFor(declared, "p"));
    hide Resolve, NamesFor;
    assert FindProvider(SHARED_CONFIG.providers, "p") == Some(Bws("p", "j"));
  }

  /** Presented in the other letter case than configured. */
  lemma EitherCarries(routes: seq<Proxy.ProxyRoute>, i: nat, value: string)
    requires |routes| == 2 && routes[0].headerName == routes[1].headerName == "x" && i < 2
    ensures Carries(routes, [("X", value)], i, value)
  {
    var headers: seq<Proxy.Header> := [("X", value)];
    assert CaseVariants("X", "x");
    assert Proxy.OffersAt(headers, "x", 0);
    forall j | Proxy.OffersAt(headers, "x", j) ensures j == 0 {}
    hide Proxy.OffersAt;
  }

  lemma SharedServeable(w: World)
    requires w.answers == SHARED_ANSWERS && 0 in w.draws && 1 in w.draws && w.draws[0] != w.draws[1]
    ensures Serveable(SHARED_CONFIG, SHARED_POLICY, w)
    ensures var routes := Served(SHARED_CONFIG, SHARED_POLICY, w);
            |routes| == 2 && routes[0].headerName == "x" && routes[1].headerName == "x"
  {
    SharedPolicyOk();
    SharedResolves();
    hide Validate.PolicyOk, Resolvable, Phantom.Minted, ValueOf;
  }

  lemma SharedWellFormed()
    ensures Validate.WellFormed(SHARED_CONFIG) && Validate.ContextOk(SHARED_CONTEXT)
  {
    SharedPolicyOk();
    assert SHARED_CONTEXT.containerName[0] == 't';
    hide Validate.PolicyOk;
  }

  /** The sidecar starts, and writes what proxy mode writes when its listener gets port 1. */
  function SharedSidecar(): Sidecar.Conditions {
    Sidecar.Conditions(Some("n"), true, true, Some(Readiness.Announced(1)))
  }

  lemma SharedStarts(line: string)
    requires '\n' !in line
    ensures Sidecar.Started(SharedSidecar(), line) == Ok(1)
  {
    Sidecar.ReadinessHandshake(1, []);
    hide Sidecar.Reported, Readiness.Announced;
    var stdout := Readiness.Announced(1);
    assert stdout + [] == stdout;
  }

  lemma SharedLaunched(w: World) returns (l: Launch)
    requires w.answers == SHARED_ANSWERS && w.sidecar == SharedSidecar()
    requires 0 in w.draws && 1 in w.draws && w.draws[0] != w.draws[1]
    ensures SupervisedLaunch(SHARED_CONFIG, SHARED_CONTEXT, SHARED_POLICY, [], w, l)
  {
    SharedServeable(w);
    hide Resolvable, ProvisionedOf, Transfer.Routes, Transfer.Plans, Transfer.PrintDocument, Sidecar.Started,
        Run.Argv, Run.Overlay, Transfer.TargetEntries, DirectEntries, Encode, SharedSidecar;
    hide Validate.PolicyOk;
    var provisioned := ProvisionedOf(SHARED_CONFIG, SHARED_POLICY, w);
    var line := Transfer.PrintDocument(Transfer.Routes(provisioned));
    Transfer.DocumentIsOneLine(Transfer.Routes(provisioned));
    SharedStarts(line);
    l := Launch(Run.Argv(SHARED_CONTEXT, SHARED_POLICY, []),
                Run.Overlay(Run.Overlay(map[], DirectEntries(SHARED_CONFIG, SHARED_POLICY, w.answers)),
                            Transfer.TargetEntries(Transfer.Plans(provisioned), 1)),
                Encode(line) + [0x0A], 1);
  }

  lemma SharedYields(w: World, l: Launch)
    requires w.loaded == Some(SHARED_CONFIG) && w.image && w.status == Run.ExitStatus.Exited(0)
    requires Supervise.Ran(w.supervision) && Supervise.WaitedFor(w.supervision)
    requires SupervisedLaunch(SHARED_CONFIG, SHARED_CONTEXT, SHARED_POLICY, [], w, l)
    ensures Yields(w, Request("d", "c", []), Exited(l, 0))
  {
    SharedWellFormed();
    SupervisedYields(SHARED_CONFIG, SHARED_CONTEXT, SHARED_POLICY, [], w, l);
    assert FindContext(SHARED_CONFIG.contexts, "d") == Some(SHARED_CONTEXT);
    assert FindPolicy(SHARED_CONFIG.policies, "c") == Some(SHARED_POLICY);
    hide YieldsSelected, SupervisedLaunch, Validate.WellFormed, Supervise.Ran, Supervise.WaitedFor;
  }

  lemma DeliveredLine(w: World, l: Launch)
    requires SupervisedLaunch(SHARED_CONFIG, SHARED_CONTEXT, SHARED_POLICY, [], w, l)
    ensures Resolvable(SHARED_CONFIG, SHARED_POLICY, w.answers) && AllDrawn(SHARED_POLICY, w.draws)
    ensures l.delivered
        == Encode(Transfer.PrintDocument(Transfer.Routes(ProvisionedOf(SHARED_CONFIG, SHARED_POLICY, w)))) + [0x0A]
  {
    hide Resolvable, AllDrawn, ProvisionedOf, Encode, Transfer.PrintDocument, Sidecar.Started, Run.Argv, Run.Overlay;
  }

  /** What entry i's phantom is to the target, carried in a request to the proxy. */
  lemma SharedRequest(w: World, l: Launch, parent: map<string, string>, i: nat) returns (request: Proxy.Request)
    requires Serveable(SHARED_CONFIG, SHARED_POLICY, w) && i < 2
    requires Served(SHARED_CONFIG, SHARED_POLICY, w)[0].headerName == "x"
             && Served(SHARED_CONFIG, SHARED_POLICY, w)[1].headerName == "x"
    requires SupervisedLaunch(SHARED_CONFIG, SHARED_CONTEXT, SHARED_POLICY, [], w, l)
    ensures Uri.IsOriginForm(request.target) && Understood(l.delivered).Ok?
    ensures SHARED_POLICY.proxySecrets[i].envName in TargetEnvironment(parent, l)
    ensures Carries(Understood(l.delivered).value, request.headers, i,
                    TargetEnvironment(parent, l)[SHARED_POLICY.proxySecrets[i].envName])
  {
    SharedWellFormed();
    SharedNames();
    hide Validate.WellFormed, Validate.ContextOk, Validate.PolicyOk, SupervisedLaunch, Resolvable, AllDrawn, Served;
    hide TargetEnvironment, Understood, Carries, Encode, Transfer.PrintDocument, Validate.EnvNames, Gives;
    TargetGetsDeclared(SHARED_CONFIG, SHARED_CONTEXT, SHARED_POLICY, [], w, l, parent);
    ProxyServesPolicy(SHARED_CONFIG, SHARED_POLICY, w, []);
    DeliveredLine(w, l);
    assert l.delivered + [] == l.delivered;
    var seen := TargetEnvironment(parent, l)[SHARED_POLICY.proxySecrets[i].envName];
    request := Proxy.Request("/", "GET", [("X", seen)], None);
    EitherCarries(Served(SHARED_CONFIG, SHARED_POLICY, w), i, seen);
  }

  lemma SharedInvocation() returns (w: World)
    ensures w.loaded == Some(SHARED_CONFIG) && w.answers == SHARED_ANSWERS && w.image
            && w.sidecar == SharedSidecar() && w.status == Run.ExitStatus.Exited(0)
    ensures Supervise.Ran(w.supervision) && Supervise.WaitedFor(w.supervision)
    ensures 0 in w.draws && 1 in w.draws && NoneTwice(w.draws)
    ensures w.sidecar.stdout == Some(Readiness.Announced(1) + [])
  {
    assert Readiness.Announced(1) + [] == Readiness.Announced(1);
    hide Readiness.Announced, Supervise.Run, Supervise.Ran, Supervise.WaitedFor;
    var zeros: Entropy, ones: Entropy := seq(Phantom.ENTROPY_BYTES, _ => 0), seq(Phantom.ENTROPY_BYTES, _ => 1);
    assert zeros[0] != ones[0];
    var supervision := Supervise.QuietRun();
    w := World(Some(SHARED_CONFIG), SHARED_ANSWERS, map[0 := zeros, 1 := ones], true, SharedSidecar(), true,
               supervision, Run.ExitStatus.Exited(0));
  }

  /** All the hypotheses of the results above can be met at once, also by entries that share a header name: an
      invocation that runs its target and exits, whatever its parent's environment, and for each of the two entries a
      request that carries what the target got for it. */
  lemma SharedHeaderServed(parent: map<string, string>, i: nat)
    returns (w: World, l: Launch, request: Proxy.Request)
    requires i < 2
    ensures Yields(w, Request("d", "c", []), Exited(l, 0))
    ensures NoneTwice(w.draws)
    ensures w.sidecar.stdout == Some(Readiness.Announced(1) + [])
    ensures Serveable(SHARED_CONFIG, SHARED_POLICY, w) && Validate.ContextOk(SHARED_CONTEXT)
    ensures SupervisedLaunch(SHARED_CONFIG, SHARED_CONTEXT, SHARED_POLICY, [], w, l)
    ensures Uri.IsOriginForm(request.target) && Understood(l.delivered).Ok?
    ensures SHARED_POLICY.proxySecrets[i].envName in TargetEnvironment(parent, l)
    ensures Carries(Understood(l.delivered).value, request.headers, i,
                    TargetEnvironment(parent, l)[SHARED_POLICY.proxySecrets[i].envName])
  {
    hide Served, Carries, Serveable, SupervisedLaunch, Yields, Understood, TargetEnvironment, SharedSidecar;
    hide Supervise.Ran, Supervise.WaitedFor, Validate.ContextOk, Validate.WellFormed, Uri.IsOriginForm;
    w := SharedInvocation();
    SharedWellFormed();
    SharedServeable(w);
    l := SharedLaunched(w);
    SharedYields(w, l);
    request := SharedRequest(w, l, parent, i);
  }
}
