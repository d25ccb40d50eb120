/** Which secrets are resolved, from whom, and with what answer: the grouping in src/main.rs
    `execute` and the selection in src/bws.rs `resolve`. */
module Resolution {
  import opened Wrappers
  import opened Config
  import Validate

  /** One declared secret: the provider it names and its name there. */
  type Key = (string, string)

  type Group = (string, seq<string>)

  function SecretKey(secret: SecretSpec): Key { (secret.provider, secret.secretName) }

  function ProxyKey(proxy: ProxySecretSpec): Key { (proxy.provider, proxy.secretName) }

  function SecretKeys(secrets: seq<SecretSpec>): seq<Key> {
    seq(|secrets|, i requires 0 <= i < |secrets| => SecretKey(secrets[i]))
  }

  function ProxyKeys(proxies: seq<ProxySecretSpec>): seq<Key> {
    seq(|proxies|, i requires 0 <= i < |proxies| => ProxyKey(proxies[i]))
  }

  function DeclaredKeys(policy: CommandPolicy): seq<Key> {
    SecretKeys(policy.secrets) + ProxyKeys(policy.proxySecrets)
  }

  // ----- Grouping -----

  /** The names declared for one provider, in declaration order. */
  function NamesFor(declared: seq<Key>, provider: string): seq<string> {
    if declared == [] then []
    else
      var names := NamesFor(declared[..|declared| - 1], provider);
      if declared[|declared| - 1].0 == provider then names + [declared[|declared| - 1].1] else names
  }

  /** The providers, each once, in the order they are first named. */
  function Providers(declared: seq<Key>): seq<string> {
    if declared == [] then []
    else
      var before := Providers(declared[..|declared| - 1]);
      if declared[|declared| - 1].0 in before then before else before + [declared[|declared| - 1].0]
  }

  function GroupsOf(declared: seq<Key>): (groups: seq<Group>)
    ensures |groups| == |Providers(declared)|
    ensures forall i | 0 <= i < |groups| :: groups[i].0 == Providers(declared)[i]
    ensures forall i | 0 <= i < |groups| :: groups[i].1 == NamesFor(declared, groups[i].0)
  {
    var providers := Providers(declared);
    seq(|providers|, i requires 0 <= i < |providers| => (providers[i], NamesFor(declared, providers[i])))
  }

  lemma {:induction false} ProvidersDistinct(declared: seq<Key>)
    ensures Validate.Distinct(Providers(declared))
    ensures forall p :: p in Providers(declared) <==> exists k | k in declared :: k.0 == p
    ensures forall p :: p !in Providers(declared) ==> NamesFor(declared, p) == []
  {
    if declared != [] {
      var front, last := declared[..|declared| - 1], declared[|declared| - 1];
      ProvidersDistinct(front);
      assert declared == front + [last];
      assert last in declared;
    }
  }

  lemma DeclareOne(before: seq<Key>, k: Key)
    ensures Providers(before + [k]) == if k.0 in Providers(before) then Providers(before) else Providers(before) + [k.0]
    ensures forall p :: NamesFor(before + [k], p) == NamesFor(before, p) + if p == k.0 then [k.1] else []
  {
    assert (before + [k])[..|before|] == before;
  }

  lemma ExtendGroup(before: seq<Key>, k: Key, g: nat)
    requires g < |Providers(before)| && Providers(before)[g] == k.0
    ensures GroupsOf(before + [k]) == GroupsOf(before)[g := (k.0, GroupsOf(before)[g].1 + [k.1])]
  {
    DeclareOne(before, k);
    ProvidersDistinct(before);
    hide NamesFor, Providers, GroupsOf;
    var ps := Providers(before);
    var l, r := GroupsOf(before + [k]), GroupsOf(before)[g := (k.0, GroupsOf(before)[g].1 + [k.1])];
    forall i | 0 <= i < |ps| ensures l[i] == r[i] {
      assert i < g ==> ps[i] != ps[g];
      assert i > g ==> ps[g] != ps[i];
      assert l[i].0 == r[i].0 == ps[i];
      assert l[i].1 == NamesFor(before + [k], ps[i]) == r[i].1;
    }
  }

  lemma NewGroup(before: seq<Key>, k: Key)
    requires k.0 !in Providers(before)
    ensures GroupsOf(before + [k]) == GroupsOf(before) + [(k.0, [k.1])]
  {
    DeclareOne(before, k);
    ProvidersDistinct(before);
    hide NamesFor, Providers, GroupsOf;
    var ps := Providers(before);
    var l, r := GroupsOf(before + [k]), GroupsOf(before) + [(k.0, [k.1])];
    forall i | 0 <= i < |ps| ensures l[i] == r[i] {
      assert ps[i] in ps;
      assert l[i].0 == r[i].0 == ps[i];
      assert l[i].1 == NamesFor(before + [k], ps[i]) == r[i].1;
    }
    assert l[|ps|].0 == k.0;
    assert l[|ps|].1 == NamesFor(before + [k], k.0) == [k.1];
  }

  /** `iter_mut().find` */
  method FindGroup(groups: seq<Group>, provider: string) returns (r: Option<nat>)
    ensures r.Some? ==> r.value < |groups| && groups[r.value].0 == provider
    ensures r.None? ==> forall i | 0 <= i < |groups| :: groups[i].0 != provider
  {
    for i := 0 to |groups|
      invariant forall j | 0 <= j < i :: groups[j].0 != provider
    {
      if groups[i].0 == provider { return Some(i); }
    }
    r := None;
  }

  /** The grouping loop: one group per distinct provider, in first-named order, each with its
      own names in declaration order. */
  method GroupByProvider(declared: seq<Key>) returns (groups: seq<Group>)
    ensures groups == GroupsOf(declared)
  {
    groups := [];
    for i := 0 to |declared|
      invariant groups == GroupsOf(declared[..i])
    {
      ghost var before := declared[..i];
      var (provider, name) := declared[i];
      assert declared[..i + 1] == before + [declared[i]];
      var found := FindGroup(groups, provider);
      if found.Some? {
        ExtendGroup(before, declared[i], found.value);
        groups := groups[found.value := (provider, groups[found.value].1 + [name])];
      } else {
        assert forall j | 0 <= j < |groups| :: groups[j].0 == Providers(before)[j];
        NewGroup(before, declared[i]);
        groups := groups + [(provider, [name])];
      }
    }
    assert declared[..|declared|] == declared;
  }

  lemma {:induction false} NamesForCount(declared: seq<Key>, k: Key)
    ensures multiset(NamesFor(declared, k.0))[k.1] == multiset(declared)[k]
  {
    if declared != [] {
      var front, last := declared[..|declared| - 1], declared[|declared| - 1];
      NamesForCount(front, k);
      assert declared == front + [last];
    }
  }

  /** The groups partition the declarations: no provider has two groups, and every declaration
      occurs in its provider's group as often as it was declared and in no other group. */
  lemma GroupsPartition(declared: seq<Key>)
    ensures var groups := GroupsOf(declared);
            && (forall i, j | 0 <= i < j < |groups| :: groups[i].0 != groups[j].0)
            && (forall k | k in declared :: exists i | 0 <= i < |groups| :: groups[i].0 == k.0)
            && (forall i, name | 0 <= i < |groups| ::
                  multiset(groups[i].1)[name] == multiset(declared)[(groups[i].0, name)])
  {
    var groups := GroupsOf(declared);
    ProvidersDistinct(declared);
    forall k | k in declared ensures exists i | 0 <= i < |groups| :: groups[i].0 == k.0 {
      assert k.0 in Providers(declared);
      var i :| 0 <= i < |groups| && Providers(declared)[i] == k.0;
      assert groups[i].0 == k.0;
    }
    forall i, name | 0 <= i < |groups| ensures multiset(groups[i].1)[name] == multiset(declared)[(groups[i].0, name)] {
      NamesForCount(declared, (groups[i].0, name));
    }
  }

  // ----- Resolution by one provider -----

  datatype BwsProject = BwsProject(id: string, name: string)
  datatype BwsSecret = BwsSecret(key: string, value: string)

  /** What the token command and the `bws` subprocesses answer; None is any failure of theirs. */
  datatype Answers = Answers(token: Option<string>, projects: Option<seq<BwsProject>>,
                             secrets: map<string, seq<BwsSecret>>)

  datatype ResolveError = Acquisition | Cli | UnknownProject | UnknownSecret(name: string)

  type Secrets = map<string, string>

  /** Filtering and collecting: a later entry of the same key replaces an earlier one. */
  function Collect(names: seq<string>, listed: seq<BwsSecret>): Secrets {
    if listed == [] then map[]
    else
      var before := Collect(names, listed[..|listed| - 1]);
      var last := listed[|listed| - 1];
      if last.key in names then before[last.key := last.value] else before
  }

  function FirstMissing(names: seq<string>, found: Secrets): (r: Option<string>)
    ensures r.None? <==> forall n | n in names :: n in found
    ensures r.Some? ==> r.value in names && r.value !in found
  {
    if names == [] then None
    else if names[0] !in found then Some(names[0])
    else FirstMissing(names[1..], found)
  }

  function Select(names: seq<string>, listed: seq<BwsSecret>): Result<Secrets, ResolveError> {
    var resolved := Collect(names, listed);
    match FirstMissing(names, resolved)
    case None => Ok(resolved)
    case Some(name) => Err(UnknownSecret(name))
  }

  function FindProject(projects: seq<BwsProject>, name: string): Option<BwsProject> {
    if projects == [] then None else if projects[0].name == name then Some(projects[0])
      else FindProject(projects[1..], name)
  }

  /** Position i holds the first project of the name. */
  ghost predicate FirstProject(projects: seq<BwsProject>, name: string, i: int) {
    0 <= i < |projects| && projects[i].name == name && forall j | 0 <= j < i :: projects[j].name != name
  }

  lemma {:induction false} FindProjectFirst(projects: seq<BwsProject>, name: string)
    ensures forall i | FirstProject(projects, name, i) :: FindProject(projects, name) == Some(projects[i])
    ensures FindProject(projects, name).Some? ==> exists i :: FirstProject(projects, name, i)
    ensures FindProject(projects, name).None? <==> forall p | p in projects :: p.name != name
  {
    if projects != [] && projects[0].name != name {
      FindProjectFirst(projects[1..], name);
      forall i | FirstProject(projects, name, i) ensures FindProject(projects, name) == Some(projects[i]) {
        assert FirstProject(projects[1..], name, i - 1);
      }
      if i :| FirstProject(projects[1..], name, i) {
        assert FirstProject(projects, name, i + 1);
      }
    } else if projects != [] {
      assert FirstProject(projects, name, 0);
    }
  }

  /** The whole secret list of the project, as parsed. */
  function Listed(project: string, a: Answers): Result<seq<BwsSecret>, ResolveError> {
    if a.token.None? || a.token.value == "" then Err(Acquisition)
    else if a.projects.None? then Err(Cli)
    else
      match FindProject(a.projects.value, project)
      case None => Err(UnknownProject)
      case Some(p) => if p.id !in a.secrets then Err(Cli) else Ok(a.secrets[p.id])
  }

  /** A token that is not empty, a project list, and the secret list of the first project of the name. */
  ghost predicate Lists(a: Answers, project: string, listed: seq<BwsSecret>) {
    && a.token.Some? && a.token.value != "" && a.projects.Some?
    && exists i :: && FirstProject(a.projects.value, project, i) && a.projects.value[i].id in a.secrets
                   && listed == a.secrets[a.projects.value[i].id]
  }

  ghost predicate NoSuchProject(a: Answers, project: string) {
    a.projects.Some? && forall p | p in a.projects.value :: p.name != project
  }

  /** A listing is had exactly as said, and each way of failing has its own error. */
  lemma ListedExactly(project: string, a: Answers)
    ensures forall listed :: Listed(project, a) == Ok(listed) <==> Lists(a, project, listed)
    ensures Listed(project, a) == Err(Acquisition) <==> a.token == None || a.token == Some("")
    ensures Listed(project, a) == Err(UnknownProject)
       <==> a.token != None && a.token != Some("") && NoSuchProject(a, project)
    ensures Listed(project, a).Err? ==> Listed(project, a).error in {Acquisition, UnknownProject, Cli}
  {
    if a.projects.Some? { FindProjectFirst(a.projects.value, project); }
  }

  /** `resolve` */
  function Resolve(project: string, names: seq<string>, a: Answers): Result<Secrets, ResolveError> {
    match Listed(project, a)
    case Err(e) => Err(e)
    case Ok(listed) => Select(names, listed)
  }

  /** The raw values a provider's listing owns. */
  function ListedKeys(provider: string, listed: seq<BwsSecret>): seq<Key> {
    seq(|listed|, i requires 0 <= i < |listed| => (provider, listed[i].key))
  }

  /** A complete answer lists everything requested. */
  lemma AnswerListsRequested(provider: string, names: seq<string>, listed: seq<BwsSecret>)
    requires Select(names, listed).Ok?
    ensures forall n | n in names :: (provider, n) in ListedKeys(provider, listed)
    ensures forall k | k in ListedKeys(provider, listed) :: k.0 == provider
  {
    SelectExact(names, listed);
    hide Select;
    var keys := ListedKeys(provider, listed);
    forall n | n in names ensures (provider, n) in keys {
      var s :| s in listed && s.key == n;
      var i :| 0 <= i < |listed| && listed[i] == s;
      assert keys[i] == (provider, n);
    }
  }

  /** Entry i is the last one listed under its key. */
  ghost predicate LastListed(listed: seq<BwsSecret>, key: string, i: nat) {
    i < |listed| && listed[i].key == key && forall j | i < j < |listed| :: listed[j].key != key
  }

  lemma {:induction false} CollectMeaning(names: seq<string>, listed: seq<BwsSecret>)
    ensures forall k :: k in Collect(names, listed) <==> k in names && exists s | s in listed :: s.key == k
    ensures forall k, i: nat | k in names && LastListed(listed, k, i) ::
        k in Collect(names, listed) && Collect(names, listed)[k] == listed[i].value
  {
    if listed != [] {
      var n := |listed| - 1;
      var front, last := listed[..n], listed[n];
      CollectMeaning(names, front);
      assert listed == front + [last] && last in listed;
      forall k, i: nat | k in names && LastListed(listed, k, i)
        ensures k in Collect(names, listed) && Collect(names, listed)[k] == listed[i].value
      {
        if i < n {
          assert LastListed(front, k, i);
        }
      }
    }
  }

  /** Resolution is exact: it succeeds exactly when every requested name is listed; the result has
      the requested names and no others, each with the value listed last; a failure names a
      requested secret that is not listed. */
  lemma SelectExact(names: seq<string>, listed: seq<BwsSecret>)
    ensures var r := Select(names, listed);
            && (r.Ok? <==> forall n | n in names :: exists s | s in listed :: s.key == n)
            && (r.Ok? ==> forall k :: k in r.value <==> k in names)
            && (r.Ok? ==> forall k, i: nat | k in names && LastListed(listed, k, i) :: r.value[k] == listed[i].value)
            && (r.Err? ==> r.error.UnknownSecret? && r.error.name in names && forall s | s in listed ::
                  s.key != r.error.name)
  {
    CollectMeaning(names, listed);
  }

  lemma ResolveKeys(project: string, names: seq<string>, a: Answers)
    ensures Resolve(project, names, a).Ok? ==> forall k :: k in Resolve(project, names, a).value <==> k in names
  {
    var listed := Listed(project, a);
    if listed.Ok? {
      SelectExact(names, listed.value);
    }
  }
}
