/** The configuration entities of src/config: identifiers are plain strings here. */
module Config {
  import opened Wrappers

  datatype Provider = Bws(id: string, project: string)

  datatype DockerContext = DockerContext(id: string, runtime: string, user: string, workdir: string,
                                         containerName: string)

  datatype SecretSpec = SecretSpec(envName: string, provider: string, secretName: string)

  datatype InjectHeader = InjectHeader(name: string, template: string)

  datatype ProxySecretSpec = ProxySecretSpec(
    envName: string, provider: string, secretName: string,
    upstream: string, baseUrlEnv: string, injectHeader: InjectHeader)

  datatype CommandPolicy = CommandPolicy(id: string, secrets: seq<SecretSpec>, proxySecrets: seq<ProxySecretSpec>)

  datatype Config = Config(providers: seq<Provider>, contexts: seq<DockerContext>, policies: seq<CommandPolicy>)

  /** The first entry under an identifier. */
  function FirstWith<T(!new)>(id: string, entries: seq<T>, idOf: T -> string): (r: Option<T>)
    ensures r.Some? ==> r.value in entries && idOf(r.value) == id
    ensures r.None? <==> forall x | x in entries :: idOf(x) != id
  {
    if entries == [] then None
    else if idOf(entries[0]) == id then Some(entries[0])
    else FirstWith(id, entries[1..], idOf)
  }

  function FindProvider(providers: seq<Provider>, id: string): (r: Option<Provider>)
    ensures r.Some? ==> r.value in providers && r.value.id == id
    ensures r.None? <==> forall p | p in providers :: p.id != id
  {
    FirstWith(id, providers, (p: Provider) => p.id)
  }

  /** Position i holds the first provider of the identifier. */
  ghost predicate FirstProvider(providers: seq<Provider>, id: string, i: int) {
    0 <= i < |providers| && providers[i].id == id && forall j | 0 <= j < i :: providers[j].id != id
  }

  lemma {:induction false} FindProviderFirst(providers: seq<Provider>, id: string)
    ensures forall i | FirstProvider(providers, id, i) :: FindProvider(providers, id) == Some(providers[i])
    ensures FindProvider(providers, id).Some? ==> exists i :: FirstProvider(providers, id, i)
  {
    if providers != [] && providers[0].id != id {
      FindProviderFirst(providers[1..], id);
      assert FindProvider(providers, id) == FindProvider(providers[1..], id);
      forall i | FirstProvider(providers, id, i) ensures FindProvider(providers, id) == Some(providers[i]) {
        assert FirstProvider(providers[1..], id, i - 1);
      }
      if i :| FirstProvider(providers[1..], id, i) {
        assert FirstProvider(providers, id, i + 1);
      }
    } else if providers != [] {
      assert FirstProvider(providers, id, 0);
    }
  }

  function FindContext(contexts: seq<DockerContext>, id: string): (r: Option<DockerContext>)
    ensures r.Some? ==> r.value in contexts && r.value.id == id
    ensures r.None? <==> forall c | c in contexts :: c.id != id
  {
    FirstWith(id, contexts, (c: DockerContext) => c.id)
  }

  function FindPolicy(policies: seq<CommandPolicy>, id: string): (r: Option<CommandPolicy>)
    ensures r.Some? ==> r.value in policies && r.value.id == id
    ensures r.None? <==> forall p | p in policies :: p.id != id
  {
    FirstWith(id, policies, (p: CommandPolicy) => p.id)
  }
}
