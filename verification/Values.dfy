/** Which raw value a declaration stands for, said by the fields of the policy, the configuration and the answers. */
module Values {
  import opened Wrappers
  import opened Config
  import opened Resolution
  import opened Invocation
  import Sidecar
  import Supervise
  import Transfer
  import Validate

  /** What the first provider with the identifier lists of its project. */
  ghost predicate Answer(config: Config, answers: map<string, Answers>, provider: string, listed: seq<BwsSecret>) {
    && provider in answers
    && exists i :: FirstProvider(config.providers, provider, i)
                   && Lists(answers[provider], config.providers[i].project, listed)
  }

  /** The value listed last under the name in that answer. */
  ghost predicate GivenBy(config: Config, answers: map<string, Answers>, provider: string, name: string,
                          value: string) {
    exists listed: seq<BwsSecret>, i: nat ::
      Answer(config, answers, provider, listed) && LastListed(listed, name, i) && listed[i].value == value
  }

  ghost predicate HasValue(config: Config, answers: map<string, Answers>, provider: string, name: string) {
    exists value :: GivenBy(config, answers, provider, name, value)
  }

  lemma AnswerIs(config: Config, answers: map<string, Answers>, provider: string, listed: seq<BwsSecret>)
    ensures Answer(config, answers, provider, listed)
       <==> && FindProvider(config.providers, provider).Some?
            && Listed(FindProvider(config.providers, provider).value.project, AnswerOf(answers, provider)) == Ok(listed)
  {
    FindProviderFirst(config.providers, provider);
    if FindProvider(config.providers, provider).Some? {
      ListedExactly(FindProvider(config.providers, provider).value.project, AnswerOf(answers, provider));
    }
    hide FindProvider, Listed, Lists, FirstProvider;
    assert !Answers(None, None, map[]).token.Some?;
    hide AnswerOf;
  }

  lemma {:induction false} LastOf(listed: seq<BwsSecret>, key: string) returns (i: nat)
    requires exists s | s in listed :: s.key == key
    ensures LastListed(listed, key, i)
  {
    var n := |listed| - 1;
    if listed[n].key == key {
      i := n;
    } else {
      i := LastOf(listed[..n], key);
    }
  }

  /** A resolved value is the one given under the declaration's provider and name. */
  lemma RawValueGiven(config: Config, declared: seq<Key>, answers: map<string, Answers>, k: Key)
    requires RawValue(config, declared, answers, k).Some?
    ensures GivenBy(config, answers, k.0, k.1, RawValue(config, declared, answers, k).value)
  {
    var p := FindProvider(config.providers, k.0).value;
    var names := NamesFor(declared, k.0);
    var listed := Listed(p.project, AnswerOf(answers, k.0)).value;
    AnswerIs(config, answers, k.0, listed);
    SelectExact(names, listed);
    hide Select, NamesFor, FindProvider, Listed, Answer, AnswerOf;
    var i := LastOf(listed, k.1);
  }

  lemma ValueListed(config: Config, answers: map<string, Answers>, provider: string, name: string,
                    listed: seq<BwsSecret>)
    requires Answer(config, answers, provider, listed) && HasValue(config, answers, provider, name)
    ensures exists s | s in listed :: s.key == name
  {
    var value :| GivenBy(config, answers, provider, name, value);
    var again: seq<BwsSecret>, i: nat :| Answer(config, answers, provider, again) && LastListed(again, name, i);
    AnswerIs(config, answers, provider, listed);
    AnswerIs(config, answers, provider, again);
    hide Answer, FindProvider, Listed, AnswerOf;
    assert listed[i] in listed;
  }

  lemma AnswerHad(config: Config, answers: map<string, Answers>, provider: string, name: string)
    returns (listed: seq<BwsSecret>)
    requires HasValue(config, answers, provider, name)
    ensures Answer(config, answers, provider, listed)
  {
    hide Answer;
    var value :| GivenBy(config, answers, provider, name, value);
    var given: seq<BwsSecret>, i: nat :| Answer(config, answers, provider, given) && LastListed(given, name, i);
    listed := given;
  }

  lemma ValuesGiveRaw(config: Config, declared: seq<Key>, answers: map<string, Answers>, k: Key)
    requires k in declared && forall j | j in declared :: HasValue(config, answers, j.0, j.1)
    ensures RawValue(config, declared, answers, k).Some?
  {
    var listed := AnswerHad(config, answers, k.0, k.1);
    AnswerIs(config, answers, k.0, listed);
    var names := NamesFor(declared, k.0);
    hide HasValue, Answer, Select, NamesFor, FindProvider, Listed, AnswerOf;
    forall n | n in names ensures exists s | s in listed :: s.key == n {
      NamesForCount(declared, (k.0, n));
      assert n in multiset(names) && (k.0, n) in multiset(declared);
      ValueListed(config, answers, k.0, n, listed);
    }
    SelectExact(names, listed);
    NamesForCount(declared, k);
    assert k in multiset(declared) && k.1 in multiset(names);
  }

  /** Every declaration resolves exactly when each has a value under its own provider and secret name. */
  lemma ResolvableExactly(config: Config, policy: CommandPolicy, answers: map<string, Answers>)
    ensures Resolvable(config, policy, answers)
       <==> && (forall s | s in policy.secrets :: HasValue(config, answers, s.provider, s.secretName))
            && (forall p | p in policy.proxySecrets :: HasValue(config, answers, p.provider, p.secretName))
  {
    var keys, n := DeclaredKeys(policy), |policy.secrets|;
    assert forall i | 0 <= i < n :: keys[i] == (policy.secrets[i].provider, policy.secrets[i].secretName);
    assert forall i | 0 <= i < |policy.proxySecrets| ::
        keys[n + i] == (policy.proxySecrets[i].provider, policy.proxySecrets[i].secretName);
    hide DeclaredKeys, RawValue, HasValue, GivenBy;
    if Resolvable(config, policy, answers) {
      forall k | k in keys ensures HasValue(config, answers, k.0, k.1) {
        RawValueGiven(config, keys, answers, k);
        GivenHas(config, answers, k.0, k.1, RawValue(config, keys, answers, k).value);
      }
      forall s | s in policy.secrets ensures HasValue(config, answers, s.provider, s.secretName) {
        var i :| 0 <= i < n && policy.secrets[i] == s;
        assert keys[i] in keys;
      }
      forall p | p in policy.proxySecrets ensures HasValue(config, answers, p.provider, p.secretName) {
        var i :| 0 <= i < |policy.proxySecrets| && policy.proxySecrets[i] == p;
        assert keys[n + i] in keys;
      }
    } else {
      DeclaredHave(config, policy, answers);
    }
  }

  /** A validated invocation of a known command in a known context fails in resolution exactly when a declaration has no
      value. */
  lemma ResolutionFails(w: World, request: Request, r: Outcome, policy: CommandPolicy)
    requires Yields(w, request, r) && w.loaded.Some? && Validate.WellFormed(w.loaded.value)
    requires FindContext(w.loaded.value.contexts, request.context).Some?
    requires FindPolicy(w.loaded.value.policies, request.command) == Some(policy)
    ensures r == Failed(Failure.Resolution)
       <==> || (exists s | s in policy.secrets :: !HasValue(w.loaded.value, w.answers, s.provider, s.secretName))
            || (exists p | p in policy.proxySecrets :: !HasValue(w.loaded.value, w.answers, p.provider, p.secretName))
  {
    ResolvableExactly(w.loaded.value, policy, w.answers);
    hide Resolvable, HasValue, AllDrawn, DirectLaunch, YieldsProvisioned, Validate.WellFormed, FindContext, FindPolicy;
    if Resolvable(w.loaded.value, policy, w.answers) && policy.proxySecrets != [] && AllDrawn(policy, w.draws) {
      NotResolution(w.loaded.value, FindContext(w.loaded.value.contexts, request.context).value, policy, request.args,
                    w, ProvisionedOf(w.loaded.value, policy, w), r);
    }
  }

  lemma NotResolution(config: Config, context: DockerContext, policy: CommandPolicy, args: seq<string>, w: World,
                      provisioned: seq<Transfer.ProvisionedProxySecret>, r: Outcome)
    requires YieldsProvisioned(config, context, policy, args, w, provisioned, r)
    ensures r != Failed(Failure.Resolution)
  {
    hide SupervisedLaunch, Sidecar.Started, Supervise.Ran, Supervise.WaitedFor, Transfer.PrintDocument;
  }

  lemma GivenHas(config: Config, answers: map<string, Answers>, provider: string, name: string, value: string)
    requires GivenBy(config, answers, provider, name, value)
    ensures HasValue(config, answers, provider, name)
  {
  }

  lemma DeclaredHave(config: Config, policy: CommandPolicy, answers: map<string, Answers>)
    requires !Resolvable(config, policy, answers)
    ensures || (exists s | s in policy.secrets :: !HasValue(config, answers, s.provider, s.secretName))
            || (exists p | p in policy.proxySecrets :: !HasValue(config, answers, p.provider, p.secretName))
  {
    var keys, n := DeclaredKeys(policy), |policy.secrets|;
    assert forall i | 0 <= i < n :: keys[i] == (policy.secrets[i].provider, policy.secrets[i].secretName);
    assert forall i | n <= i < |keys| ::
        keys[i] == (policy.proxySecrets[i - n].provider, policy.proxySecrets[i - n].secretName);
    hide DeclaredKeys, RawValue, HasValue, GivenBy;
    var k :| k in keys && RawValue(config, keys, answers, k).None?;
    if forall j | j in keys :: HasValue(config, answers, j.0, j.1) {
      ValuesGiveRaw(config, keys, answers, k);
    }
    var j :| j in keys && !HasValue(config, answers, j.0, j.1);
    var i :| 0 <= i < |keys| && keys[i] == j;
    if i < n {
      assert policy.secrets[i] in policy.secrets;
    } else {
      assert policy.proxySecrets[i - n] in policy.proxySecrets;
    }
  }
}
