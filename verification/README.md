# A verified model of iwaya

iwaya runs a command inside a container and delivers the secrets its policy declares. Direct secrets go into the
command's environment. Proxy-backed ones do not: the command gets a phantom, minted for this invocation, and the URL
of a sidecar proxy; the proxy swaps the phantom for the raw value on the way to the configured upstream. This project
models that path from configuration to upstream and proves what it guarantees.

The modules follow the program:

- `Config`, `Validate`, `Origin`: the configuration entities, whole-configuration validation, the http(s) origin rule.
- `Resolution`: grouping the declarations by provider, and one provider's answer.
- `Phantom`, `Utf8`, `Text`, `Template`: minting and comparing phantoms, string encodings, the placeholder of an
  injected header.
- `Json`, `JsonValue`, `JsonText`: JSON by RFC 8259: reading and compact writing, how a derived struct is read from a
  value, and the grammar the reader is proved to accept exactly.
- `Transfer`, `Readiness`: the one line the supervisor sends to the proxy and the one line it gets back.
- `Proxy`, `Uri`: selecting a route, the outbound request, the start of proxy mode.
- `Run`, `Supervise`: argv and environment of the runtime, and supervising it as an interleaving of the waiting
  thread, the relay and the system.
- `Sidecar`, `Protocol`, `Journal`, `Invocation`: one invocation. `Protocol` says which logs of events an invocation
  may leave (order of stages, sidecar lifetime, copies of raw values) and proves properties of every such log.
  `Journal` is an object that can only record what `Protocol` allows. `Invocation.Execute` drives it, with every
  outside step free to fail, and its contract gives the one outcome of every world. A supervised target ends with a
  whole `Supervise` run.
- `Values`: which raw value a declaration stands for, by the fields of policy, configuration and answers.
- `Delivery`: what both launch paths put into the runtime client's environment, and what of it the argv forwards to
  the target.
- `EndToEnd`, `SharedHeader`: the composed result, from an invocation's launch to the upstream request, and an
  invocation that meets all its hypotheses, with a policy whose entries share a header.
- `ImageFile`, `Elf`, `Maps`, `Canonical`, `ImageMaterial`, `ImageTag`: what goes into the proxy image and the bytes
  its tag digests.

Where the source updates something in place, so does the model: loops keep their shape and are proved against
functions of their inputs, and the lemmas are about those functions. The character classes, names, numbers and lookups
those functions rest on are pinned by statements that do not use them: code points, positions, literal texts. Most of
these are called `...Exactly`.

## Findings

- `src/proxy.rs:383-407` withholds a fixed list of hop-by-hop names. Section 7.6.1 of RFC 9110 also wants removed the
  fields that the request's own `Connection` options nominate, and `Proxy-Connection`. These travel on to the
  upstream: `Proxy.HopByHopTravels` gives a request that goes out with both, and `Proxy.HopByHopWithheld` says exactly
  when none gets through.
- `src/proxy_image.rs:192-207` takes each length from the file's metadata and the content from reading. The encoding
  can be undone exactly when the two agree for every file (`ImageTag.EncodingReadsBack`). Without that, any file that
  grows in between by the encoding of further files feeds the bytes of the list with those files added
  (`ImageTag.LengthDisagreementCollides`), also among lists that collection produces for a binary the code accepts
  (`ImageTag.CollectedListsCollide`).
- A pathname survives `/proc/self/maps` exactly when it contains no newline, which the kernel escapes, and, unless the
  kernel's deletion marker follows it, ends neither in that marker nor in a carriage return, which
  `src/proxy_image.rs:102-103` strips as part of a line ending (`Maps.PathnameSurvives`).
- `src/proxy_image.rs:330-331` says the image is built before any secret is resolved. `execute` resolves first
  (`src/main.rs:224-283`); the model follows the code.
- While a provider's answer is filtered, the supervisor owns the raw value of every secret in the provider's project,
  declared or not (`src/bws.rs:132-147`). A run can own an undeclared value exactly when something is declared for the
  same provider (`Protocol.UndeclaredOwned`). `Protocol.CopiesBounded` therefore bounds copies outside that answer,
  and `Protocol.ListingOnlyWhileAsking` says when there can be one.
- `src/sidecar.rs:100-103` says that a flood without a newline ends in the unusable-readiness rejection. It does not
  when the bytes within the cap are a readiness object padded with white space (`Sidecar.PaddedFloodAccepted`), and it
  ends in a read failure when they are not UTF-8; `Sidecar.FloodIsCapped` gives the outcome of every flood.
- A signal taken from the queue before the handle closes can still be sent after the child has been reaped
  (`Supervise.SendAfterReap`); `Supervise.StrayWindow` says exactly between which steps.
- The argv can be read back exactly when the container name is positional (`Run.ArgvReadsBack`), which validation
  ensures.

## Model

| member | source | states |
|---|---|---|
| `EndToEnd.PhantomBecomesItsSecret` | src/main.rs:268-310 | for a supervised launch with non-repeating entropy, the target gets exactly the declared names with their own values through the argv, and a request that carries the value so forwarded under entry i's name, once under entry i's header in any letter case, selects entry i also among entries sharing that header, and leaves for upstream i with the caller's headers that are not withheld, in order, then raw value i in template i, and with a body exactly when the caller sends one, or is refused exactly when the HTTP library refuses it; raw value i is the one listed last under entry i's secret name in its provider's answer |
| `EndToEnd.TargetReachesProxy` | src/transfer.rs:116-129 | if the sidecar writes what proxy mode writes for its listener, then anything, every base-url name in the target has the URL of that listener |
| `EndToEnd.SecretsKeepTheirUpstream` | src/proxy.rs:258-364 | whatever a caller sends, a request that goes out carries one entry's raw value, given by that entry's own provider and secret name, to that entry's own upstream, in its own header, its phantom was the single match, and the rest of its headers are the caller's that are not withheld |
| `EndToEnd.ServedGiven` | src/main.rs:268-275 | entry i serves the value listed last under the secret name it declares, in the answer of the provider it declares |
| `EndToEnd.ProxyServesPolicy` | src/transfer.rs:58-110 | the delivered line, read by one-line framing and parsed, yields exactly the policy's entries in order, each with its own header, template, upstream, phantom and raw value, and never an invalid upstream |
| `EndToEnd.SupervisedServes` | src/main.rs:264-311 | an invocation whose supervised target ran, waited for or not, had a validated policy, resolved secrets and the launch the other results start from |
| `EndToEnd.ReplacedServes` | src/main.rs:253-262 | an invocation that replaced its process had a validated policy whose secrets are all direct, and the launch the delivery results start from |
| `Delivery.LaunchSets` | src/run.rs:84-140 | both paths start the same argv and set exactly the injected entries, in order |
| `Delivery.ClientEnvironment` | src/run.rs:84-148 | for every validated policy on either path, the runtime client sees each direct secret's own value, each proxy-backed name's phantom, the proxy URL under each base-url name, and otherwise its parent's environment |
| `Delivery.ArgvNamesEnvironment` | src/run.rs:34-67 | on either path the names passed with `--env` are exactly the declared names and exactly the names set in the client's environment, and the argv gives back user, workdir, container, command and arguments |
| `Delivery.TargetGetsDeclared` | src/run.rs:30-67 | the target gets through the argv exactly the declared names: a direct one with the value listed last under its secret name in the answer of its provider, a proxy-backed one with its phantom, a base-url name with the loopback URL of the port, whatever the invoking environment holds |
| `Values.ResolvableExactly` | src/main.rs:202-237 | every declaration resolves exactly when each has a value listed under its own secret name in the answer of its own provider |
| `Values.ResolutionFails` | src/main.rs:224-237 | a validated invocation of a known command and context fails in resolution exactly when some declaration has no such value |
| `Values.RawValueGiven` | src/main.rs:239-251 | a resolved value is the one listed last under the declared name |
| `Values.AnswerIs` | src/main.rs:226-236 | the answer used is the listing of the project configured for the first provider with the declared identifier |
| `SharedHeader.SharedHeaderServed` | src/config/validate.rs:92-110 | an invocation of a validated configuration whose two entries share a header name, which runs its target and exits; it meets all the hypotheses above for either entry, with a request that carries what the target got for it, whatever the parent environment |
| `EndToEnd.PhantomsApart` | src/phantom.rs:31-42 | no two entries of one invocation have the same phantom |
| `Invocation.Execute` | src/main.rs:189-311 | every world has one outcome: each failure for its own cause and in the code's order, a replacement or a supervised run otherwise with the right argv, environment, delivered line and exit code; the log obeys the protocol, holds the supervision of a target that ran, and ends by returning or replacing |
| `Invocation.OneOutcome` | src/main.rs:189-311 | no world has two outcomes |
| `Invocation.Load` | src/main.rs:190-193 | a configuration is loaded exactly when it is there and well-formed, and only then does the log say validated |
| `Invocation.ResolveAll` | src/main.rs:224-237 | succeeds exactly when every declaration has a value, and then the map answers every declaration and its copies are exactly these |
| `Invocation.ResolveGroup` | src/main.rs:226-236 | one group asks its own provider, which is recorded whether or not it answers, succeeds exactly when the answer is complete, and resolves exactly its declarations |
| `Invocation.Ask` | src/bws.rs:120-143 | the ask is recorded before any answer; a parsed listing is owned with every secret it names, a failed one leaves nothing |
| `Invocation.Take` | src/bws.rs:144-159 | a complete listing leaves exactly the requested values in the resolver map and drops the rest, an incomplete one is dropped whole |
| `Invocation.CollectEnvironment` | src/main.rs:247-251 | each direct declaration gets its own value, and the environment then holds exactly the plan's direct copies |
| `Invocation.ProvisionOne` | src/transfer.rs:58-68 | succeeds exactly when the draw does and binds the spec to the value under the phantom minted from it |
| `Invocation.ProvisionAll` | src/main.rs:268-275 | succeeds exactly when every draw does; each secret is bound to its own value and its own phantom, and the proxied copies held are exactly the declared ones |
| `Invocation.ProvisionPolicy` | src/main.rs:268-279 | succeeds exactly when every draw does, with the policy's secrets in order, and then the proxied copies are the only ones beside the direct environment |
| `Invocation.DropResolved` | src/main.rs:276-279 | the resolver map's copies go and nothing else does |
| `Invocation.Serialize` | src/main.rs:284-288 | after serialization the transfer line holds the only proxy-backed copies |
| `Invocation.SuperviseRuntime` | src/run.rs:125-140 | the argv, the two environments laid over each other in order, and the exit code exactly when the supervision waited for the runtime; a runtime that ran leaves its whole supervision in the log |
| `Invocation.RunTarget` | src/main.rs:298-310 | the transfer line goes before the target runs, which gets the direct entries and then the proxy entries for the sidecar's port |
| `Invocation.RunSupervised` | src/main.rs:298-311 | the target runs and the sidecar goes after it on every path |
| `Invocation.StartAndRun` | src/main.rs:284-311 | with the image prepared: serialize, start the sidecar or fail with nothing owned, then run |
| `Invocation.RunProxied` | src/main.rs:264-311 | the proxy-backed order with each of its failures |
| `Invocation.RunDirect` | src/main.rs:253-262 | a direct-only policy replaces the process with the right argv and environment, or fails with nothing left owned |
| `Invocation.ExecRuntime` | src/run.rs:84-99 | the replacement has the policy's argv, exactly the direct entries and nothing else, and comes back exactly when it failed |
| `Invocation.Leave` | src/main.rs:189-311 | leaving early releases every holder of a raw value before returning |
| `Protocol.AskFollowsValidation` | src/main.rs:190-237 | in every run a provider is asked only after validation, never twice, and only if something is declared for it, whatever it answers |
| `Protocol.ResolutionFollowsAsk` | src/main.rs:226-236 | in every run only an asked provider resolves anything, and only what is declared |
| `Protocol.TargetFollowsResolution` | src/main.rs:202-262 | in every run every declared secret is resolved before the target runs, replaced or supervised |
| `Protocol.SupervisedFollowsReadiness` | src/main.rs:264-310 | no supervised target before sidecar readiness, and no unsupervised target when a secret is proxy-backed |
| `Protocol.SpawnFollowsImage` | src/main.rs:268-296 | no sidecar before its image is prepared and every declared secret is resolved, and no readiness before the spawn |
| `Protocol.TargetFollowsHandover` | src/main.rs:284-310 | a supervised target starts only after the transfer line is dropped, when no value is owned more often than it is declared directly |
| `Protocol.EndsOnce` | src/main.rs:189-311 | validation happens once, a return follows the supervision of a started target, and returning or replacing is the last event |
| `Protocol.OneTeardown` | src/sidecar.rs:131-146 | by the time an invocation returns its sidecar was spawned once and removed once, and there was no other |
| `Protocol.TeardownLast` | src/main.rs:300-310 | the removal comes after the spawn and, if a target was started, after a supervision of it that has returned: handle closed, relay joined, child reaped, or after a failed wait killed and waited for again; no target starts later |
| `Protocol.CopiesBounded` | src/secret.rs:32-73 | at every moment, outside the answer of the provider being asked, the copies of a raw value are bounded by its declarations, and an undeclared value has none |
| `Protocol.CopiesAreResolved` | src/main.rs:224-251 | in every run a copy outside an answer has a resolution in the log before it |
| `Protocol.ListingOnlyWhileAsking` | src/bws.rs:132-147 | a listing is owned only between the ask and its resolution or the return after its failure, before any sidecar or target |
| `Protocol.UndeclaredOwned` | src/bws.rs:132-147 | some run owns a value the policy does not declare exactly when the policy declares something of the same provider |
| `Protocol.NoProxyCopiesAfterHandover` | src/main.rs:276-298 | from the drop of a ready sidecar's transfer line on, a value is owned at most as often as it is declared directly, listings included |
| `Protocol.ReturnOwnsNothing` | src/main.rs:189-311 | every return leaves zero copies of every value, listings included |
| `Protocol.StagesRemembered` | src/main.rs:189-311 | what a run's state says of validation, resolution, readiness and the target is in its log |
| `Protocol.RunAccounts` | src/main.rs:224-298 | the per-holder copy bounds are kept by every event of every run |
| `Journal.Journal.Record` | src/main.rs:189-311 | only an event the protocol allows now can be recorded, and the state moves as the protocol says |
| `Journal.Journal.Gain` | src/secret.rs:32-36 | copies arrive at one holder within what is declared and no other holder changes |
| `Journal.Journal.Move` | src/main.rs:284-288 | copies change hands without being duplicated |
| `Journal.Journal.HandOver` | src/main.rs:298 | the line is dropped only when it is the last proxy-backed holder |
| `Sidecar.StartSidecar` | src/sidecar.rs:48-119 | the outcome of a start for all conditions, whatever JSON the readiness line is; a failure after the spawn has removed the container, a success is ready with the reported port and was sent the line and its newline |
| `Sidecar.Sidecar.Teardown` | src/sidecar.rs:131-146 | the sidecar that was up is removed once, and nothing else changes |
| `Sidecar.ReadinessHandshake` | src/sidecar.rs:104-118 | the readiness line for every u16 port is understood within the cap, whatever follows it |
| `Sidecar.ReportedExactly` | src/sidecar.rs:100-118 | a port is reported exactly when stdout can be read and the first line of its first 256 bytes is the UTF-8 of a readiness object; a read error is a failure |
| `Sidecar.ReportedErrors` | src/sidecar.rs:105-116 | each way of reporting no port has its own condition: nothing written, a stream or UTF-8 failure, a line that is no readiness object |
| `Sidecar.FloodIsCapped` | src/sidecar.rs:100-118 | nothing beyond the cap influences the outcome, and a stream without a newline within it is accepted exactly when the bytes within it are a readiness object |
| `Sidecar.PaddedFloodAccepted` | src/sidecar.rs:100-118 | for every port, a newline-less flood that starts with a readiness object padded with spaces is taken for readiness |
| `Supervise.RelaySafety` | src/run.rs:155-204 | over every interleaving: handlers before the child, only caught signals forwarded and only after spawn, every caught kind is queued, in the relay's hand or forwarded, and the handle closes only after the wait returned or the spawn failed |
| `Supervise.DeliveredIsSentOrPending` | src/run.rs:175-183 | over every interleaving and for every single delivery, also a repeated one: after it there is a send of that signal, or it is still queued or in the relay's hand |
| `Supervise.ReturnDiscipline` | src/run.rs:168-203 | every return closed the handle and joined a started relay; a failed wait was followed by kill and wait; success means reaped |
| `Supervise.NothingAfterClose` | src/run.rs:175-189 | over every interleaving no signal is taken once the handle is closed, and the wait succeeds only after the child exited |
| `Supervise.MainThreadOrder` | src/run.rs:155-204 | over every interleaving the waiting thread goes through the code in its order; a returned call did one of four sequences: failed registration, failed spawn, wait-close-join, or failed wait-close-join-kill-wait |
| `Supervise.RelayDrains` | src/run.rs:175-183 | while the handle is open the relay alone can forward everything caught |
| `Supervise.JoinNeverBlocks` | src/run.rs:185-189 | after closing, the join is reached in a bounded number of relay steps |
| `Supervise.SendAfterReap` | src/run.rs:179-189 | an interleaving in which a signal is sent after the child was reaped |
| `Supervise.StrayWindow` | src/run.rs:185-189 | a send reaches a reaped child exactly between a successful wait and the join |
| `Proxy.SelectRoute` | src/proxy.rs:338-364 | the scanning loop computes `Selection` |
| `Proxy.SelectionMeaning` | src/proxy.rs:332-364 | by positions and letters: bad request exactly when a configured name is offered at two positions in any letter case; otherwise success exactly for a single entry whose phantom is offered once under its name, no match and ambiguity exactly as named |
| `Proxy.SelectionOrderFree` | src/proxy.rs:338-364 | permuting routes or headers changes nothing |
| `Proxy.SelectionCaseFree` | src/proxy.rs:338-364 | changing the letter case of header names in the request or in the routes changes nothing in what is selected |
| `Proxy.SharedHeaderExclusive` | src/proxy.rs:350 | two routes with one header name, in whatever letter case, and different phantoms are never both offered |
| `Proxy.SelectsSoleMatch` | src/proxy.rs:359-363 | the one matching entry of an unrepeated presentation is the one selected |
| `Proxy.Forward` | src/proxy.rs:258-330 | the request built header by header equals `Forwarded`: its rejections in order, its URI, headers and body decision |
| `Proxy.ForwardedExactly` | src/proxy.rs:258-330 | what goes out: the selected upstream followed by the target, the caller's method, the caller's headers that are not withheld and then the credential, and a body exactly when the caller sends one |
| `Proxy.BodyExactly` | src/proxy.rs:304-315 | a body goes out exactly when a positive length is declared, or none is declared and the caller has a transfer-encoding header in some letter case |
| `Proxy.PassHeaders` | src/proxy.rs:294-298 | the builder ends with the headers that travel on, or broken when one of them is not accepted |
| `Proxy.OutboundHeaderCounts` | src/proxy.rs:294-302 | the selected credential name once with the injected value, every other configured name not at all, no proxy-owned name from the caller, all other names with the caller's values |
| `Proxy.PassedInOrder` | src/proxy.rs:294-298 | exactly the headers the proxy does not own travel on, in the caller's order |
| `Proxy.OwnedExactly` | src/proxy.rs:376-407 | a header is withheld exactly when its name is, in some letter case, one of the eleven listed names or a configured header name |
| `Proxy.PassedExactly` | src/proxy.rs:270-298 | exactly the headers not withheld are passed on, in order, with their values and their names in small letters |
| `Proxy.UsableExactly` | src/proxy.rs:294-298 | the builder breaks exactly when the library refuses a name or value of a header that is not withheld |
| `Proxy.HopByHopWithheld` | src/proxy.rs:376-407 | the caller's part has no hop-by-hop field of section 7.6.1 of RFC 9110 exactly when every nominated name and `proxy-connection`, where present, is a name the proxy owns anyway |
| `Proxy.HopByHopTravels` | src/proxy.rs:376-407 | a request that goes out to the upstream with a nominated field and `proxy-connection` in it, under any rules of the HTTP library that accept its parts |
| `Proxy.RunProxyMode` | src/proxy.rs:104-122 | proxy mode starts exactly when the line decodes, is a JSON document of the right shape, and a port is bound, and then writes that port; a failure writes nothing |
| `Proxy.FirstInvalidUpstream` | src/proxy.rs:147-153 | the reported position is the first upstream that is not an origin |
| `Proxy.TransferRoundTrip` | src/proxy.rs:108-165 | the line a supervisor writes arrives whole and arms the same routes in the same order |
| `Proxy.ParseTransferServes` | src/proxy.rs:126-165 | routes are served exactly when the text is a JSON text of a document of at least one route and all upstreams are origins, each field in its place |
| `Proxy.ParseTransferRefuses` | src/proxy.rs:126-153 | an empty document, the first upstream that is no origin, and any other text each have their own error, exactly |
| `Template.CountsOne` | src/config/validate.rs:157 | counting one placeholder means there is a single placeholder position |
| `Template.ReplaceAtPlaceholder` | src/proxy.rs:299-301 | the value sits between the template's halves, also when it contains a placeholder itself |
| `Uri.AuthorityFixed` | src/proxy.rs:289-293 | splitting upstream and target gives the upstream's scheme and authority and the target as the remainder |
| `Uri.UriDetermines` | src/proxy.rs:293 | the outbound URI determines upstream and target |
| `Uri.OriginFormExactly` | src/proxy.rs:366-374 | accepted targets are exactly the rooted ones that are no network-path reference, with or without backslashes read as slashes |
| `Origin.AcceptsExactlyRenderings` | src/config/validate.rs:176-228 | accepted strings are exactly the renderings of origins whose hosts are well-formed by code point and whose port numeral is in 1..65535 |
| `Origin.RenderAccepted` | src/config/validate.rs:185-228 | every well-formed origin renders to an accepted string that decomposes to it |
| `Origin.Decompose` | src/config/validate.rs:185-228 | every accepted string has a well-formed decomposition that renders to it |
| `Origin.DecompositionUnique` | src/config/validate.rs:185-228 | no string renders two origins |
| `Origin.PortParsesExactly` | src/config/validate.rs:223-226 | the bounded digit loop agrees with the unbounded numeral lying in 1..65535 |
| `Origin.AuthorityChars` | src/config/validate.rs:211-217 | an accepted authority is not empty and has no userinfo, path, query or fragment character |
| `Origin.NameHostExactly` | src/config/validate.rs:207-219 | a name host is refused exactly when it is empty or has one of eight delimiters, a control character or white space, each given by code point |
| `Origin.LiteralHostExactly` | src/config/validate.rs:192-200 | a literal host is refused exactly when it is empty or has a character other than hexadecimal digits, the full stop and the colon |
| `Origin.RegisteredNamesAccepted` | src/config/validate.rs:176-228 | every registered name of section 3.2.2 of RFC 3986 is an accepted host under either scheme, with and without any port in range |
| `Text.ParseDigitsExact` | src/config/validate.rs:225 | parsing with overflow failure gives the numeral exactly when it fits, leading zeros included |
| `Text.SameIsVariant` | src/proxy.rs:346 | names agree regardless of case exactly when they have one length and differ at most between an ASCII capital and the letter 32 code points above |
| `Text.LowerIsTheSmallVariant` | src/proxy.rs:270-279 | lowering gives the one case variant without capitals |
| `Text.ClassesByCodePoint` | src/config/validate.rs:197-217 | white space, control characters, digits and hexadecimal digits, by code point |
| `Transfer.IntoTransfer` | src/transfer.rs:88-110 | the line is the printed document of the routes, and the plans keep order and names |
| `Transfer.TargetEnvironment` | src/transfer.rs:116-129 | the pushed entries are the specified ones |
| `Transfer.TargetEntries` | src/transfer.rs:116-129 | entry 2i is plan i's phantom, entry 2i+1 its proxy URL |
| `Transfer.BaseUrlIsLoopback` | src/transfer.rs:123-126 | the proxy URL is http, the loopback address and the port in decimal |
| `Transfer.DocumentExactly` | src/transfer.rs:24-38 | a JSON value is read as a document exactly when its one field is an array of objects or arrays of the five named texts |
| `Transfer.ReadPrintedDocument` | src/proxy.rs:126-134 | reading undoes writing for arbitrary field contents, with any white space after the document |
| `Transfer.DocumentIsOneLine` | src/transfer.rs:82-88 | no newline or other control character is in the document |
| `Json.ReadPrinted` | src/transfer.rs:107-108 | any string written as JSON reads back, whatever follows it |
| `Json.EscapedPrintable` | src/transfer.rs:85-87 | no control character survives into a written string |
| `JsonValue.ReadPrintedDocument` | src/transfer.rs:107-108 | every value made of texts, integers, booleans and collections of them, written compactly, reads back as itself with any white space after it |
| `JsonValue.StructReadsBack` | src/transfer.rs:24-38 | a struct written with distinct field names gives its fields back |
| `JsonValue.MemberOrderFree` | src/transfer.rs:24-38 | the order of an object's members does not change what a struct reads from it |
| `JsonValue.UnknownIgnored` | src/transfer.rs:24-38 | a member whose name is no field changes nothing |
| `JsonValue.RepeatedRefused` | src/transfer.rs:24-38 | a field given twice is refused |
| `JsonText.ReadsExactly` | src/proxy.rs:127 | the reader accepts exactly the texts of the JSON grammar with white space around them, each for the value it stands for |
| `JsonText.SpelledReads` | src/proxy.rs:127 | every spelling of a value is read as it, whatever follows: any white space between tokens, any escapes, surrogate pairs, fractions and exponents |
| `JsonText.ReadIsSpelled` | src/proxy.rs:127 | whatever the reader takes is such a spelling |
| `JsonValue.FieldsExactly` | src/transfer.rs:24-38 | the fields read from an object are the values of the one member of each name, those of an array its items |
| `Readiness.FramedLineArrives` | src/proxy.rs:108-114 | a one-line text and its newline are what the reader takes |
| `Readiness.ReadinessRoundTrip` | src/proxy.rs:119 | the readiness line of every port is read back as that port |
| `Readiness.ReadinessExactly` | src/sidecar.rs:110-118 | a readiness object is, once white space at the end is dropped, a JSON text with one port whose digits are below 65536 |
| `Readiness.LineExactly` | src/proxy.rs:108-114 | what is taken is the stream up to and with its first newline, or all of it |
| `Readiness.TrimEndExactly` | src/sidecar.rs:110 | trimming drops the white space at the end, all of it and nothing else |
| `Phantom.Generate` | src/phantom.rs:31-42 | the loop yields the prefix and the hex of all bytes |
| `Phantom.MintedDistinct` | src/phantom.rs:14-42 | phantoms have one fixed length and are equal exactly when their entropy is |
| `Phantom.MintedShape` | src/phantom.rs:14-42 | a phantom is the fixed 14 characters and the two small hexadecimal digits of each of the 32 bytes |
| `Phantom.HexInjective` | src/phantom.rs:36-40 | the hex encoding is injective |
| `Phantom.OrOfXor` | src/phantom.rs:83-86 | the fold over machine bytes is zero exactly for equal bytes and a zero start |
| `Phantom.MatchesPresented` | src/phantom.rs:77-87 | the length guard and the fold decide string equality |
| `Utf8.DecodeEncode` | src/sidecar.rs:82-87 | text survives its bytes |
| `Utf8.EncodeDecode` | src/proxy.rs:111-114 | bytes that decode are the encoding of their text |
| `Validate.Validate` | src/config/validate.rs:6-114 | success exactly for well-formed configurations, and a reported defect is really there |
| `Validate.ValidatePolicy` | src/config/validate.rs:55-110 | the rules of one policy, both directions |
| `Validate.ValidateEnvNames` | src/config/validate.rs:65-98 | names are valid and distinct across secret, proxy-secret and base-url names, both directions |
| `Validate.DeclareEnvName` | src/config/validate.rs:70-91 | inserting into the set of predecessors decides validity and distinctness one name at a time |
| `Validate.ValidateProxySecret` | src/config/validate.rs:116-174 | provider, origin, header and template rules, both directions |
| `Validate.ValidateContext` | src/config/validate.rs:15-44 | container name and NUL rules, both directions |
| `Validate.EnvNameExactly` | src/config/validate.rs:70-80 | an environment name is refused exactly when it is empty, starts with a hyphen, or has an equals sign or a NUL, by code point |
| `Validate.CommandNameExactly` | src/config/validate.rs:51-63 | a command name is refused exactly when it is empty, starts with a hyphen or has a NUL, by code point |
| `Validate.HeaderNameExactly` | src/config/validate.rs:135-143 | a header name is accepted exactly when it is a token of section 5.6.2 of RFC 9110, by code point |
| `Validate.ReservedExactly` | src/config/validate.rs:144-154 | a header name is reserved exactly when it is one of four names in some letter case |
| `Validate.HeaderTextExactly` | src/config/validate.rs:163-171 | a template is accepted exactly when all of it is printable ASCII, by code point |
| `Resolution.GroupByProvider` | src/main.rs:206-222 | the in-place grouping gives one group per provider in first-named order |
| `Resolution.GroupsPartition` | src/main.rs:206-222 | no provider twice, and every declaration in its provider's group as often as declared |
| `Resolution.SelectExact` | src/bws.rs:144-159 | success exactly when every name is listed; exactly the requested names, each with the value listed last; a failure names a missing one |
| `Resolution.ResolveKeys` | src/bws.rs:116-160 | an answer has exactly the requested names |
| `Resolution.FindProjectFirst` | src/bws.rs:122-130 | the project used is the first of the configured name |
| `Resolution.ListedExactly` | src/bws.rs:120-143 | a listing is had exactly for a token that is not empty, a project list and the secret list of the first project of the name; a missing or empty token and an unknown project each have their own error |
| `Config.FindProviderFirst` | src/main.rs:226-230 | looking up a provider gives the first one with the identifier |
| `Run.BuildArgv` | src/run.rs:34-67 | the pushed argv is the specified one |
| `Run.ForwardSees` | src/run.rs:30-33 | forwarding by the names of the entries passes on exactly these entries |
| `Run.ArgvReadsBack` | src/run.rs:34-67 | an option reader that stops at the first positional recovers the invocation exactly when the container name is positional |
| `Run.ApplyEnvironment` | src/run.rs:108-148 | applying the entries one by one overlays them in order |
| `Run.ChildSeesDeclared` | src/run.rs:101-112 | with distinct names each has its own value in the child and everything else is inherited |
| `Run.OverlayKeys` | src/run.rs:108-148 | the names set on a command are exactly those of its entries |
| `Run.OverlayOrderFree` | src/run.rs:108-148 | the order of application does not matter |
| `Run.ExitCodeConvention` | src/run.rs:218-226 | which codes and signals come through unchanged |
| `Run.ExitCodeBits` | src/run.rs:218-226 | the exit code is the low eight bits of the status code, or of 128 plus the signal |
| `Elf.ProgramInterpreter` | src/proxy_image.rs:135-183 | total on every content, gives the one right answer, and never asks for a buffer above the limit |
| `Elf.ReadEntry` | src/proxy_image.rs:154-163 | an entry is read exactly when its checked offset is addressable and the file holds it, with the error that fits otherwise |
| `Elf.ReadPath` | src/proxy_image.rs:164-180 | size bounds, unreadable segments, trailing NULs and UTF-8 |
| `Elf.InterpreterMeaning` | src/proxy_image.rs:129-183 | none exactly when a readable table has no interpreter entry, a path exactly when the first such entry names it |
| `Elf.InterpreterByBytes` | src/proxy_image.rs:135-183 | on the bytes of the image: none exactly when no entry of the table starts 3 0 0 0, a path exactly when the first such entry has a segment of 1 to 4096 bytes that is the path and then NULs |
| `Elf.DynamicNamesItsInterpreter` | src/proxy_image.rs:154-183 | an executable with a loadable segment and then an interpreter entry gives back its interpreter, for every path of at most 4095 bytes |
| `Elf.LoaderNamed` | src/proxy_image.rs:154-183 | such an executable, of 178 bytes |
| `Elf.InterpretsOnce` | src/proxy_image.rs:135-183 | no content has two right answers |
| `Maps.MappedPathname` | src/proxy_image.rs:120-128 | the five-field loop gives the pathname field |
| `Maps.LinesOfText` | src/proxy_image.rs:101-103 | splitting the maps text gives back its lines, each without a trailing carriage return |
| `Maps.LinesUnterminated` | src/proxy_image.rs:101-103 | a last line without a newline is a line as it stands |
| `Maps.TrimStartExactly` | src/proxy_image.rs:120-126 | trimming drops the white space at the start, all of it and nothing else |
| `Maps.StripExactly` | src/proxy_image.rs:126 | the marker is taken off where it stands at the end, once |
| `Maps.PathnameSurvives` | src/proxy_image.rs:100-128 | from the whole text, a pathname with spaces, with or without deletion marker, is read back exactly when it has no newline and, unmarked, ends neither in the marker nor in a carriage return |
| `ImageMaterial.LoadedMembers` | src/proxy_image.rs:100-112 | of the maps text, the objects are strictly increasing and exactly the mapped ones that qualify |
| `ImageMaterial.ObjectExactly` | src/proxy_image.rs:104-105 | a shared object is an absolute path with ".so" at some position, other than the binary's own |
| `ImageMaterial.BuildMaterial` | src/proxy_image.rs:57-81 | the pushed, sorted and deduplicated list, or the first error in the code's order: the binary, its interpreter, the interpreter's file, the maps, the first object in sorted order that does not open |
| `ImageMaterial.MaterialCanonical` | src/proxy_image.rs:62-81 | strictly increasing by destination, exactly the collected destinations, the running binary at /iwaya |
| `ImageMaterial.MapOrderFree` | src/proxy_image.rs:57-112 | any order or repetition of map lines collects the same material, or fails on the same file |
| `Canonical.SortKeeps` | src/proxy_image.rs:78 | sorting orders, loses and invents nothing, and keeps the first pushed first |
| `Canonical.SortedDedup` | src/proxy_image.rs:78-79 | sorting and deduplicating keeps every key once with the element pushed first |
| `Canonical.StrictUnique` | src/proxy_image.rs:78-79 | a strictly increasing list is determined by its members |
| `Canonical.StrLtExactly` | src/proxy_image.rs:78 | texts are ordered by the first difference of their UTF-8 bytes |
| `ImageTag.FeedContent` | src/proxy_image.rs:208-229 | what is fed is the content, however the reads split it |
| `ImageTag.FeedTag` | src/proxy_image.rs:189-230 | the fed bytes are the recipe and the length-prefixed encoding of the material, or the unreadable entry is named |
| `ImageTag.EncodingReadsBack` | src/proxy_image.rs:193-207 | decoding gives back destinations and contents exactly when every metadata length is the length read |
| `ImageTag.EncodingInjective` | src/proxy_image.rs:192-196 | with agreeing lengths, different material feeds different bytes |
| `ImageTag.LengthDisagreementCollides` | src/proxy_image.rs:198-207 | for every list, a last file that grows by the encoding of further files feeds the bytes of the list with these files added |
| `ImageTag.CollectedListsCollide` | src/proxy_image.rs:57-81 | for every static binary the interpreter reader accepts, two different lists that collection produces and that feed the same bytes, the second with agreeing lengths |
| `ImageTag.CollectedInOrder` | src/proxy_image.rs:57-81 | for a static binary, collection yields the binary and its objects when these are in order after it |

## Left out

- Protocol.CopiesBounded: counts the copies the supervisor's own values hold, not the bytes of a subprocess's output before it is parsed, nor buffers inside the JSON library, the pipe or the allocator.
- Sidecar.Sidecar.Teardown: dropping the sidecar is written as an explicit call at each exit; the outcome of the removal command and of reaping the client is ignored by the code and not modelled.
- Elf.ProgramInterpreter: the only failing read is one past the end of the file.
- ImageMaterial.LoadedMembers: comparing a mapped path with the binary's is string comparison; path normalisation is not modelled.
- ImageMaterial.BuildMaterial: an open file is represented by the path it was opened from.
- Proxy.RunProxyMode: the port the listener gets and whether readiness can be written are inputs.
- Proxy.Forward: what the HTTP library accepts as method, URI, header name and value is an arbitrary predicate, its regrouping of headers is not modelled, and the upstream call itself is left out.
- Phantom.Generate: the entropy is an input; distinct draws are a hypothesis of the results that need them. Constant-time behaviour is not modelled.
- Uri.OriginFormExactly: of other URL parsers only the reading of a backslash as a slash is modelled.
- Supervise.RelayDrains: which step runs next is free; nothing says that the relay is scheduled, only that nothing else need move.
- Invocation.Execute: the kinds of configuration, provisioning, image and sidecar errors are one failure each, as `Failure` has them; parsing of the configuration file and of the command line is not modelled.
- Running the token command, `bws` and Docker: arbitrary outcomes; stripping the token's line ending is left out.
- `ensure_proxy_image` after the tag: looking up, building and the temporary build context are one arbitrary outcome.
- SHA-256, its truncation and the text of the tag.
- Sockets, threads per request, TLS and response streaming.
- Message texts, the process exit code of a failure, and the HTTP status of a rejection: constants per error kind, which
  the model keeps apart by constructor.
