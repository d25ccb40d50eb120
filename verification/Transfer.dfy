/** src/transfer.rs: provisioning, the secret-transfer document, and the target's environment.
    The document's reader is the deserializer behind `parse_transfer` in src/proxy.rs. */
module Transfer {
  import opened Wrappers
  import opened Utf8
  import opened Config
  import opened Json
  import J = JsonValue
  import Phantom
  import Text

  datatype RouteTransfer = RouteTransfer(
    headerName: string, template: string, upstream: string, phantom: string, secret: string)

  datatype ProvisionedProxySecret = ProvisionedProxySecret(
    envName: string, baseUrlEnv: string, headerName: string, template: string,
    upstream: string, phantom: string, rawValue: string)

  datatype ProxySecretPlan = ProxySecretPlan(envName: string, baseUrlEnv: string, phantom: string)

  function Provision(spec: ProxySecretSpec, rawValue: string, phantom: string): ProvisionedProxySecret {
    ProvisionedProxySecret(spec.envName, spec.baseUrlEnv, spec.injectHeader.name,
                           spec.injectHeader.template, spec.upstream, phantom, rawValue)
  }

  function Route(p: ProvisionedProxySecret): RouteTransfer {
    RouteTransfer(p.headerName, p.template, p.upstream, p.phantom, p.rawValue)
  }

  function Plan(p: ProvisionedProxySecret): ProxySecretPlan {
    ProxySecretPlan(p.envName, p.baseUrlEnv, p.phantom)
  }

  function Routes(provisioned: seq<ProvisionedProxySecret>): seq<RouteTransfer> {
    seq(|provisioned|, i requires 0 <= i < |provisioned| => Route(provisioned[i]))
  }

  function Plans(provisioned: seq<ProvisionedProxySecret>): seq<ProxySecretPlan> {
    seq(|provisioned|, i requires 0 <= i < |provisioned| => Plan(provisioned[i]))
  }

  // ----- The document -----

  const FIELDS := ["header_name", "template", "upstream", "phantom", "secret"]

  const DOCUMENT_FIELDS := ["routes"]

  function Quoted(s: string): J.Value { J.Str(Some(s)) }

  function FieldValues(r: RouteTransfer): seq<J.Value> {
    [Quoted(r.headerName), Quoted(r.template), Quoted(r.upstream), Quoted(r.phantom), Quoted(r.secret)]
  }

  function RouteValue(r: RouteTransfer): J.Value { J.StructOf(FIELDS, FieldValues(r)) }

  function RouteValues(routes: seq<RouteTransfer>): seq<J.Value> {
    seq(|routes|, i requires 0 <= i < |routes| => RouteValue(routes[i]))
  }

  function DocumentValue(routes: seq<RouteTransfer>): J.Value {
    J.StructOf(DOCUMENT_FIELDS, [J.Arr(RouteValues(routes))])
  }

  lemma RouteWritable(r: RouteTransfer)
    ensures J.Writable(RouteValue(r))
  {
  }

  lemma DocumentWritable(routes: seq<RouteTransfer>)
    ensures J.Writable(DocumentValue(routes))
  {
    var items := RouteValues(routes);
    forall i | 0 <= i < |items| ensures J.Writable(items[i]) { RouteWritable(routes[i]); }
    hide RouteValues;
    assert J.Writable(J.Arr(items));
  }

  function PrintDocument(routes: seq<RouteTransfer>): string {
    DocumentWritable(routes);
    J.Print(DocumentValue(routes), "")
  }

  predicate IsText(v: J.Value) { v.Str? && v.text.Some? }

  function RouteOf(v: J.Value): Option<RouteTransfer> {
    var f :- J.Fields(v, FIELDS);
    if forall i | 0 <= i < |FIELDS| :: IsText(f[i]) then
      Some(RouteTransfer(f[0].text.value, f[1].text.value, f[2].text.value, f[3].text.value, f[4].text.value))
    else None
  }

  function RoutesOf(items: seq<J.Value>): Option<seq<RouteTransfer>> {
    if items == [] then Some([])
    else
      var route :- RouteOf(items[0]);
      var more :- RoutesOf(items[1..]);
      Some([route] + more)
  }

  function DocumentOf(v: J.Value): Option<seq<RouteTransfer>> {
    var f :- J.Fields(v, DOCUMENT_FIELDS);
    if f[0].Arr? then RoutesOf(f[0].items) else None
  }

  /** `serde_json::from_str` for the document. */
  function ReadDocument(s: string): Option<seq<RouteTransfer>> {
    var v :- J.ReadDocument(s);
    DocumentOf(v)
  }

  /** The value is an object, or array, of the five texts of the route. */
  ghost predicate RouteIs(v: J.Value, r: RouteTransfer) {
    J.FieldsAre(v, ["header_name", "template", "upstream", "phantom", "secret"],
                [J.Str(Some(r.headerName)), J.Str(Some(r.template)), J.Str(Some(r.upstream)), J.Str(Some(r.phantom)),
                 J.Str(Some(r.secret))])
  }

  /** The value has the one field of the document, and that is the array of the routes. */
  ghost predicate DocumentIs(v: J.Value, routes: seq<RouteTransfer>) {
    exists items: seq<J.Value> ::
      J.FieldsAre(v, ["routes"], [J.Arr(items)]) && RoutesAre(items, routes)
  }

  ghost predicate RoutesAre(items: seq<J.Value>, routes: seq<RouteTransfer>) {
    |items| == |routes| && forall i | 0 <= i < |items| :: RouteIs(items[i], routes[i])
  }

  lemma RouteExactly(v: J.Value, r: RouteTransfer)
    ensures RouteOf(v) == Some(r) <==> RouteIs(v, r)
  {
    J.FieldsExactly(v, FIELDS, FieldValues(r));
    var f := J.Fields(v, FIELDS);
    hide J.Fields, J.FieldsAre;
    if RouteOf(v) == Some(r) {
      assert forall i | 0 <= i < 5 :: IsText(f.value[i]);
      assert f.value == FieldValues(r);
    }
  }

  lemma {:induction false} RoutesExactly(items: seq<J.Value>, routes: seq<RouteTransfer>)
    ensures RoutesOf(items) == Some(routes) <==> RoutesAre(items, routes)
  {
    hide RouteOf, RouteIs;
    if items != [] && routes != [] {
      RouteExactly(items[0], routes[0]);
      RoutesExactly(items[1..], routes[1..]);
      assert routes == [routes[0]] + routes[1..];
      assert RoutesAre(items, routes) <==> RouteIs(items[0], routes[0]) && RoutesAre(items[1..], routes[1..]) by {
        if RouteIs(items[0], routes[0]) && RoutesAre(items[1..], routes[1..]) {
          forall i | 0 < i < |items| ensures RouteIs(items[i], routes[i]) {
            assert items[i] == items[1..][i - 1] && routes[i] == routes[1..][i - 1];
          }
        }
      }
    }
  }

  lemma DocumentExactly(v: J.Value, routes: seq<RouteTransfer>)
    ensures DocumentOf(v) == Some(routes) <==> DocumentIs(v, routes)
  {
    forall items: seq<J.Value>
      ensures J.Fields(v, DOCUMENT_FIELDS) == Some([J.Arr(items)]) <==> J.FieldsAre(v, ["routes"], [J.Arr(items)])
      ensures RoutesOf(items) == Some(routes) <==> RoutesAre(items, routes)
    {
      J.FieldsExactly(v, DOCUMENT_FIELDS, [J.Arr(items)]);
      RoutesExactly(items, routes);
    }
    var f := J.Fields(v, DOCUMENT_FIELDS);
    hide J.Fields, J.FieldsAre, RoutesOf, RoutesAre;
    if f.Some? && f.value[0].Arr? {
      assert f.value == [J.Arr(f.value[0].items)];
    }
  }

  lemma FieldsDistinct()
    ensures forall i, j | 0 <= i < j < |FIELDS| :: FIELDS[i] != FIELDS[j]
  {
    assert |FIELDS[0]| == 11 && |FIELDS[1]| == |FIELDS[2]| == 8 && |FIELDS[3]| == 7 && |FIELDS[4]| == 6;
    assert FIELDS[1][0] == 't' && FIELDS[2][0] == 'u';
  }

  lemma RouteReadsBack(r: RouteTransfer)
    ensures RouteOf(RouteValue(r)) == Some(r)
  {
    FieldsDistinct();
    J.StructReadsBack(FIELDS, FieldValues(r));
  }

  lemma {:induction false} RoutesReadBack(routes: seq<RouteTransfer>)
    ensures RoutesOf(RouteValues(routes)) == Some(routes)
  {
    hide RouteOf, RouteValue;
    if routes != [] {
      RouteReadsBack(routes[0]);
      RoutesReadBack(routes[1..]);
      assert RouteValues(routes)[1..] == RouteValues(routes[1..]);
      assert routes == [routes[0]] + routes[1..];
    }
  }

  /** The reader gives back the routes the writer was given, in order, whatever the fields
      contain and with the framing newline or any other white space after the document. */
  lemma ReadPrintedDocument(routes: seq<RouteTransfer>, after: string)
    requires J.Blank(after)
    ensures ReadDocument(PrintDocument(routes) + after) == Some(routes)
  {
    DocumentWritable(routes);
    J.ReadPrintedDocument(DocumentValue(routes), after);
    J.StructReadsBack(DOCUMENT_FIELDS, [J.Arr(RouteValues(routes))]);
    RoutesReadBack(routes);
    hide J.ReadDocument, J.Print, J.Fields, J.Writable, RouteValues, RoutesOf;
  }

  /** The document is one line: no control character at all appears in it. */
  lemma DocumentIsOneLine(routes: seq<RouteTransfer>)
    ensures '\n' !in PrintDocument(routes) && Printable(PrintDocument(routes))
  {
    DocumentWritable(routes);
    J.PrintedPlain(DocumentValue(routes), "");
    hide J.Print;
  }

  /** `into_transfer` */
  method IntoTransfer(provisioned: seq<ProvisionedProxySecret>) returns (line: string, plans: seq<ProxySecretPlan>)
    ensures line == PrintDocument(Routes(provisioned))
    ensures plans == Plans(provisioned)
  {
    var routes: seq<RouteTransfer> := [];
    plans := [];
    for i := 0 to |provisioned|
      invariant routes == Routes(provisioned[..i])
      invariant plans == Plans(provisioned[..i])
    {
      routes := routes + [Route(provisioned[i])];
      plans := plans + [Plan(provisioned[i])];
    }
    assert provisioned[..|provisioned|] == provisioned;
    line := PrintDocument(routes);
  }

  // ----- The target environment -----

  function BaseUrl(port: nat): string { "http://127.0.0.1:" + Text.Decimal(port) }

  /** The URL of a port on the loopback address, the port in decimal without superfluous zeros. */
  ghost predicate IsLoopbackUrl(url: string, port: nat) {
    exists digits: string ::
      && Text.AllDigits(digits) && Text.Numeral(digits) == port && digits != "" && (port > 0 ==> digits[0] != '0')
      && url == "http://127.0.0.1:" + digits
  }

  lemma BaseUrlIsLoopback(port: nat)
    ensures IsLoopbackUrl(BaseUrl(port), port)
  {
    var digits := Text.Decimal(port);
    assert BaseUrl(port) == "http://127.0.0.1:" + digits;
  }

  /** Entry 2i is plan i's phantom under its credential name, entry 2i+1 the proxy URL. */
  function TargetEntries(plans: seq<ProxySecretPlan>, port: nat): (r: seq<(string, string)>)
    ensures |r| == 2 * |plans|
    ensures forall i | 0 <= i < |plans| :: r[2 * i] == (plans[i].envName, plans[i].phantom)
    ensures forall i | 0 <= i < |plans| :: r[2 * i + 1] == (plans[i].baseUrlEnv, BaseUrl(port))
  {
    if plans == [] then []
    else
      var n := |plans| - 1;
      TargetEntries(plans[..n], port)
      + [(plans[n].envName, plans[n].phantom), (plans[n].baseUrlEnv, BaseUrl(port))]
  }

  /** `target_environment` */
  method TargetEnvironment(plans: seq<ProxySecretPlan>, port: nat) returns (environment: seq<(string, string)>)
    ensures environment == TargetEntries(plans, port)
  {
    environment := [];
    for i := 0 to |plans|
      invariant environment == TargetEntries(plans[..i], port)
    {
      assert plans[..i + 1][..i] == plans[..i];
      environment := environment + [(plans[i].envName, plans[i].phantom)];
      environment := environment + [(plans[i].baseUrlEnv, BaseUrl(port))];
    }
    assert plans[..|plans|] == plans;
  }
}
