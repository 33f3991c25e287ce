// Translation of an ingress: the cluster and the route generator run independently and must agree on names.
module IngressTranslate {
  import opened ClusterNames
  import opened Text

  datatype Service = Service(name: string, ports: seq<Port32>, protocol: string, healthPath: string)

  /** The paths of a rule, each given by the name of its backend service. */
  datatype Rule = Rule(host: string, backends: seq<string>)

  datatype Tls = Tls(hosts: seq<string>, secretName: string)

  datatype Ingress = Ingress(namespace: string, rules: seq<Rule>, tls: seq<Tls>, defaultBackend: Option<string>)

  /** What the listers hold for the namespace of the ingress. */
  datatype World = World(services: seq<Service>, secrets: set<string>)

  /** Service names are unique within a namespace. */
  ghost predicate Listed(w: World) {
    forall i, j :: 0 <= i < j < |w.services| ==> w.services[i].name != w.services[j].name
  }

  function GetService(services: seq<Service>, name: string): Option<Service> {
    if services == [] then None
    else if services[0].name == name then Some(services[0])
    else GetService(services[1..], name)
  }

  // ---------------------------------------------------------------- lookups

  /** The host of the last rule that routes to the service, or the empty string. */
  function LastHost(rules: seq<Rule>, service: string): string {
    if rules == [] then ""
    else if service in rules[|rules| - 1].backends then rules[|rules| - 1].host
    else LastHost(rules[..|rules| - 1], service)
  }

  /** The secret name of the last TLS entry that lists the host. */
  function LastSecret(tls: seq<Tls>, host: string): Option<string> {
    if tls == [] then None
    else if host in tls[|tls| - 1].hosts then Some(tls[|tls| - 1].secretName)
    else LastSecret(tls[..|tls| - 1], host)
  }

  /** No secret has an empty name. */
  predicate HasSecret(w: World, name: string) { name != "" && name in w.secrets }

  /** The validation that TLS gives a host: none when it is not listed or the secret is missing. */
  function HostValidation(w: World, ing: Ingress, host: string): Validation {
    var secret := LastSecret(ing.tls, host);
    if host != "" && secret.Some? && HasSecret(w, secret.value) then Some((secret.value, host)) else None
  }

  predicate UsesTls(s: Service) { s.protocol == "tls" || s.protocol == "h2" }

  // ---------------------------------------------------------------- the two generators

  predicate Matches(ing: Ingress, s: Service) {
    || ing.defaultBackend == Some(s.name)
    || exists r :: 0 <= r < |ing.rules| && s.name in ing.rules[r].backends
  }

  /** getServicesForIngress. */
  function ServicesFor(ing: Ingress, services: seq<Service>): seq<Service> {
    if services == [] then []
    else
      var rest := ServicesFor(ing, services[..|services| - 1]);
      var s := services[|services| - 1];
      if Matches(ing, s) then rest + [s] else rest
  }

  function ServiceValidation(w: World, ing: Ingress, s: Service): Validation {
    if UsesTls(s) then HostValidation(w, ing, LastHost(ing.rules, s.name)) else None
  }

  function PortClusters(s: Service, v: Validation): (ids: seq<ClusterId>)
    ensures |ids| == |s.ports|
    ensures forall i :: 0 <= i < |ids| ==> ids[i] == ClusterId(s.name, s.ports[i], s.healthPath, v)
  {
    seq(|s.ports|, i requires 0 <= i < |s.ports| => ClusterId(s.name, s.ports[i], s.healthPath, v))
  }

  function ClustersOf(w: World, ing: Ingress, services: seq<Service>): seq<ClusterId> {
    if services == [] then []
    else
      var s := services[|services| - 1];
      ClustersOf(w, ing, services[..|services| - 1]) + PortClusters(s, ServiceValidation(w, ing, s))
  }

  /** getClustersForIngress. */
  function Clusters(w: World, ing: Ingress): seq<ClusterId> {
    ClustersOf(w, ing, ServicesFor(ing, w.services))
  }

  /**
   * The routes of one path: one per service port, but all of them are the same object, which keeps
   * the cluster of the last port.
   */
  function SharedRoutes(s: Service, v: Validation): (ids: seq<ClusterId>)
    ensures |ids| == |s.ports|
    ensures forall i :: 0 <= i < |ids| ==> ids[i] == ClusterId(s.name, s.ports[|s.ports| - 1], s.healthPath, v)
  {
    seq(|s.ports|, i requires 0 <= i < |s.ports| => ClusterId(s.name, s.ports[|s.ports| - 1], s.healthPath, v))
  }

  function PathRoutes(w: World, ing: Ingress, host: string, backend: string): seq<ClusterId> {
    var s := GetService(w.services, backend);
    if s.None? then [] else SharedRoutes(s.value, HostValidation(w, ing, host))
  }

  function RuleRoutes(w: World, ing: Ingress, host: string, backends: seq<string>): seq<ClusterId> {
    if backends == [] then []
    else RuleRoutes(w, ing, host, backends[..|backends| - 1]) + PathRoutes(w, ing, host, backends[|backends| - 1])
  }

  function RoutesOf(w: World, ing: Ingress, rules: seq<Rule>): seq<ClusterId> {
    if rules == [] then []
    else
      var r := rules[|rules| - 1];
      RoutesOf(w, ing, rules[..|rules| - 1]) + RuleRoutes(w, ing, r.host, r.backends)
  }

  /** getRouteForIngress: the clusters its routes name, in order. */
  function Routes(w: World, ing: Ingress): seq<ClusterId> { RoutesOf(w, ing, ing.rules) }

  // ---------------------------------------------------------------- membership

  lemma {:induction false} GetServiceFinds(services: seq<Service>, s: Service)
    requires s in services
    requires forall i, j :: 0 <= i < j < |services| ==> services[i].name != services[j].name
    ensures GetService(services, s.name) == Some(s)
  {
    if services[0] != s {
      assert s in services[1..];
      var i :| 0 <= i < |services| && services[i] == s;
      assert services[0].name != services[i].name;
      GetServiceFinds(services[1..], s);
    }
  }

  lemma {:induction false} GetServiceListed(services: seq<Service>, name: string)
    ensures var s := GetService(services, name); s.Some? ==> s.value in services && s.value.name == name
  {
    if services != [] && services[0].name != name {
      GetServiceListed(services[1..], name);
    }
  }

  lemma {:induction false} ServicesForMember(ing: Ingress, services: seq<Service>, s: Service)
    ensures s in ServicesFor(ing, services) <==> s in services && Matches(ing, s)
  {
    if services != [] {
      var (init, last) := (services[..|services| - 1], services[|services| - 1]);
      ServicesForMember(ing, init, s);
      assert services == init + [last];
    }
  }

  lemma {:induction false} ClustersOfMember(w: World, ing: Ingress, services: seq<Service>, id: ClusterId)
    ensures id in ClustersOf(w, ing, services) <==>
            exists s :: s in services && id in PortClusters(s, ServiceValidation(w, ing, s))
  {
    if services != [] {
      var (init, last) := (services[..|services| - 1], services[|services| - 1]);
      ClustersOfMember(w, ing, init, id);
      assert services == init + [last];
      var tail := PortClusters(last, ServiceValidation(w, ing, last));
      assert ClustersOf(w, ing, services) == ClustersOf(w, ing, init) + tail;
      if s :| s in services && id in PortClusters(s, ServiceValidation(w, ing, s)) {
        assert s in init || s == last;
      }
    }
  }

  lemma {:induction false} RuleRoutesMember(w: World, ing: Ingress, host: string, backends: seq<string>, id: ClusterId)
    ensures id in RuleRoutes(w, ing, host, backends) <==>
            exists b :: b in backends && id in PathRoutes(w, ing, host, b)
  {
    if backends != [] {
      var (init, last) := (backends[..|backends| - 1], backends[|backends| - 1]);
      RuleRoutesMember(w, ing, host, init, id);
      assert backends == init + [last];
      assert RuleRoutes(w, ing, host, backends) == RuleRoutes(w, ing, host, init) + PathRoutes(w, ing, host, last);
      if b :| b in backends && id in PathRoutes(w, ing, host, b) {
        assert b in init || b == last;
      }
    }
  }

  lemma {:induction false} RoutesOfMember(w: World, ing: Ingress, rules: seq<Rule>, id: ClusterId)
    ensures id in RoutesOf(w, ing, rules) <==>
            exists r :: r in rules && id in RuleRoutes(w, ing, r.host, r.backends)
  {
    if rules != [] {
      var (init, last) := (rules[..|rules| - 1], rules[|rules| - 1]);
      RoutesOfMember(w, ing, init, id);
      assert rules == init + [last];
      assert RoutesOf(w, ing, rules) == RoutesOf(w, ing, init) + RuleRoutes(w, ing, last.host, last.backends);
      if r :| r in rules && id in RuleRoutes(w, ing, r.host, r.backends) {
        assert r in init || r == last;
      }
    }
  }

  // ---------------------------------------------------------------- agreement

  ghost predicate RoutesTo(w: World, r: Rule, s: Service) { s in w.services && s.ports != [] && s.name in r.backends }

  predicate Covered(w: World, ing: Ingress, host: string) { HostValidation(w, ing, host).Some? }

  /** The protocol and the hosts of a service fit the TLS entries of the ingress. */
  predicate Fits(w: World, ing: Ingress, host: string, s: Service) {
    if Covered(w, ing, host) then UsesTls(s) && LastHost(ing.rules, s.name) == host
    else !(UsesTls(s) && Covered(w, ing, LastHost(ing.rules, s.name)))
  }

  ghost predicate Agree(w: World, ing: Ingress) {
    forall id :: id in Routes(w, ing) ==> id in Clusters(w, ing)
  }

  lemma FitsIffSameValidation(w: World, ing: Ingress, host: string, s: Service)
    ensures Fits(w, ing, host, s) <==> HostValidation(w, ing, host) == ServiceValidation(w, ing, s)
  {
  }

  lemma ClusterMember(w: World, ing: Ingress, id: ClusterId)
    ensures id in Clusters(w, ing) <==>
            exists s :: s in w.services && Matches(ing, s) && id in PortClusters(s, ServiceValidation(w, ing, s))
  {
    ClustersOfMember(w, ing, ServicesFor(ing, w.services), id);
    forall s ensures s in ServicesFor(ing, w.services) <==> s in w.services && Matches(ing, s) {
      ServicesForMember(ing, w.services, s);
    }
  }

  function LastPortId(w: World, ing: Ingress, host: string, s: Service): ClusterId
    requires s.ports != []
  {
    ClusterId(s.name, s.ports[|s.ports| - 1], s.healthPath, HostValidation(w, ing, host))
  }

  lemma RouteIsRouted(w: World, ing: Ingress, id: ClusterId)
    requires id in Routes(w, ing)
    ensures exists r, s :: r in ing.rules && RoutesTo(w, r, s) && id == LastPortId(w, ing, r.host, s)
  {
    RoutesOfMember(w, ing, ing.rules, id);
    var r :| r in ing.rules && id in RuleRoutes(w, ing, r.host, r.backends);
    RuleRoutesMember(w, ing, r.host, r.backends, id);
    var b :| b in r.backends && id in PathRoutes(w, ing, r.host, b);
    GetServiceListed(w.services, b);
    assert RoutesTo(w, r, GetService(w.services, b).value);
  }

  lemma RoutedHasRoute(w: World, ing: Ingress, r: Rule, s: Service)
    requires Listed(w) && r in ing.rules && RoutesTo(w, r, s)
    ensures LastPortId(w, ing, r.host, s) in Routes(w, ing)
  {
    var id := LastPortId(w, ing, r.host, s);
    GetServiceFinds(w.services, s);
    assert PathRoutes(w, ing, r.host, s.name)[0] == id;
    RuleRoutesMember(w, ing, r.host, r.backends, id);
    RoutesOfMember(w, ing, ing.rules, id);
  }

  lemma FittingRouteHasCluster(w: World, ing: Ingress, r: Rule, s: Service)
    requires Listed(w) && r in ing.rules && RoutesTo(w, r, s)
    ensures LastPortId(w, ing, r.host, s) in Clusters(w, ing) <==> Fits(w, ing, r.host, s)
  {
    var id := LastPortId(w, ing, r.host, s);
    ClusterMember(w, ing, id);
    FitsIffSameValidation(w, ing, r.host, s);
    if Fits(w, ing, r.host, s) {
      var ids := PortClusters(s, ServiceValidation(w, ing, s));
      assert ids[|s.ports| - 1] == id;
      assert Matches(ing, s);
    }
    if id in Clusters(w, ing) {
      var s' :| s' in w.services && Matches(ing, s') && id in PortClusters(s', ServiceValidation(w, ing, s'));
      GetServiceFinds(w.services, s);
      GetServiceFinds(w.services, s');
    }
  }

  /** On the inputs of the names: every routed cluster is generated exactly when each routed service fits the TLS entries. */
  lemma AgreementIff(w: World, ing: Ingress)
    requires Listed(w)
    ensures Agree(w, ing) <==> forall r, s :: r in ing.rules && RoutesTo(w, r, s) ==> Fits(w, ing, r.host, s)
  {
    forall r, s | r in ing.rules && RoutesTo(w, r, s)
      ensures LastPortId(w, ing, r.host, s) in Clusters(w, ing) <==> Fits(w, ing, r.host, s)
      ensures LastPortId(w, ing, r.host, s) in Routes(w, ing)
    {
      FittingRouteHasCluster(w, ing, r, s);
      RoutedHasRoute(w, ing, r, s);
    }
    forall id | id in Routes(w, ing)
      ensures exists r, s :: r in ing.rules && RoutesTo(w, r, s) && id == LastPortId(w, ing, r.host, s)
    {
      RouteIsRouted(w, ing, id);
    }
  }

  // ---------------------------------------------------------------- agreement on names

  ghost predicate Generated(d: Digests, w: World, ing: Ingress, name: string) {
    exists c :: c in Clusters(w, ing) && ClusterName(d, ing.namespace, c) == name
  }

  /** Every cluster name in a route is the name of a generated cluster. */
  ghost predicate AgreeByName(d: Digests, w: World, ing: Ingress) {
    forall id :: id in Routes(w, ing) ==> Generated(d, w, ing, ClusterName(d, ing.namespace, id))
  }

  /** Both generators hash the same text: a secret name and a host run together, with nothing between them. */
  predicate SameText(w: World, ing: Ingress, host: string, s: Service) {
    var last := LastHost(ing.rules, s.name);
    if Covered(w, ing, host) then
      UsesTls(s) && Covered(w, ing, last) && LastSecret(ing.tls, host).value + host == LastSecret(ing.tls, last).value + last
    else !(UsesTls(s) && Covered(w, ing, last))
  }

  lemma SameTextIff(w: World, ing: Ingress, host: string, s: Service)
    ensures SameText(w, ing, host, s) <==>
            ValidationText(HostValidation(w, ing, host)) == ValidationText(ServiceValidation(w, ing, s))
  {
  }

  /** The digests do not collide on this ingress, and no service is called like the cut form of another. */
  ghost predicate Told(d: Digests, namespace: string, a: ClusterId, c: ClusterId) {
    Tellable(d, namespace, a, c) && (d.sha1(Settings(a)) == d.sha1(Settings(c)) ==> Settings(a) == Settings(c))
  }

  ghost predicate AllTold(d: Digests, w: World, ing: Ingress) {
    forall a, c :: a in Routes(w, ing) && c in Clusters(w, ing) ==> Told(d, ing.namespace, a, c)
  }

  /** Kubernetes allows no underscore in these names. */
  ghost predicate PlainNames(w: World, ing: Ingress) {
    Plain(ing.namespace) && forall s :: s in w.services ==> Plain(s.name)
  }

  function ServiceId(w: World, ing: Ingress, s: Service): ClusterId
    requires s.ports != []
  {
    ClusterId(s.name, s.ports[|s.ports| - 1], s.healthPath, ServiceValidation(w, ing, s))
  }

  lemma SettingsIffText(w: World, ing: Ingress, host: string, s: Service)
    requires s.ports != []
    ensures Settings(LastPortId(w, ing, host, s)) == Settings(ServiceId(w, ing, s)) <==> SameText(w, ing, host, s)
  {
    SameTextIff(w, ing, host, s);
    var health := if s.healthPath != "" then HEALTH_SETTINGS + s.healthPath else "";
    var (a, c) := (ValidationText(HostValidation(w, ing, host)), ValidationText(ServiceValidation(w, ing, s)));
    assert (health + a)[|health|..] == a && (health + c)[|health|..] == c;
  }

  /** Same text, same name: whatever the digests are. */
  lemma SameTextIsGenerated(d: Digests, w: World, ing: Ingress, r: Rule, s: Service)
    requires r in ing.rules && RoutesTo(w, r, s) && SameText(w, ing, r.host, s)
    ensures Generated(d, w, ing, ClusterName(d, ing.namespace, LastPortId(w, ing, r.host, s)))
  {
    var c := ServiceId(w, ing, s);
    SettingsIffText(w, ing, r.host, s);
    ClusterMember(w, ing, c);
    assert PortClusters(s, ServiceValidation(w, ing, s))[|s.ports| - 1] == c;
    assert Matches(ing, s);
    assert NameParts(d, ing.namespace, c) == NameParts(d, ing.namespace, LastPortId(w, ing, r.host, s));
  }

  lemma SameTextsAgree(d: Digests, w: World, ing: Ingress)
    requires forall r, s :: r in ing.rules && RoutesTo(w, r, s) ==> SameText(w, ing, r.host, s)
    ensures AgreeByName(d, w, ing)
  {
    forall id | id in Routes(w, ing) ensures Generated(d, w, ing, ClusterName(d, ing.namespace, id)) {
      RouteIsRouted(w, ing, id);
      var r, s :| r in ing.rules && RoutesTo(w, r, s) && id == LastPortId(w, ing, r.host, s);
      SameTextIsGenerated(d, w, ing, r, s);
    }
  }

  /** A generated cluster that takes the name of a route is the cluster of the routed service. */
  lemma GeneratedIsSameText(d: Digests, w: World, ing: Ingress, r: Rule, s: Service, c: ClusterId)
    requires Listed(w) && PlainNames(w, ing) && r in ing.rules && RoutesTo(w, r, s) && c in Clusters(w, ing)
    requires Told(d, ing.namespace, LastPortId(w, ing, r.host, s), c)
    requires ClusterName(d, ing.namespace, c) == ClusterName(d, ing.namespace, LastPortId(w, ing, r.host, s))
    ensures SameText(w, ing, r.host, s)
  {
    ClusterMember(w, ing, c);
    var s' :| s' in w.services && Matches(ing, s') && c in PortClusters(s', ServiceValidation(w, ing, s'));
    DistinctNames(d, ing.namespace, LastPortId(w, ing, r.host, s), c);
    GetServiceFinds(w.services, s);
    GetServiceFinds(w.services, s');
    assert c == ServiceId(w, ing, s);
    SettingsIffText(w, ing, r.host, s);
  }

  lemma RoutedNameIff(d: Digests, w: World, ing: Ingress, r: Rule, s: Service)
    requires Listed(w) && PlainNames(w, ing) && AllTold(d, w, ing) && r in ing.rules && RoutesTo(w, r, s)
    ensures Generated(d, w, ing, ClusterName(d, ing.namespace, LastPortId(w, ing, r.host, s))) <==> SameText(w, ing, r.host, s)
  {
    var id := LastPortId(w, ing, r.host, s);
    RoutedHasRoute(w, ing, r, s);
    if SameText(w, ing, r.host, s) {
      SameTextIsGenerated(d, w, ing, r, s);
    }
    forall c | c in Clusters(w, ing) && ClusterName(d, ing.namespace, c) == ClusterName(d, ing.namespace, id)
      ensures SameText(w, ing, r.host, s)
    {
      GeneratedIsSameText(d, w, ing, r, s, c);
    }
  }

  /** Exactly when every routed name is generated. The digests matter for one direction only. */
  lemma AgreementByNameIff(d: Digests, w: World, ing: Ingress)
    requires Listed(w) && PlainNames(w, ing) && AllTold(d, w, ing)
    ensures AgreeByName(d, w, ing) <==> forall r, s :: r in ing.rules && RoutesTo(w, r, s) ==> SameText(w, ing, r.host, s)
  {
    forall r, s | r in ing.rules && RoutesTo(w, r, s)
      ensures Generated(d, w, ing, ClusterName(d, ing.namespace, LastPortId(w, ing, r.host, s))) <==> SameText(w, ing, r.host, s)
      ensures LastPortId(w, ing, r.host, s) in Routes(w, ing)
    {
      RoutedHasRoute(w, ing, r, s);
      RoutedNameIff(d, w, ing, r, s);
    }
    if forall r, s :: r in ing.rules && RoutesTo(w, r, s) ==> SameText(w, ing, r.host, s) {
      SameTextsAgree(d, w, ing);
    }
  }

  const COINCIDENCE_WORLD := World([Service("s", [443], "tls", "")], {"k", "kx"})
  const COINCIDENCE := Ingress("ns", [Rule("xa.com", ["s"]), Rule("a.com", ["s"])], [Tls(["xa.com"], "k"), Tls(["a.com"], "kx")], None)

  lemma CoincidenceFacts(s: Service, r: Rule)
    requires s in COINCIDENCE_WORLD.services && r in COINCIDENCE.rules
    ensures RoutesTo(COINCIDENCE_WORLD, r, s) && SameText(COINCIDENCE_WORLD, COINCIDENCE, r.host, s)
    ensures Fits(COINCIDENCE_WORLD, COINCIDENCE, r.host, s) <==> r.host == "a.com"
  {
    var ing := COINCIDENCE;
    assert LastHost(ing.rules, "s") == "a.com";
    assert ing.tls[..1] == [ing.tls[0]];
    assert LastSecret(ing.tls, "a.com") == Some("kx");
    assert LastSecret(ing.tls, "xa.com") == LastSecret(ing.tls[..1], "xa.com") == Some("k");
    assert "k" + "xa.com" == "kx" + "a.com";
  }

  /** Two different validations with one text: the names agree under all digests, although "k" is not "kx". */
  lemma DifferentSecretsOneName(d: Digests)
    ensures Listed(COINCIDENCE_WORLD) && !Agree(COINCIDENCE_WORLD, COINCIDENCE) && AgreeByName(d, COINCIDENCE_WORLD, COINCIDENCE)
  {
    var (w, ing) := (COINCIDENCE_WORLD, COINCIDENCE);
    forall r, s | r in ing.rules && RoutesTo(w, r, s) ensures SameText(w, ing, r.host, s) {
      CoincidenceFacts(s, r);
    }
    SameTextsAgree(d, w, ing);
    CoincidenceFacts(w.services[0], ing.rules[0]);
    AgreementIff(w, ing);
  }

  // ---------------------------------------------------------------- the usual ingress and the broken one

  /** The service is under one host only. */
  ghost predicate SingleHost(ing: Ingress, s: Service, host: string) {
    forall r :: r in ing.rules && s.name in r.backends ==> r.host == host
  }

  ghost predicate NoCoveredHost(w: World, ing: Ingress, s: Service) {
    forall r :: r in ing.rules && s.name in r.backends ==> !Covered(w, ing, r.host)
  }

  lemma {:induction false} LastHostRoutes(rules: seq<Rule>, name: string)
    requires exists r :: r in rules && name in r.backends
    ensures exists r :: r in rules && name in r.backends && r.host == LastHost(rules, name)
  {
    var (init, last) := (rules[..|rules| - 1], rules[|rules| - 1]);
    assert rules == init + [last];
    if name !in last.backends {
      var r :| r in rules && name in r.backends;
      assert r in init;
      LastHostRoutes(init, name);
      var q :| q in init && name in q.backends && q.host == LastHost(init, name);
      assert q in rules;
    }
  }

  /** The usual ingress agrees: services without covered hosts, or TLS services under a single host. */
  lemma UsualIngressAgrees(w: World, ing: Ingress, d: Digests)
    requires Listed(w)
    requires forall s :: s in w.services ==>
               NoCoveredHost(w, ing, s) || ((s.protocol == "tls" || s.protocol == "h2") && exists h :: SingleHost(ing, s, h))
    ensures Agree(w, ing)
    ensures AgreeByName(d, w, ing)
  {
    forall r, s | r in ing.rules && RoutesTo(w, r, s) ensures Fits(w, ing, r.host, s) {
      LastHostRoutes(ing.rules, s.name);
      var q :| q in ing.rules && s.name in q.backends && q.host == LastHost(ing.rules, s.name);
    }
    AgreementIff(w, ing);
  }

  /** A plain service under a TLS host always breaks agreement: its route carries a name that no cluster has. */
  lemma PlainServiceUnderTlsHost(d: Digests, w: World, ing: Ingress, r: Rule, s: Service)
    requires Listed(w) && PlainNames(w, ing) && AllTold(d, w, ing) && r in ing.rules && RoutesTo(w, r, s)
    requires Covered(w, ing, r.host) && s.protocol != "tls" && s.protocol != "h2"
    ensures LastPortId(w, ing, r.host, s) in Routes(w, ing) && LastPortId(w, ing, r.host, s) !in Clusters(w, ing)
    ensures !Generated(d, w, ing, ClusterName(d, ing.namespace, LastPortId(w, ing, r.host, s)))
  {
    RoutedHasRoute(w, ing, r, s);
    FittingRouteHasCluster(w, ing, r, s);
    RoutedNameIff(d, w, ing, r, s);
  }

  // ---------------------------------------------------------------- what the lookups mean

  /** The rule at this position is the last that routes to the service. */
  lemma {:induction false} LastHostIs(rules: seq<Rule>, service: string, q: nat)
    requires q < |rules| && service in rules[q].backends && forall t :: q < t < |rules| ==> service !in rules[t].backends
    ensures LastHost(rules, service) == rules[q].host
    decreases |rules|
  {
    if q < |rules| - 1 { LastHostIs(rules[..|rules| - 1], service, q); }
  }

  /** The TLS entry at this position is the last that lists the host. */
  lemma {:induction false} LastSecretIs(tls: seq<Tls>, host: string, q: nat)
    requires q < |tls| && host in tls[q].hosts && forall t :: q < t < |tls| ==> host !in tls[t].hosts
    ensures LastSecret(tls, host) == Some(tls[q].secretName)
    decreases |tls|
  {
    if q < |tls| - 1 { LastSecretIs(tls[..|tls| - 1], host, q); }
  }

  lemma {:induction false} LastSecretNone(tls: seq<Tls>, host: string)
    requires forall t :: 0 <= t < |tls| ==> host !in tls[t].hosts
    ensures LastSecret(tls, host) == None
  {
    if tls != [] { LastSecretNone(tls[..|tls| - 1], host); }
  }

  /** A host is covered exactly when the last TLS entry that lists it names a secret that exists. */
  lemma CoveredIff(w: World, ing: Ingress, host: string, q: nat)
    requires q < |ing.tls| && host in ing.tls[q].hosts && forall t :: q < t < |ing.tls| ==> host !in ing.tls[t].hosts
    ensures Covered(w, ing, host) <==> host != "" && ing.tls[q].secretName != "" && ing.tls[q].secretName in w.secrets
    ensures Covered(w, ing, host) ==> HostValidation(w, ing, host) == Some((ing.tls[q].secretName, host))
  {
    LastSecretIs(ing.tls, host, q);
  }

  lemma UnlistedIsUncovered(w: World, ing: Ingress, host: string)
    requires forall t :: 0 <= t < |ing.tls| ==> host !in ing.tls[t].hosts
    ensures !Covered(w, ing, host)
  {
    LastSecretNone(ing.tls, host);
  }

  /** Exactly the clusters generated: one per port of each service that a rule or the default backend names. */
  lemma ClustersIff(w: World, ing: Ingress, id: ClusterId)
    ensures id in Clusters(w, ing) <==>
            exists s, p :: s in w.services && 0 <= p < |s.ports|
                           && (ing.defaultBackend == Some(s.name) || exists r :: 0 <= r < |ing.rules| && s.name in ing.rules[r].backends)
                           && id == ClusterId(s.name, s.ports[p], s.healthPath,
                                              if s.protocol == "tls" || s.protocol == "h2"
                                              then HostValidation(w, ing, LastHost(ing.rules, s.name)) else None)
  {
    ClusterMember(w, ing, id);
    if id in Clusters(w, ing) {
      var s :| s in w.services && Matches(ing, s) && id in PortClusters(s, ServiceValidation(w, ing, s));
      var p :| 0 <= p < |s.ports| && PortClusters(s, ServiceValidation(w, ing, s))[p] == id;
    }
    if s, p :| s in w.services && 0 <= p < |s.ports|
               && (ing.defaultBackend == Some(s.name) || exists r :: 0 <= r < |ing.rules| && s.name in ing.rules[r].backends)
               && id == ClusterId(s.name, s.ports[p], s.healthPath,
                                  if s.protocol == "tls" || s.protocol == "h2"
                                  then HostValidation(w, ing, LastHost(ing.rules, s.name)) else None) {
      assert Matches(ing, s) && PortClusters(s, ServiceValidation(w, ing, s))[p] == id;
    }
  }

  // ---------------------------------------------------------------- the generators as loops

  /** The host and the secret getClustersForIngress settles on for a service. */
  method UpstreamOf(w: World, ing: Ingress, s: Service) returns (v: Validation)
    ensures v == ServiceValidation(w, ing, s)
  {
    var sni := "";
    for i := 0 to |ing.rules|
      invariant sni == LastHost(ing.rules[..i], s.name)
    {
      assert ing.rules[..i + 1][..i] == ing.rules[..i];
      if s.name in ing.rules[i].backends { sni := ing.rules[i].host; }
    }
    assert ing.rules[..|ing.rules|] == ing.rules;
    var secretName := "";
    if |sni| > 0 {
      for i := 0 to |ing.tls|
        invariant secretName == var f := LastSecret(ing.tls[..i], sni); if f.Some? then f.value else ""
      {
        assert ing.tls[..i + 1][..i] == ing.tls[..i];
        if sni in ing.tls[i].hosts { secretName := ing.tls[i].secretName; }
      }
      assert ing.tls[..|ing.tls|] == ing.tls;
    }
    if UsesTls(s) && |secretName| > 0 && HasSecret(w, secretName) { v := Some((secretName, sni)); } else { v := None; }
  }

  method GetClusters(w: World, ing: Ingress) returns (ids: seq<ClusterId>)
    ensures ids == Clusters(w, ing)
  {
    var services := ServicesFor(ing, w.services);
    ids := [];
    for i := 0 to |services|
      invariant ids == ClustersOf(w, ing, services[..i])
    {
      var s := services[i];
      var v := UpstreamOf(w, ing, s);
      ghost var before := ids;
      for p := 0 to |s.ports|
        invariant ids == before + PortClusters(s, v)[..p]
      {
        ids := ids + [ClusterId(s.name, s.ports[p], s.healthPath, v)];
      }
      assert PortClusters(s, v)[..|s.ports|] == PortClusters(s, v);
      assert services[..i + 1][..i] == services[..i];
    }
    assert services[..|services|] == services;
  }

  /** A generated route; only the cluster it names matters here. */
  class Route {
    var cluster: ClusterId
    constructor (id: ClusterId)
      ensures cluster == id
    {
      cluster := id;
    }
  }

  ghost predicate Name(routes: seq<Route>, ids: seq<ClusterId>)
    reads routes
  {
    |routes| == |ids| && forall i :: 0 <= i < |ids| ==> routes[i].cluster == ids[i]
  }

  /** The port loop of one path: it appends the same route object for every port and overwrites its cluster. */
  method PathLoop(s: Service, v: Validation) returns (routes: seq<Route>)
    ensures forall r :: r in routes ==> fresh(r)
    ensures Name(routes, SharedRoutes(s, v))
  {
    routes := [];
    var route := new Route(ClusterId("", 0, "", None));
    for p := 0 to |s.ports|
      invariant |routes| == p && forall i :: 0 <= i < p ==> routes[i] == route
      invariant p > 0 ==> route.cluster == ClusterId(s.name, s.ports[p - 1], s.healthPath, v)
    {
      route.cluster := ClusterId(s.name, s.ports[p], s.healthPath, v);
      routes := routes + [route];
    }
  }

  ghost function Filled(before: map<string, string>, hosts: seq<string>, secretName: string): map<string, string> {
    if hosts == [] then before
    else
      var (rest, h) := (Filled(before, hosts[..|hosts| - 1], secretName), hosts[|hosts| - 1]);
      if h != "" then rest[h := secretName] else rest
  }

  lemma {:induction false} FilledAt(before: map<string, string>, hosts: seq<string>, secretName: string, h: string)
    ensures var r := Filled(before, hosts, secretName);
            && (h in r <==> h in before || (h != "" && h in hosts))
            && (h in r ==> r[h] == if h in hosts && h != "" then secretName else before[h])
  {
    if hosts != [] {
      var (init, last) := (hosts[..|hosts| - 1], hosts[|hosts| - 1]);
      FilledAt(before, init, secretName, h);
      assert h in hosts <==> h in init || h == last by { assert hosts == init + [last]; }
    }
  }

  /** The hosts of one TLS entry. */
  method EntrySecrets(t: Tls, before: map<string, string>) returns (secrets: map<string, string>)
    ensures secrets == Filled(before, t.hosts, t.secretName)
  {
    secrets := before;
    for j := 0 to |t.hosts|
      invariant secrets == Filled(before, t.hosts[..j], t.secretName)
    {
      assert t.hosts[..j + 1][..j] == t.hosts[..j];
      if |t.hosts[j]| != 0 { secrets := secrets[t.hosts[j] := t.secretName]; }
    }
    assert t.hosts[..|t.hosts|] == t.hosts;
  }

  /** The host table getRouteForIngress fills from the TLS entries; later entries win. */
  method HostSecrets(ing: Ingress) returns (secrets: map<string, string>)
    ensures forall h :: h in secrets <==> h != "" && LastSecret(ing.tls, h).Some?
    ensures forall h :: h in secrets ==> LastSecret(ing.tls, h) == Some(secrets[h])
  {
    secrets := map[];
    for i := 0 to |ing.tls|
      invariant forall h :: h in secrets <==> h != "" && LastSecret(ing.tls[..i], h).Some?
      invariant forall h :: h in secrets ==> LastSecret(ing.tls[..i], h) == Some(secrets[h])
    {
      ghost var before := secrets;
      secrets := EntrySecrets(ing.tls[i], secrets);
      assert ing.tls[..i + 1][..i] == ing.tls[..i];
      forall h ensures (h in secrets <==> h in before || (h != "" && h in ing.tls[i].hosts))
                       && (h in secrets ==> secrets[h] == if h in ing.tls[i].hosts && h != "" then ing.tls[i].secretName else before[h]) {
        FilledAt(before, ing.tls[i].hosts, ing.tls[i].secretName, h);
      }
    }
    assert ing.tls[..|ing.tls|] == ing.tls;
  }

  /** One path of a rule; without the service there is no route. */
  method OnePath(w: World, ing: Ingress, host: string, backend: string, v: Validation) returns (routes: seq<Route>)
    requires v == HostValidation(w, ing, host)
    ensures forall r :: r in routes ==> fresh(r)
    ensures Name(routes, PathRoutes(w, ing, host, backend))
  {
    var s := GetService(w.services, backend);
    routes := [];
    if s.Some? { routes := PathLoop(s.value, v); }
  }

  /** The path loop of one rule. */
  method RuleLoop(w: World, ing: Ingress, rule: Rule, v: Validation) returns (routes: seq<Route>)
    requires v == HostValidation(w, ing, rule.host)
    ensures forall r :: r in routes ==> fresh(r)
    ensures Name(routes, RuleRoutes(w, ing, rule.host, rule.backends))
  {
    routes := [];
    for b := 0 to |rule.backends|
      invariant forall r :: r in routes ==> fresh(r)
      invariant Name(routes, RuleRoutes(w, ing, rule.host, rule.backends[..b]))
    {
      var more := OnePath(w, ing, rule.host, rule.backends[b], v);
      assert rule.backends[..b + 1][..b] == rule.backends[..b];
      routes := routes + more;
    }
    assert rule.backends[..|rule.backends|] == rule.backends;
  }

  lemma NameAppend(a: seq<Route>, b: seq<Route>, x: seq<ClusterId>, y: seq<ClusterId>)
    requires Name(a, x) && Name(b, y)
    ensures Name(a + b, x + y)
  {
  }

  lemma RoutesSnoc(w: World, ing: Ingress, rules: seq<Rule>, i: nat)
    requires i < |rules|
    ensures RoutesOf(w, ing, rules[..i + 1]) == RoutesOf(w, ing, rules[..i]) + RuleRoutes(w, ing, rules[i].host, rules[i].backends)
  {
    assert rules[..i + 1][..i] == rules[..i];
  }

  /** One rule, with the secret the host table gives its host. */
  method OneRule(w: World, ing: Ingress, rule: Rule, secrets: map<string, string>) returns (routes: seq<Route>)
    requires rule.host in secrets <==> rule.host != "" && LastSecret(ing.tls, rule.host).Some?
    requires rule.host in secrets ==> LastSecret(ing.tls, rule.host) == Some(secrets[rule.host])
    ensures forall r :: r in routes ==> fresh(r)
    ensures Name(routes, RuleRoutes(w, ing, rule.host, rule.backends))
  {
    var v := if rule.host in secrets && HasSecret(w, secrets[rule.host]) then Some((secrets[rule.host], rule.host)) else None;
    routes := RuleLoop(w, ing, rule, v);
  }

  method GetRoutes(w: World, ing: Ingress) returns (routes: seq<Route>)
    ensures forall r :: r in routes ==> fresh(r)
    ensures Name(routes, Routes(w, ing))
  {
    routes := [];
    var secrets := HostSecrets(ing);
    for i := 0 to |ing.rules|
      invariant forall r :: r in routes ==> fresh(r)
      invariant Name(routes, RoutesOf(w, ing, ing.rules[..i]))
    {
      var more := OneRule(w, ing, ing.rules[i], secrets);
      NameAppend(routes, more, RoutesOf(w, ing, ing.rules[..i]), RuleRoutes(w, ing, ing.rules[i].host, ing.rules[i].backends));
      RoutesSnoc(w, ing, ing.rules, i);
      routes := routes + more;
    }
    assert ing.rules[..|ing.rules|] == ing.rules;
  }
}
