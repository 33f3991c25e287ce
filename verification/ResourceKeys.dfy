// The names and keys of generated resources: which of the five kinds can ever share a key.
module ResourceKeys {
  import opened ClusterNames
  import opened Hashname
  import opened Text

  const HTTP_LISTENER := "ingress_http"
  const HTTPS_LISTENER := "ingress_https"
  const LISTENER_ADDRESS := "0.0.0.0"
  const ROUTE_SUFFIX := "envoyroute"

  /** What a resource of each kind is named after; the digest of a secret is that of its certificate. */
  datatype Named =
    | SecretOf(secret: string, digest: Digest10)
    | EndpointsOf(service: string)
    | ClusterOf(id: ClusterId)
    | RouteOf(ingress: string)
    | HttpOn(port: Port32)
    | HttpsOn(port: Port32)

  function Parts(d: Digests, ns: string, r: Named): seq<string> {
    match r
    case SecretOf(secret, digest) => [ns, secret, digest]
    case EndpointsOf(service) => [service, ns]
    case ClusterOf(id) => NameParts(d, ns, id)
    case RouteOf(ingress) => [ingress, ns, ROUTE_SUFFIX]
    case HttpOn(port) => [HTTP_LISTENER, LISTENER_ADDRESS, Itoa(port)]
    case HttpsOn(port) => [HTTPS_LISTENER, LISTENER_ADDRESS, Itoa(port)]
  }

  function NameIn(d: Digests, ns: string, r: Named): string {
    var parts := Parts(d, ns, r);
    NameOf(NAME_LIMIT, parts, d.sha256(Join(parts, '_')))
  }

  /** EnvoyResourceKeyFunc. */
  function KeyOf(ns: string, name: string): string { if ns == "" then name else ns + "/" + name }

  /** Kubernetes allows no underscore in the names of namespaces, services, secrets and ingresses. */
  ghost predicate PlainName(r: Named) {
    match r
    case SecretOf(secret, digest) => Plain(secret)
    case EndpointsOf(service) => Plain(service)
    case ClusterOf(id) => Plain(id.service)
    case RouteOf(ingress) => Plain(ingress)
    case _ => true
  }

  // ---------------------------------------------------------------- what a name splits into

  lemma CutPlain(parts: seq<string>, hash: Digest64, n: nat)
    requires n <= |parts| && AllFree(parts, '_')
    ensures AllFree(Cut(NAME_LIMIT, parts, hash, n), '_')
  {
  }

  /** A shortened name splits into its parts, each whole or cut, unless it is a bare digest. */
  lemma NameSplits(parts: seq<string>, hash: Digest64) returns (n: nat)
    requires parts != [] && AllFree(parts, '_')
    ensures n <= |parts|
    ensures Split(NameOf(NAME_LIMIT, parts, hash), '_') == Cut(NAME_LIMIT, parts, hash, n) ||
            (NeverFits(NAME_LIMIT, parts, hash) && |Split(NameOf(NAME_LIMIT, parts, hash), '_')| == 1)
  {
    var name := NameOf(NAME_LIMIT, parts, hash);
    NamedIffNameOf(NAME_LIMIT, parts, hash, name);
    n := 0;
    if m :| 0 <= m <= |parts| && CutsFewest(NAME_LIMIT, parts, hash, name, m) {
      n := m;
      CutPlain(parts, hash, n);
      SplitJoin(Cut(NAME_LIMIT, parts, hash, n), '_');
    } else {
      SplitFree(name, '_');
    }
  }

  lemma JoinThree(a: string, b: string, c: string)
    ensures |Join([a, b, c], '_')| == |a| + |b| + |c| + 2
  {
    assert [a, b, c][1..] == [b, c] && [b, c][1..] == [c];
    assert Join([b, c], '_') == b + ['_'] + c;
  }

  /** Three parts whose last is short: it is never cut, and cutting the others is always enough. */
  lemma ThreeParts(a: string, b: string, last: string, hash: Digest64)
    requires Plain(a) && Plain(b) && Plain(last) && |last| <= 10
    ensures var split := Split(NameOf(NAME_LIMIT, [a, b, last], hash), '_'); |split| == 3 && split[2] == last
  {
    var parts := [a, b, last];
    var n := NameSplits(parts, hash);
    var all := Cut(NAME_LIMIT, parts, hash, 0);
    assert all == [all[0], all[1], all[2]];
    JoinThree(all[0], all[1], all[2]);
    assert !NeverFits(NAME_LIMIT, parts, hash) by { assert |CutName(NAME_LIMIT, parts, hash, 0)| < NAME_LIMIT; }
  }

  lemma SecretSplits(d: Digests, ns: string, r: Named)
    requires r.SecretOf? && Plain(ns) && PlainName(r)
    ensures var split := Split(NameIn(d, ns, r), '_'); |split| == 3 && split[2] == r.digest
  {
    ThreeParts(ns, r.secret, r.digest, d.sha256(Join(Parts(d, ns, r), '_')));
  }

  lemma RouteSplits(d: Digests, ns: string, r: Named)
    requires r.RouteOf? && Plain(ns) && PlainName(r)
    ensures var split := Split(NameIn(d, ns, r), '_'); |split| == 3 && split[2] == ROUTE_SUFFIX
  {
    ThreeParts(r.ingress, ns, ROUTE_SUFFIX, d.sha256(Join(Parts(d, ns, r), '_')));
  }

  lemma EndpointsSplit(d: Digests, ns: string, r: Named)
    requires r.EndpointsOf? && Plain(ns) && PlainName(r)
    ensures 1 <= |Split(NameIn(d, ns, r), '_')| <= 2
  {
    var n := NameSplits(Parts(d, ns, r), d.sha256(Join(Parts(d, ns, r), '_')));
  }

  lemma ClusterSplits(d: Digests, ns: string, r: Named)
    requires r.ClusterOf? && Plain(ns) && PlainName(r)
    ensures var split := Split(NameIn(d, ns, r), '_'); |split| == 4 && split[2] == Itoa(r.id.port)
  {
    ShownSplits(d, ns, r.id);
  }

  /** A name that fits is kept; a separator inside its first part splits that part too. */
  lemma PrefixSplits(a: string, b: string, c: string, e: string, hash: Digest64)
    requires Plain(a) && Plain(b) && Plain(c) && Plain(e) && |a| + |b| + |c| + |e| + 3 < NAME_LIMIT
    ensures Split(NameOf(NAME_LIMIT, [a + ['_'] + b, c, e], hash), '_') == [a, b, c, e]
  {
    var (parts, whole) := ([a + ['_'] + b, c, e], [a, b, c, e]);
    assert Join(parts, '_') == Join(whole, '_') by {
      assert parts[1..] == [c, e] && whole[1..] == [b, c, e] && [b, c, e][1..] == [c, e];
      assert Join(whole, '_') == a + ['_'] + (b + ['_'] + Join([c, e], '_'));
      assert Join(parts, '_') == a + ['_'] + b + ['_'] + Join([c, e], '_');
    }
    JoinFour(a, b, c, e);
    NamedIffNameOf(NAME_LIMIT, parts, hash, NameOf(NAME_LIMIT, parts, hash));
    NamedBounds(NAME_LIMIT, parts, hash, NameOf(NAME_LIMIT, parts, hash));
    SplitJoin(whole, '_');
  }

  /** Listener names are never cut; their fixed prefix already holds the separator. */
  lemma ListenerSplits(d: Digests, ns: string, r: Named)
    requires r.HttpOn? || r.HttpsOn?
    ensures Split(NameIn(d, ns, r), '_') == ["ingress", if r.HttpOn? then "http" else "https", LISTENER_ADDRESS, Itoa(r.port)]
  {
    var second := if r.HttpOn? then "http" else "https";
    PortLength(r.port);
    assert Parts(d, ns, r)[0] == "ingress" + ['_'] + second;
    PrefixSplits("ingress", second, LISTENER_ADDRESS, Itoa(r.port), d.sha256(Join(Parts(d, ns, r), '_')));
  }

  // ---------------------------------------------------------------- collisions

  ghost predicate SameKind(a: Named, b: Named) {
    || (a.SecretOf? && b.SecretOf?) || (a.EndpointsOf? && b.EndpointsOf?) || (a.ClusterOf? && b.ClusterOf?)
    || (a.RouteOf? && b.RouteOf?) || (a.HttpOn? && b.HttpOn?) || (a.HttpsOn? && b.HttpsOn?)
  }

  /** The parts of a name that give away its kind. */
  ghost predicate Shape(r: Named, split: seq<string>) {
    match r
    case SecretOf(_, digest) => |split| == 3 && split[2] == digest
    case EndpointsOf(_) => 1 <= |split| <= 2
    case ClusterOf(id) => |split| == 4 && split[2] == Itoa(id.port)
    case RouteOf(_) => |split| == 3 && split[2] == ROUTE_SUFFIX
    case HttpOn(port) => split == ["ingress", "http", LISTENER_ADDRESS, Itoa(port)]
    case HttpsOn(port) => split == ["ingress", "https", LISTENER_ADDRESS, Itoa(port)]
  }

  lemma NameHasShape(d: Digests, ns: string, r: Named)
    requires Plain(ns) && PlainName(r)
    ensures Shape(r, Split(NameIn(d, ns, r), '_'))
  {
    match r
    case SecretOf(_, _) => SecretSplits(d, ns, r);
    case EndpointsOf(_) => EndpointsSplit(d, ns, r);
    case ClusterOf(_) => ClusterSplits(d, ns, r);
    case RouteOf(_) => RouteSplits(d, ns, r);
    case HttpOn(_) => ListenerSplits(d, ns, r);
    case HttpsOn(_) => ListenerSplits(d, ns, r);
  }

  lemma ShapesDiffer(a: Named, b: Named, split: seq<string>)
    requires Shape(a, split) && Shape(b, split)
    ensures SameKind(a, b)
  {
    assert !IsHex(ROUTE_SUFFIX[1]) && '.' in LISTENER_ADDRESS;
    assert |"http"| != |"https"|;
  }

  /** Resources of different kinds never share a key, whatever their namespaces and the digests are. */
  lemma KindsNeverCollide(d: Digests, ns: string, a: Named, ns': string, b: Named)
    requires Plain(ns) && Plain(ns') && SlashFree(ns) && SlashFree(ns') && ns != "" && ns' != "" && PlainName(a) && PlainName(b)
    requires KeyOf(ns, NameIn(d, ns, a)) == KeyOf(ns', NameIn(d, ns', b))
    ensures ns == ns' && SameKind(a, b)
  {
    KeySplits(ns, NameIn(d, ns, a), ns', NameIn(d, ns', b));
    NameHasShape(d, ns, a);
    NameHasShape(d, ns, b);
    ShapesDiffer(a, b, Split(NameIn(d, ns, a), '_'));
  }

  lemma KeySplits(ns: string, a: string, ns': string, b: string)
    requires SlashFree(ns) && SlashFree(ns') && ns + "/" + a == ns' + "/" + b
    ensures ns == ns' && a == b
  {
    var key := ns + "/" + a;
    assert key[|ns|] == '/' && key[|ns'|] == '/';
    assert forall i :: 0 <= i < |ns| ==> key[i] == ns[i];
    assert forall i :: 0 <= i < |ns'| ==> key[i] == ns'[i];
    assert |ns| == |ns'|;
    assert key[..|ns|] == ns && key[..|ns'|] == ns' && key[|ns| + 1..] == a && key[|ns'| + 1..] == b;
  }

  /** Listeners of one namespace share a key exactly when they are of one kind and port: hosts play no part. */
  lemma ListenerKeyIff(d: Digests, ns: string, a: Named, b: Named)
    requires (a.HttpOn? || a.HttpsOn?) && (b.HttpOn? || b.HttpsOn?)
    ensures KeyOf(ns, NameIn(d, ns, a)) == KeyOf(ns, NameIn(d, ns, b)) <==> a == b
  {
    if KeyOf(ns, NameIn(d, ns, a)) == KeyOf(ns, NameIn(d, ns, b)) {
      assert NameIn(d, ns, a) == NameIn(d, ns, b) by {
        var (x, y) := (NameIn(d, ns, a), NameIn(d, ns, b));
        assert ns != "" ==> (ns + "/" + x)[|ns| + 1..] == x && (ns + "/" + y)[|ns| + 1..] == y;
      }
      ListenerSplits(d, ns, a);
      ListenerSplits(d, ns, b);
      var split := Split(NameIn(d, ns, a), '_');
      assert split[3] == Itoa(a.port) == Itoa(b.port);
      ItoaInjective(a.port, b.port);
      assert (split[1] == "http") == a.HttpOn? == b.HttpOn?;
    }
  }

  /** A name that fits spells its parts in this order. */
  lemma ShortNamesSpell(d: Digests, ns: string, r: Named)
    requires |Join(Parts(d, ns, r), '_')| < NAME_LIMIT
    ensures NameIn(d, ns, r) ==
            match r
            case SecretOf(secret, digest) => ns + "_" + secret + "_" + digest
            case EndpointsOf(service) => service + "_" + ns
            case ClusterOf(id) => ns + "_" + id.service + "_" + Itoa(id.port) + "_" + d.sha1(Settings(id))
            case RouteOf(ingress) => ingress + "_" + ns + "_" + "envoyroute"
            case HttpOn(port) => "ingress_http" + "_" + "0.0.0.0" + "_" + Itoa(port)
            case HttpsOn(port) => "ingress_https" + "_" + "0.0.0.0" + "_" + Itoa(port)
  {
    var (parts, hash) := (Parts(d, ns, r), d.sha256(Join(Parts(d, ns, r), '_')));
    NamedIffNameOf(NAME_LIMIT, parts, hash, NameIn(d, ns, r));
    NamedBounds(NAME_LIMIT, parts, hash, NameIn(d, ns, r));
    if |parts| == 2 {
      SpellTwo(parts[0], parts[1]);
    } else if |parts| == 3 {
      SpellThree(parts[0], parts[1], parts[2]);
    } else {
      SpellFour(parts[0], parts[1], parts[2], parts[3]);
    }
  }

  lemma SpellTwo(a: string, b: string)
    ensures Join([a, b], '_') == a + "_" + b
  {
    assert [a, b][1..] == [b];
  }

  lemma SpellThree(a: string, b: string, c: string)
    ensures Join([a, b, c], '_') == a + "_" + b + "_" + c
  {
    assert [a, b, c][1..] == [b, c];
    SpellTwo(b, c);
  }

  lemma SpellFour(a: string, b: string, c: string, e: string)
    ensures Join([a, b, c, e], '_') == a + "_" + b + "_" + c + "_" + e
  {
    assert [a, b, c, e][1..] == [b, c, e];
    SpellThree(b, c, e);
  }
}
