// The listeners of an ingress: all TLS hosts of one port share a key, and the store keeps one of them.
module Listeners {
  import opened ClusterNames
  import opened IngressStore
  import opened ResourceKeys
  import opened Text
  import IngressTranslate

  type Tls = IngressTranslate.Tls

  /** A rule with the port of each of its paths; a path without a service backend has none. */
  datatype Rule = Rule(host: string, ports: seq<Option<Port32>>)

  /** The https listener of a port has one filter chain, for one host and its secret. */
  datatype Listener = Http(port: Port32) | Https(port: Port32, host: string, secret: string)

  /** What the generator reads: the TLS entries of the ingress and the secrets of its namespace. */
  datatype Config = Config(tls: seq<Tls>, secrets: set<string>)

  /** The secret name of the first TLS entry that lists the host. */
  function FirstSecret(tls: seq<Tls>, host: string): Option<string> {
    if tls == [] then None
    else if host in tls[0].hosts then Some(tls[0].secretName)
    else FirstSecret(tls[1..], host)
  }

  /** The secret a rule for this host is served with, when it needs TLS and the secret exists. */
  function SecretFor(w: Config, host: string): Option<string> {
    var secret := FirstSecret(w.tls, host);
    if secret.Some? && secret.value != "" && secret.value in w.secrets then secret else None
  }

  function HttpListeners(ports: seq<Option<Port32>>): seq<Listener> {
    if ports == [] then []
    else
      var (rest, p) := (HttpListeners(ports[..|ports| - 1]), ports[|ports| - 1]);
      if p.Some? then rest + [Http(p.value)] else rest
  }

  function HttpsListeners(ports: seq<Option<Port32>>, host: string, secret: string): seq<Listener> {
    if ports == [] then []
    else
      var (rest, p) := (HttpsListeners(ports[..|ports| - 1], host, secret), ports[|ports| - 1]);
      if p.Some? then rest + [Https(p.value, host, secret)] else rest
  }

  function RuleListeners(w: Config, r: Rule): seq<Listener> {
    var secret := SecretFor(w, r.host);
    HttpListeners(r.ports) + if secret.Some? then HttpsListeners(r.ports, r.host, secret.value) else []
  }

  /** getListenersForIngress. */
  function ListenersOf(w: Config, rules: seq<Rule>): seq<Listener> {
    if rules == [] then [] else ListenersOf(w, rules[..|rules| - 1]) + RuleListeners(w, rules[|rules| - 1])
  }

  // ---------------------------------------------------------------- the generator as loops

  /** The search that breaks out of both loops at the first match. */
  method FindSecret(tls: seq<Tls>, host: string) returns (needTls: bool, secretName: string)
    ensures FirstSecret(tls, host) == if needTls then Some(secretName) else None
  {
    needTls, secretName := false, "";
    for i := 0 to |tls|
      invariant !needTls && FirstSecret(tls, host) == FirstSecret(tls[i..], host)
    {
      if host in tls[i].hosts { return true, tls[i].secretName; }
      assert tls[i..][1..] == tls[i + 1..];
    }
  }

  method GetListeners(w: Config, rules: seq<Rule>) returns (listeners: seq<Listener>)
    ensures listeners == ListenersOf(w, rules)
  {
    listeners := [];
    for i := 0 to |rules|
      invariant listeners == ListenersOf(w, rules[..i])
    {
      var r := rules[i];
      var needTls, secretName := FindSecret(w.tls, r.host);
      var plain := [];
      for j := 0 to |r.ports|
        invariant plain == HttpListeners(r.ports[..j])
      {
        assert r.ports[..j + 1][..j] == r.ports[..j];
        if r.ports[j].Some? { plain := plain + [Http(r.ports[j].value)]; }
      }
      var secure := [];
      if needTls && secretName != "" && secretName in w.secrets {
        for j := 0 to |r.ports|
          invariant secure == HttpsListeners(r.ports[..j], r.host, secretName)
        {
          assert r.ports[..j + 1][..j] == r.ports[..j];
          if r.ports[j].Some? { secure := secure + [Https(r.ports[j].value, r.host, secretName)]; }
        }
      }
      assert r.ports[..|r.ports|] == r.ports && rules[..i + 1][..i] == rules[..i];
      listeners := listeners + (plain + secure);
    }
    assert rules[..|rules|] == rules;
  }

  // ---------------------------------------------------------------- which listener the store keeps

  /** The last listener for TLS on a port. */
  function LastHttps(ls: seq<Listener>, p: Port32): Option<Listener> {
    if ls == [] then None
    else
      var l := ls[|ls| - 1];
      if l.Https? && l.port == p then Some(l) else LastHttps(ls[..|ls| - 1], p)
  }

  /** The last rule that has TLS and a path to the port. */
  function LastRule(w: Config, rules: seq<Rule>, p: Port32): Option<Rule> {
    if rules == [] then None
    else
      var r := rules[|rules| - 1];
      if SecretFor(w, r.host).Some? && Some(p) in r.ports then Some(r) else LastRule(w, rules[..|rules| - 1], p)
  }

  lemma {:induction false} LastHttpsAppend(a: seq<Listener>, b: seq<Listener>, p: Port32)
    ensures LastHttps(a + b, p) == if LastHttps(b, p).Some? then LastHttps(b, p) else LastHttps(a, p)
  {
    if b == [] {
      assert a + b == a;
    } else {
      var init := b[..|b| - 1];
      assert (a + b)[..|a + b| - 1] == a + init;
      LastHttpsAppend(a, init, p);
    }
  }

  lemma LastHttpsSnoc(ls: seq<Listener>, l: Listener, p: Port32)
    ensures LastHttps(ls + [l], p) == if l.Https? && l.port == p then Some(l) else LastHttps(ls, p)
  {
    assert (ls + [l])[..|ls|] == ls;
  }

  lemma {:induction false} NoHttps(ports: seq<Option<Port32>>, p: Port32)
    ensures LastHttps(HttpListeners(ports), p) == None
  {
    if ports != [] {
      var (init, last) := (ports[..|ports| - 1], ports[|ports| - 1]);
      NoHttps(init, p);
      if last.Some? { LastHttpsSnoc(HttpListeners(init), Http(last.value), p); }
    }
  }

  lemma {:induction false} OneHttps(ports: seq<Option<Port32>>, host: string, secret: string, p: Port32)
    ensures LastHttps(HttpsListeners(ports, host, secret), p) == if Some(p) in ports then Some(Https(p, host, secret)) else None
  {
    if ports != [] {
      var (init, last) := (ports[..|ports| - 1], ports[|ports| - 1]);
      OneHttps(init, host, secret, p);
      assert Some(p) in ports <==> Some(p) in init || last == Some(p) by { assert ports == init + [last]; }
      if last.Some? { LastHttpsSnoc(HttpsListeners(init, host, secret), Https(last.value, host, secret), p); }
    }
  }

  lemma RuleHttps(w: Config, r: Rule, p: Port32)
    ensures var secret := SecretFor(w, r.host);
            LastHttps(RuleListeners(w, r), p) ==
            if secret.Some? && Some(p) in r.ports then Some(Https(p, r.host, secret.value)) else None
  {
    var secret := SecretFor(w, r.host);
    NoHttps(r.ports, p);
    if secret.Some? {
      OneHttps(r.ports, r.host, secret.value, p);
      LastHttpsAppend(HttpListeners(r.ports), HttpsListeners(r.ports, r.host, secret.value), p);
    } else {
      assert HttpListeners(r.ports) + [] == HttpListeners(r.ports);
    }
  }

  lemma {:induction false} LastIsLastRule(w: Config, rules: seq<Rule>, p: Port32)
    ensures var r := LastRule(w, rules, p);
            && (r.Some? ==> SecretFor(w, r.value.host).Some?)
            && LastHttps(ListenersOf(w, rules), p) ==
                 if r.Some? then Some(Https(p, r.value.host, SecretFor(w, r.value.host).value)) else None
  {
    if rules != [] {
      var (init, r) := (rules[..|rules| - 1], rules[|rules| - 1]);
      LastIsLastRule(w, init, p);
      RuleHttps(w, r, p);
      LastHttpsAppend(ListenersOf(w, init), RuleListeners(w, r), p);
    }
  }

  // ---------------------------------------------------------------- through a sync

  /** How listeners become resources: everything but the body is the same for all of them. */
  datatype Wrap = Wrap(d: Digests, ns: string, groups: set<string>, version: string, body: Listener -> string)

  function HttpsKey(x: Wrap, p: Port32): string { KeyOf(x.ns, NameIn(x.d, x.ns, HttpsOn(p))) }

  function Wrapped(x: Wrap, l: Listener): Generated {
    var name := if l.Http? then HttpOn(l.port) else HttpsOn(l.port);
    Generated(KeyOf(x.ns, NameIn(x.d, x.ns, name)), x.groups, x.version, x.body(l))
  }

  function AllWrapped(x: Wrap, ls: seq<Listener>): seq<Generated> {
    if ls == [] then [] else AllWrapped(x, ls[..|ls| - 1]) + [Wrapped(x, ls[|ls| - 1])]
  }

  /** The last generated resource under a key. */
  function LastOf(gen: seq<Generated>, k: string): Option<Generated> {
    if gen == [] then None
    else if gen[|gen| - 1].key == k then Some(gen[|gen| - 1])
    else LastOf(gen[..|gen| - 1], k)
  }

  /** Of several resources under one key a sync stores the body of the last. */
  lemma {:induction false} LastIsStored(c: Controller, i: string, gen: seq<Generated>, k: string)
    requires i in c.index && LastOf(gen, k).Some?
    ensures k in PutAll(c, i, gen).store && PutAll(c, i, gen).store[k].spec == LastOf(gen, k).value.spec
  {
    if gen[|gen| - 1].key != k {
      LastIsStored(c, i, gen[..|gen| - 1], k);
    }
  }

  lemma {:induction false} LastOfAppend(a: seq<Generated>, b: seq<Generated>, k: string)
    requires LastOf(b, k).Some?
    ensures LastOf(a + b, k) == LastOf(b, k)
  {
    var init := b[..|b| - 1];
    assert (a + b)[..|a + b| - 1] == a + init;
    if b[|b| - 1].key != k { LastOfAppend(a, init, k); }
  }

  lemma {:induction false} LastWrapped(x: Wrap, ls: seq<Listener>, p: Port32)
    ensures var l := LastHttps(ls, p);
            LastOf(AllWrapped(x, ls), HttpsKey(x, p)) == if l.Some? then Some(Wrapped(x, l.value)) else None
  {
    if ls != [] {
      var (init, l) := (ls[..|ls| - 1], ls[|ls| - 1]);
      LastWrapped(x, init, p);
      ListenerKeyIff(x.d, x.ns, if l.Http? then HttpOn(l.port) else HttpsOn(l.port), HttpsOn(p));
      var all := AllWrapped(x, ls);
      assert all[..|all| - 1] == AllWrapped(x, init);
    }
  }

  /** After a sync the https listener of a port serves the host of the last TLS rule with that port, and no other host. */
  lemma StoredChain(x: Wrap, c: Controller, i: string, others: seq<Generated>, w: Config, rules: seq<Rule>, p: Port32)
    requires LastRule(w, rules, p).Some?
    ensures var c' := Step(c, Sync(i, others + AllWrapped(x, ListenersOf(w, rules))));
            var host := LastRule(w, rules, p).value.host;
            && SecretFor(w, host).Some? && HttpsKey(x, p) in c'.store
            && c'.store[HttpsKey(x, p)].spec == x.body(Https(p, host, SecretFor(w, host).value))
  {
    var ls := ListenersOf(w, rules);
    var gen := others + AllWrapped(x, ls);
    LastIsLastRule(w, rules, p);
    LastWrapped(x, ls, p);
    LastOfAppend(others, AllWrapped(x, ls), HttpsKey(x, p));
    LastIsStored(DropStale(c, i, Indexed(c, i) - Keys(gen)), i, gen, HttpsKey(x, p));
  }

  /**
   * Exactly when the filter chain of a TLS rule on a port is the stored one: the last TLS rule with that port is for the
   * same host. Every other host of the port loses its chain.
   */
  lemma ChainKeptIff(x: Wrap, c: Controller, i: string, others: seq<Generated>, w: Config, rules: seq<Rule>, r: Rule, p: Port32)
    requires r in rules && SecretFor(w, r.host).Some? && Some(p) in r.ports
    requires forall l, l' :: x.body(l) == x.body(l') ==> l == l'
    ensures LastRule(w, rules, p).Some?
    ensures var c' := Step(c, Sync(i, others + AllWrapped(x, ListenersOf(w, rules))));
            && HttpsKey(x, p) in c'.store
            && (c'.store[HttpsKey(x, p)].spec == x.body(Https(p, r.host, SecretFor(w, r.host).value)) <==>
                  LastRule(w, rules, p).value.host == r.host)
  {
    LastRuleExists(w, rules, r, p);
    StoredChain(x, c, i, others, w, rules, p);
  }

  lemma {:induction false} LastRuleExists(w: Config, rules: seq<Rule>, r: Rule, p: Port32)
    requires r in rules && SecretFor(w, r.host).Some? && Some(p) in r.ports
    ensures LastRule(w, rules, p).Some?
  {
    var (init, last) := (rules[..|rules| - 1], rules[|rules| - 1]);
    assert rules == init + [last];
    if last != r { LastRuleExists(w, init, r, p); }
  }

  // ---------------------------------------------------------------- http listeners

  lemma {:induction false} FirstSecretIs(tls: seq<Tls>, host: string, q: nat)
    requires q < |tls| && host in tls[q].hosts && forall t :: 0 <= t < q ==> host !in tls[t].hosts
    ensures FirstSecret(tls, host) == Some(tls[q].secretName)
  {
    if q > 0 { FirstSecretIs(tls[1..], host, q - 1); }
  }

  lemma {:induction false} HttpMember(ports: seq<Option<Port32>>, p: Port32)
    ensures Http(p) in HttpListeners(ports) <==> Some(p) in ports
  {
    if ports != [] {
      var (init, last) := (ports[..|ports| - 1], ports[|ports| - 1]);
      HttpMember(init, p);
      assert Some(p) in ports <==> Some(p) in init || last == Some(p) by { assert ports == init + [last]; }
    }
  }

  lemma {:induction false} NoHttpAmongHttps(ports: seq<Option<Port32>>, host: string, secret: string, p: Port32)
    ensures Http(p) !in HttpsListeners(ports, host, secret)
  {
    if ports != [] { NoHttpAmongHttps(ports[..|ports| - 1], host, secret, p); }
  }

  /** There is an http listener for exactly the ports of the paths. */
  lemma {:induction false} HttpIff(w: Config, rules: seq<Rule>, p: Port32)
    ensures Http(p) in ListenersOf(w, rules) <==> exists r :: r in rules && Some(p) in r.ports
  {
    if rules != [] {
      var (init, last) := (rules[..|rules| - 1], rules[|rules| - 1]);
      HttpIff(w, init, p);
      HttpMember(last.ports, p);
      var secret := SecretFor(w, last.host);
      if secret.Some? { NoHttpAmongHttps(last.ports, last.host, secret.value, p); }
      assert rules == init + [last];
      assert Http(p) in RuleListeners(w, last) <==> Some(p) in last.ports;
      if r :| r in rules && Some(p) in r.ports { assert r in init || r == last; }
    }
  }

  function HttpKey(x: Wrap, p: Port32): string { KeyOf(x.ns, NameIn(x.d, x.ns, HttpOn(p))) }

  lemma {:induction false} LastHttpWrapped(x: Wrap, ls: seq<Listener>, p: Port32)
    requires Http(p) in ls
    ensures LastOf(AllWrapped(x, ls), HttpKey(x, p)) == Some(Wrapped(x, Http(p)))
  {
    var (init, l) := (ls[..|ls| - 1], ls[|ls| - 1]);
    assert ls == init + [l];
    ListenerKeyIff(x.d, x.ns, if l.Http? then HttpOn(l.port) else HttpsOn(l.port), HttpOn(p));
    var all := AllWrapped(x, ls);
    assert all[..|all| - 1] == AllWrapped(x, init);
    if l != Http(p) { LastHttpWrapped(x, init, p); }
  }

  /** After a sync every path with a port has its http listener stored, whatever the hosts and secrets. */
  lemma HttpIsStored(x: Wrap, c: Controller, i: string, others: seq<Generated>, w: Config, rules: seq<Rule>, r: Rule, p: Port32)
    requires r in rules && Some(p) in r.ports
    ensures var c' := Step(c, Sync(i, others + AllWrapped(x, ListenersOf(w, rules))));
            HttpKey(x, p) in c'.store && c'.store[HttpKey(x, p)].spec == x.body(Http(p))
  {
    var ls := ListenersOf(w, rules);
    var gen := others + AllWrapped(x, ls);
    HttpIff(w, rules, p);
    LastHttpWrapped(x, ls, p);
    LastOfAppend(others, AllWrapped(x, ls), HttpKey(x, p));
    LastIsStored(DropStale(c, i, Indexed(c, i) - Keys(gen)), i, gen, HttpKey(x, p));
  }

  /** A rule has TLS exactly when the first TLS entry that lists its host names a secret that exists. */
  lemma SecretForIff(w: Config, host: string, q: nat)
    requires q < |w.tls| && host in w.tls[q].hosts && forall t :: 0 <= t < q ==> host !in w.tls[t].hosts
    ensures var name := w.tls[q].secretName;
            SecretFor(w, host) == if name != "" && name in w.secrets then Some(name) else None
  {
    FirstSecretIs(w.tls, host, q);
  }

  lemma {:induction false} UnlistedHasNoTls(w: Config, host: string)
    requires forall t :: 0 <= t < |w.tls| ==> host !in w.tls[t].hosts
    ensures SecretFor(w, host) == None
    decreases |w.tls|
  {
    if w.tls != [] { UnlistedHasNoTls(w.(tls := w.tls[1..]), host); }
  }
}
