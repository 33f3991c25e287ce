// From an intercepted destination back to the service: the port text of an address, parsed by the proxy.
module ProxyLookup {
  import opened Text
  import opened AddressTables
  import opened FakeAddresses
  import opened RecoveryRows
  import opened ServiceRuns

  /** The first part that contains the text, or the number of parts. */
  function FirstHit(parts: seq<string>, digits: string): (i: nat)
    ensures i <= |parts|
    ensures i < |parts| ==> Contains(parts[i], digits)
    ensures forall j :: 0 <= j < i ==> !Contains(parts[j], digits)
  {
    if parts == [] then 0
    else if Contains(parts[0], digits) then 0
    else 1 + FirstHit(parts[1..], digits)
  }

  /** getProtocol: the protocol of the first segment that contains the port, and the service key. */
  function GetProtocol(text: string, port: nat): (string, string) {
    var sub := Split(text, '|');
    if |sub| < 2 then ("", "")
    else
      var i := FirstHit(sub, Itoa(port));
      (if i < |sub| then Split(sub[i], ',')[0] else "", sub[|sub| - 1])
  }

  lemma {:induction false} FirstHitIs(parts: seq<string>, digits: string, i: nat)
    requires i <= |parts| && forall j :: 0 <= j < i ==> !Contains(parts[j], digits)
    requires i < |parts| ==> Contains(parts[i], digits)
    ensures FirstHit(parts, digits) == i
  {
  }

  method FindProtocol(text: string, port: nat) returns (protocol: string, svc: string)
    ensures (protocol, svc) == GetProtocol(text, port)
  {
    var sub := Split(text, '|');
    protocol := "";
    if |sub| < 2 { return "", ""; }
    svc := sub[|sub| - 1];
    var digits := Itoa(port);
    for i := 0 to |sub|
      invariant protocol == "" && forall j :: 0 <= j < i ==> !Contains(sub[j], digits)
    {
      if Contains(sub[i], digits) {
        FirstHitIs(sub, digits, i);
        protocol := Split(sub[i], ',')[0];
        return;
      }
    }
    FirstHitIs(sub, digits, |sub|);
  }

  datatype Upstream = Refused | Http(namespace: string, name: string, port: nat)

  /** newProtocolFromSock: only http is supported. */
  function FromSock(text: string, port: nat): Upstream {
    var (protocol, svc) := GetProtocol(text, port);
    var names := Split(svc, '.');
    if protocol == "" || svc == "" || |names| != 2 || protocol != "http" then Refused
    else Http(names[0], names[1], port)
  }

  // ---------------------------------------------------------------- round trip

  ghost predicate CleanText(s: string) { '|' !in s && ',' !in s }

  ghost predicate Clean(s: Service) {
    && CleanText(s.namespace) && CleanText(s.name) && '.' !in s.namespace && '.' !in s.name
    && forall i :: 0 <= i < |s.ports| ==> CleanText(s.ports[i].name)
  }

  function Segments(ports: seq<Port>): (r: seq<string>)
    ensures |r| == |ports| && forall i :: 0 <= i < |r| ==> r[i] == Segment(ports[i])
  {
    seq(|ports|, i requires 0 <= i < |ports| => Segment(ports[i]))
  }

  lemma {:induction false} SplitHead(s: string, sep: char, c: char)
    requires c !in s
    ensures c !in Split(s, sep)[0]
  {
    if s != "" && s[0] != sep {
      SplitHead(s[1..], sep, c);
    }
  }

  lemma SegmentShape(p: Port)
    requires CleanText(p.name)
    ensures '|' !in Segment(p) && Split(Segment(p), ',')[0] == Protocol(p)
    ensures Contains(Segment(p), Itoa(p.port))
  {
    SplitHead(p.name, '-', '|');
    SplitHead(p.name, '-', ',');
    var rest := Itoa(p.port) + "," + Itoa(p.target);
    assert Segment(p) == Protocol(p) + [','] + rest;
    SplitCons(Protocol(p), ',', rest);
    var at := |Protocol(p)| + 1;
    assert Segment(p)[at..] == rest;
    assert OccursAt(Segment(p), Itoa(p.port), at);
  }

  lemma {:induction false} SplitPortText(ports: seq<Port>, tail: string)
    requires '|' !in tail && forall i :: 0 <= i < |ports| ==> CleanText(ports[i].name)
    ensures Split(PortText(ports) + tail, '|') == Segments(ports) + [tail]
  {
    if ports == [] {
      SplitFree(tail, '|');
      assert PortText(ports) + tail == tail;
    } else {
      var (init, last) := (ports[..|ports| - 1], ports[|ports| - 1]);
      SegmentShape(last);
      SplitPortText(init, Segment(last));
      assert PortText(ports) + tail == (PortText(init) + Segment(last)) + ['|'] + tail;
      SplitSnoc(PortText(init) + Segment(last), '|', tail);
      assert Segments(ports) == Segments(init) + [Segment(last)];
    }
  }

  lemma SvcNameParts(s: Service)
    requires Clean(s)
    ensures '|' !in SvcName(s) && SvcName(s) != "" && Split(SvcName(s), '.') == [s.namespace, s.name]
  {
    assert SvcName(s) == s.namespace + ['.'] + s.name;
    SplitCons(s.namespace, '.', s.name);
    SplitFree(s.name, '.');
  }

  /** The text of a service gives back its key, and the protocol of the first segment that contains the port. */
  lemma LookupMapsBack(s: Service, i: nat)
    requires Clean(s) && i < |s.ports|
    ensures var digits := Itoa(s.ports[i].port);
            var first := FirstHit(Segments(s.ports), digits);
            && first <= i && first < |s.ports|
            && GetProtocol(SvcPorts(s), s.ports[i].port) == (Protocol(s.ports[first]), SvcName(s))
  {
    SvcNameParts(s);
    SplitPortText(s.ports, SvcName(s));
    var digits := Itoa(s.ports[i].port);
    var segs := Segments(s.ports);
    var sub := segs + [SvcName(s)];
    var first := FirstHit(segs, digits);
    SegmentShape(s.ports[i]);
    assert segs[i] == Segment(s.ports[i]);
    SegmentShape(s.ports[first]);
    var all := FirstHit(sub, digits);
    assert forall j :: 0 <= j < |segs| ==> sub[j] == segs[j];
    assert all == first;
  }

  /** With one matching segment the protocol is that of the port. */
  lemma UniquePortMapsBack(s: Service, i: nat)
    requires Clean(s) && i < |s.ports|
    requires forall j :: 0 <= j < |s.ports| && j != i ==> !Contains(Segment(s.ports[j]), Itoa(s.ports[i].port))
    ensures GetProtocol(SvcPorts(s), s.ports[i].port) == (Protocol(s.ports[i]), SvcName(s))
    ensures FromSock(SvcPorts(s), s.ports[i].port) ==
              if Protocol(s.ports[i]) == "http" then Http(s.namespace, s.name, s.ports[i].port) else Upstream.Refused
  {
    LookupMapsBack(s, i);
    SvcNameParts(s);
    var first := FirstHit(Segments(s.ports), Itoa(s.ports[i].port));
    assert Segments(s.ports)[first] == Segment(s.ports[first]);
  }

  /** The match is on text: a port whose digits occur in an earlier segment gets that segment's protocol. */
  lemma ShadowedPort(s: Service, j: nat, i: nat)
    requires Clean(s) && j < i < |s.ports| && Contains(Segment(s.ports[j]), Itoa(s.ports[i].port))
    ensures var first := FirstHit(Segments(s.ports), Itoa(s.ports[i].port));
            first <= j && GetProtocol(SvcPorts(s), s.ports[i].port).0 == Protocol(s.ports[first])
  {
    LookupMapsBack(s, i);
    assert Segments(s.ports)[j] == Segment(s.ports[j]);
  }

  lemma {:induction false} ItoaSuffix(n: nat)
    requires n >= 100
    ensures Itoa(n) == Itoa(n / 100) + ['0' + (n / 10 % 10) as char] + ['0' + (n % 10) as char]
  {
  }

  lemma Text8080()
    ensures Itoa(8080) == "8080" && Itoa(80) == "80"
  {
    ItoaSuffix(8080);
  }

  lemma Segment8080()
    ensures Protocol(Port("tcp", 8080, 0)) == "tcp" && Contains(Segment(Port("tcp", 8080, 0)), "80")
  {
    SplitFree("tcp", '-');
    Text8080();
    var (seg, rest) := (Segment(Port("tcp", 8080, 0)), "80," + Itoa(0));
    assert seg == "tcp," + ("80" + rest);
    assert seg[4..] == "80" + rest;
    assert OccursAt(seg, "80", 4);
  }

  /** Port 80 behind port 8080: the proxy takes the protocol of 8080. */
  lemma Port80Behind8080(namespace: string, name: string)
    requires Clean(Service(namespace, name, [Port("tcp", 8080, 0), Port("http", 80, 0)]))
    ensures GetProtocol(SvcPorts(Service(namespace, name, [Port("tcp", 8080, 0), Port("http", 80, 0)])), 80).0 == "tcp"
  {
    var s := Service(namespace, name, [Port("tcp", 8080, 0), Port("http", 80, 0)]);
    Segment8080();
    Text8080();
    ShadowedPort(s, 0, 1);
  }

  /** Whatever the port, a service with at least one port is named by its own text; one without ports is not. */
  lemma TextNamesItsService(s: Service, port: nat)
    requires Clean(s)
    ensures GetProtocol(SvcPorts(s), port).1 == if s.ports == [] then "" else SvcName(s)
  {
    SvcNameParts(s);
    SplitPortText(s.ports, SvcName(s));
  }

  /** The listener after a restart on stored rows and a run of service events. */
  ghost function Later(rows: seq<Row>, acts: seq<Action>): Listener { Run(Recover(InitPool(), rows), acts) }

  /** The last word about a service is that it has these ports: its last event, or its row when there was no event. */
  ghost predicate Registered(rows: seq<Row>, acts: seq<Action>, s: Service) {
    var last := LastAbout(acts, SvcName(s));
    if last.Some? then
      var a := acts[last.value];
      !a.Delete? && SvcPorts(a.service) == SvcPorts(s) && !FakeAddresses.Refused(Later(rows, acts[..last.value]), SvcName(s), SvcPorts(s))
    else exists q: nat :: q < |rows| && rows[q].svc == SvcName(s) && rows[q].text == SvcPorts(s) && RowAnswers(rows, q)
  }

  lemma RegisteredText(rows: seq<Row>, acts: seq<Action>, s: Service)
    requires DistinctRows(InitPool(), rows) && !RowsClash(rows) && Registered(rows, acts, s)
    ensures var t := Later(rows, acts).tables;
            && SvcName(s) in t.ipBySvc && t.ipBySvc[SvcName(s)] in t.portsByIP
            && t.portsByIP[t.ipBySvc[SvcName(s)]] == SvcPorts(s)
  {
    RecoveryKeepsOnRows(rows);
    RunServes(Recover(InitPool(), rows), acts, SvcName(s));
    RecoveryServes(rows, SvcName(s));
  }

  /**
   * Over every run, from an empty or a recovered database: the address of a registered service with ports leads
   * the proxy back to the namespace and name of that service, on every port.
   */
  lemma AddressNamesItsService(rows: seq<Row>, acts: seq<Action>, s: Service, port: nat)
    requires DistinctRows(InitPool(), rows) && !RowsClash(rows)
    requires Clean(s) && s.ports != [] && Registered(rows, acts, s)
    ensures var t := Later(rows, acts).tables;
            && SvcName(s) in t.ipBySvc && t.ipBySvc[SvcName(s)] in t.portsByIP
            && var svc := GetProtocol(t.portsByIP[t.ipBySvc[SvcName(s)]], port).1;
               svc == SvcName(s) && Split(svc, '.') == [s.namespace, s.name]
  {
    RegisteredText(rows, acts, s);
    TextNamesItsService(s, port);
    SvcNameParts(s);
  }

  /** On a port of its own, the proxy connects exactly when the first segment with those digits is http. */
  lemma AddressLeadsBack(rows: seq<Row>, acts: seq<Action>, s: Service, i: nat)
    requires DistinctRows(InitPool(), rows) && !RowsClash(rows)
    requires Clean(s) && i < |s.ports| && Registered(rows, acts, s)
    ensures var t := Later(rows, acts).tables;
            && SvcName(s) in t.ipBySvc && t.ipBySvc[SvcName(s)] in t.portsByIP
            && var first := FirstHit(Segments(s.ports), Itoa(s.ports[i].port));
               && first <= i
               && FromSock(t.portsByIP[t.ipBySvc[SvcName(s)]], s.ports[i].port) ==
                    if Protocol(s.ports[first]) == "http" then Http(s.namespace, s.name, s.ports[i].port) else Upstream.Refused
    ensures (forall j :: 0 <= j < i ==> !Contains(Segment(s.ports[j]), Itoa(s.ports[i].port))) ==>
              FirstHit(Segments(s.ports), Itoa(s.ports[i].port)) == i
  {
    RegisteredText(rows, acts, s);
    LookupMapsBack(s, i);
    SvcNameParts(s);
    var first := FirstHit(Segments(s.ports), Itoa(s.ports[i].port));
    assert Segments(s.ports)[first] == Segment(s.ports[first]);
  }

  /** A deleted service, and one never announced, cannot be reached through any address. */
  lemma DeletedIsUnreachable(rows: seq<Row>, acts: seq<Action>, svc: string)
    requires DistinctRows(InitPool(), rows) && !RowsClash(rows)
    requires var last := LastAbout(acts, svc);
             if last.Some? then acts[last.value].Delete? else forall q :: 0 <= q < |rows| ==> rows[q].svc != svc
    ensures svc !in Later(rows, acts).tables.ipBySvc
  {
    RecoveryKeepsOnRows(rows);
    RunServes(Recover(InitPool(), rows), acts, svc);
    RecoveryServes(rows, svc);
  }

  /** A port that no segment mentions is refused. */
  lemma UnlistedPortIsRefused(text: string, port: nat)
    requires forall i :: 0 <= i < |Split(text, '|')| ==> !Contains(Split(text, '|')[i], Itoa(port))
    ensures FromSock(text, port) == Upstream.Refused
  {
    FirstHitIs(Split(text, '|'), Itoa(port), |Split(text, '|')|);
  }

  /** The protocol is what a port name says before its first dash. */
  lemma ProtocolIsPrefix(proto: string, rest: string, port: nat, target: nat)
    requires '-' !in proto
    ensures Protocol(Port(proto, port, target)) == proto && Protocol(Port(proto + "-" + rest, port, target)) == proto
  {
    SplitFree(proto, '-');
    SplitCons(proto, '-', rest);
  }
}
