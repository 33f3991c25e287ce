// The EdgeMesh allocator of fake addresses: a pool that grows by blocks, and two tables that must stay inverse.
module FakeAddresses {
  import opened Text
  import opened AddressTables

  const PREFIX := "9.251."
  const MAX_POOL := 65534
  const UINT16 := 0x1_0000
  const BLOCK := 256

  datatype Port = Port(name: string, port: nat, target: nat)
  datatype Service = Service(namespace: string, name: string, ports: seq<Port>)

  /** getSubNet and the network prefix. */
  function Address(i: nat): string {
    PREFIX + Itoa(i / 256 % 256) + "." + Itoa(i % 256)
  }

  lemma AddressInjective(i: nat, j: nat)
    requires i < UINT16 && j < UINT16 && Address(i) == Address(j)
    ensures i == j
  {
    AddressParts(i);
    AddressParts(j);
    ItoaInjective(i / 256 % 256, j / 256 % 256);
    ItoaInjective(i % 256, j % 256);
  }

  lemma AddressParts(i: nat)
    ensures Split(Address(i), '.') == ["9", "251", Itoa(i / 256 % 256), Itoa(i % 256)]
  {
    var parts := ["9", "251", Itoa(i / 256 % 256), Itoa(i % 256)];
    assert Join(parts, '.') == "9" + ['.'] + ("251" + ['.'] + (parts[2] + ['.'] + parts[3])) == Address(i) by {
      assert Join(parts[3..], '.') == parts[3];
      assert Join(parts[2..], '.') == parts[2] + ['.'] + parts[3] by { assert parts[2..][1..] == parts[3..]; }
      assert Join(parts[1..], '.') == "251" + ['.'] + Join(parts[2..], '.') by { assert parts[1..][1..] == parts[2..]; }
    }
    SplitJoin(parts, '.');
  }

  /** The service key of both tables. */
  function SvcName(s: Service): string { s.namespace + "." + s.name }

  function Protocol(p: Port): string { Split(p.name, '-')[0] }

  function Segment(p: Port): string { Protocol(p) + "," + Itoa(p.port) + "," + Itoa(p.target) }

  /** getSvcPorts: one segment per port, then the service key. */
  function SvcPorts(s: Service): (r: string)
    ensures r != ""
  {
    PortText(s.ports) + SvcName(s)
  }

  function PortText(ports: seq<Port>): string {
    if ports == [] then "" else PortText(ports[..|ports| - 1]) + Segment(ports[|ports| - 1]) + "|"
  }

  // ---------------------------------------------------------------- state

  /** next is indexOfPool. */
  datatype Listener = Listener(tables: Tables, next: nat)

  function Addresses(lo: nat, hi: nat): (r: seq<string>)
    requires lo <= hi
    ensures |r| == hi - lo
    ensures forall i :: 0 <= i < |r| ==> r[i] == Address(lo + i)
  {
    seq(hi - lo, i requires 0 <= i < hi - lo => Address(lo + i))
  }

  /** initPool. */
  function InitPool(): Listener { Listener(Tables(map[], map[], Addresses(1, BLOCK)), BLOCK) }

  /** Keep the addresses without a port text, in order. */
  function Free(addrs: seq<string>, portsByIP: map<string, string>): seq<string> {
    if addrs == [] then []
    else
      var rest := Free(addrs[..|addrs| - 1], portsByIP);
      var a := addrs[|addrs| - 1];
      if a in portsByIP && portsByIP[a] != "" then rest else rest + [a]
  }

  /** Where expandPool stops: at the end of the block, or before 255.255. */
  function BlockEnd(next: nat): nat {
    if next + BLOCK <= MAX_POOL then next + BLOCK else if next <= MAX_POOL then MAX_POOL + 1 else next
  }

  function ExpandPool(l: Listener): Listener {
    var end := BlockEnd(l.next);
    l.(tables := l.tables.(unused := l.tables.unused + Free(Addresses(l.next, end), l.tables.portsByIP)), next := end)
  }

  function Grown(l: Listener): Listener { if l.tables.unused == [] then ExpandPool(l) else l }

  /** addServer and updateServer: they leave the same tables behind. */
  function Register(l: Listener, svc: string, text: string): Listener {
    if Lookup(l.tables, svc) != "" then
      l.(tables := Assign(l.tables, svc, Lookup(l.tables, svc), text))
    else
      var g := Grown(l);
      if g.tables.unused == [] then g
      else g.(tables := Allocate(g.tables, svc, text))
  }

  /** delServer. */
  function Remove(l: Listener, svc: string): Listener {
    if Lookup(l.tables, svc) == "" then l
    else l.(tables := Release(l.tables, svc))
  }

  /** One row of the database: a listed service and the address stored for it, if any. */
  datatype Row = Row(svc: string, text: string, stored: Option<string>)

  function RecoverRow(l: Listener, row: Row): Listener {
    if row.stored.None? then Register(l, row.svc, row.text)
    else l.(tables := Reserve(l.tables, row.svc, row.stored.value, row.text))
  }

  function Recover(l: Listener, rows: seq<Row>): Listener
    decreases |rows|
  {
    if rows == [] then l else Recover(RecoverRow(l, rows[0]), rows[1..])
  }

  datatype Action = Add(service: Service) | Update(service: Service) | Delete(svc: string)

  function Step(l: Listener, a: Action): Listener {
    match a
    case Add(s) => Register(l, SvcName(s), SvcPorts(s))
    case Update(s) => Register(l, SvcName(s), SvcPorts(s))
    case Delete(svc) => Remove(l, svc)
  }

  function Run(l: Listener, acts: seq<Action>): Listener
    decreases |acts|
  {
    if acts == [] then l else Run(Step(l, acts[0]), acts[1..])
  }

  // ---------------------------------------------------------------- the tables stay inverse

  /** The pool counter is at a block boundary or at the very end, so a whole block can be added without wrap-around. */
  ghost predicate AtBoundary(next: nat) {
    (next % BLOCK == 0 && BLOCK <= next <= MAX_POOL) || next == MAX_POOL + 1
  }

  ghost predicate Inv(l: Listener) { Valid(l.tables) && AtBoundary(l.next) }

  lemma {:induction false} FreeMember(addrs: seq<string>, portsByIP: map<string, string>, a: string)
    ensures a in Free(addrs, portsByIP) <==> a in addrs && !(a in portsByIP && portsByIP[a] != "")
  {
    if addrs != [] {
      var (init, last) := (addrs[..|addrs| - 1], addrs[|addrs| - 1]);
      FreeMember(init, portsByIP, a);
      assert addrs == init + [last];
    }
  }

  lemma {:induction false} FreeNoDup(addrs: seq<string>, portsByIP: map<string, string>)
    requires NoDup(addrs)
    ensures NoDup(Free(addrs, portsByIP))
  {
    if addrs != [] {
      var (init, last) := (addrs[..|addrs| - 1], addrs[|addrs| - 1]);
      FreeNoDup(init, portsByIP);
      FreeMember(init, portsByIP, last);
    }
  }

  lemma AddressesNoDup(lo: nat, hi: nat)
    requires lo <= hi <= UINT16
    ensures NoDup(Addresses(lo, hi))
  {
    var r := Addresses(lo, hi);
    forall i, j | 0 <= i < j < |r| ensures r[i] != r[j] {
      if r[i] == r[j] {
        AddressInjective(lo + i, lo + j);
      }
    }
  }

  lemma AddressesMember(lo: nat, hi: nat, a: string)
    requires lo <= hi
    ensures a in Addresses(lo, hi) <==> exists i :: lo <= i < hi && a == Address(i)
  {
    var r := Addresses(lo, hi);
    if i :| lo <= i < hi && a == Address(i) {
      assert r[i - lo] == a;
    }
  }

  lemma InitInv()
    ensures Inv(InitPool())
  {
    AddressesNoDup(1, BLOCK);
  }

  lemma BlockEndBoundary(next: nat)
    requires AtBoundary(next)
    ensures AtBoundary(BlockEnd(next)) && next <= BlockEnd(next) <= MAX_POOL + 1
  {
  }

  lemma FreeAddress(addrs: seq<string>, t: Tables, a: string)
    requires NonEmpty(t) && "" !in addrs && a in Free(addrs, t.portsByIP)
    ensures a != "" && a !in t.portsByIP
  {
    FreeMember(addrs, t.portsByIP, a);
  }

  lemma ExpandKeeps(l: Listener)
    requires Inv(l) && l.tables.unused == []
    ensures Inv(ExpandPool(l))
  {
    BlockEndBoundary(l.next);
    var addrs := Addresses(l.next, BlockEnd(l.next));
    AddressesNoDup(l.next, BlockEnd(l.next));
    FreeNoDup(addrs, l.tables.portsByIP);
    var free := Free(addrs, l.tables.portsByIP);
    forall a | a in free ensures a != "" && a !in l.tables.portsByIP {
      FreeAddress(addrs, l.tables, a);
    }
    RefillKeeps(l.tables, free);
    assert ExpandPool(l).tables == l.tables.(unused := free);
  }

  lemma GrownKeeps(l: Listener)
    requires Inv(l)
    ensures Inv(Grown(l)) && Grown(l).tables.ipBySvc == l.tables.ipBySvc
  {
    if l.tables.unused == [] { ExpandKeeps(l); }
  }

  lemma RegisterKeeps(l: Listener, svc: string, text: string)
    requires Inv(l) && text != ""
    ensures Inv(Register(l, svc, text))
  {
    var t := l.tables;
    if Lookup(t, svc) != "" {
      AssignAgain(t, svc, text);
    } else {
      if svc in t.ipBySvc { OwnerKnown(t, svc); }
      GrownKeeps(l);
      var g := Grown(l).tables;
      if g.unused != [] {
        AllocateKeeps(g, svc, text);
      }
    }
  }

  lemma RemoveKeeps(l: Listener, svc: string)
    requires Inv(l)
    ensures Inv(Remove(l, svc))
  {
    if Lookup(l.tables, svc) != "" {
      ReleaseKeeps(l.tables, svc);
    }
  }

  lemma StepKeeps(l: Listener, a: Action)
    requires Inv(l)
    ensures Inv(Step(l, a))
  {
    match a
    case Add(s) => RegisterKeeps(l, SvcName(s), SvcPorts(s));
    case Update(s) => RegisterKeeps(l, SvcName(s), SvcPorts(s));
    case Delete(svc) => RemoveKeeps(l, svc);
  }

  /** Every sequence of additions, updates and deletions keeps the tables inverse and the pool apart. */
  lemma {:induction false} RunKeeps(l: Listener, acts: seq<Action>)
    requires Inv(l)
    ensures Inv(Run(l, acts))
    decreases |acts|
  {
    if acts != [] {
      StepKeeps(l, acts[0]);
      RunKeeps(Step(l, acts[0]), acts[1..]);
    }
  }

  // ---------------------------------------------------------------- recovery

  ghost predicate DistinctRows(l: Listener, rows: seq<Row>) {
    && (forall i :: 0 <= i < |rows| ==> rows[i].svc !in l.tables.ipBySvc && rows[i].text != "")
    && (forall i, j :: 0 <= i < j < |rows| ==> rows[i].svc != rows[j].svc)
    && (forall i :: 0 <= i < |rows| && rows[i].stored.Some? ==> rows[i].stored.value != "")
  }

  /** Somewhere on the way a row claims an address that is already in use. */
  predicate Clashes(l: Listener, rows: seq<Row>)
    decreases |rows|
  {
    rows != [] &&
    ((rows[0].stored.Some? && rows[0].stored.value in l.tables.portsByIP) || Clashes(RecoverRow(l, rows[0]), rows[1..]))
  }

  lemma RecoverRowServices(l: Listener, row: Row)
    ensures RecoverRow(l, row).tables.ipBySvc.Keys <= l.tables.ipBySvc.Keys + {row.svc}
    ensures forall a :: a in l.tables.ipBySvc && a != row.svc ==>
              a in RecoverRow(l, row).tables.ipBySvc && RecoverRow(l, row).tables.ipBySvc[a] == l.tables.ipBySvc[a]
  {
  }

  lemma {:induction false} SharedForever(l: Listener, rows: seq<Row>)
    requires DistinctRows(l, rows) && !Injective(l.tables.ipBySvc)
    ensures !Injective(Recover(l, rows).tables.ipBySvc)
    decreases |rows|
  {
    if rows != [] {
      var l' := RecoverRow(l, rows[0]);
      RecoverRowServices(l, rows[0]);
      var a, b :| a in l.tables.ipBySvc && b in l.tables.ipBySvc && l.tables.ipBySvc[a] == l.tables.ipBySvc[b] && a != b;
      assert l'.tables.ipBySvc[a] == l'.tables.ipBySvc[b];
      SharedForever(l', rows[1..]);
    }
  }

  lemma RecoverRowKeepsIff(l: Listener, row: Row)
    requires Inv(l) && row.svc !in l.tables.ipBySvc && row.text != "" && (row.stored.Some? ==> row.stored.value != "")
    ensures Inv(RecoverRow(l, row)) <==> !(row.stored.Some? && row.stored.value in l.tables.portsByIP)
    ensures !Inv(RecoverRow(l, row)) ==> !Injective(RecoverRow(l, row).tables.ipBySvc)
  {
    if row.stored.None? {
      RegisterKeeps(l, row.svc, row.text);
    } else {
      var (t, ip) := (l.tables, row.stored.value);
      ReserveKeepsIff(t, row.svc, ip, row.text);
      if ip in t.portsByIP {
        var s :| s in t.ipBySvc && t.ipBySvc[s] == ip;
        var m := RecoverRow(l, row).tables.ipBySvc;
        assert m[s] == m[row.svc];
      }
    }
  }

  /** Recovery leaves inverse tables exactly when no row claims an address handed out or restored before it. */
  lemma {:induction false} RecoveryKeepsIff(l: Listener, rows: seq<Row>)
    requires Inv(l) && DistinctRows(l, rows)
    ensures Inv(Recover(l, rows)) <==> !Clashes(l, rows)
    decreases |rows|
  {
    if rows != [] {
      var l' := RecoverRow(l, rows[0]);
      RecoverRowKeepsIff(l, rows[0]);
      RecoverRowServices(l, rows[0]);
      assert DistinctRows(l', rows[1..]);
      if Inv(l') {
        RecoveryKeepsIff(l', rows[1..]);
      } else {
        SharedForever(l', rows[1..]);
      }
    }
  }

  ghost predicate AllStored(rows: seq<Row>) {
    && (forall i :: 0 <= i < |rows| ==> rows[i].stored.Some?)
    && (forall i, j :: 0 <= i < j < |rows| ==> rows[i].stored != rows[j].stored)
  }

  lemma {:induction false} StoredNeverClash(l: Listener, rows: seq<Row>)
    requires AllStored(rows) && forall i :: 0 <= i < |rows| ==> rows[i].stored.value !in l.tables.portsByIP
    ensures !Clashes(l, rows)
    decreases |rows|
  {
    if rows != [] {
      StoredNeverClash(RecoverRow(l, rows[0]), rows[1..]);
    }
  }

  lemma {:induction false} UnstoredNeverClash(l: Listener, rows: seq<Row>)
    requires forall i :: 0 <= i < |rows| ==> rows[i].stored.None?
    ensures !Clashes(l, rows)
    decreases |rows|
  {
    if rows != [] {
      UnstoredNeverClash(RecoverRow(l, rows[0]), rows[1..]);
    }
  }

  /** From an empty database, or one with a distinct address for every service, every later run stays consistent. */
  lemma RecoveredRunKeeps(rows: seq<Row>, acts: seq<Action>)
    requires DistinctRows(InitPool(), rows)
    requires AllStored(rows) || forall i :: 0 <= i < |rows| ==> rows[i].stored.None?
    ensures Inv(Run(Recover(InitPool(), rows), acts))
  {
    InitInv();
    if AllStored(rows) {
      StoredNeverClash(InitPool(), rows);
    } else {
      UnstoredNeverClash(InitPool(), rows);
    }
    RecoveryKeepsIff(InitPool(), rows);
    RunKeeps(Recover(InitPool(), rows), acts);
  }

  /** A service without a stored address, listed before the owner of the first pool address, takes that address away. */
  lemma MixedRecoveryCanClash(a: string, b: string, text: string)
    requires a != b && text != ""
    ensures var rows := [Row(a, text, None), Row(b, text, Some(Address(1)))];
            DistinctRows(InitPool(), rows) && Clashes(InitPool(), rows)
  {
    var rows := [Row(a, text, None), Row(b, text, Some(Address(1)))];
    var l := RecoverRow(InitPool(), rows[0]);
    assert InitPool().tables.unused[0] == Address(1);
    assert Address(1) in l.tables.portsByIP;
    assert rows[1..][0] == rows[1];
    assert Clashes(l, rows[1..]);
  }

  // ---------------------------------------------------------------- the pool from an empty database

  ghost predicate InBlock(a: string, hi: nat) { exists i :: 1 <= i < hi && a == Address(i) }

  /** Used and free addresses together are exactly the first ones of the pool. */
  ghost predicate PoolExact(l: Listener) { forall a :: InPool(l.tables, a) <==> InBlock(a, l.next) }

  lemma ExpandExact(l: Listener)
    requires Inv(l) && l.tables.unused == [] && PoolExact(l)
    ensures PoolExact(ExpandPool(l))
    ensures l.next <= MAX_POOL ==> ExpandPool(l).tables.unused != []
  {
    BlockEndBoundary(l.next);
    var (l', hi) := (ExpandPool(l), BlockEnd(l.next));
    var addrs := Addresses(l.next, hi);
    forall a ensures InPool(l'.tables, a) <==> InBlock(a, hi) {
      FreeMember(addrs, l.tables.portsByIP, a);
      AddressesMember(l.next, hi, a);
      assert InPool(l.tables, a) <==> InBlock(a, l.next);
    }
    if l.next <= MAX_POOL {
      var a := Address(l.next);
      FreeMember(addrs, l.tables.portsByIP, a);
      assert addrs[0] == a;
      if a in l.tables.portsByIP {
        assert InPool(l.tables, a);
        var i :| 1 <= i < l.next && a == Address(i);
        AddressInjective(i, l.next);
      }
    }
  }

  lemma RegisterExact(l: Listener, svc: string, text: string)
    requires Inv(l) && PoolExact(l)
    ensures PoolExact(Register(l, svc, text))
  {
    var t := l.tables;
    if Lookup(t, svc) != "" {
      OwnerKnown(t, svc);
      var l' := Register(l, svc, text);
      assert l'.tables.portsByIP.Keys == t.portsByIP.Keys;
      assert forall a :: InPool(l'.tables, a) <==> InPool(t, a);
    } else {
      if t.unused == [] { ExpandExact(l); }
      var g := Grown(l);
      if g.tables.unused != [] {
        forall a ensures InPool(Allocate(g.tables, svc, text), a) <==> InBlock(a, g.next) {
          AllocatePool(g.tables, svc, text, a);
          assert InPool(g.tables, a) <==> InBlock(a, g.next);
        }
      }
    }
  }

  lemma RemoveExact(l: Listener, svc: string)
    requires Inv(l) && PoolExact(l)
    ensures PoolExact(Remove(l, svc))
  {
    if Lookup(l.tables, svc) != "" {
      OwnerKnown(l.tables, svc);
      forall a ensures InPool(Release(l.tables, svc), a) <==> InBlock(a, l.next) {
        ReleasePool(l.tables, svc, a);
        assert InPool(l.tables, a) <==> InBlock(a, l.next);
      }
    }
  }

  lemma {:induction false} RunExact(l: Listener, acts: seq<Action>)
    requires Inv(l) && PoolExact(l)
    ensures Inv(Run(l, acts)) && PoolExact(Run(l, acts))
    decreases |acts|
  {
    if acts != [] {
      StepKeeps(l, acts[0]);
      match acts[0] {
        case Add(s) => RegisterExact(l, SvcName(s), SvcPorts(s));
        case Update(s) => RegisterExact(l, SvcName(s), SvcPorts(s));
        case Delete(svc) => RemoveExact(l, svc);
      }
      RunExact(Step(l, acts[0]), acts[1..]);
    }
  }

  lemma InitExact()
    ensures Inv(InitPool()) && PoolExact(InitPool())
  {
    InitInv();
    forall a ensures InPool(InitPool().tables, a) <==> InBlock(a, BLOCK) {
      AddressesMember(1, BLOCK, a);
    }
  }

  /** Over every run from an empty database no address is lost, invented or handed out twice. */
  lemma EveryRunIsExact(acts: seq<Action>)
    ensures var l := Run(InitPool(), acts); Valid(l.tables) && PoolExact(l) && AtBoundary(l.next)
  {
    InitExact();
    RunExact(InitPool(), acts);
  }

  ghost predicate Refused(l: Listener, svc: string, text: string) { svc !in Register(l, svc, text).tables.ipBySvc }

  lemma FreeEmptyIff(lo: nat, hi: nat, t: Tables)
    requires lo <= hi && NonEmpty(t)
    ensures Free(Addresses(lo, hi), t.portsByIP) == [] <==> forall i :: lo <= i < hi ==> Address(i) in t.portsByIP
  {
    var addrs := Addresses(lo, hi);
    var free := Free(addrs, t.portsByIP);
    if free != [] {
      FreeMember(addrs, t.portsByIP, free[0]);
      AddressesMember(lo, hi, free[0]);
    } else {
      forall i | lo <= i < hi ensures Address(i) in t.portsByIP {
        FreeMember(addrs, t.portsByIP, Address(i));
        assert addrs[i - lo] == Address(i);
      }
    }
  }

  /** A registration is refused exactly when nothing is free and the next block of the pool is all in use. */
  lemma RefusedIff(l: Listener, svc: string, text: string)
    requires Inv(l)
    ensures Refused(l, svc, text) <==>
            && svc !in l.tables.ipBySvc && l.tables.unused == []
            && forall i :: l.next <= i < BlockEnd(l.next) ==> Address(i) in l.tables.portsByIP
  {
    if svc in l.tables.ipBySvc {
      OwnerKnown(l.tables, svc);
    } else if l.tables.unused == [] {
      FreeEmptyIff(l.next, BlockEnd(l.next), l.tables);
      assert ExpandPool(l).tables.unused == Free(Addresses(l.next, BlockEnd(l.next)), l.tables.portsByIP);
    }
  }

  /** From an empty database an address is refused only when all 65534 are in use. */
  lemma RefusedOnlyWhenFull(acts: seq<Action>, svc: string, text: string)
    requires Refused(Run(InitPool(), acts), svc, text)
    ensures forall i :: 1 <= i <= 65534 ==> Address(i) in Run(InitPool(), acts).tables.portsByIP
  {
    var l := Run(InitPool(), acts);
    InitExact();
    RunExact(InitPool(), acts);
    RefusedIff(l, svc, text);
    ExpandExact(l);
    assert l.next == MAX_POOL + 1;
    forall i | 1 <= i <= MAX_POOL ensures Address(i) in l.tables.portsByIP {
      assert InBlock(Address(i), l.next);
      assert InPool(l.tables, Address(i));
    }
  }
}
