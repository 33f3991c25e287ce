// The listener as an object: pool, counter and tables changed in place, with the 16-bit counter written out.
module EdgeListener {
  import opened Text
  import opened AddressTables
  import opened FakeAddresses

  lemma AddressesSnoc(lo: nat, hi: nat)
    requires lo <= hi
    ensures Addresses(lo, hi + 1) == Addresses(lo, hi) + [Address(hi)]
    ensures Addresses(lo, hi + 1)[..hi - lo] == Addresses(lo, hi)
  {
  }

  lemma FreeSnoc(lo: nat, hi: nat, portsByIP: map<string, string>)
    requires lo <= hi
    ensures Free(Addresses(lo, hi + 1), portsByIP) ==
              Free(Addresses(lo, hi), portsByIP) + (if Address(hi) in portsByIP && portsByIP[Address(hi)] != "" then [] else [Address(hi)])
  {
    AddressesSnoc(lo, hi);
  }

  /** The last number of the block in 16-bit arithmetic: it wraps only when the pool is already exhausted. */
  lemma BlockArithmetic(next: nat)
    requires AtBoundary(next)
    ensures next <= MAX_POOL ==> (next + 255) % UINT16 == next + 255 && BlockEnd(next) == if next + 255 > MAX_POOL then MAX_POOL + 1 else next + 256
    ensures next > MAX_POOL ==> (next + 255) % UINT16 < next && BlockEnd(next) == next
  {
  }

  lemma {:induction false} WithoutAt(unused: seq<string>, ip: string, i: nat)
    requires i < |unused| && unused[i] == ip && ip !in unused[..i]
    ensures Without(unused, ip) == unused[..i] + unused[i + 1..]
  {
    if i > 0 {
      assert unused[1..][..i - 1] == unused[1..i];
      assert unused[0] == unused[..i][0];
      assert forall j :: 0 <= j < i - 1 ==> unused[1..i][j] == unused[..i][j + 1];
      WithoutAt(unused[1..], ip, i - 1);
    }
  }

  lemma {:induction false} WithoutAbsent(unused: seq<string>, ip: string)
    requires ip !in unused
    ensures Without(unused, ip) == unused
  {
    if unused != [] {
      WithoutAbsent(unused[1..], ip);
    }
  }

  /** 16-bit increment. */
  function Inc16(n: nat): nat { if n + 1 >= UINT16 then n + 1 - UINT16 else n + 1 }

  class EdgeMesh {
    var ipBySvc: map<string, string>
    var portsByIP: map<string, string>
    var unused: seq<string>
    var indexOfPool: nat

    ghost function View(): Listener
      reads this
    {
      Listener(Tables(ipBySvc, portsByIP, unused), indexOfPool)
    }

    /** Init with an empty database. */
    constructor ()
      ensures View() == FakeAddresses.InitPool()
    {
      ipBySvc, portsByIP, unused, indexOfPool := map[], map[], [], 1;
      new;
      while indexOfPool <= 255
        invariant 1 <= indexOfPool <= 256 && unused == Addresses(1, indexOfPool)
        invariant ipBySvc == map[] && portsByIP == map[]
        decreases 256 - indexOfPool
      {
        AddressesSnoc(1, indexOfPool);
        unused := unused + [Address(indexOfPool)];
        indexOfPool := Inc16(indexOfPool);
      }
    }

    /** The loop of expandPool: counter and end of the block are 16-bit numbers, yet it always ends. */
    static method NextBlock(start: nat, ports: map<string, string>) returns (added: seq<string>, index: nat)
      requires AtBoundary(start)
      ensures index == BlockEnd(start)
      ensures added == Free(Addresses(start, BlockEnd(start)), ports)
    {
      var end := (start + 255) % UINT16;
      BlockArithmetic(start);
      index := start;
      added := [];
      while index <= end
        invariant start <= index <= BlockEnd(start)
        invariant added == Free(Addresses(start, index), ports)
        decreases end - index
      {
        if index > MAX_POOL {
          return;
        }
        var ip := Address(index);
        FreeSnoc(start, index, ports);
        if !(ip in ports && ports[ip] != "") {
          added := added + [ip];
        }
        assert added == Free(Addresses(start, index + 1), ports);
        index := Inc16(index);
      }
    }

    /** expandPool. */
    method ExpandPool()
      requires AtBoundary(indexOfPool)
      modifies this
      ensures View() == FakeAddresses.ExpandPool(old(View()))
    {
      var added, index := NextBlock(indexOfPool, portsByIP);
      unused := unused + added;
      indexOfPool := index;
    }

    /** reserveIP. */
    method ReserveIP(ip: string)
      modifies this
      ensures View() == old(View()).(tables := old(View()).tables.(unused := Without(old(unused), ip)))
    {
      for i := 0 to |unused|
        invariant ip !in unused[..i] && View() == old(View())
      {
        if unused[i] == ip {
          WithoutAt(unused, ip, i);
          unused := unused[..i] + unused[i + 1..];
          return;
        }
      }
      assert unused[..|unused|] == unused;
      WithoutAbsent(unused, ip);
    }

    /** addServer; updateServer leaves the same state behind. */
    method AddServer(svc: string, text: string)
      requires AtBoundary(indexOfPool)
      modifies this
      ensures View() == Register(old(View()), svc, text)
    {
      var ip := if svc in ipBySvc then ipBySvc[svc] else "";
      if ip == "" {
        if |unused| == 0 {
          ExpandPool();
          if |unused| == 0 {
            return;
          }
        }
        ip := unused[0];
        unused := unused[1..];
      }
      ipBySvc := ipBySvc[svc := ip];
      portsByIP := portsByIP[ip := text];
    }

    /** delServer. */
    method DelServer(svc: string)
      modifies this
      ensures View() == Remove(old(View()), svc)
    {
      var ip := if svc in ipBySvc then ipBySvc[svc] else "";
      if ip == "" {
        return;
      }
      ipBySvc := ipBySvc - {svc};
      portsByIP := portsByIP - {ip};
      unused := unused + [ip];
    }

    /** One row of recoverFromDB. */
    method RecoverService(row: Row)
      requires AtBoundary(indexOfPool)
      modifies this
      ensures View() == RecoverRow(old(View()), row)
    {
      if row.stored.None? {
        AddServer(row.svc, row.text);
      } else {
        ReserveIP(row.stored.value);
        ipBySvc := ipBySvc[row.svc := row.stored.value];
        portsByIP := portsByIP[row.stored.value := row.text];
      }
    }
  }

  /** getSvcPorts as the loop it is. */
  method BuildSvcPorts(s: Service) returns (text: string)
    ensures text == SvcPorts(s)
  {
    text := "";
    for i := 0 to |s.ports|
      invariant text == PortText(s.ports[..i])
    {
      assert s.ports[..i + 1][..i] == s.ports[..i];
      text := text + (Segment(s.ports[i]) + "|");
      assert text == PortText(s.ports[..i + 1]);
    }
    assert s.ports[..|s.ports|] == s.ports;
    text := text + SvcName(s);
  }
}
