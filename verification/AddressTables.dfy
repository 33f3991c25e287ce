// The two tables of the EdgeMesh listener and its list of free addresses, on plain texts.
module AddressTables {
  import opened Text

  datatype Tables = Tables(ipBySvc: map<string, string>, portsByIP: map<string, string>, unused: seq<string>)

  function Lookup(t: Tables, svc: string): string { if svc in t.ipBySvc then t.ipBySvc[svc] else "" }

  /** SvcDescription.set. */
  function Assign(t: Tables, svc: string, ip: string, text: string): Tables {
    t.(ipBySvc := t.ipBySvc[svc := ip], portsByIP := t.portsByIP[ip := text])
  }

  /** Hand out the first free address. */
  function Allocate(t: Tables, svc: string, text: string): Tables
    requires t.unused != []
  {
    Assign(t.(unused := t.unused[1..]), svc, t.unused[0], text)
  }

  /** SvcDescription.del and the recycling of the address. */
  function Release(t: Tables, svc: string): Tables
    requires svc in t.ipBySvc
  {
    t.(ipBySvc := t.ipBySvc - {svc}, portsByIP := t.portsByIP - {t.ipBySvc[svc]}, unused := t.unused + [t.ipBySvc[svc]])
  }

  /** reserveIP: the list without the first occurrence of the address. */
  function Without(unused: seq<string>, ip: string): seq<string> {
    if unused == [] then [] else if unused[0] == ip then unused[1..] else [unused[0]] + Without(unused[1..], ip)
  }

  function Reserve(t: Tables, svc: string, ip: string, text: string): Tables {
    Assign(t.(unused := Without(t.unused, ip)), svc, ip, text)
  }

  // ---------------------------------------------------------------- invariant

  ghost predicate Injective(m: map<string, string>) {
    forall a, b :: a in m && b in m && m[a] == m[b] ==> a == b
  }

  ghost predicate Owned(m: map<string, string>, ip: string) { exists svc :: svc in m && m[svc] == ip }

  /** The port table is keyed exactly by the addresses in use. */
  ghost predicate KeyedByRange(t: Tables) { forall ip :: ip in t.portsByIP <==> Owned(t.ipBySvc, ip) }

  ghost predicate NonEmpty(t: Tables) {
    (forall ip :: ip in t.portsByIP ==> ip != "" && t.portsByIP[ip] != "") && (forall ip :: ip in t.unused ==> ip != "")
  }

  ghost predicate Apart(t: Tables) { NoDup(t.unused) && forall a :: a in t.unused ==> a !in t.portsByIP }

  ghost predicate Valid(t: Tables) { Injective(t.ipBySvc) && KeyedByRange(t) && NonEmpty(t) && Apart(t) }

  lemma OwnerKnown(t: Tables, svc: string)
    requires KeyedByRange(t) && svc in t.ipBySvc
    ensures t.ipBySvc[svc] in t.portsByIP
  {
    assert Owned(t.ipBySvc, t.ipBySvc[svc]);
  }

  lemma OwnedAfterAssign(m: map<string, string>, svc: string, ip: string, x: string)
    requires svc !in m
    ensures Owned(m[svc := ip], x) <==> Owned(m, x) || x == ip
  {
    var m' := m[svc := ip];
    assert svc in m' && m'[svc] == ip;
    if Owned(m, x) {
      var s :| s in m && m[s] == x;
      assert s in m' && m'[s] == x;
    }
    if Owned(m', x) && x != ip {
      var s :| s in m' && m'[s] == x;
      assert s in m && m[s] == x;
    }
  }

  lemma AssignNew(t: Tables, svc: string, ip: string, text: string)
    requires Valid(t) && svc !in t.ipBySvc && ip != "" && text != "" && ip !in t.unused
    ensures Valid(Assign(t, svc, ip, text)) <==> ip !in t.portsByIP
  {
    var t' := Assign(t, svc, ip, text);
    if ip !in t.portsByIP {
      forall a | a in t.ipBySvc ensures t.ipBySvc[a] != ip {
        OwnerKnown(t, a);
      }
      forall x ensures x in t'.portsByIP <==> Owned(t'.ipBySvc, x) {
        OwnedAfterAssign(t.ipBySvc, svc, ip, x);
      }
    } else {
      var s :| s in t.ipBySvc && t.ipBySvc[s] == ip;
      assert t'.ipBySvc[s] == t'.ipBySvc[svc];
    }
  }

  lemma AssignAgain(t: Tables, svc: string, text: string)
    requires Valid(t) && svc in t.ipBySvc && text != ""
    ensures Valid(Assign(t, svc, t.ipBySvc[svc], text))
  {
    OwnerKnown(t, svc);
    assert Assign(t, svc, t.ipBySvc[svc], text).ipBySvc == t.ipBySvc;
  }

  lemma AllocateKeeps(t: Tables, svc: string, text: string)
    requires Valid(t) && t.unused != [] && svc !in t.ipBySvc && text != ""
    ensures Valid(Allocate(t, svc, text))
  {
    var u := t.(unused := t.unused[1..]);
    forall a | a in u.unused ensures a in t.unused && a != t.unused[0] {
      var i :| 0 <= i < |u.unused| && u.unused[i] == a;
      assert t.unused[i + 1] == a;
    }
    assert t.unused[0] in t.unused;
    assert Valid(u);
    AssignNew(u, svc, t.unused[0], text);
  }

  lemma RefillKeeps(t: Tables, free: seq<string>)
    requires Valid(t) && NoDup(free) && forall a :: a in free ==> a != "" && a !in t.portsByIP
    ensures Valid(t.(unused := free))
  {
  }

  lemma ReleaseKeeps(t: Tables, svc: string)
    requires Valid(t) && svc in t.ipBySvc
    ensures Valid(Release(t, svc))
  {
    var (t', ip) := (Release(t, svc), t.ipBySvc[svc]);
    OwnerKnown(t, svc);
    forall x ensures x in t'.portsByIP <==> Owned(t'.ipBySvc, x) {
      if x in t'.portsByIP {
        var s :| s in t.ipBySvc && t.ipBySvc[s] == x;
        assert s in t'.ipBySvc && t'.ipBySvc[s] == x;
      }
      if Owned(t'.ipBySvc, x) {
        var s :| s in t'.ipBySvc && t'.ipBySvc[s] == x;
        OwnerKnown(t, s);
      }
    }
  }

  lemma {:induction false} WithoutMember(unused: seq<string>, ip: string, a: string)
    requires NoDup(unused)
    ensures NoDup(Without(unused, ip))
    ensures a in Without(unused, ip) <==> a in unused && a != ip
  {
    if unused != [] {
      var rest := unused[1..];
      assert unused == [unused[0]] + rest;
      WithoutMember(rest, ip, a);
      WithoutMember(rest, ip, unused[0]);
      assert unused[0] !in rest;
    }
  }

  /** Restoring a stored address keeps the tables inverse exactly when nobody uses it yet. */
  lemma ReserveKeepsIff(t: Tables, svc: string, ip: string, text: string)
    requires Valid(t) && svc !in t.ipBySvc && ip != "" && text != ""
    ensures Valid(Reserve(t, svc, ip, text)) <==> ip !in t.portsByIP
  {
    var u := t.(unused := Without(t.unused, ip));
    forall a ensures a in u.unused <==> a in t.unused && a != ip {
      WithoutMember(t.unused, ip, a);
    }
    WithoutMember(t.unused, ip, ip);
    AssignNew(u, svc, ip, text);
  }

  // ---------------------------------------------------------------- no address appears or disappears

  ghost predicate InPool(t: Tables, a: string) { a in t.portsByIP || a in t.unused }

  lemma AllocatePool(t: Tables, svc: string, text: string, a: string)
    requires t.unused != []
    ensures InPool(Allocate(t, svc, text), a) <==> InPool(t, a)
  {
    assert t.unused == [t.unused[0]] + t.unused[1..];
  }

  lemma ReleasePool(t: Tables, svc: string, a: string)
    requires svc in t.ipBySvc && t.ipBySvc[svc] in t.portsByIP
    ensures InPool(Release(t, svc), a) <==> InPool(t, a)
  {
  }
}
