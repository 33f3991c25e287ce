// What each edit does to the instances, models and protocols of a device profile, and what a run leaves of each device.
module DeviceEffects {
  import opened Text
  import opened DeviceProfile

  /** The name buildDeviceProtocol gives; an unsupported protocol has none. */
  function NewName(d: Device): string { if d.kind.Some? then d.kind.value + "-" + d.name else "" }

  /** The i-th instance is the first that carries the device's name. */
  ghost predicate FirstNamed(p: Profile, d: Device, i: nat) {
    i < |p.instances| && p.instances[i].name == d.name && forall j :: 0 <= j < i ==> p.instances[j].name != d.name
  }

  lemma FirstIsPosition(p: Profile, d: Device, i: nat)
    requires FirstNamed(p, d, i)
    ensures Position(p, d) == i && Present(p, d)
  {
    assert Names(p.instances)[i] == d.name;
  }

  // ---------------------------------------------------------------- one edit

  /** An update renames the protocol of that instance and of nothing else, and swaps the old protocol entry for the new. */
  lemma UpdateChanges(p: Profile, d: Device, i: nat)
    requires FirstNamed(p, d, i) && p.instances[i].protocol in p.protocols
    ensures var q := Update(p, d);
            && |q.instances| == |p.instances| && q.models == p.models
            && q.instances[i] == p.instances[i].(protocol := NewName(d))
            && (forall j :: 0 <= j < |p.instances| && j != i ==> q.instances[j] == p.instances[j])
            && multiset(q.protocols) == multiset(p.protocols) - multiset{p.instances[i].protocol} + multiset{NewName(d)}
  {
    FirstIsPosition(p, d, i);
    RemoveAtMultiset(p.protocols, Find(p.protocols, p.instances[i].protocol));
  }

  /** Without an instance of that name only the protocol list changes, and an empty profile not at all. */
  lemma UpdateOfAbsent(p: Profile, d: Device)
    requires forall j :: 0 <= j < |p.instances| ==> p.instances[j].name != d.name
    ensures var q := Update(p, d);
            && q.instances == p.instances && q.models == p.models
            && (p == EMPTY ==> q == p) && (p != EMPTY ==> NewName(d) in q.protocols)
  {
    assert forall j :: 0 <= j < |p.instances| ==> Names(p.instances)[j] != d.name;
    if p != EMPTY {
      var q := Update(p, d);
      assert q.protocols[|q.protocols| - 1] == NewName(d);
    }
  }

  /** With several instances of one name only the first is renamed: exactly when the later ones already agree do all. */
  lemma UpdateReachesAllIff(p: Profile, d: Device, i: nat)
    requires FirstNamed(p, d, i)
    ensures var q := Update(p, d);
            (forall j :: 0 <= j < |q.instances| && q.instances[j].name == d.name ==> q.instances[j].protocol == NewName(d)) <==>
            forall j :: i < j < |p.instances| && p.instances[j].name == d.name ==> p.instances[j].protocol == NewName(d)
  {
    FirstIsPosition(p, d, i);
    var q := Update(p, d);
    assert forall j :: 0 <= j < |p.instances| && j != i ==> q.instances[j] == p.instances[j];
  }

  /** An added device is the last instance, with its protocol entry, and its model is listed once. */
  lemma AddAppends(p: Profile, d: Device, known: set<string>)
    requires d.model in known
    ensures var q := Add(p, d, known);
            && q.instances == p.instances + [Instance(d.name, d.model, NewName(d))] && q.protocols == p.protocols + [NewName(d)]
            && d.model in q.models && (forall m :: m in q.models <==> m in p.models || m == d.model)
            && p.models <= q.models && |q.models| <= |p.models| + 1 && (d.model in p.models ==> q.models == p.models)
  {
  }

  /** A deleted device loses that instance and its protocol entry, and its model when nobody else refers to it. */
  lemma DeleteTakes(p: Profile, d: Device, known: set<string>, i: nat)
    requires d.model in known && FirstNamed(p, d, i) && p.instances[i].protocol in p.protocols
    ensures var q := Delete(p, d, known);
            && multiset(q.instances) == multiset(p.instances) - multiset{p.instances[i]}
            && multiset(q.protocols) == multiset(p.protocols) - multiset{p.instances[i].protocol}
            && (if d.model in p.models && !Referenced(q, d.model)
                then multiset(q.models) == multiset(p.models) - multiset{d.model} else q.models == p.models)
  {
    FirstIsPosition(p, d, i);
    SwapRemoveMultiset(p.instances, i);
    SwapRemoveMultiset(p.protocols, Find(p.protocols, p.instances[i].protocol));
    var (r, q) := (DropInstance(p, d), Delete(p, d, known));
    assert Referenced(q, d.model) <==> Referenced(r, d.model);
    if d.model in p.models && !Referenced(q, d.model) {
      SwapRemoveMultiset(r.models, Find(r.models, d.model));
    }
  }

  /** With an unknown model adding and deleting store nothing. */
  lemma UnknownModelStoresNothing(p: Profile, d: Device, known: set<string>)
    requires d.model !in known
    ensures Add(p, d, known) == p && Delete(p, d, known) == p
  {
  }

  // ---------------------------------------------------------------- instances over runs

  ghost predicate OneEach(p: Profile) { NoDup(Names(p.instances)) }

  lemma AddAt(p: Profile, d: Device, known: set<string>, x: Instance)
    requires d.model in known && OneEach(p) && !Present(p, d)
    ensures OneEach(Add(p, d, known))
    ensures x in Add(p, d, known).instances <==> x in p.instances || x == Instance(d.name, d.model, NewName(d))
  {
    var q := Add(p, d, known);
    assert d.name !in Names(p.instances);
    assert Names(q.instances) == Names(p.instances) + [d.name];
  }

  lemma UpdateAt(p: Profile, d: Device, x: Instance)
    requires OneEach(p) && Present(p, d)
    ensures OneEach(Update(p, d))
    ensures var model := p.instances[Position(p, d)].model;
            x in Update(p, d).instances <==> (x in p.instances && x.name != d.name) || x == Instance(d.name, model, NewName(d))
  {
    var (i, q) := (Position(p, d), Update(p, d));
    assert Names(q.instances) == Names(p.instances);
    assert q.instances[i] == Instance(d.name, p.instances[i].model, NewName(d));
    if x in p.instances && x.name != d.name {
      var j :| 0 <= j < |p.instances| && p.instances[j] == x;
      assert q.instances[j] == x;
    }
    if x in q.instances && x != q.instances[i] {
      var j :| 0 <= j < |q.instances| && q.instances[j] == x;
      assert p.instances[j] == x && Names(p.instances)[j] != Names(p.instances)[i];
    }
  }

  lemma AbsentHasNone(p: Profile, d: Device)
    requires !Present(p, d)
    ensures forall x :: x in p.instances ==> x.name != d.name
  {
    forall x | x in p.instances ensures x.name != d.name {
      var j :| 0 <= j < |p.instances| && p.instances[j] == x;
      assert Names(p.instances)[j] == x.name;
    }
  }

  lemma SwapRemoveAt(s: seq<Instance>, i: nat, x: Instance)
    requires i < |s| && NoDup(Names(s))
    ensures x in SwapRemove(s, i) <==> x in s && x.name != s[i].name
  {
    var (t, n, names) := (SwapRemove(s, i), |s|, Names(s));
    if x in s && x.name != s[i].name {
      var j :| 0 <= j < n && s[j] == x;
      assert t[if j == n - 1 then i else j] == x;
    }
    if x in t {
      var k :| 0 <= k < |t| && t[k] == x;
      var j := if k == i then n - 1 else k;
      assert s[j] == x && j != i && names[j] != names[i];
    }
  }

  lemma DeleteAt(p: Profile, d: Device, known: set<string>, x: Instance)
    requires d.model in known && OneEach(p)
    ensures OneEach(Delete(p, d, known))
    ensures x in Delete(p, d, known).instances <==> x in p.instances && x.name != d.name
  {
    var (i, q, names) := (Position(p, d), Delete(p, d, known), Names(p.instances));
    if Present(p, d) {
      SwapRemoveMembers(names, i);
      assert Names(q.instances) == SwapRemove(names, i);
      SwapRemoveAt(p.instances, i, x);
    } else {
      AbsentHasNone(p, d);
    }
  }

  /** No device is added while it is there. */
  ghost predicate AddedOnce(p: Profile, edits: seq<Edit>, known: set<string>)
    decreases |edits|
  {
    edits != [] ==>
      (edits[0].AddDevice? ==> !Present(p, edits[0].device)) && AddedOnce(Apply(p, edits[0], known), edits[1..], known)
  }

  /** The last edit of a device. */
  ghost function LastEdit(edits: seq<Edit>, name: string): Option<Edit>
    decreases |edits|
  {
    if edits == [] then None
    else
      var later := LastEdit(edits[1..], name);
      if later.Some? then later else if edits[0].device.name == name then Some(edits[0]) else None
  }

  /** What the last edit leaves of a device. */
  ghost predicate Leaves(e: Edit, x: Instance, modelOf: map<string, string>) {
    !e.DeleteDevice? && x.name in modelOf && x == Instance(x.name, modelOf[x.name], NewName(e.device))
  }

  lemma ApplyAt(p: Profile, e: Edit, known: set<string>, modelOf: map<string, string>, x: Instance)
    requires OneEach(p) && Faithful(p, modelOf) && (e.AddDevice? ==> !Present(p, e.device)) && (e.UpdateDevice? ==> Present(p, e.device))
    requires var d := e.device; d.model in known && d.name in modelOf && modelOf[d.name] == d.model
    ensures OneEach(Apply(p, e, known))
    ensures x in Apply(p, e, known).instances <==> if x.name == e.device.name then Leaves(e, x, modelOf) else x in p.instances
  {
    match e
    case AddDevice(d) =>
      AddAt(p, d, known, x);
      AbsentHasNone(p, d);
    case UpdateDevice(d) =>
      UpdateAt(p, d, x);
      assert p.instances[Position(p, d)].name == d.name;
    case DeleteDevice(d) => DeleteAt(p, d, known, x);
  }

  lemma {:induction false} RunAt(p: Profile, edits: seq<Edit>, known: set<string>, modelOf: map<string, string>, x: Instance)
    requires OneEach(p) && Faithful(p, modelOf) && Regular(p, edits, known, modelOf) && AddedOnce(p, edits, known)
    ensures var last := LastEdit(edits, x.name);
            x in Run(p, edits, known).instances <==> if last.Some? then Leaves(last.value, x, modelOf) else x in p.instances
    ensures OneEach(Run(p, edits, known))
    decreases |edits|
  {
    if edits != [] {
      ApplyAt(p, edits[0], known, modelOf, x);
      ApplyStaysFaithful(p, edits[0], known, modelOf);
      RunAt(Apply(p, edits[0], known), edits[1..], known, modelOf, x);
    }
  }

  /**
   * After every regular run in which no device is added twice, the profile holds exactly one instance for each device
   * whose last edit was not a deletion, with the device's model and the protocol of that edit.
   */
  lemma InstancesFollowEdits(edits: seq<Edit>, known: set<string>, modelOf: map<string, string>, x: Instance)
    requires Regular(EMPTY, edits, known, modelOf) && AddedOnce(EMPTY, edits, known)
    ensures var last := LastEdit(edits, x.name);
            x in Run(EMPTY, edits, known).instances <==>
              && last.Some? && !last.value.DeleteDevice? && x.name in modelOf && x.model == modelOf[x.name]
              && x.protocol == if last.value.device.kind.Some? then last.value.device.kind.value + "-" + last.value.device.name else ""
    ensures NoDup(Names(Run(EMPTY, edits, known).instances))
  {
    RunAt(EMPTY, edits, known, modelOf, x);
  }
}
