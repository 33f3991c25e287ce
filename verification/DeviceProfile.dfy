// The device profile of a node: instances, models and protocols, kept consistent under adding, updating and deleting.
module DeviceProfile {
  import opened Text

  /** kind is the protocol chosen in the device specification, if it is a supported one. */
  datatype Device = Device(name: string, model: string, kind: Option<string>)

  datatype Instance = Instance(name: string, model: string, protocol: string)

  /** Protocol entries and models are known by their names. */
  datatype Profile = Profile(instances: seq<Instance>, models: seq<string>, protocols: seq<string>)

  const EMPTY := Profile([], [], [])

  function ProtocolName(d: Device): string { if d.kind.None? then "" else d.kind.value + "-" + d.name }

  // ---------------------------------------------------------------- list edits

  /** The first index that holds the name, or the length. */
  function Find(names: seq<string>, name: string): (i: nat)
    ensures i <= |names| && (i < |names| <==> name in names)
    ensures i < |names| ==> names[i] == name
    ensures forall j :: 0 <= j < i ==> names[j] != name
  {
    if names == [] then 0 else if names[0] == name then 0 else 1 + Find(names[1..], name)
  }

  function Names(instances: seq<Instance>): (r: seq<string>)
    ensures |r| == |instances| && forall i :: 0 <= i < |r| ==> r[i] == instances[i].name
  {
    seq(|instances|, i requires 0 <= i < |instances| => instances[i].name)
  }

  /** Overwrite with the last element and shorten. */
  function SwapRemove<T>(s: seq<T>, i: nat): seq<T>
    requires i < |s|
  {
    s[i := s[|s| - 1]][..|s| - 1]
  }

  function RemoveAt<T>(s: seq<T>, i: nat): seq<T>
    requires i < |s|
  {
    s[..i] + s[i + 1..]
  }

  // ---------------------------------------------------------------- edits of a profile

  /** addDeviceProfile; with an unknown model the edited profile is never stored. */
  function Add(p: Profile, d: Device, known: set<string>): Profile {
    if d.model !in known then p
    else Profile(p.instances + [Instance(d.name, d.model, ProtocolName(d))],
                 if d.model in p.models then p.models else p.models + [d.model],
                 p.protocols + [ProtocolName(d)])
  }

  function DropInstance(p: Profile, d: Device): Profile {
    var i := Find(Names(p.instances), d.name);
    var protocol := if i < |p.instances| then p.instances[i].protocol else "";
    var j := Find(p.protocols, protocol);
    p.(instances := if i < |p.instances| then SwapRemove(p.instances, i) else p.instances,
       protocols := if j < |p.protocols| then SwapRemove(p.protocols, j) else p.protocols)
  }

  predicate Referenced(p: Profile, model: string) {
    exists i :: 0 <= i < |p.instances| && p.instances[i].model == model
  }

  /** deleteFromDeviceProfile. */
  function Delete(p: Profile, d: Device, known: set<string>): Profile {
    if d.model !in known then p
    else
      var q := DropInstance(p, d);
      var k := Find(q.models, d.model);
      if Referenced(q, d.model) || k >= |q.models| then q else q.(models := SwapRemove(q.models, k))
  }

  /** updateConfigMap on a stored profile; an empty one is left alone. */
  function Update(p: Profile, d: Device): Profile {
    if p == EMPTY then p
    else
      var i := Find(Names(p.instances), d.name);
      var protocol := if i < |p.instances| then p.instances[i].protocol else "";
      var j := Find(p.protocols, protocol);
      p.(instances := if i < |p.instances| then p.instances[i := p.instances[i].(protocol := ProtocolName(d))] else p.instances,
         protocols := (if j < |p.protocols| then RemoveAt(p.protocols, j) else p.protocols) + [ProtocolName(d)])
  }

  // ---------------------------------------------------------------- consistency

  function ProtocolsOf(instances: seq<Instance>): (r: seq<string>)
    ensures |r| == |instances| && forall i :: 0 <= i < |r| ==> r[i] == instances[i].protocol
  {
    seq(|instances|, i requires 0 <= i < |instances| => instances[i].protocol)
  }

  /** One protocol entry per instance. */
  ghost predicate ProtocolsMatch(p: Profile) { multiset(p.protocols) == multiset(ProtocolsOf(p.instances)) }

  /** The models listed are exactly those referenced, once each. */
  ghost predicate ModelsMatch(p: Profile) {
    && (forall m :: m in p.models <==> Referenced(p, m))
    && (forall i, j :: 0 <= i < j < |p.models| ==> p.models[i] != p.models[j])
  }

  ghost predicate Consistent(p: Profile) { ProtocolsMatch(p) && ModelsMatch(p) }

  lemma SwapRemoveMultiset<T>(s: seq<T>, i: nat)
    requires i < |s|
    ensures multiset(SwapRemove(s, i)) == multiset(s) - multiset{s[i]}
  {
    var last := s[|s| - 1];
    var t := s[i := last];
    var (a, b) := (multiset(SwapRemove(s, i)), multiset(s) - multiset{s[i]});
    assert t == SwapRemove(s, i) + [last];
    assert a + multiset{last} == multiset(t) == b + multiset{last};
    forall x ensures a[x] == b[x] {
      assert (a + multiset{last})[x] == (b + multiset{last})[x];
    }
  }

  lemma RemoveAtMultiset<T>(s: seq<T>, i: nat)
    requires i < |s|
    ensures multiset(RemoveAt(s, i)) == multiset(s) - multiset{s[i]}
  {
    assert s == s[..i] + [s[i]] + s[i + 1..];
  }

  lemma ProtocolsOfSwap(s: seq<Instance>, i: nat)
    requires i < |s|
    ensures ProtocolsOf(SwapRemove(s, i)) == SwapRemove(ProtocolsOf(s), i)
  {
  }

  lemma ModelsNeedInstances(p: Profile)
    requires ModelsMatch(p) && p.models != []
    ensures p.instances != []
  {
    assert p.models[0] in p.models;
  }

  /** A profile without instances is empty in all three lists: this is the state in which the config map is removed. */
  lemma NoInstancesMeansEmpty(p: Profile)
    requires Consistent(p)
    ensures p.instances == [] <==> p == EMPTY
  {
    if p.instances == [] {
      assert ProtocolsOf(p.instances) == [];
      assert |multiset(p.protocols)| == 0;
      if p.models != [] { ModelsNeedInstances(p); }
    }
  }

  /** Adding keeps every consistent profile consistent, whatever the device. */
  lemma AddKeeps(p: Profile, d: Device, known: set<string>)
    requires Consistent(p)
    ensures Consistent(Add(p, d, known))
  {
    if d.model in known {
      var q := Add(p, d, known);
      assert ProtocolsOf(q.instances) == ProtocolsOf(p.instances) + [ProtocolName(d)];
      forall m ensures m in q.models <==> Referenced(q, m) {
        if Referenced(p, m) {
          var i :| 0 <= i < |p.instances| && p.instances[i].model == m;
          assert q.instances[i].model == m;
        }
        if m == d.model {
          assert q.instances[|p.instances|].model == m;
        }
      }
    }
  }

  lemma SwapRemoveMembers(s: seq<string>, i: nat)
    requires i < |s| && NoDup(s)
    ensures NoDup(SwapRemove(s, i)) && forall x :: x in SwapRemove(s, i) <==> x in s && x != s[i]
  {
    var t := SwapRemove(s, i);
    forall x | x in s && x != s[i] ensures x in t {
      var j :| 0 <= j < |s| && s[j] == x;
      assert t[if j == |s| - 1 then i else j] == x;
    }
  }

  /** Another instance uses the model of the i-th one. */
  predicate Shared(p: Profile, i: nat)
    requires i < |p.instances|
  {
    exists j :: 0 <= j < |p.instances| && j != i && p.instances[j].model == p.instances[i].model
  }

  function Position(p: Profile, d: Device): nat { Find(Names(p.instances), d.name) }

  predicate Present(p: Profile, d: Device) { Position(p, d) < |p.instances| }

  lemma DropReferences(p: Profile, d: Device, m: string)
    requires Present(p, d)
    ensures var i := Position(p, d);
            && (Referenced(DropInstance(p, d), m) <==> exists j :: 0 <= j < |p.instances| && j != i && p.instances[j].model == m)
            && (Referenced(p, m) <==> Referenced(DropInstance(p, d), m) || m == p.instances[i].model)
  {
    var (i, q, n) := (Position(p, d), DropInstance(p, d), |p.instances|);
    if j :| 0 <= j < n && j != i && p.instances[j].model == m {
      assert q.instances[if j == n - 1 then i else j].model == m;
    }
    if k :| 0 <= k < |q.instances| && q.instances[k].model == m {
      assert p.instances[if k == i then n - 1 else k].model == m;
    }
  }

  lemma DropProtocols(p: Profile, d: Device)
    requires ProtocolsMatch(p)
    ensures ProtocolsMatch(DropInstance(p, d)) <==> Present(p, d) || "" !in p.protocols
  {
    var (i, q) := (Position(p, d), DropInstance(p, d));
    var ps := ProtocolsOf(p.instances);
    if Present(p, d) {
      assert ps[i] in multiset(ps);
      assert ps[i] in p.protocols;
      SwapRemoveMultiset(ps, i);
      ProtocolsOfSwap(p.instances, i);
      SwapRemoveMultiset(p.protocols, Find(p.protocols, ps[i]));
    } else if "" in p.protocols {
      assert |q.protocols| == |p.protocols| - 1;
      assert |multiset(q.protocols)| != |multiset(ps)| by { assert |multiset(ps)| == |multiset(p.protocols)|; }
    }
  }

  /** The guard under which a delete leaves a consistent profile. */
  predicate DeletesCleanly(p: Profile, d: Device) {
    if Present(p, d) then p.instances[Position(p, d)].model == d.model || Shared(p, Position(p, d)) else "" !in p.protocols
  }

  lemma DropKeepsModelsIff(p: Profile, d: Device, known: set<string>)
    requires ModelsMatch(p) && d.model in known && Present(p, d)
    ensures ModelsMatch(Delete(p, d, known)) <==> p.instances[Position(p, d)].model == d.model || Shared(p, Position(p, d))
  {
    var (i, q, r) := (Position(p, d), DropInstance(p, d), Delete(p, d, known));
    var m := p.instances[i].model;
    forall x ensures Referenced(r, x) <==> Referenced(q, x) {
    }
    forall x ensures Referenced(p, x) <==> Referenced(q, x) || x == m {
      DropReferences(p, d, x);
    }
    DropReferences(p, d, m);
    assert q.models == p.models;
    var k := Find(q.models, d.model);
    if k < |q.models| {
      SwapRemoveMembers(q.models, k);
    }
    if m != d.model && !Shared(p, i) {
      assert m in p.models && m in r.models && !Referenced(r, m);
    }
  }

  lemma AbsentKeepsModels(p: Profile, d: Device, known: set<string>)
    requires ModelsMatch(p) && d.model in known && !Present(p, d)
    ensures ModelsMatch(Delete(p, d, known))
  {
    var (q, r) := (DropInstance(p, d), Delete(p, d, known));
    forall x ensures Referenced(r, x) <==> Referenced(p, x) {
    }
  }

  /** A delete keeps the profile consistent exactly under its guard; with an unknown model it stores nothing. */
  lemma DeleteKeepsIff(p: Profile, d: Device, known: set<string>)
    requires Consistent(p)
    ensures Consistent(Delete(p, d, known)) <==> d.model !in known || DeletesCleanly(p, d)
  {
    if d.model in known {
      var (q, r) := (DropInstance(p, d), Delete(p, d, known));
      DropProtocols(p, d);
      assert r.instances == q.instances && r.protocols == q.protocols;
      if Present(p, d) {
        DropKeepsModelsIff(p, d, known);
      } else {
        AbsentKeepsModels(p, d, known);
      }
    }
  }

  /** The guard under which an update leaves a consistent profile. */
  predicate UpdatesCleanly(p: Profile, d: Device) {
    p == EMPTY || Present(p, d) || (d.kind.None? && "" in p.protocols)
  }

  lemma UpdateKeepsModels(p: Profile, d: Device)
    requires ModelsMatch(p)
    ensures ModelsMatch(Update(p, d))
  {
    var q := Update(p, d);
    forall m ensures Referenced(q, m) <==> Referenced(p, m) {
      if i :| 0 <= i < |p.instances| && p.instances[i].model == m {
        assert q.instances[i].model == m;
      }
      if i :| 0 <= i < |q.instances| && q.instances[i].model == m {
        assert p.instances[i].model == m;
      }
    }
  }

  lemma UpdatePresent(p: Profile, d: Device)
    requires ProtocolsMatch(p) && p != EMPTY && Present(p, d)
    ensures ProtocolsMatch(Update(p, d))
  {
    var (i, q, ps) := (Position(p, d), Update(p, d), ProtocolsOf(p.instances));
    assert ps[i] in multiset(ps);
    assert ps[i] in p.protocols;
    var j := Find(p.protocols, ps[i]);
    RemoveAtMultiset(p.protocols, j);
    assert ProtocolsOf(q.instances) == ps[i := ProtocolName(d)];
    assert multiset(ps[i := ProtocolName(d)]) == multiset(ps) - multiset{ps[i]} + multiset{ProtocolName(d)};
    assert multiset(q.protocols) == multiset(RemoveAt(p.protocols, j)) + multiset{ProtocolName(d)};
  }

  lemma ReplaceIsSame(m: multiset<string>, x: string, y: string)
    requires x in m
    ensures m - multiset{x} + multiset{y} == m <==> x == y
  {
    if x != y {
      assert (m - multiset{x} + multiset{y})[x] == m[x] - 1;
    }
  }

  lemma UpdateAbsent(p: Profile, d: Device)
    requires ProtocolsMatch(p) && p != EMPTY && !Present(p, d)
    ensures ProtocolsMatch(Update(p, d)) <==> d.kind.None? && "" in p.protocols
  {
    var (q, j) := (Update(p, d), Find(p.protocols, ""));
    assert q.instances == p.instances;
    if j < |p.protocols| {
      RemoveAtMultiset(p.protocols, j);
      assert multiset(q.protocols) == multiset(p.protocols) - multiset{""} + multiset{ProtocolName(d)};
      ReplaceIsSame(multiset(p.protocols), "", ProtocolName(d));
      assert d.kind.Some? ==> |ProtocolName(d)| >= 1;
    } else {
      assert |multiset(q.protocols)| == |multiset(p.protocols)| + 1;
    }
  }

  /** An update keeps the profile consistent exactly under its guard. */
  lemma UpdateKeepsIff(p: Profile, d: Device)
    requires Consistent(p)
    ensures Consistent(Update(p, d)) <==> UpdatesCleanly(p, d)
  {
    UpdateKeepsModels(p, d);
    if p != EMPTY {
      if Present(p, d) {
        UpdatePresent(p, d);
      } else {
        UpdateAbsent(p, d);
      }
    }
  }

  // ---------------------------------------------------------------- runs

  datatype Edit = AddDevice(device: Device) | UpdateDevice(device: Device) | DeleteDevice(device: Device)

  function Apply(p: Profile, e: Edit, known: set<string>): Profile {
    match e
    case AddDevice(d) => Add(p, d, known)
    case UpdateDevice(d) => Update(p, d)
    case DeleteDevice(d) => Delete(p, d, known)
  }

  function Run(p: Profile, edits: seq<Edit>, known: set<string>): Profile
    decreases |edits|
  {
    if edits == [] then p else Run(Apply(p, edits[0], known), edits[1..], known)
  }

  /** Every edit names a device with a supported protocol and one fixed, known model, and updates only devices that are there. */
  ghost predicate Regular(p: Profile, edits: seq<Edit>, known: set<string>, modelOf: map<string, string>)
    decreases |edits|
  {
    edits != [] ==>
      var d := edits[0].device;
      && d.kind.Some? && d.model in known && d.name in modelOf && modelOf[d.name] == d.model
      && (edits[0].UpdateDevice? ==> Present(p, d))
      && Regular(Apply(p, edits[0], known), edits[1..], known, modelOf)
  }

  /** Instances carry the model of their device and a named protocol. */
  ghost predicate Faithful(p: Profile, modelOf: map<string, string>) {
    forall i :: 0 <= i < |p.instances| ==>
      p.instances[i].name in modelOf && modelOf[p.instances[i].name] == p.instances[i].model && p.instances[i].protocol != ""
  }

  lemma NoUnnamedProtocol(p: Profile, modelOf: map<string, string>)
    requires ProtocolsMatch(p) && Faithful(p, modelOf)
    ensures "" !in p.protocols
  {
    assert "" !in ProtocolsOf(p.instances);
    assert "" !in multiset(p.protocols);
  }

  lemma ApplyStaysFaithful(p: Profile, e: Edit, known: set<string>, modelOf: map<string, string>)
    requires Faithful(p, modelOf)
    requires var d := e.device; d.kind.Some? && d.name in modelOf && modelOf[d.name] == d.model
    ensures Faithful(Apply(p, e, known), modelOf)
  {
    var (d, q) := (e.device, Apply(p, e, known));
    assert |ProtocolName(d)| >= 1;
    forall i | 0 <= i < |q.instances|
      ensures q.instances[i].name in modelOf && modelOf[q.instances[i].name] == q.instances[i].model && q.instances[i].protocol != ""
    {
      assert q.instances[i] in p.instances || q.instances[i].protocol == ProtocolName(d);
    }
  }

  /** A regular edit meets the guard of its operation. */
  lemma RegularEditKeeps(p: Profile, e: Edit, known: set<string>, modelOf: map<string, string>)
    requires Consistent(p) && Faithful(p, modelOf)
    requires var d := e.device; d.name in modelOf && modelOf[d.name] == d.model && (e.UpdateDevice? ==> Present(p, d))
    ensures Consistent(Apply(p, e, known))
  {
    NoUnnamedProtocol(p, modelOf);
    match e
    case AddDevice(d) => AddKeeps(p, d, known);
    case UpdateDevice(d) => UpdateKeepsIff(p, d);
    case DeleteDevice(d) => DeleteKeepsIff(p, d, known);
  }

  lemma {:induction false} RegularRunKeeps(p: Profile, edits: seq<Edit>, known: set<string>, modelOf: map<string, string>)
    requires Consistent(p) && Faithful(p, modelOf) && Regular(p, edits, known, modelOf)
    ensures Consistent(Run(p, edits, known))
    decreases |edits|
  {
    if edits != [] {
      RegularEditKeeps(p, edits[0], known, modelOf);
      ApplyStaysFaithful(p, edits[0], known, modelOf);
      RegularRunKeeps(Apply(p, edits[0], known), edits[1..], known, modelOf);
    }
  }

  /** Over every regular run the three lists agree, and the profile is empty exactly when the last instance is gone. */
  lemma RegularRunsStayConsistent(edits: seq<Edit>, known: set<string>, modelOf: map<string, string>)
    requires Regular(EMPTY, edits, known, modelOf)
    ensures Consistent(Run(EMPTY, edits, known))
    ensures Run(EMPTY, edits, known).instances == [] <==> Run(EMPTY, edits, known) == EMPTY
  {
    assert ProtocolsOf(EMPTY.instances) == [];
    RegularRunKeeps(EMPTY, edits, known, modelOf);
    NoInstancesMeansEmpty(Run(EMPTY, edits, known));
  }

  /** A device whose model changed between being added and being deleted leaves its old model behind. */
  lemma ChangedModelIsLeftBehind(p: Profile, a: Device, b: Device, known: set<string>)
    requires Consistent(p) && a.model in known && b.model in known
    requires a.name == b.name && a.model != b.model && !Present(p, a) && a.model !in p.models
    ensures !Consistent(Delete(Add(p, a, known), b, known))
  {
    var q := Add(p, a, known);
    AddKeeps(p, a, known);
    var n := |p.instances|;
    assert Names(q.instances)[n] == a.name;
    assert forall i :: 0 <= i < n ==> Names(q.instances)[i] == Names(p.instances)[i];
    assert Position(q, b) == n;
    forall j | 0 <= j < n ensures q.instances[j].model != a.model {
      assert q.instances[j] == p.instances[j];
    }
    DeleteKeepsIff(q, b, known);
  }

  // ---------------------------------------------------------------- the stored profile, edited in place

  class ConfigMap {
    var deviceInstances: seq<Instance>
    var deviceModels: seq<string>
    var protocols: seq<string>

    ghost function View(): Profile
      reads this
    {
      Profile(deviceInstances, deviceModels, protocols)
    }

    constructor ()
      ensures View() == EMPTY
    {
      deviceInstances, deviceModels, protocols := [], [], [];
    }

    static method Search(names: seq<string>, name: string) returns (i: nat)
      ensures i == Find(names, name)
    {
      i := 0;
      while i < |names| && names[i] != name
        invariant i <= |names| && forall j :: 0 <= j < i ==> names[j] != name
      {
        i := i + 1;
      }
    }

    /** addDeviceProfile: the profile is edited as a copy, which an unknown model throws away. */
    method AddDeviceProfile(d: Device, known: set<string>)
      modifies this
      ensures View() == Add(old(View()), d, known)
    {
      var instances := deviceInstances + [Instance(d.name, d.model, ProtocolName(d))];
      var entries := protocols + [ProtocolName(d)];
      if d.model !in known { return; }
      var k := Search(deviceModels, d.model);
      if k == |deviceModels| {
        deviceModels := deviceModels + [d.model];
      }
      deviceInstances, protocols := instances, entries;
    }

    /** deleteDeviceInstanceAndProtocol on a copy of the profile. */
    static method DeleteInstanceAndProtocol(p: Profile, d: Device) returns (q: Profile)
      ensures q == DropInstance(p, d)
    {
      q := p;
      var i := Search(Names(p.instances), d.name);
      var protocol := "";
      if i < |p.instances| {
        protocol := p.instances[i].protocol;
        q := q.(instances := SwapRemove(q.instances, i));
      }
      var j := Search(p.protocols, protocol);
      if j < |p.protocols| {
        q := q.(protocols := SwapRemove(q.protocols, j));
      }
    }

    static method IsReferenced(p: Profile, model: string) returns (referenced: bool)
      ensures referenced <==> Referenced(p, model)
    {
      referenced := false;
      for t := 0 to |p.instances|
        invariant referenced <==> exists u :: 0 <= u < t && p.instances[u].model == model
      {
        if p.instances[t].model == model { referenced := true; }
      }
    }

    /** deleteFromDeviceProfile: again an unknown model throws the edited copy away. */
    method DeleteFromDeviceProfile(d: Device, known: set<string>)
      modifies this
      ensures View() == Delete(old(View()), d, known)
    {
      var q := DeleteInstanceAndProtocol(Profile(deviceInstances, deviceModels, protocols), d);
      if d.model !in known { return; }
      var referenced := IsReferenced(q, d.model);
      if !referenced {
        var k := Search(q.models, d.model);
        if k < |q.models| {
          q := q.(models := SwapRemove(q.models, k));
        }
      }
      deviceInstances, deviceModels, protocols := q.instances, q.models, q.protocols;
    }

    /** updateConfigMap; an empty profile is an error that changes nothing. */
    method UpdateProfile(d: Device)
      modifies this
      ensures View() == Update(old(View()), d)
    {
      if |deviceInstances| == 0 && |deviceModels| == 0 && |protocols| == 0 { return; }
      var i := Search(Names(deviceInstances), d.name);
      var protocol := "";
      if i < |deviceInstances| { protocol := deviceInstances[i].protocol; }
      var j := Search(protocols, protocol);
      if j < |protocols| { protocols := protocols[..j] + protocols[j + 1..]; }
      if i < |deviceInstances| {
        deviceInstances := deviceInstances[i := deviceInstances[i].(protocol := ProtocolName(d))];
      }
      protocols := protocols + [ProtocolName(d)];
    }
  }
}
