// The recorded success points: what an ObjectSync version means, over every run.
module SuccessPoints {
  import opened Text
  import opened Messages
  import opened CloudHub
  import opened Delivery

  // ---------------------------------------------------------------- names

  /** getNodeName: everything before the last dot. */
  function NodeName(sync: string): string {
    var parts := Split(sync, '.');
    Join(parts[..|parts| - 1], '.')
  }

  /** getObjectUID: everything after the last dot. */
  function ObjectUID(sync: string): string {
    var parts := Split(sync, '.');
    parts[|parts| - 1]
  }

  /** A sync name decodes to its node and UID exactly when the UID has no dot; node names may have dots. */
  lemma SyncNameDecodes(node: string, uid: string)
    ensures NodeName(SyncName(node, uid)) == node && ObjectUID(SyncName(node, uid)) == uid <==> '.' !in uid
  {
    if '.' !in uid {
      SplitSnoc(node, '.', uid);
      JoinSplit(node, '.');
    } else {
      JoinSplit(SyncName(node, uid), '.');
    }
  }

  lemma SyncNameInjective(n1: string, u1: string, n2: string, u2: string)
    requires '.' !in u1 && '.' !in u2 && SyncName(n1, u1) == SyncName(n2, u2)
    ensures n1 == n2 && u1 == u2
  {
    SyncNameDecodes(n1, u1);
    SyncNameDecodes(n2, u2);
  }

  // ---------------------------------------------------------------- acknowledgement channels

  ghost predicate WaitsOn(h: Hub, n: string, c: nat) {
    n in h.nodes && h.nodes[n].writer.Waiting? && h.nodes[n].writer.chan == c
  }

  /** Channels are never shared: a closed one was closed by an acknowledgement of the waiter's own message. */
  ghost predicate ChannelInv(h: Hub) {
    && (forall id :: id in h.acks ==> h.acks[id] < h.next && h.acks[id] !in h.closed)
    && (forall id, id' :: id in h.acks && id' in h.acks && h.acks[id] == h.acks[id'] ==> id == id')
    && (forall c :: c in h.closed ==> c < h.next)
    && (forall n, c: nat :: WaitsOn(h, n, c) ==> c < h.next)
    && (forall n, c: nat :: WaitsOn(h, n, c) && c in h.closed ==> h.nodes[n].writer.msg.id in h.acked)
    && (forall n, id :: id in h.acks && WaitsOn(h, n, h.acks[id]) ==> h.nodes[n].writer.msg.id == id)
  }

  /** Every acknowledgement a write loop consumed was sent by the edge for that message. */
  ghost predicate ConsumedWereAcked(h: Hub) {
    forall n, i :: n in h.nodes && 0 <= i < |h.nodes[n].log| && h.nodes[n].log[i].Acked? ==> h.nodes[n].log[i].msg.id in h.acked
  }

  ghost predicate AckInv(h: Hub) { ChannelInv(h) && ConsumedWereAcked(h) }

  /** What a step does to the write loop and the log of the node it names. */
  lemma NodeStepEffect(h: Hub, a: Action)
    requires Enabled(h, a) && !a.Ack? && !a.DropSync?
    ensures var (w, w') := (NodeOf(h, a.node).writer, NodeOf(Step(h, a), a.node).writer);
            w'.Waiting? ==>
              || (w.Waiting? && w'.chan == w.chan && w'.msg == w.msg)
              || (a.Send? && w.Holding? && w'.chan == h.next && w'.msg == w.msg)
    ensures var (log, log') := (NodeOf(h, a.node).log, NodeOf(Step(h, a), a.node).log);
            || log' == log
            || (|log'| == |log| + 1 && log'[..|log|] == log &&
                (log'[|log|].Acked? ==> a.Save? && log'[|log|].msg == NodeOf(h, a.node).writer.msg))
  {
  }

  lemma WaitsOnBefore(h: Hub, a: Action, n: string, c: nat)
    requires Enabled(h, a) && WaitsOn(Step(h, a), n, c)
    ensures || (WaitsOn(h, n, c) && Step(h, a).nodes[n].writer.msg == h.nodes[n].writer.msg)
            || (a.Send? && n == a.node && c == h.next && Step(h, a).nodes[n].writer.msg == h.nodes[n].writer.msg)
  {
    if a.Ack? || a.DropSync? || n != a.node {
      StepFrame(h, a, n);
    } else {
      NodeStepEffect(h, a);
    }
  }

  /** What a step does to the acknowledgement table. */
  ghost predicate TableStep(h: Hub, h': Hub, a: Action) {
    if a.Send? then
      && a.node in h.nodes && !h.nodes[a.node].writer.Idle?
      && h'.acks == h.acks[h.nodes[a.node].writer.msg.id := h.next] && h'.next == h.next + 1
      && h'.closed == h.closed && h'.acked == h.acked
    else if a.Ack? then
      && h'.next == h.next && h'.acked == h.acked + {a.id} && h'.acks == h.acks - {a.id}
      && h'.closed == h.closed + (if a.id in h.acks then {h.acks[a.id]} else {})
    else
      h'.acks == h.acks && h'.next == h.next && h'.closed == h.closed && h'.acked == h.acked
  }

  lemma ChannelTransfer(h: Hub, h': Hub, a: Action)
    requires ChannelInv(h) && TableStep(h, h', a)
    requires forall n, c: nat | WaitsOn(h', n, c) :: FromBefore(h, h', a, n, c)
    ensures ChannelInv(h')
  {
  }

  lemma TableEffect(h: Hub, a: Action)
    requires Enabled(h, a)
    ensures TableStep(h, Step(h, a), a)
  {
    if a.Ack? && a.id !in h.acks {
      assert h.acks - {a.id} == h.acks;
    }
  }

  lemma ChannelStepKeeps(h: Hub, a: Action)
    requires ChannelInv(h) && Enabled(h, a)
    ensures ChannelInv(Step(h, a))
  {
    TableEffect(h, a);
    forall n, c: nat | WaitsOn(Step(h, a), n, c) ensures FromBefore(h, Step(h, a), a, n, c) {
      WaitsOnBefore(h, a, n, c);
    }
    ChannelTransfer(h, Step(h, a), a);
  }

  ghost predicate FromBefore(h: Hub, h': Hub, a: Action, n: string, c: nat) {
    && (WaitsOn(h, n, c) || (a.Send? && n == a.node && c == h.next))
    && n in h.nodes && n in h'.nodes && !h.nodes[n].writer.Idle? && !h'.nodes[n].writer.Idle?
    && h'.nodes[n].writer.msg == h.nodes[n].writer.msg
  }

  lemma ConsumedStepKeeps(h: Hub, a: Action)
    requires AckInv(h) && Enabled(h, a)
    ensures ConsumedWereAcked(Step(h, a))
  {
    var h' := Step(h, a);
    assert h.acked <= h'.acked;
    forall n, i | n in h'.nodes && 0 <= i < |h'.nodes[n].log| && h'.nodes[n].log[i].Acked?
      ensures h'.nodes[n].log[i].msg.id in h'.acked
    {
      var log := NodeOf(h, n).log;
      if a.Ack? || a.DropSync? || n != a.node {
        StepFrame(h, a, n);
      } else {
        NodeStepEffect(h, a);
        if i < |log| {
          assert h'.nodes[n].log[..|log|] == log;
          assert h'.nodes[n].log[i] == log[i];
        } else {
          assert WaitsOn(h, n, h.nodes[n].writer.chan);
        }
      }
    }
  }

  // ---------------------------------------------------------------- recorded versions were acknowledged

  /** The i-th event at n consumed the edge's acknowledgement of version v for this ObjectSync. */
  ghost predicate AckedVersion(h: Hub, n: string, i: nat, slot: Slot, v: string) {
    n in h.nodes && i < |h.nodes[n].log| &&
    var e := h.nodes[n].log[i];
    e.Acked? && e.msg.content.Object? && SlotOf(n, e.msg) == slot && e.msg.version == v && e.msg.id in h.acked
  }

  ghost predicate Witnessed(h: Hub, slot: Slot, v: string) {
    exists n, i: nat :: AckedVersion(h, n, i, slot, v)
  }

  ghost predicate Recorded(init: map<Slot, Sync>, h: Hub) {
    forall slot :: slot in h.syncs && h.syncs[slot].version != "" ==>
      (slot in init && init[slot].version == h.syncs[slot].version) || Witnessed(h, slot, h.syncs[slot].version)
  }

  lemma WitnessPersists(h: Hub, a: Action, slot: Slot, v: string)
    requires Enabled(h, a) && Witnessed(h, slot, v)
    ensures Witnessed(Step(h, a), slot, v)
  {
    var n, i: nat :| AckedVersion(h, n, i, slot, v);
    var h' := Step(h, a);
    assert h.acked <= h'.acked;
    if a.Ack? || a.DropSync? || n != a.node {
      StepFrame(h, a, n);
    } else {
      NodeStepEffect(h, a);
      assert h'.nodes[n].log[i] == h.nodes[n].log[i] by {
        assert h'.nodes[n].log[..|h.nodes[n].log|] == h.nodes[n].log;
      }
    }
    assert AckedVersion(h', n, i, slot, v);
  }

  lemma RecordedStepKeeps(init: map<Slot, Sync>, h: Hub, a: Action)
    requires Recorded(init, h) && AckInv(h) && Enabled(h, a)
    ensures Recorded(init, Step(h, a))
  {
    var h' := Step(h, a);
    forall slot | slot in h'.syncs && h'.syncs[slot].version != ""
      ensures (slot in init && init[slot].version == h'.syncs[slot].version) || Witnessed(h', slot, h'.syncs[slot].version)
    {
      if slot in h.syncs && h.syncs[slot].version == h'.syncs[slot].version {
        if Witnessed(h, slot, h.syncs[slot].version) {
          WitnessPersists(h, a, slot, h.syncs[slot].version);
        }
      } else {
        SavedHere(h, a, slot);
        var node := h.nodes[a.node];
        assert h'.nodes[a.node].log == node.log + [Acked(node.writer.key, node.writer.msg)];
        assert WaitsOn(h, a.node, node.writer.chan);
        assert AckedVersion(h', a.node, |node.log|, slot, h'.syncs[slot].version);
      }
    }
  }

  /** An ObjectSync version changes to a non-empty one only by consuming an acknowledgement. */
  lemma SavedHere(h: Hub, a: Action, slot: Slot)
    requires Enabled(h, a) && slot in Step(h, a).syncs && Step(h, a).syncs[slot].version != ""
    requires slot !in h.syncs || h.syncs[slot].version != Step(h, a).syncs[slot].version
    ensures a.Save? && var m := h.nodes[a.node].writer.msg;
            HasKey(m) && m.content.Object? && SlotOf(a.node, m) == slot && Step(h, a).syncs[slot].version == m.version
  {
  }

  ghost predicate Sound(init: map<Slot, Sync>, h: Hub) { HubInv(h) && AckInv(h) && Recorded(init, h) }

  lemma {:induction false} SoundRun(init: map<Slot, Sync>, h: Hub, acts: seq<Action>)
    requires Sound(init, h) && Run(h, acts).Some?
    ensures Sound(init, Run(h, acts).value)
    decreases |acts|
  {
    if acts != [] {
      StepKeeps(h, acts[0]);
      ChannelStepKeeps(h, acts[0]);
      ConsumedStepKeeps(h, acts[0]);
      RecordedStepKeeps(init, h, acts[0]);
      SoundRun(init, Step(h, acts[0]), acts[1..]);
    }
  }

  /** In every reachable state a recorded version was either there from the start or acknowledged by the edge. */
  lemma RecordedVersionsWereAcknowledged(init: map<Slot, Sync>, acts: seq<Action>, slot: Slot)
    requires Run(Init(init), acts).Some?
    requires var h := Run(Init(init), acts).value; slot in h.syncs && h.syncs[slot].version != ""
    ensures var h := Run(Init(init), acts).value;
            (slot in init && init[slot].version == h.syncs[slot].version) || Witnessed(h, slot, h.syncs[slot].version)
  {
    SoundRun(init, Init(init), acts);
  }

  /** No acknowledgement closes a channel that is already closed, which would be a run-time panic. */
  lemma AckNeverClosesTwice(init: map<Slot, Sync>, acts: seq<Action>, id: string)
    requires Run(Init(init), acts).Some? && id in Run(Init(init), acts).value.acks
    ensures Run(Init(init), acts).value.acks[id] !in Run(Init(init), acts).value.closed
  {
    SoundRun(init, Init(init), acts);
  }

  // ---------------------------------------------------------------- acknowledged by that very node

  ghost predicate Plain(m: Message) { m.content.Object? ==> '.' !in m.content.uid }

  ghost predicate NodePlain(node: Node) {
    && (forall k :: k in node.store ==> Plain(node.store[k]))
    && (!node.writer.Idle? ==> Plain(node.writer.msg))
    && (forall i :: 0 <= i < |node.log| && node.log[i].Acked? ==> Plain(node.log[i].msg))
  }

  ghost predicate HubPlain(h: Hub) { forall n :: n in h.nodes ==> NodePlain(h.nodes[n]) }

  ghost predicate PlainAction(a: Action) { a.Dispatch? ==> Plain(a.msg) }

  lemma PlainStepKeeps(h: Hub, a: Action)
    requires HubPlain(h) && Enabled(h, a) && PlainAction(a)
    ensures HubPlain(Step(h, a))
  {
    var h' := Step(h, a);
    forall n | n in h'.nodes ensures NodePlain(h'.nodes[n]) {
      if a.Ack? || a.DropSync? || n != a.node {
        StepFrame(h, a, n);
      } else {
        NodePlainKeeps(h, a);
      }
    }
  }

  lemma NodePlainKeeps(h: Hub, a: Action)
    requires HubPlain(h) && Enabled(h, a) && PlainAction(a) && !a.Ack? && !a.DropSync?
    ensures NodePlain(NodeOf(Step(h, a), a.node))
  {
    var (node, node') := (NodeOf(h, a.node), NodeOf(Step(h, a), a.node));
    assert NodePlain(node);
    NodeStepEffect(h, a);
    forall i | 0 <= i < |node'.log| && node'.log[i].Acked? ensures Plain(node'.log[i].msg) {
      assert i < |node.log| ==> node'.log[i] == node'.log[..|node.log|][i] == node.log[i];
    }
  }

  lemma {:induction false} PlainRun(h: Hub, acts: seq<Action>)
    requires HubPlain(h) && Run(h, acts).Some? && forall a :: a in acts ==> PlainAction(a)
    ensures HubPlain(Run(h, acts).value)
    decreases |acts|
  {
    if acts != [] {
      assert acts[0] in acts;
      PlainStepKeeps(h, acts[0]);
      PlainRun(Step(h, acts[0]), acts[1..]);
    }
  }

  /** With dot-free UIDs, a recorded version of a node's object was acknowledged to that node's own write loop. */
  lemma RecordedVersionsAreTheNodesOwn(init: map<Slot, Sync>, acts: seq<Action>, ns: string, node: string, uid: string)
    requires Run(Init(init), acts).Some? && '.' !in uid && forall a :: a in acts ==> PlainAction(a)
    requires var (h, slot) := (Run(Init(init), acts).value, (ns, SyncName(node, uid)));
             slot in h.syncs && h.syncs[slot].version != ""
    ensures var (h, slot) := (Run(Init(init), acts).value, (ns, SyncName(node, uid)));
            || (slot in init && init[slot].version == h.syncs[slot].version)
            || exists i: nat :: AckedVersion(h, node, i, slot, h.syncs[slot].version)
  {
    var (h, slot) := (Run(Init(init), acts).value, (ns, SyncName(node, uid)));
    RecordedVersionsWereAcknowledged(init, acts, slot);
    PlainRun(Init(init), acts);
    if Witnessed(h, slot, h.syncs[slot].version) {
      var n, i: nat :| AckedVersion(h, n, i, slot, h.syncs[slot].version);
      assert NodePlain(h.nodes[n]);
      SyncNameInjective(n, h.nodes[n].log[i].msg.content.uid, node, uid);
      assert AckedVersion(h, node, i, slot, h.syncs[slot].version);
    }
  }

  // ---------------------------------------------------------------- recorded versions never go back

  /** One object: the messages of this key at this node, and no others there, carry its namespace and UID. */
  datatype Tracked = Tracked(node: string, key: string, namespace: string, uid: string)

  function TrackedSlot(t: Tracked): Slot { (t.namespace, SyncName(t.node, t.uid)) }

  ghost predicate About(t: Tracked, n: string, m: Message) {
    HasKey(m) && m.content.Object? ==>
      && '.' !in m.content.uid
      && (n == t.node ==> (Key(m) == t.key <==> Namespace(m) == t.namespace && m.content.uid == t.uid))
  }

  lemma SlotIsTracked(t: Tracked, n: string, m: Message)
    requires '.' !in t.uid && About(t, n, m) && HasKey(m) && m.content.Object? && SlotOf(n, m) == TrackedSlot(t)
    ensures n == t.node && Key(m) == t.key
  {
    SyncNameInjective(n, m.content.uid, t.node, t.uid);
  }

  function Lookup(syncs: map<Slot, Sync>, slot: Slot): Option<Sync> {
    if slot in syncs then Some(syncs[slot]) else None
  }

  /** The lister is at most one version behind the record, or lists something no version can be compared with or exceed. */
  predicate UpToDate(record: string, listed: Option<Sync>) {
    && listed.Some? && listed.value.version != ""
    && var seen := ParseUint(listed.value.version);
       || seen.None? || seen.value == MAX_UINT64
       || (ParseUint(record).Some? && ParseUint(record).value <= seen.value + 1)
  }

  predicate SafeLister(record: Option<Sync>, listed: Option<Sync>) {
    record.None? || record.value.version == "" || UpToDate(record.value.version, listed)
  }

  /** Messages respect the object's identity, and for the first one of a key the lister is not too far behind. */
  ghost predicate Fair(t: Tracked, h: Hub, a: Action) {
    a.Dispatch? ==>
      && About(t, a.node, a.msg)
      && (a.node == t.node && Key(a.msg) == t.key && !IsDelete(a.msg) && t.key !in NodeOf(h, t.node).store ==>
            SafeLister(Lookup(h.syncs, TrackedSlot(t)), a.listed))
  }

  ghost predicate FairRun(t: Tracked, h: Hub, acts: seq<Action>)
    decreases |acts|
  {
    acts != [] && Enabled(h, acts[0]) ==> Fair(t, h, acts[0]) && FairRun(t, Step(h, acts[0]), acts[1..])
  }

  ghost predicate NodeAbout(t: Tracked, n: string, node: Node) {
    && (forall k :: k in node.store ==> About(t, n, node.store[k]))
    && (!node.writer.Idle? ==> About(t, n, node.writer.msg))
  }

  ghost predicate AllAbout(t: Tracked, h: Hub) {
    forall n :: n in h.nodes ==> NodeAbout(t, n, h.nodes[n])
  }

  ghost predicate NotAhead(v: string, m: Message) { IsDelete(m) || v == "" || NotLower(v, m.version) }

  /** The recorded version is not ahead of what is in flight or stored. */
  ghost predicate SyncBehind(t: Tracked, h: Hub) {
    var node, slot := NodeOf(h, t.node), TrackedSlot(t);
    slot in h.syncs ==>
      && (t.key in node.store ==> NotAhead(h.syncs[slot].version, node.store[t.key]))
      && (InFlight(node.writer, t.key) ==> NotAhead(h.syncs[slot].version, node.writer.msg))
  }

  lemma AboutStepKeeps(t: Tracked, h: Hub, a: Action)
    requires AllAbout(t, h) && Enabled(h, a) && Fair(t, h, a)
    ensures AllAbout(t, Step(h, a))
  {
    var h' := Step(h, a);
    forall n | n in h'.nodes ensures NodeAbout(t, n, h'.nodes[n]) {
      if a.Ack? || a.DropSync? || n != a.node {
        StepFrame(h, a, n);
      } else {
        assert NodeAbout(t, n, NodeOf(h, n));
      }
    }
  }

  /** With an up-to-date lister no admitted version is below the record; otherwise some admitted version is. */
  lemma SafeListerIff(record: string, listed: Option<Sync>)
    ensures UpToDate(record, listed) <==>
            forall version :: version != "" && FirstVerdict(version, listed).Admit? ==> NotLower(record, version)
  {
    if listed.None? || listed.value.version == "" {
      var version := if record == "x" then "y" else "x";
      assert FirstVerdict(version, listed).Admit? && !NotLower(record, version);
    } else if !UpToDate(record, listed) {
      var next := ParseUint(listed.value.version).value + 1;
      DecimalItoa(next);
      assert FirstVerdict(Itoa(next), listed).Admit? && !NotLower(record, Itoa(next));
    }
  }

  /** Exactly when the first message of a key keeps the record behind what is stored. */
  lemma FirstMessageKeepsIff(t: Tracked, h: Hub, a: Action)
    requires SyncBehind(t, h) && a.Dispatch? && Enabled(h, a) && a.node == t.node && HasKey(a.msg) && Key(a.msg) == t.key
    requires !IsDelete(a.msg) && t.key !in NodeOf(h, t.node).store
    ensures var record := Lookup(h.syncs, TrackedSlot(t));
            SyncBehind(t, Step(h, a)) <==>
              || Judge(NodeOf(h, t.node).store, a.msg, a.listed).Discard?
              || record.None? || record.value.version == "" || NotLower(record.value.version, a.msg.version)
  {
  }

  lemma DispatchKeepsBehind(t: Tracked, h: Hub, a: Action)
    requires '.' !in t.uid && HubInv(h) && SyncBehind(t, h) && a.Dispatch? && Enabled(h, a) && Fair(t, h, a)
    ensures SyncBehind(t, Step(h, a))
  {
    if a.node == t.node && Judge(NodeOf(h, a.node).store, a.msg, a.listed).Admit? && Key(a.msg) == t.key && TrackedSlot(t) in h.syncs {
      NodeOfInv(h, a.node);
      var v := h.syncs[TrackedSlot(t)].version;
      if !IsDelete(a.msg) && t.key !in NodeOf(h, t.node).store && v != "" {
        SafeListerIff(v, a.listed);
      }
      assert NotAhead(v, a.msg);
    }
  }

  /** What saving can leave in one ObjectSync. */
  lemma SaveEffect(syncs: map<Slot, Sync>, n: string, m: Message, api: Api, slot: Slot)
    requires slot in SaveSync(syncs, n, m, api)
    ensures var v := SaveSync(syncs, n, m, api)[slot].version;
            || (slot in syncs && v == syncs[slot].version)
            || v == ""
            || (HasKey(m) && m.content.Object? && SlotOf(n, m) == slot && !Removes(m) && v == m.version)
  {
  }

  lemma SaveKeepsBehind(t: Tracked, h: Hub, a: Action)
    requires '.' !in t.uid && HubInv(h) && AllAbout(t, h) && SyncBehind(t, h) && a.Save? && Enabled(h, a)
    ensures SyncBehind(t, Step(h, a))
  {
    var (node, slot, h') := (h.nodes[a.node], TrackedSlot(t), Step(h, a));
    var m := node.writer.msg;
    assert WriterBehind(node);
    assert NodeAbout(t, a.node, node);
    if slot in h'.syncs {
      SaveEffect(h.syncs, a.node, m, a.api, slot);
      var v := h'.syncs[slot].version;
      if slot in h.syncs && v == h.syncs[slot].version {
        SaveKeepsStored(t, h, a, v);
      } else if v != "" {
        SlotIsTracked(t, a.node, m);
        assert Follows(m, node.store[t.key]);
      }
    }
  }

  lemma SaveKeepsStored(t: Tracked, h: Hub, a: Action, v: string)
    requires a.Save? && Enabled(h, a)
    requires var node := NodeOf(h, t.node);
      && (t.key in node.store ==> NotAhead(v, node.store[t.key]))
      && (InFlight(node.writer, t.key) ==> NotAhead(v, node.writer.msg))
    ensures var node := NodeOf(Step(h, a), t.node);
      && (t.key in node.store ==> NotAhead(v, node.store[t.key]))
      && (InFlight(node.writer, t.key) ==> NotAhead(v, node.writer.msg))
  {
    if a.node != t.node {
      StepFrame(h, a, t.node);
    }
  }

  lemma SyncsUnchanged(h: Hub, a: Action)
    requires Enabled(h, a) && !a.Save?
    ensures Step(h, a).syncs == h.syncs || (a.DropSync? && Step(h, a).syncs == h.syncs - {a.slot})
  {
  }

  /** Steps of the write loop other than consuming an ack leave the store and the ObjectSyncs alone. */
  lemma QuietStep(h: Hub, a: Action)
    requires Enabled(h, a) && !a.Dispatch? && !a.Save? && !a.Ack? && !a.DropSync?
    ensures Step(h, a).syncs == h.syncs
    ensures var (node, node') := (NodeOf(h, a.node), NodeOf(Step(h, a), a.node));
            && node'.store == node.store
            && (!node'.writer.Idle? ==>
                  var (k, m) := (node'.writer.key, node'.writer.msg);
                  (InFlight(node.writer, k) && node.writer.msg == m) || (k in node.store && node.store[k] == m))
  {
  }

  lemma BehindStepKeeps(t: Tracked, h: Hub, a: Action)
    requires '.' !in t.uid && HubInv(h) && AllAbout(t, h) && SyncBehind(t, h) && Enabled(h, a) && Fair(t, h, a)
    ensures SyncBehind(t, Step(h, a))
  {
    if a.Dispatch? {
      DispatchKeepsBehind(t, h, a);
    } else if a.Save? {
      SaveKeepsBehind(t, h, a);
    } else if a.Ack? || a.DropSync? || a.node != t.node {
      StepFrame(h, a, t.node);
      SyncsUnchanged(h, a);
    } else {
      QuietStep(h, a);
    }
  }

  lemma {:induction false} FairRunKeepsBehind(t: Tracked, h: Hub, acts: seq<Action>)
    requires '.' !in t.uid && HubInv(h) && AllAbout(t, h) && SyncBehind(t, h)
    requires FairRun(t, h, acts) && Run(h, acts).Some?
    ensures var h' := Run(h, acts).value; HubInv(h') && AllAbout(t, h') && SyncBehind(t, h')
    decreases |acts|
  {
    if acts != [] {
      StepKeeps(h, acts[0]);
      AboutStepKeeps(t, h, acts[0]);
      BehindStepKeeps(t, h, acts[0]);
      FairRunKeepsBehind(t, Step(h, acts[0]), acts[1..]);
    }
  }

  lemma CanonicalOrder(a: string, b: string)
    requires NotLower(a, b) && Canonical(a) && Canonical(b)
    ensures NotNewer(a, b)
  {
  }

  lemma SaveNeverLowers(t: Tracked, h: Hub, api: Api)
    requires AllAbout(t, h) && SyncBehind(t, h) && Enabled(h, Save(t.node, api)) && TrackedSlot(t) in h.syncs
    requires h.nodes[t.node].writer.key == t.key && !IsDelete(h.nodes[t.node].writer.msg)
    ensures var (slot, after) := (TrackedSlot(t), Step(h, Save(t.node, api)).syncs);
            && slot in after && (h.syncs[slot].version == "" || NotLower(h.syncs[slot].version, after[slot].version))
            && (h.syncs[slot].version != "" && Canonical(h.syncs[slot].version) && Canonical(after[slot].version) ==>
                  NotNewer(h.syncs[slot].version, after[slot].version))
  {
    assert NodeAbout(t, t.node, h.nodes[t.node]);
    var (before, after) := (h.syncs[TrackedSlot(t)].version, Step(h, Save(t.node, api)).syncs[TrackedSlot(t)].version);
    if before != "" && Canonical(before) && Canonical(after) { CanonicalOrder(before, after); }
  }

  /** Consuming the ack of a non-delete message of the object never lowers its recorded version. */
  lemma AckNeverLowersVersion(t: Tracked, init: map<Slot, Sync>, acts: seq<Action>, api: Api)
    requires '.' !in t.uid && FairRun(t, Init(init), acts) && Run(Init(init), acts).Some?
    requires var h := Run(Init(init), acts).value;
             && Enabled(h, Save(t.node, api)) && TrackedSlot(t) in h.syncs
             && h.nodes[t.node].writer.key == t.key && !IsDelete(h.nodes[t.node].writer.msg)
    ensures var h := Run(Init(init), acts).value;
            var (slot, after) := (TrackedSlot(t), Step(h, Save(t.node, api)).syncs);
            && slot in after && (h.syncs[slot].version == "" || NotLower(h.syncs[slot].version, after[slot].version))
            && (h.syncs[slot].version != "" && Canonical(h.syncs[slot].version) && Canonical(after[slot].version) ==>
                  NotNewer(h.syncs[slot].version, after[slot].version))
  {
    FairRunKeepsBehind(t, Init(init), acts);
    SaveNeverLowers(t, Run(Init(init), acts).value, api);
  }

  /** The five steps that deliver one message. */
  function Deliver(n: string, m: Message, listed: Option<Sync>): seq<Action> {
    [Dispatch(n, m, listed), FetchKey(n), CloudHub.Send(n, true), Ack(m.id), Save(n, AllOk)]
  }

  lemma RunTwo(h: Hub, a: Action, rest: seq<Action>)
    requires Enabled(h, a)
    ensures Run(h, [a] + rest) == Run(Step(h, a), rest)
  {
    assert ([a] + rest)[1..] == rest;
  }

  /** Admitted, taken and written: the node waits on a channel registered for the message. */
  lemma DeliverLeadsToWait(n: string, m: Message, init: map<Slot, Sync>, listed: Option<Sync>) returns (h: Hub)
    requires HasKey(m) && m.content.Object? && !IsDelete(m) && m.version != "" && IsToEdge(m) && FirstVerdict(m.version, listed).Admit?
    ensures n in h.nodes && !h.nodes[n].stopped && h.nodes[n].writer == Waiting(Key(m), m, 0, 0) && h.syncs == init
    ensures m.id in h.acks && h.acks[m.id] == 0
    ensures forall rest :: Run(Init(init), [Dispatch(n, m, listed)] + ([FetchKey(n)] + ([CloudHub.Send(n, true)] + rest))) == Run(h, rest)
  {
    var h0 := Init(init);
    var h1 := Step(h0, Dispatch(n, m, listed));
    assert h1.nodes[n].queue.order == [Key(m)];
    var h2 := Step(h1, FetchKey(n));
    assert h2.nodes[n].writer == Holding(Key(m), m);
    h := Step(h2, CloudHub.Send(n, true));
    forall rest ensures Run(h0, [Dispatch(n, m, listed)] + ([FetchKey(n)] + ([CloudHub.Send(n, true)] + rest))) == Run(h, rest) {
      RunTwo(h0, Dispatch(n, m, listed), [FetchKey(n)] + ([CloudHub.Send(n, true)] + rest));
      RunTwo(h1, FetchKey(n), [CloudHub.Send(n, true)] + rest);
      RunTwo(h2, CloudHub.Send(n, true), rest);
    }
  }

  /** The first four steps of a delivery lead to a node that waits for exactly this message's acknowledgement, and has it. */
  lemma DeliverLeadsToSave(n: string, m: Message, init: map<Slot, Sync>, listed: Option<Sync>) returns (h: Hub)
    requires HasKey(m) && m.content.Object? && !IsDelete(m) && m.version != "" && IsToEdge(m) && FirstVerdict(m.version, listed).Admit?
    ensures Enabled(h, Save(n, AllOk)) && h.nodes[n].writer.msg == m && h.syncs == init
    ensures Run(Init(init), Deliver(n, m, listed)) == Some(Step(h, Save(n, AllOk)))
  {
    var w := DeliverLeadsToWait(n, m, init, listed);
    h := Step(w, Ack(m.id));
    var last := [Ack(m.id)] + ([Save(n, AllOk)] + []);
    RunTwo(w, Ack(m.id), [Save(n, AllOk)] + []);
    RunTwo(h, Save(n, AllOk), []);
    assert Deliver(n, m, listed) == [Dispatch(n, m, listed)] + ([FetchKey(n)] + ([CloudHub.Send(n, true)] + last));
  }

  /** Whatever the lister lets through as a first message is recorded once it is delivered, whatever was recorded before. */
  lemma FirstMessageRecords(n: string, m: Message, init: map<Slot, Sync>, listed: Option<Sync>)
    requires HasKey(m) && m.content.Object? && !IsDelete(m) && m.version != "" && IsToEdge(m) && FirstVerdict(m.version, listed).Admit?
    ensures var (slot, r) := ((Namespace(m), n + "." + m.content.uid), Run(Init(init), Deliver(n, m, listed)));
            && r.Some? && slot in r.value.syncs && r.value.syncs[slot].version == m.version
            && r.value.syncs[slot].objectName == (if slot in init then init[slot].objectName else ResourceName(m))
            && r.value.syncs - {slot} == init - {slot}
  {
    var h := DeliverLeadsToSave(n, m, init, listed);
  }

  lemma FirstMessageOverwrites(n: string, m: Message, recorded: Sync, listed: Option<Sync>)
    requires HasKey(m) && m.content.Object? && !IsDelete(m) && m.version != "" && IsToEdge(m) && FirstVerdict(m.version, listed).Admit?
    ensures var init := map[SlotOf(n, m) := recorded];
            var r := Run(Init(init), Deliver(n, m, listed));
            r.Some? && SlotOf(n, m) in r.value.syncs && r.value.syncs[SlotOf(n, m)].version == m.version
  {
    FirstMessageRecords(n, m, map[SlotOf(n, m) := recorded], listed);
  }

  /** When the lister has not seen the ObjectSync yet, any older version overwrites it. */
  lemma StaleListerOverwrites(n: string, m: Message, recorded: Sync)
    requires HasKey(m) && m.content.Object? && !IsDelete(m) && m.version != "" && IsToEdge(m)
    ensures var init := map[SlotOf(n, m) := recorded];
            var r := Run(Init(init), Deliver(n, m, None));
            r.Some? && SlotOf(n, m) in r.value.syncs && r.value.syncs[SlotOf(n, m)].version == m.version
  {
    FirstMessageOverwrites(n, m, recorded, None);
  }

  /** Delivering the message at a node that has nothing stored leaves a record that is not lower than it was. */
  ghost predicate RecordStands(n: string, m: Message, recorded: Sync, listed: Option<Sync>)
    requires m.content.Object?
  {
    var r := Run(Init(map[SlotOf(n, m) := recorded]), Deliver(n, m, listed));
    r.Some? ==> SlotOf(n, m) in r.value.syncs && NotLower(recorded.version, r.value.syncs[SlotOf(n, m)].version)
  }

  lemma NotAdmittedStands(n: string, m: Message, recorded: Sync, listed: Option<Sync>)
    requires HasKey(m) && m.content.Object? && !IsDelete(m) && m.version != "" && !FirstVerdict(m.version, listed).Admit?
    ensures Run(Init(map[SlotOf(n, m) := recorded]), Deliver(n, m, listed)).None?
  {
    var (h, acts) := (Init(map[SlotOf(n, m) := recorded]), Deliver(n, m, listed));
    if Enabled(h, acts[0]) {
      assert Step(h, acts[0]) == h && !Enabled(h, acts[1..][0]);
      assert Run(h, acts[1..]) == None;
    }
  }

  /** Exactly when no version of an object, delivered as a first message, can lower the record. */
  lemma RecordStandsIff(n: string, m: Message, recorded: Sync, listed: Option<Sync>)
    requires HasKey(m) && m.content.Object? && !IsDelete(m) && IsToEdge(m)
    ensures UpToDate(recorded.version, listed) <==>
            forall version :: version != "" ==> RecordStands(n, m.(version := version), recorded, listed)
  {
    forall version | version != ""
      ensures RecordStands(n, m.(version := version), recorded, listed) <==>
              (FirstVerdict(version, listed).Admit? ==> NotLower(recorded.version, version))
    {
      if FirstVerdict(version, listed).Admit? {
        FirstMessageOverwrites(n, m.(version := version), recorded, listed);
      } else {
        NotAdmittedStands(n, m.(version := version), recorded, listed);
      }
    }
    SafeListerIff(recorded.version, listed);
  }
}
