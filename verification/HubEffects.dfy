// What each step of the hub does to messages, stores and ObjectSyncs, said on their fields.
module HubEffects {
  import opened Text
  import opened Messages
  import opened CloudHub
  import opened Delivery
  import opened SuccessPoints
  import WorkQueue

  // ---------------------------------------------------------------- admission

  /** A message that ends an object's life: a delete, or an object with a deletion timestamp. */
  lemma DeletesAre(m: Message)
    ensures IsDelete(m) <==> m.operation == "delete" || (m.content.Object? && m.content.deleting)
  {
  }

  /** Exactly which messages replace a stored one: ending messages always, others only a live one with a smaller number. */
  lemma AdmittedOverStoredIff(store: map<string, Message>, m: Message, listed: Option<Sync>)
    requires m.group == "resource" && Key(m) in store
    ensures var s := store[Key(m)];
            var (was, now) := (ParseUint(s.version), ParseUint(m.version));
            Judge(store, m, listed).Admit? <==>
              || m.operation == "delete" || (m.content.Object? && m.content.deleting)
              || (&& s.operation != "delete" && !(s.content.Object? && s.content.deleting)
                  && was.Some? && now.Some? && was.value < now.value)
  {
  }

  /** Exactly which messages are admitted under a key that is not stored. */
  lemma AdmittedFirstIff(store: map<string, Message>, m: Message, listed: Option<Sync>)
    requires m.group == "resource" && Key(m) !in store
    ensures Judge(store, m, listed).Admit? <==>
              || m.operation == "delete" || (m.content.Object? && m.content.deleting)
              || (&& m.version != "" && m.content.Object?
                  && (listed.Some? && listed.value.version != "" ==>
                        var (seen, now) := (ParseUint(listed.value.version), ParseUint(m.version));
                        seen.Some? && now.Some? && seen.value < now.value))
  {
  }

  /** Messages of other groups are never stored. */
  lemma OtherGroupsAreDiscarded(store: map<string, Message>, m: Message, listed: Option<Sync>)
    requires m.group != "resource"
    ensures Judge(store, m, listed).Discard?
  {
  }

  /** An admitted message is stored under its key and queued; a discarded one leaves no trace. */
  lemma DispatchStores(h: Hub, n: string, m: Message, listed: Option<Sync>)
    requires Enabled(h, Dispatch(n, m, listed))
    ensures var (node, after) := (NodeOf(h, n), Step(h, Dispatch(n, m, listed)));
            if Judge(node.store, m, listed).Admit? then
              && NodeOf(after, n).store == node.store[Key(m) := m] && Key(m) in NodeOf(after, n).queue.dirty
              && after.syncs == h.syncs && after.acks == h.acks && NodeOf(after, n).log == node.log
            else after == h
  {
  }

  // ---------------------------------------------------------------- what is written

  /** Manager requests that are answered in the cloud. */
  ghost predicate StaysInCloud(m: Message) {
    m.source == "edgemgr" &&
    var r := Trim(m).resource;
    || (m.operation == "get" && (Contains(r, "membership") || Contains(r, "twin") || Contains(r, "auth_info")))
    || (m.operation in {"delta", "document"} && Contains(r, "twin"))
    || (m.operation == "deleted" && Contains(r, "node"))
  }

  lemma ToEdgeIff(m: Message)
    ensures IsToEdge(m) <==> !StaysInCloud(m)
  {
  }

  ghost predicate NodeSpares(node: Node) {
    && (!node.writer.Idle? ==> !StaysInCloud(node.writer.msg))
    && (forall i :: 0 <= i < |node.log| && node.log[i].Sent? ==> !StaysInCloud(node.log[i].msg))
  }

  ghost predicate HubSpares(h: Hub) { forall n :: n in h.nodes ==> NodeSpares(h.nodes[n]) }

  lemma SparesGrow(node: Node, node': Node)
    requires NodeSpares(node) && (!node'.writer.Idle? ==> !StaysInCloud(node'.writer.msg))
    requires node'.log == node.log ||
             (|node'.log| == |node.log| + 1 && node'.log[..|node.log|] == node.log &&
              (node'.log[|node.log|].Sent? ==> !StaysInCloud(node'.log[|node.log|].msg)))
    ensures NodeSpares(node')
  {
    forall i | 0 <= i < |node'.log| && node'.log[i].Sent? ensures !StaysInCloud(node'.log[i].msg) {
      assert i < |node.log| ==> node'.log[i] == node'.log[..|node.log|][i];
    }
  }

  lemma SparesStep(h: Hub, a: Action)
    requires HubSpares(h) && Enabled(h, a)
    ensures HubSpares(Step(h, a))
  {
    var h' := Step(h, a);
    forall n | n in h'.nodes ensures NodeSpares(h'.nodes[n]) {
      if a.Ack? || a.DropSync? || n != a.node {
        StepFrame(h, a, n);
      } else {
        NodeStepEffect(h, a);
        WriterStepEffect(h, a);
        SparesGrow(NodeOf(h, n), h'.nodes[n]);
      }
    }
  }

  lemma WriterStepEffect(h: Hub, a: Action)
    requires HubSpares(h) && Enabled(h, a) && !a.Ack? && !a.DropSync?
    ensures var (node, node') := (NodeOf(h, a.node), NodeOf(Step(h, a), a.node));
            && (!node'.writer.Idle? ==> !StaysInCloud(node'.writer.msg))
            && (|node'.log| > |node.log| && node'.log[|node.log|].Sent? ==> !StaysInCloud(node'.log[|node.log|].msg))
  {
    var node := NodeOf(h, a.node);
    assert NodeSpares(node);
    if a.FetchKey? {
      var (k, q) := WorkQueue.Get(node.queue);
      if k in node.store { ToEdgeIff(node.store[k]); }
    }
  }

  lemma {:induction false} SparesRun(h: Hub, acts: seq<Action>)
    requires HubSpares(h) && Run(h, acts).Some?
    ensures HubSpares(Run(h, acts).value)
    decreases |acts|
  {
    if acts != [] {
      SparesStep(h, acts[0]);
      SparesRun(Step(h, acts[0]), acts[1..]);
    }
  }

  /** Over every run no message that stays in the cloud is ever written to an edge node. */
  lemma CloudMessagesAreNeverWritten(init: map<Slot, Sync>, acts: seq<Action>, n: string, i: nat)
    requires Run(Init(init), acts).Some? && n in Run(Init(init), acts).value.nodes
    requires i < |Run(Init(init), acts).value.nodes[n].log| && Run(Init(init), acts).value.nodes[n].log[i].Sent?
    ensures !StaysInCloud(Run(Init(init), acts).value.nodes[n].log[i].msg)
  {
    SparesRun(Init(init), acts);
  }

  /** The head of the queue is taken, and held for writing exactly when its message is stored and goes to the edge. */
  lemma FetchTakes(h: Hub, n: string)
    requires Enabled(h, FetchKey(n))
    ensures var (node, node') := (h.nodes[n], Step(h, FetchKey(n)).nodes[n]);
            var k := node.queue.order[0];
            && node'.store == node.store && node'.log == node.log && k !in node'.queue.dirty
            && (if k in node.store && !StaysInCloud(node.store[k]) then node'.writer == Holding(k, node.store[k])
                else node'.writer == Idle && k !in node'.queue.processing)
  {
    var k := h.nodes[n].queue.order[0];
    if k in h.nodes[n].store { ToEdgeIff(h.nodes[n].store[k]); }
  }

  /** The first write: logged, and then either waiting for the ack on a new channel, or queued again after a delay. */
  lemma SendWrites(h: Hub, n: string, ok: bool)
    requires Enabled(h, CloudHub.Send(n, ok))
    ensures var (node, after) := (h.nodes[n], Step(h, CloudHub.Send(n, ok)));
            var (k, m) := (node.writer.key, node.writer.msg);
            && after.nodes[n].log == node.log + [Sent(k, m, ok)] && after.nodes[n].store == node.store
            && m.id in after.acks && after.acks[m.id] == h.next && after.next == h.next + 1
            && after.nodes[n].writer == (if ok then Waiting(k, m, h.next, 0) else Idle)
            && (!ok ==> k in after.nodes[n].queue.delayed && k !in after.nodes[n].queue.processing)
  {
  }

  function Ticks(n: string, count: nat): seq<Action> { seq(count, _ => Tick(n, true)) }

  function Copies(k: string, m: Message, count: nat): seq<Event> { seq(count, _ => Sent(k, m, true)) }

  /** Without an acknowledgement and without errors a message is written again up to the fourth timer, then given up. */
  lemma {:induction false} RetriesExactly(h: Hub, n: string, count: nat)
    requires n in h.nodes && !h.nodes[n].stopped && h.nodes[n].writer.Waiting? && h.nodes[n].writer.retry <= 4
    requires h.nodes[n].writer.retry + count <= 5
    ensures var (r, node) := (Run(h, Ticks(n, count)), h.nodes[n]);
            var (k, m, left) := (node.writer.key, node.writer.msg, 4 - node.writer.retry);
            && r.Some? && n in r.value.nodes && !r.value.nodes[n].stopped && r.value.nodes[n].store == node.store
            && (count <= left ==>
                  && r.value.nodes[n].log == node.log + Copies(k, m, count)
                  && r.value.nodes[n].writer == node.writer.(retry := node.writer.retry + count)
                  && r.value.nodes[n].queue == node.queue)
            && (count == left + 1 ==>
                  && r.value.nodes[n].log == node.log + Copies(k, m, left) && r.value.nodes[n].writer == Idle
                  && k !in r.value.nodes[n].queue.processing && r.value.nodes[n].queue.delayed == node.queue.delayed)
    decreases count
  {
    var acts := Ticks(n, count);
    if count > 0 {
      var h' := Step(h, acts[0]);
      assert acts[1..] == Ticks(n, count - 1);
      var (node, node') := (h.nodes[n], h'.nodes[n]);
      var (k, m) := (node.writer.key, node.writer.msg);
      if node.writer.retry < 4 {
        RetriesExactly(h', n, count - 1);
        assert node'.log == node.log + [Sent(k, m, true)];
        CopiesGrow(node.log, k, m, count - 1);
        CopiesGrow(node.log, k, m, 3 - node.writer.retry);
      } else {
        assert count == 1 && Ticks(n, 0) == [];
        assert node.log + Copies(k, m, 0) == node.log;
      }
    } else {
      assert h.nodes[n].log + Copies(h.nodes[n].writer.key, h.nodes[n].writer.msg, 0) == h.nodes[n].log;
    }
  }

  lemma CopiesGrow(log: seq<Event>, k: string, m: Message, count: nat)
    ensures (log + [Sent(k, m, true)]) + Copies(k, m, count) == log + Copies(k, m, count + 1)
  {
  }

  /** A failed retry is queued again after a delay. */
  lemma FailedRetryReturns(h: Hub, n: string)
    requires Enabled(h, Tick(n, false)) && h.nodes[n].writer.retry < 4
    ensures var (node, node') := (h.nodes[n], Step(h, Tick(n, false)).nodes[n]);
            && node'.writer == Idle && node.writer.key in node'.queue.delayed && node'.store == node.store
            && node'.log == node.log + [Sent(node.writer.key, node.writer.msg, false)]
  {
  }

  /** When its delay is over a key is up for writing again. */
  lemma DelayedKeyReturns(h: Hub, n: string, k: string)
    requires Enabled(h, DelayOver(n, k))
    ensures var (node, node') := (h.nodes[n], Step(h, DelayOver(n, k)).nodes[n]);
            && k in node'.queue.dirty && k !in node'.queue.delayed && node'.store == node.store && node'.writer == node.writer
            && (k !in node.queue.dirty && k !in node.queue.processing ==> node'.queue.order == node.queue.order + [k])
  {
  }

  /** A stopped node never changes again. */
  lemma {:induction false} StopIsFinal(h: Hub, n: string, acts: seq<Action>)
    requires n in h.nodes && Run(Step(h, Stop(n)), acts).Some?
    ensures var r := Run(Step(h, Stop(n)), acts).value; n in r.nodes && r.nodes[n] == h.nodes[n].(stopped := true)
  {
    StoppedStays(Step(h, Stop(n)), n, acts);
  }

  lemma {:induction false} StoppedStays(h: Hub, n: string, acts: seq<Action>)
    requires n in h.nodes && h.nodes[n].stopped && Run(h, acts).Some?
    ensures n in Run(h, acts).value.nodes && Run(h, acts).value.nodes[n] == h.nodes[n]
    decreases |acts|
  {
    if acts != [] {
      assert n in Step(h, acts[0]).nodes && Step(h, acts[0]).nodes[n] == h.nodes[n];
      StoppedStays(Step(h, acts[0]), n, acts[1..]);
    }
  }

  // ---------------------------------------------------------------- acknowledgements

  /** An acknowledgement closes the channel registered for its id, once, and no other. */
  lemma AckCloses(h: Hub, id: string)
    ensures var after := Step(h, Ack(id));
            && after.closed == h.closed + (if id in h.acks then {h.acks[id]} else {})
            && after.acks == h.acks - {id} && after.nodes == h.nodes && after.syncs == h.syncs
  {
  }

  /** Consuming an acknowledgement ends the pass: logged, and only an acknowledged delete leaves the store. */
  lemma SaveStore(h: Hub, n: string, api: Api)
    requires Enabled(h, Save(n, api))
    ensures var (node, after) := (h.nodes[n], Step(h, Save(n, api)));
            var (k, m) := (node.writer.key, node.writer.msg);
            && after.nodes[n].writer == Idle && after.nodes[n].log == node.log + [Acked(k, m)]
            && k !in after.nodes[n].queue.processing
            && after.nodes[n].store ==
                 (if m.group == "resource" && m.operation == "delete" && m.content.Object? then node.store - {Key(m)} else node.store)
  {
  }

  /**
   * What an acknowledged message that is not a delete leaves recorded: with a working API server its own version, under its
   * namespace, node and UID, whether or not there was an ObjectSync before, and nothing else changes.
   */
  lemma AckRecords(h: Hub, n: string)
    requires Enabled(h, Save(n, AllOk))
    requires var m := h.nodes[n].writer.msg; m.group == "resource" && m.content.Object? && m.operation != "delete"
    ensures var (m, after) := (h.nodes[n].writer.msg, Step(h, Save(n, AllOk)).syncs);
            var slot := (Namespace(m), n + "." + m.content.uid);
            && slot in after && after[slot].version == m.version
            && after[slot].objectName == (if slot in h.syncs then h.syncs[slot].objectName else ResourceName(m))
            && (forall s :: s != slot ==> (s in after <==> s in h.syncs) && (s in after ==> after[s] == h.syncs[s]))
  {
  }

  /** A new ObjectSync carries the name its message was routed with. */
  lemma NewSyncIsNamed(h: Hub, n: string, node: string, namespace: string, kind: string, name: string)
    requires Enabled(h, Save(n, AllOk))
    requires SlashFree(node) && SlashFree(namespace) && SlashFree(kind) && SlashFree(name)
    requires node != "" && namespace != "" && kind != "" && name != ""
    requires var m := h.nodes[n].writer.msg;
             && m.group == "resource" && m.content.Object? && m.operation != "delete"
             && BuildResource(node, namespace, kind, name) == Some(m.resource) && (namespace, n + "." + m.content.uid) !in h.syncs
    ensures var (m, after) := (h.nodes[n].writer.msg, Step(h, Save(n, AllOk)).syncs);
            var slot := (namespace, n + "." + m.content.uid);
            slot in after && after[slot] == Sync(name, m.version)
  {
    RoutedMessage(h.nodes[n].writer.msg, node, namespace, kind, name);
    AckRecords(h, n);
  }

  /** What a failing API server leaves: nothing, or a new ObjectSync without a version. */
  lemma AckWithErrors(h: Hub, n: string, api: Api)
    requires Enabled(h, Save(n, api)) && !api.AllOk?
    requires var m := h.nodes[n].writer.msg; m.group == "resource" && m.content.Object? && m.operation != "delete"
    ensures var (m, after) := (h.nodes[n].writer.msg, Step(h, Save(n, api)).syncs);
            var slot := (Namespace(m), n + "." + m.content.uid);
            after == if api.StatusFails? && slot !in h.syncs then h.syncs[slot := Sync(ResourceName(m), "")] else h.syncs
  {
  }

  /** An acknowledged delete removes exactly the ObjectSync of its object. */
  lemma AckedDeleteForgets(h: Hub, n: string, api: Api)
    requires Enabled(h, Save(n, api))
    requires var m := h.nodes[n].writer.msg; m.group == "resource" && m.content.Object? && m.operation == "delete"
    ensures var (m, after) := (h.nodes[n].writer.msg, Step(h, Save(n, api)));
            && after.syncs == (if api.AllOk? then h.syncs - {(Namespace(m), n + "." + m.content.uid)} else h.syncs)
            && Key(m) !in after.nodes[n].store
  {
  }
}
