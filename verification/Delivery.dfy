// Safety of delivery over every run: epochs of versions, sticky deletes, nothing admitted is forgotten.
module Delivery {
  import opened Text
  import opened Messages
  import opened CloudHub
  import WorkQueue

  ghost predicate Closes(e: Event, k: string) {
    e.Acked? && e.key == k && Removes(e.msg)
  }

  /** No epoch of k ended after position i. */
  ghost predicate Open(log: seq<Event>, i: nat, k: string) {
    forall t :: i < t < |log| ==> !Closes(log[t], k)
  }

  ghost predicate SameEpoch(log: seq<Event>, i: nat, j: nat, k: string)
    requires j < |log|
  {
    i < j && Open(log[..j], i, k) && log[i].Sent? && log[j].Sent? && log[i].key == k && log[j].key == k
  }

  /** Within an epoch: non-delete messages with versions that never go back, then only delete messages. */
  ghost predicate Epochs(log: seq<Event>, k: string) {
    forall i, j :: 0 <= i < j < |log| && SameEpoch(log, i, j, k) ==> Follows(log[i].msg, log[j].msg)
  }

  ghost predicate Follows(a: Message, b: Message) {
    IsDelete(b) || (!IsDelete(a) && NotNewer(a.version, b.version))
  }

  // ---------------------------------------------------------------- the node invariant

  ghost predicate InFlight(w: Writer, k: string) { !w.Idle? && w.key == k }

  ghost predicate OpenSend(log: seq<Event>, i: nat, k: string) {
    i < |log| && log[i].Sent? && log[i].key == k && Open(log, i, k)
  }

  ghost predicate StoreKeyed(node: Node) {
    forall k :: k in node.store ==> HasKey(node.store[k]) && Key(node.store[k]) == k
  }

  /** The message in flight still has a store entry, which may only have moved forward. */
  ghost predicate WriterBehind(node: Node) {
    !node.writer.Idle? ==>
      var (k, m) := (node.writer.key, node.writer.msg);
      HasKey(m) && Key(m) == k && k in node.store && Follows(m, node.store[k])
      && (node.store[k] == m || k in node.queue.dirty)
  }

  /** So have all messages sent in the current epoch. */
  ghost predicate LogBehind(node: Node, k: string) {
    forall i: nat :: OpenSend(node.log, i, k) ==>
      && k in node.store && Follows(node.log[i].msg, node.store[k])
      && (InFlight(node.writer, k) ==> Follows(node.log[i].msg, node.writer.msg))
  }

  ghost predicate QueueTracks(node: Node) {
    && WorkQueue.Valid(node.queue)
    && node.queue.processing == (if node.writer.Idle? then {} else {node.writer.key})
  }

  ghost predicate WasSent(log: seq<Event>, k: string, m: Message) {
    exists i :: 0 <= i < |log| && log[i] == Sent(k, m, true)
  }

  ghost predicate Pending(node: Node, k: string) {
    k in node.queue.dirty || k in node.queue.delayed || InFlight(node.writer, k)
  }

  /** A stored message is queued, in flight, kept in the cloud on purpose, or was written without error. */
  ghost predicate NotForgotten(node: Node) {
    forall k :: k in node.store ==>
      Pending(node, k) || !IsToEdge(node.store[k]) || WasSent(node.log, k, node.store[k])
  }

  /** A waiting message has been written without error. */
  ghost predicate WaitingWasSent(node: Node) {
    node.writer.Waiting? ==> WasSent(node.log, node.writer.key, node.writer.msg)
  }

  ghost predicate NodeInv(node: Node) {
    && StoreKeyed(node) && WriterBehind(node) && QueueTracks(node) && NotForgotten(node) && WaitingWasSent(node)
    && (forall k :: LogBehind(node, k))
    && (forall k :: Epochs(node.log, k))
  }

  // ---------------------------------------------------------------- growing the log

  lemma WasSentGrows(log: seq<Event>, e: Event, k: string, m: Message)
    requires WasSent(log, k, m)
    ensures WasSent(log + [e], k, m)
  {
    var i :| 0 <= i < |log| && log[i] == Sent(k, m, true);
    assert (log + [e])[i] == Sent(k, m, true);
  }

  lemma OpenShrinks(log: seq<Event>, e: Event, i: nat, k: string)
    requires i < |log| && OpenSend(log + [e], i, k)
    ensures OpenSend(log, i, k) && !Closes(e, k)
  {
    forall t | i < t < |log| ensures !Closes(log[t], k) {
      assert (log + [e])[t] == log[t];
    }
    assert (log + [e])[|log|] == e;
  }

  lemma EpochsGrow(log: seq<Event>, e: Event, k: string)
    requires Epochs(log, k)
    requires e.Sent? && e.key == k ==> forall i: nat :: OpenSend(log, i, k) ==> Follows(log[i].msg, e.msg)
    ensures Epochs(log + [e], k)
  {
    var log' := log + [e];
    forall i, j | 0 <= i < j < |log'| && SameEpoch(log', i, j, k) ensures Follows(log'[i].msg, log'[j].msg) {
      assert log'[..j] == log[..j];
      if j < |log| {
        assert SameEpoch(log, i, j, k);
      } else {
        assert log[..j] == log;
        assert OpenSend(log, i, k);
      }
    }
  }

  // ---------------------------------------------------------------- every step keeps the node invariant

  lemma FreshNodeInv()
    ensures NodeInv(FRESH_NODE)
  {
    assert forall k :: LogBehind(FRESH_NODE, k);
  }

  /** Past the checks get deletes, and updates strictly newer than a stored update; never one after a stored delete. */
  lemma AdmittedFollows(store: map<string, Message>, m: Message, listed: Option<Sync>)
    requires Judge(store, m, listed).Admit?
    ensures HasKey(m) && (Key(m) in store ==> Follows(store[Key(m)], m))
    ensures Key(m) in store && !IsDelete(m) ==>
              var (was, now) := (ParseUint(store[Key(m)].version), ParseUint(m.version));
              !IsDelete(store[Key(m)]) && was.Some? && now.Some? && was.value < now.value
  {
  }

  lemma EnqueueKeepsLog(node: Node, m: Message, k: string)
    requires LogBehind(node, k) && (Key(m) in node.store ==> Follows(node.store[Key(m)], m))
    ensures LogBehind(Enqueue(node, m), k)
  {
  }

  lemma EnqueueKeeps(node: Node, m: Message)
    requires NodeInv(node) && HasKey(m) && (Key(m) in node.store ==> Follows(node.store[Key(m)], m))
    ensures NodeInv(Enqueue(node, m))
  {
    forall k ensures LogBehind(Enqueue(node, m), k) {
      EnqueueKeepsLog(node, m, k);
    }
  }

  lemma FetchKeeps(node: Node)
    requires NodeInv(node) && node.writer.Idle? && node.queue.order != []
    ensures NodeInv(Fetch(node))
  {
    var n' := Fetch(node);
    forall k ensures LogBehind(n', k) {
      assert LogBehind(node, k);
    }
  }

  lemma LeaveKeeps(node: Node, failed: bool)
    requires NodeInv(node) && !node.writer.Idle?
    requires failed || node.writer.Waiting?
    ensures NodeInv(Leave(node, node.writer.key, failed))
  {
    var n' := Leave(node, node.writer.key, failed);
    assert n'.queue.processing == {};
    forall k ensures LogBehind(n', k) {
      assert LogBehind(node, k);
    }
    forall k | k in n'.store ensures Pending(n', k) || !IsToEdge(n'.store[k]) || WasSent(n'.log, k, n'.store[k]) {
      assert NotForgotten(node);
    }
  }

  /** A non-empty log grows by one send of the message in flight. */
  lemma SendKeeps(node: Node, ok: bool, w: Writer)
    requires NodeInv(node) && !node.writer.Idle? && !w.Idle?
    requires w.key == node.writer.key && w.msg == node.writer.msg
    requires w.Waiting? ==> ok || node.writer.Waiting?
    ensures NodeInv(node.(log := node.log + [Sent(w.key, w.msg, ok)], writer := w))
  {
    var e := Sent(w.key, w.msg, ok);
    var n' := node.(log := node.log + [e], writer := w);
    if ok {
      assert n'.log[|node.log|] == Sent(w.key, w.msg, true);
    }
    forall k, m | WasSent(node.log, k, m) ensures WasSent(n'.log, k, m) {
      WasSentGrows(node.log, e, k, m);
    }
    forall k ensures LogBehind(n', k) && Epochs(n'.log, k) {
      assert LogBehind(node, k);
      EpochsGrow(node.log, e, k);
      forall i: nat | OpenSend(n'.log, i, k)
        ensures k in n'.store && Follows(n'.log[i].msg, n'.store[k])
        ensures InFlight(w, k) ==> Follows(n'.log[i].msg, w.msg)
      {
        if i < |node.log| {
          OpenShrinks(node.log, e, i, k);
        }
      }
    }
  }

  lemma FirstSendKeeps(node: Node, chan: nat, ok: bool)
    requires NodeInv(node) && node.writer.Holding?
    ensures NodeInv(FirstSend(node, chan, ok))
  {
    var w := if ok then Waiting(node.writer.key, node.writer.msg, chan, 0) else node.writer;
    SendKeeps(node, ok, w);
    if !ok {
      LeaveKeeps(node.(log := node.log + [Sent(w.key, w.msg, ok)], writer := w), true);
    }
  }

  lemma TimerKeeps(node: Node, ok: bool)
    requires NodeInv(node) && node.writer.Waiting?
    ensures NodeInv(TimerFires(node, ok))
  {
    if node.writer.retry == MAX_RETRY {
      LeaveKeeps(node, false);
    } else {
      var w := if ok then node.writer.(retry := node.writer.retry + 1) else node.writer;
      SendKeeps(node, ok, w);
      if !ok {
        LeaveKeeps(node.(log := node.log + [Sent(w.key, w.msg, ok)], writer := w), true);
      }
    }
  }

  /** An acknowledged Delete finds a delete message in the store: no pending non-delete message is discarded. */
  lemma AckedDeleteDiscardsOnlyDeletes(node: Node)
    requires NodeInv(node) && node.writer.Waiting? && Removes(node.writer.msg)
    ensures node.writer.key in node.store && IsDelete(node.store[node.writer.key])
    ensures ConsumeAck(node).store == node.store - {node.writer.key}
  {
    assert Follows(node.writer.msg, node.store[node.writer.key]);
  }

  lemma ConsumeAckKeeps(node: Node)
    requires NodeInv(node) && node.writer.Waiting?
    ensures NodeInv(ConsumeAck(node))
  {
    var (k0, m) := (node.writer.key, node.writer.msg);
    var e := Acked(k0, m);
    var n' := ConsumeAck(node);
    assert n'.queue.processing == {};
    forall k, m' | WasSent(node.log, k, m') ensures WasSent(n'.log, k, m') {
      WasSentGrows(node.log, e, k, m');
    }
    forall k ensures LogBehind(n', k) && Epochs(n'.log, k) {
      assert LogBehind(node, k);
      EpochsGrow(node.log, e, k);
      forall i: nat | OpenSend(n'.log, i, k) ensures k in n'.store && Follows(n'.log[i].msg, n'.store[k]) {
        assert i < |node.log|;
        OpenShrinks(node.log, e, i, k);
      }
    }
    forall k | k in n'.store ensures Pending(n', k) || !IsToEdge(n'.store[k]) || WasSent(n'.log, k, n'.store[k]) {
      assert NotForgotten(node);
    }
  }

  lemma FireKeeps(node: Node, k: string)
    requires NodeInv(node) && k in node.queue.delayed
    ensures NodeInv(node.(queue := WorkQueue.Fire(node.queue, k)))
  {
    var n' := node.(queue := WorkQueue.Fire(node.queue, k));
    forall k' ensures LogBehind(n', k') {
      assert LogBehind(node, k');
    }
  }

  lemma StopKeeps(node: Node)
    requires NodeInv(node)
    ensures NodeInv(node.(stopped := true))
  {
    forall k ensures LogBehind(node.(stopped := true), k) {
      assert LogBehind(node, k);
    }
  }

  // ---------------------------------------------------------------- the hub

  ghost predicate HubInv(h: Hub) {
    forall n :: n in h.nodes ==> NodeInv(h.nodes[n])
  }

  lemma NodeOfInv(h: Hub, n: string)
    requires HubInv(h)
    ensures NodeInv(NodeOf(h, n))
  {
    FreshNodeInv();
  }

  /** The node a step works on, and what it leaves there. */
  lemma NodeStepKeeps(h: Hub, a: Action)
    requires HubInv(h) && Enabled(h, a) && !a.Ack? && !a.DropSync?
    ensures NodeInv(NodeOf(Step(h, a), a.node))
  {
    NodeOfInv(h, a.node);
    match a
    case Dispatch(n, m, listed) =>
      if Judge(NodeOf(h, n).store, m, listed).Admit? {
        AdmittedFollows(NodeOf(h, n).store, m, listed);
        EnqueueKeeps(NodeOf(h, n), m);
      }
    case FetchKey(n) => FetchKeeps(h.nodes[n]);
    case Send(n, ok) => FirstSendKeeps(h.nodes[n], h.next, ok);
    case Tick(n, ok) => TimerKeeps(h.nodes[n], ok);
    case Save(n, api) => ConsumeAckKeeps(h.nodes[n]);
    case DelayOver(n, k) => FireKeeps(h.nodes[n], k);
    case Stop(n) => StopKeeps(h.nodes[n]);
  }

  /** A step changes at most the node it names. */
  lemma StepFrame(h: Hub, a: Action, n: string)
    requires Enabled(h, a) && (a.Ack? || a.DropSync? || a.node != n)
    ensures n in Step(h, a).nodes <==> n in h.nodes
    ensures NodeOf(Step(h, a), n) == NodeOf(h, n)
  {
  }

  lemma StepKeeps(h: Hub, a: Action)
    requires HubInv(h) && Enabled(h, a)
    ensures HubInv(Step(h, a))
  {
    forall n | n in Step(h, a).nodes ensures NodeInv(Step(h, a).nodes[n]) {
      if a.Ack? || a.DropSync? || a.node != n {
        StepFrame(h, a, n);
        NodeOfInv(h, n);
      } else {
        NodeStepKeeps(h, a);
      }
    }
  }

  lemma {:induction false} RunKeeps(h: Hub, acts: seq<Action>)
    requires HubInv(h) && Run(h, acts).Some?
    ensures HubInv(Run(h, acts).value)
    decreases |acts|
  {
    if acts != [] {
      StepKeeps(h, acts[0]);
      RunKeeps(Step(h, acts[0]), acts[1..]);
    }
  }

  /** Over every run, every node and every key, the messages written form epochs. */
  lemma EveryRunWritesEpochs(syncs: map<Slot, Sync>, acts: seq<Action>, n: string, k: string)
    requires Run(Init(syncs), acts).Some? && n in Run(Init(syncs), acts).value.nodes
    ensures Epochs(Run(Init(syncs), acts).value.nodes[n].log, k)
  {
    RunKeeps(Init(syncs), acts);
  }

  /** In every reachable state a stored message is still on its way, stays in the cloud on purpose, or was written. */
  lemma NothingAdmittedIsForgotten(syncs: map<Slot, Sync>, acts: seq<Action>, n: string, k: string)
    requires Run(Init(syncs), acts).Some? && n in Run(Init(syncs), acts).value.nodes
    requires k in Run(Init(syncs), acts).value.nodes[n].store
    ensures var node := Run(Init(syncs), acts).value.nodes[n];
            Pending(node, k) || !IsToEdge(node.store[k]) || WasSent(node.log, k, node.store[k])
  {
    RunKeeps(Init(syncs), acts);
  }

  lemma SaveDiscardsNoUpdate(h: Hub, n: string, api: Api)
    requires HubInv(h) && Enabled(h, Save(n, api))
    ensures var after := Step(h, Save(n, api));
            && (forall n' :: n' in h.nodes && n' != n ==> n' in after.nodes && after.nodes[n'] == h.nodes[n'])
            && (forall k :: k in h.nodes[n].store && !IsDelete(h.nodes[n].store[k]) ==>
                  k in after.nodes[n].store && after.nodes[n].store[k] == h.nodes[n].store[k])
            && (forall k :: k in after.nodes[n].store ==> k in h.nodes[n].store)
  {
    var node := h.nodes[n];
    if Removes(node.writer.msg) {
      AckedDeleteDiscardsOnlyDeletes(node);
    }
  }

  /** In every reachable state, consuming the ack of a Delete drops a delete message and nothing else. */
  lemma AckNeverDiscardsAnUpdate(syncs: map<Slot, Sync>, acts: seq<Action>, n: string, api: Api)
    requires Run(Init(syncs), acts).Some? && Enabled(Run(Init(syncs), acts).value, Save(n, api))
    ensures var h := Run(Init(syncs), acts).value;
            var after := Step(h, Save(n, api));
            && (forall n' :: n' in h.nodes && n' != n ==> n' in after.nodes && after.nodes[n'] == h.nodes[n'])
            && (forall k :: k in h.nodes[n].store && !IsDelete(h.nodes[n].store[k]) ==>
                  k in after.nodes[n].store && after.nodes[n].store[k] == h.nodes[n].store[k])
            && (forall k :: k in after.nodes[n].store ==> k in h.nodes[n].store)
  {
    RunKeeps(Init(syncs), acts);
    SaveDiscardsNoUpdate(Run(Init(syncs), acts).value, n, api);
  }
}
