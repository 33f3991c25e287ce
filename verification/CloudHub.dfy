// Reliable delivery from the cloud to edge nodes: the dispatcher, one write loop per node,
// acknowledgements and the recorded success points, as a state machine over atomic steps.
module CloudHub {
  import opened Text
  import opened Messages
  import WorkQueue

  /** What happened at one node, in order. */
  datatype Event =
    | Sent(key: string, msg: Message, ok: bool)   // handed to the connection; ok is false when the write reported an error
    | Acked(key: string, msg: Message)            // the write loop consumed the acknowledgement

  /** Where the write loop of a node stands. */
  datatype Writer =
    | Idle
    | Holding(key: string, msg: Message)                          // fetched, waiting for a connection
    | Waiting(key: string, msg: Message, chan: nat, retry: nat)   // written, waiting for the ack channel or the timer

  datatype Node = Node(store: map<string, Message>, queue: WorkQueue.Queue, writer: Writer, stopped: bool, log: seq<Event>)

  const FRESH_NODE := Node(map[], WorkQueue.EMPTY, Idle, false, [])

  const MAX_RETRY := 4

  datatype Sync = Sync(objectName: string, version: string)

  /** An ObjectSync is identified by its namespace and its name. */
  type Slot = (string, string)

  function SyncName(node: string, uid: string): string { node + "." + uid }

  /**
   * acks maps a message id to the channel its sender waits on; closed channels are those an
   * acknowledgement has reached; acked collects the ids the edge has acknowledged.
   */
  datatype Hub = Hub(nodes: map<string, Node>, acks: map<string, nat>, closed: set<nat>, next: nat,
                     acked: set<string>, syncs: map<Slot, Sync>)

  function Init(syncs: map<Slot, Sync>): Hub { Hub(map[], map[], {}, 0, {}, syncs) }

  /** GetNodeStore and GetNodeQueue create what is missing. */
  function NodeOf(h: Hub, n: string): Node { if n in h.nodes then h.nodes[n] else FRESH_NODE }

  function SetNode(h: Hub, n: string, node: Node): Hub { h.(nodes := h.nodes[n := node]) }

  // ---------------------------------------------------------------- admission

  datatype Verdict = Admit | Discard | Panic

  /** The version checks of addMessageToQueue; listed is what the ObjectSync lister returns. */
  function Judge(store: map<string, Message>, m: Message, listed: Option<Sync>): Verdict {
    if (m.version == "" && !IsDelete(m)) || !HasKey(m) then Discard
    else if IsDelete(m) then Admit
    else if Key(m) in store then
      var stored := store[Key(m)];
      if IsDelete(stored) then Discard
      else Newer(m.version, stored.version)
    else if m.content.Opaque? then Discard
    else FirstVerdict(m.version, listed)
  }

  /** The check of a version whose key is not stored. */
  function FirstVerdict(version: string, listed: Option<Sync>): Verdict {
    if listed.Some? && listed.value.version != "" then Newer(version, listed.value.version) else Admit
  }

  function Newer(a: string, b: string): Verdict {
    var c := Compare(a, b);
    if c.None? then Panic else if c.value <= 0 then Discard else Admit
  }

  function Enqueue(node: Node, m: Message): Node {
    node.(store := node.store[Key(m) := m], queue := WorkQueue.Add(node.queue, Key(m)))
  }

  // ---------------------------------------------------------------- the write loop

  /** One pass of the outer loop up to the send: take a key and look up its message. */
  function Fetch(node: Node): Node
    requires node.writer.Idle? && node.queue.order != []
  {
    var (k, q) := WorkQueue.Get(node.queue);
    if k in node.store && IsToEdge(node.store[k]) then node.(queue := q, writer := Holding(k, node.store[k]))
    else node.(queue := WorkQueue.Done(q, k))
  }

  /** Leaving sendMsg: with an error the key is queued again after a delay. */
  function Leave(node: Node, k: string, failed: bool): Node {
    var q := if failed then WorkQueue.AddRateLimited(node.queue, k) else node.queue;
    node.(writer := Idle, queue := WorkQueue.Done(q, k))
  }

  function FirstSend(node: Node, chan: nat, ok: bool): Node
    requires node.writer.Holding?
  {
    var (k, m) := (node.writer.key, node.writer.msg);
    var n' := node.(log := node.log + [Sent(k, m, ok)]);
    if ok then n'.(writer := Waiting(k, m, chan, 0)) else Leave(n', k, true)
  }

  function TimerFires(node: Node, ok: bool): Node
    requires node.writer.Waiting?
  {
    var (k, m, r) := (node.writer.key, node.writer.msg, node.writer.retry);
    if r == MAX_RETRY then Leave(node, k, false)
    else
      var n' := node.(log := node.log + [Sent(k, m, ok)]);
      if ok then n'.(writer := n'.writer.(retry := r + 1)) else Leave(n', k, true)
  }

  // ---------------------------------------------------------------- success points

  /** How the API server answers the calls of saveSuccessPoint. */
  datatype Api = AllOk | GetFails | WriteFails | StatusFails

  /** The acknowledged Delete that empties the store entry and so ends an epoch. */
  predicate Removes(m: Message) { m.operation == DELETE_OPERATION && m.content.Object? }

  function SlotOf(n: string, m: Message): Slot
    requires m.content.Object?
  {
    (Namespace(m), SyncName(n, m.content.uid))
  }

  /** The ObjectSync writes of saveSuccessPoint for a message whose object is still there. */
  function Record(syncs: map<Slot, Sync>, slot: Slot, m: Message, api: Api): map<Slot, Sync> {
    if api.GetFails? || api.WriteFails? then syncs
    else if slot in syncs then
      if api.StatusFails? then syncs else syncs[slot := syncs[slot].(version := m.version)]
    else syncs[slot := Sync(ResourceName(m), if api.StatusFails? then "" else m.version)]
  }

  function SaveSync(syncs: map<Slot, Sync>, n: string, m: Message, api: Api): map<Slot, Sync> {
    if !HasKey(m) || m.content.Opaque? then syncs
    else if Removes(m) then (if api.AllOk? then syncs - {SlotOf(n, m)} else syncs)
    else Record(syncs, SlotOf(n, m), m, api)
  }

  function ConsumeAck(node: Node): Node
    requires node.writer.Waiting?
  {
    var (k, m) := (node.writer.key, node.writer.msg);
    var store := if HasKey(m) && Removes(m) then node.store - {Key(m)} else node.store;
    Leave(node.(store := store, log := node.log + [Acked(k, m)]), k, false)
  }

  // ---------------------------------------------------------------- the state machine

  datatype Action =
    | Dispatch(node: string, msg: Message, listed: Option<Sync>)
    | FetchKey(node: string)
    | Send(node: string, ok: bool)
    | Tick(node: string, ok: bool)
    | Ack(id: string)                       // a response message from some edge names this id
    | Save(node: string, api: Api)
    | DelayOver(node: string, key: string)
    | Stop(node: string)
    | DropSync(slot: Slot)                  // the sync controller or a user deletes an ObjectSync

  predicate Enabled(h: Hub, a: Action) {
    match a
    case Dispatch(n, m, listed) => !NodeOf(h, n).stopped && !Judge(NodeOf(h, n).store, m, listed).Panic?
    case FetchKey(n) => n in h.nodes && !h.nodes[n].stopped && h.nodes[n].writer.Idle? && h.nodes[n].queue.order != []
    case Send(n, _) => n in h.nodes && !h.nodes[n].stopped && h.nodes[n].writer.Holding?
    case Tick(n, _) => n in h.nodes && !h.nodes[n].stopped && h.nodes[n].writer.Waiting?
    case Ack(_) => true
    case Save(n, _) => n in h.nodes && !h.nodes[n].stopped && h.nodes[n].writer.Waiting? && h.nodes[n].writer.chan in h.closed
    case DelayOver(n, k) => n in h.nodes && !h.nodes[n].stopped && k in h.nodes[n].queue.delayed
    case Stop(n) => n in h.nodes
    case DropSync(_) => true
  }

  function Step(h: Hub, a: Action): Hub
    requires Enabled(h, a)
  {
    match a
    case Dispatch(n, m, listed) =>
      if Judge(NodeOf(h, n).store, m, listed).Admit? then SetNode(h, n, Enqueue(NodeOf(h, n), m)) else h
    case FetchKey(n) => SetNode(h, n, Fetch(h.nodes[n]))
    case Send(n, ok) =>
      SetNode(h.(acks := h.acks[h.nodes[n].writer.msg.id := h.next], next := h.next + 1), n, FirstSend(h.nodes[n], h.next, ok))
    case Tick(n, ok) => SetNode(h, n, TimerFires(h.nodes[n], ok))
    case Ack(id) => AckArrives(h, id)
    case Save(n, api) =>
      SetNode(h.(syncs := SaveSync(h.syncs, n, h.nodes[n].writer.msg, api)), n, ConsumeAck(h.nodes[n]))
    case DelayOver(n, k) => SetNode(h, n, h.nodes[n].(queue := WorkQueue.Fire(h.nodes[n].queue, k)))
    case Stop(n) => SetNode(h, n, h.nodes[n].(stopped := true))
    case DropSync(slot) => h.(syncs := h.syncs - {slot})
  }

  /** The acknowledgement branch of HandleServer. */
  function AckArrives(h: Hub, id: string): Hub {
    var h' := h.(acked := h.acked + {id});
    if id in h.acks then h'.(closed := h.closed + {h.acks[id]}, acks := h.acks - {id}) else h'
  }

  /** The state after a run, or None when some step cannot be taken (not ready, stopped, or a panic). */
  function Run(h: Hub, acts: seq<Action>): Option<Hub>
    decreases |acts|
  {
    if acts == [] then Some(h)
    else if Enabled(h, acts[0]) then Run(Step(h, acts[0]), acts[1..])
    else None
  }
}
