// The hub as an object whose methods update it in place; each method refines steps of the state machine.
module MessageHandle {
  import opened Text
  import opened Messages
  import opened CloudHub
  import opened Delivery
  import WorkQueue

  /** What sendMsg waits for: the retry timer (with the result of the write it triggers) or the acknowledgement. */
  datatype Signal = Timer(ok: bool) | Response(api: Api)

  /** A signal, and what the dispatcher, the other nodes and the edges do before it. */
  datatype Moment = Moment(others: seq<Action>, signal: Signal)

  /** One pass of the write loop: what others do before the key is taken and before the first write, and the signals after it. */
  datatype Pass = Pass(early: seq<Action>, late: seq<Action>, ok: bool, moments: seq<Moment>)

  /** Not a step of the write loop of node n. */
  predicate Other(n: string, a: Action) { !((a.FetchKey? || a.Send? || a.Tick? || a.Save?) && a.node == n) }

  function Timers(moments: seq<Moment>): nat {
    if moments == [] then 0
    else Timers(moments[..|moments| - 1]) + if moments[|moments| - 1].signal.Timer? then 1 else 0
  }

  lemma {:induction false} RunAppend(h: Hub, a: seq<Action>, b: seq<Action>)
    requires Run(h, a).Some?
    ensures Run(h, a + b) == Run(Run(h, a).value, b)
    decreases |a|
  {
    if a == [] {
      assert a + b == b;
    } else {
      assert (a + b)[0] == a[0] && (a + b)[1..] == a[1..] + b;
      RunAppend(Step(h, a[0]), a[1..], b);
    }
  }

  lemma RunOneMore(h: Hub, acts: seq<Action>, a: Action)
    requires Run(h, acts).Some? && Enabled(Run(h, acts).value, a)
    ensures Run(h, acts + [a]) == Some(Step(Run(h, acts).value, a))
  {
    RunAppend(h, acts, [a]);
    assert Run(Step(Run(h, acts).value, a), []) == Some(Step(Run(h, acts).value, a));
  }

  /** Others never touch the writer of node n. */
  lemma OtherKeepsWriter(h: Hub, n: string, a: Action)
    requires Enabled(h, a) && Other(n, a) && n in h.nodes
    ensures n in Step(h, a).nodes && Step(h, a).nodes[n].writer == h.nodes[n].writer
  {
  }

  class Handle {
    var nodes: map<string, Node>
    var acks: map<string, nat>
    var closed: set<nat>
    var next: nat
    var acked: set<string>
    var syncs: map<Slot, Sync>

    function View(): Hub
      reads this
    {
      Hub(nodes, acks, closed, next, acked, syncs)
    }

    constructor (persisted: map<Slot, Sync>)
      ensures View() == Init(persisted)
    {
      nodes, acks, closed, next, acked, syncs := map[], map[], {}, 0, {}, persisted;
    }

    /** addMessageToQueue; ok is false when comparing versions panics, and then nothing has changed. */
    method AddMessageToQueue(n: string, m: Message, listed: Option<Sync>) returns (ok: bool)
      requires !NodeOf(View(), n).stopped
      modifies this
      ensures ok <==> Enabled(old(View()), Dispatch(n, m, listed))
      ensures View() == if ok then Step(old(View()), Dispatch(n, m, listed)) else old(View())
    {
      ok := true;
      if m.version == "" && !IsDelete(m) { return; }
      var node := if n in nodes then nodes[n] else FRESH_NODE;
      if !HasKey(m) { return; }
      var key := Key(m);
      var exist := key in node.store;
      if !IsDelete(m) {
        if !exist {
          if m.content.Opaque? { return; }
          if listed.Some? && listed.value.version != "" {
            var c := Compare(m.version, listed.value.version);
            if c.None? { ok := false; return; }
            if c.value <= 0 { return; }
          }
        }
        if exist {
          var inStore := node.store[key];
          if IsDelete(inStore) { return; }
          var c := Compare(m.version, inStore.version);
          if c.None? { ok := false; return; }
          if c.value <= 0 { return; }
        }
      }
      var stored := node.store[key := m];
      var queued := WorkQueue.Add(node.queue, key);
      nodes := nodes[n := node.(store := stored, queue := queued)];
    }

    /** The acknowledgement branch of HandleServer. */
    method HandleResponse(id: string)
      modifies this
      ensures View() == Step(old(View()), Ack(id))
    {
      acked := acked + {id};
      if id in acks {
        closed := closed + {acks[id]};
        acks := acks - {id};
      }
    }

    /** The head of a pass of MessageWriteLoop: take a key, look up its message, skip what stays in the cloud. */
    method TakeNext(n: string)
      requires Enabled(View(), FetchKey(n))
      modifies this
      ensures View() == Step(old(View()), FetchKey(n))
    {
      var node := nodes[n];
      var (key, queue) := WorkQueue.Get(node.queue);
      if key !in node.store {
        nodes := nodes[n := node.(queue := WorkQueue.Done(queue, key))];
        return;
      }
      var m := node.store[key];
      if !IsToEdge(m) {
        nodes := nodes[n := node.(queue := WorkQueue.Done(queue, key))];
        return;
      }
      nodes := nodes[n := node.(queue := queue, writer := Holding(key, m))];
    }

    /** The first write of sendMsg, after registering a new acknowledgement channel. */
    method BeginSend(n: string, ok: bool)
      requires Enabled(View(), Send(n, ok))
      modifies this
      ensures View() == Step(old(View()), Send(n, ok))
    {
      var node := nodes[n];
      var (key, m, chan) := (node.writer.key, node.writer.msg, next);
      acks := acks[m.id := chan];
      next := next + 1;
      node := node.(log := node.log + [Sent(key, m, ok)]);
      if ok {
        nodes := nodes[n := node.(writer := Waiting(key, m, chan, 0))];
      } else {
        var queue := WorkQueue.AddRateLimited(node.queue, key);
        nodes := nodes[n := node.(writer := Idle, queue := WorkQueue.Done(queue, key))];
      }
    }

    /** saveSuccessPoint and the end of the pass of the write loop that consumed the acknowledgement. */
    method SaveSuccessPoint(n: string, api: Api)
      requires Enabled(View(), Save(n, api))
      modifies this
      ensures View() == Step(old(View()), Save(n, api))
    {
      var node := nodes[n];
      var m := node.writer.msg;
      node := node.(log := node.log + [Acked(node.writer.key, m)]);
      if HasKey(m) && m.content.Object? {
        var slot := (Namespace(m), SyncName(n, m.content.uid));
        if m.operation == DELETE_OPERATION {
          node := node.(store := node.store - {Key(m)});
          if api.AllOk? { syncs := syncs - {slot}; }
        } else if !api.GetFails? {
          if slot in syncs {
            if api.AllOk? { syncs := syncs[slot := syncs[slot].(version := m.version)]; }
          } else if !api.WriteFails? {
            syncs := syncs[slot := Sync(ResourceName(m), "")];
            if api.AllOk? { syncs := syncs[slot := syncs[slot].(version := m.version)]; }
          }
        }
      }
      nodes := nodes[n := node.(writer := Idle, queue := WorkQueue.Done(node.queue, node.writer.key))];
    }

    /** The retry timer: one more write, or giving up after the last one. */
    method RetryTimer(n: string, ok: bool)
      requires Enabled(View(), Tick(n, ok))
      modifies this
      ensures View() == Step(old(View()), Tick(n, ok))
    {
      var node := nodes[n];
      if node.writer.retry == MAX_RETRY {
        nodes := nodes[n := Leave(node, node.writer.key, false)];
        return;
      }
      node := node.(log := node.log + [Sent(node.writer.key, node.writer.msg, ok)]);
      if ok {
        nodes := nodes[n := node.(writer := node.writer.(retry := node.writer.retry + 1))];
      } else {
        nodes := nodes[n := Leave(node, node.writer.key, true)];
      }
    }

    method Perform(a: Action)
      requires Enabled(View(), a)
      modifies this
      ensures View() == Step(old(View()), a)
    {
      match a
      case Dispatch(n, m, listed) => var ok := AddMessageToQueue(n, m, listed);
      case FetchKey(n) => TakeNext(n);
      case Send(n, ok) => BeginSend(n, ok);
      case Tick(n, ok) => RetryTimer(n, ok);
      case Ack(id) => HandleResponse(id);
      case Save(n, api) => SaveSuccessPoint(n, api);
      case DelayOver(n, k) => nodes := nodes[n := nodes[n].(queue := WorkQueue.Fire(nodes[n].queue, k))];
      case Stop(n) => nodes := nodes[n := nodes[n].(stopped := true)];
      case DropSync(slot) => syncs := syncs - {slot};
    }

    /** Whatever others do while the write loop of node n waits, as far as it is possible. */
    method Interfere(n: string, others: seq<Action>) returns (ghost trace: seq<Action>)
      modifies this
      ensures Run(old(View()), trace) == Some(View())
      ensures n in old(nodes) ==> n in nodes && nodes[n].writer == old(nodes[n].writer)
    {
      trace := [];
      for i := 0 to |others|
        invariant Run(old(View()), trace) == Some(View())
        invariant n in old(nodes) ==> n in nodes && nodes[n].writer == old(nodes[n].writer)
      {
        var a := others[i];
        if Other(n, a) && Enabled(View(), a) {
          RunOneMore(old(View()), trace, a);
          if n in nodes { OtherKeepsWriter(View(), n, a); }
          Perform(a);
          trace := trace + [a];
        }
      }
    }

    /**
     * The retry loop of sendMsg after the first write, with others at work between its signals: at most four more
     * writes, and it has returned unless the node was stopped or the signals ran out.
     */
    method Await(n: string, moments: seq<Moment>) returns (writes: nat, ghost trace: seq<Action>)
      requires n in nodes && nodes[n].writer.Waiting? && nodes[n].writer.retry == 0
      modifies this
      ensures Run(old(View()), trace) == Some(View())
      ensures writes <= 4
      ensures n in nodes && (nodes[n].stopped || nodes[n].writer.Idle? || (nodes[n].writer.Waiting? && writes == Timers(moments)))
    {
      writes, trace := 0, [];
      for i := 0 to |moments|
        invariant n in nodes && nodes[n].writer.Waiting? && nodes[n].writer.retry == writes <= MAX_RETRY
        invariant writes == Timers(moments[..i])
        invariant Run(old(View()), trace) == Some(View())
      {
        ghost var more := Interfere(n, moments[i].others);
        RunAppend(old(View()), trace, more);
        trace := trace + more;
        assert moments[..i + 1][..i] == moments[..i];
        if nodes[n].stopped { return; }
        match moments[i].signal
        case Response(api) =>
          if nodes[n].writer.chan in closed {
            RunOneMore(old(View()), trace, Save(n, api));
            trace := trace + [Save(n, api)];
            SaveSuccessPoint(n, api);
            return;
          }
        case Timer(ok) =>
          RunOneMore(old(View()), trace, Tick(n, ok));
          trace := trace + [Tick(n, ok)];
          if nodes[n].writer.retry < MAX_RETRY { writes := writes + 1; }
          RetryTimer(n, ok);
          if nodes[n].writer.Idle? { return; }
      }
      assert moments[..|moments|] == moments;
    }

    /** One pass of MessageWriteLoop that finds a key to work on. */
    method WritePass(n: string, p: Pass) returns (ghost trace: seq<Action>)
      requires Enabled(View(), FetchKey(n))
      modifies this
      ensures Run(old(View()), trace) == Some(View())
    {
      trace := [];
      RunOneMore(old(View()), trace, FetchKey(n));
      trace := trace + [FetchKey(n)];
      TakeNext(n);
      if nodes[n].writer.Idle? { return; }
      ghost var more := Interfere(n, p.late);
      RunAppend(old(View()), trace, more);
      trace := trace + more;
      if nodes[n].stopped { return; }
      RunOneMore(old(View()), trace, Send(n, p.ok));
      trace := trace + [Send(n, p.ok)];
      BeginSend(n, p.ok);
      if nodes[n].writer.Idle? { return; }
      var writes;
      ghost var waited;
      writes, waited := Await(n, p.moments);
      RunAppend(old(View()), trace, waited);
      trace := trace + waited;
    }

    /** MessageWriteLoop of one node beside everything else in the hub: whatever happens is a run of the state machine. */
    method MessageWriteLoop(n: string, passes: seq<Pass>) returns (ghost trace: seq<Action>)
      requires HubInv(View())
      modifies this
      ensures Run(old(View()), trace) == Some(View())
      ensures HubInv(View())
    {
      trace := [];
      for i := 0 to |passes|
        invariant Run(old(View()), trace) == Some(View())
      {
        ghost var more := Interfere(n, passes[i].early);
        RunAppend(old(View()), trace, more);
        trace := trace + more;
        if n in nodes {
          if nodes[n].stopped || !nodes[n].writer.Idle? { break; }
          if nodes[n].queue.order != [] {
            ghost var pass := WritePass(n, passes[i]);
            RunAppend(old(View()), trace, pass);
            trace := trace + pass;
          }
        }
      }
      RunKeeps(old(View()), trace);
    }
  }
}
