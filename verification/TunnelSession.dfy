// Demultiplexing of one tunnel onto API-server connections, over every interleaving of frames, additions and deletions.
module TunnelSession {
  import opened Text
  import opened TunnelMessage

  const DATA := 3
  const REMOVE_CONNECT := 4

  /** Connections are objects; here they are known by a number of their own. */
  type Conn = nat

  /**
   * next is the id counter shared by all sessions of the server; ids is what SetMessageID stored in a
   * connection; got is what each connection has received; done holds those told that the edge is gone.
   */
  datatype Session = Session(conns: map<nat, Conn>, closed: bool, next: nat, ids: map<Conn, nat>,
                             got: map<Conn, seq<byte>>, done: set<Conn>)

  datatype Action =
    | Add(conn: Conn)
    | Delete(conn: Conn)
    | Receive(msg: Message, accepted: nat)   // accepted bytes of the payload were written before an error, or all of it
    | OtherSession                           // another session of the server draws an id
    | Close

  function Got(s: Session, c: Conn): seq<byte> { if c in s.got then s.got[c] else [] }

  function IdOf(s: Session, c: Conn): nat { if c in s.ids then s.ids[c] else 0 }

  /** The next value of the 64-bit counter. */
  function Draw(next: nat): nat { if next + 1 >= UINT64 then 0 else next + 1 }

  /** ProxyTunnelMessageToApiserver. */
  function Proxy(s: Session, m: Message, accepted: nat): Session
    requires accepted <= |m.data|
  {
    if m.connectId !in s.conns then s
    else
      var c := s.conns[m.connectId];
      if m.kind == REMOVE_CONNECT then s.(done := s.done + {c})
      else if m.kind == DATA then s.(got := s.got[c := Got(s, c) + m.data[..accepted]])
      else s
  }

  predicate Enabled(s: Session, a: Action) { a.Receive? ==> a.accepted <= |a.msg.data| }

  function Step(s: Session, a: Action): Session
    requires Enabled(s, a)
  {
    match a
    case Add(c) =>
      var id := Draw(s.next);
      if s.closed then s.(next := id)
      else s.(next := id, conns := s.conns[id := c], ids := s.ids[c := id])
    case Delete(c) => s.(conns := s.conns - {IdOf(s, c)})
    case Receive(m, accepted) => Proxy(s, m, accepted)
    case OtherSession => s.(next := Draw(s.next))
    case Close => s.(closed := true, done := s.done + (set id | id in s.conns :: s.conns[id]))
  }

  function Run(s: Session, acts: seq<Action>): Option<Session>
    decreases |acts|
  {
    if acts == [] then Some(s)
    else if Enabled(s, acts[0]) then Run(Step(s, acts[0]), acts[1..])
    else None
  }

  /** The payload bytes one step brings for an id. */
  ghost function Bytes(a: Action, id: nat): seq<byte> {
    if a.Receive? && a.msg.connectId == id && a.msg.kind == DATA && a.accepted <= |a.msg.data| then a.msg.data[..a.accepted] else []
  }

  /** The payload bytes that arrive for an id, in order. */
  ghost function Payload(acts: seq<Action>, id: nat): seq<byte> {
    if acts == [] then [] else Bytes(acts[0], id) + Payload(acts[1..], id)
  }

  // ---------------------------------------------------------------- invariant

  /** Registered connections know the id they are registered under, and the counter has passed all ids. */
  ghost predicate Valid(s: Session) {
    && (forall id :: id in s.conns ==> 1 <= id <= s.next && s.conns[id] in s.ids && s.ids[s.conns[id]] == id)
    && (forall c :: c in s.ids ==> 1 <= s.ids[c] <= s.next)
    && (forall c, d :: c in s.ids && d in s.ids && s.ids[c] == s.ids[d] ==> c == d)
    && (forall c :: c in s.got ==> c in s.ids)
  }

  function Start(next: nat): Session { Session(map[], false, next, map[], map[], {}) }

  ghost predicate NewConn(s: Session, a: Action) { a.Add? ==> a.conn !in s.ids && s.next + 1 < UINT64 }

  lemma RegisterKeeps(s: Session, c: Conn)
    requires Valid(s) && c !in s.ids && s.next + 1 < UINT64
    ensures Valid(s.(next := s.next + 1, conns := s.conns[s.next + 1 := c], ids := s.ids[c := s.next + 1]))
  {
  }

  lemma ProxyKeeps(s: Session, m: Message, accepted: nat)
    requires Valid(s) && accepted <= |m.data|
    ensures Valid(Proxy(s, m, accepted))
  {
  }

  lemma StepKeeps(s: Session, a: Action)
    requires Valid(s) && Enabled(s, a) && NewConn(s, a) && (a.OtherSession? ==> s.next + 1 < UINT64)
    ensures Valid(Step(s, a))
  {
    match a
    case Add(c) => if !s.closed { RegisterKeeps(s, c); }
    case Delete(c) =>
    case Receive(m, accepted) => ProxyKeeps(s, m, accepted);
    case OtherSession =>
    case Close =>
  }

  /** Each connection is added at most once, and the counter does not wrap. */
  ghost predicate Orderly(s: Session, acts: seq<Action>)
    decreases |acts|
  {
    acts != [] && Enabled(s, acts[0]) ==>
      && (acts[0].Add? ==> acts[0].conn !in s.ids)
      && (acts[0].Add? || acts[0].OtherSession? ==> s.next + 1 < UINT64)
      && Orderly(Step(s, acts[0]), acts[1..])
  }

  lemma {:induction false} RunKeeps(s: Session, acts: seq<Action>)
    requires Valid(s) && Orderly(s, acts) && Run(s, acts).Some?
    ensures Valid(Run(s, acts).value)
    decreases |acts|
  {
    if acts != [] {
      StepKeeps(s, acts[0]);
      RunKeeps(Step(s, acts[0]), acts[1..]);
    }
  }

  lemma ProxyForRegistered(s: Session, m: Message, accepted: nat, c: Conn, id: nat)
    requires Valid(s) && accepted <= |m.data| && id in s.conns && s.conns[id] == c
    ensures Got(Proxy(s, m, accepted), c) == Got(s, c) + Bytes(Receive(m, accepted), id)
  {
    assert m.connectId in s.conns && s.conns[m.connectId] == c ==> m.connectId == id;
  }

  lemma StepForRegistered(s: Session, a: Action, c: Conn, id: nat)
    requires Valid(s) && Enabled(s, a) && NewConn(s, a)
    requires id in s.conns && s.conns[id] == c && a != Delete(c)
    ensures var t := Step(s, a); id in t.conns && t.conns[id] == c && Got(t, c) == Got(s, c) + Bytes(a, id)
  {
    assert Got(s, c) + [] == Got(s, c);
    match a
    case Add(d) =>
    case Delete(d) => assert IdOf(s, d) != id;
    case Receive(m, accepted) => ProxyForRegistered(s, m, accepted, c, id);
    case OtherSession =>
    case Close =>
  }

  /** While a connection stays registered it receives exactly the payload tagged with its id. */
  lemma {:induction false} ReceivesWhileRegistered(s: Session, acts: seq<Action>, c: Conn, id: nat)
    requires Valid(s) && Orderly(s, acts) && Run(s, acts).Some?
    requires id in s.conns && s.conns[id] == c && Delete(c) !in acts
    ensures var s' := Run(s, acts).value;
            id in s'.conns && s'.conns[id] == c && Got(s', c) == Got(s, c) + Payload(acts, id)
    decreases |acts|
  {
    if acts != [] {
      var (a, t) := (acts[0], Step(s, acts[0]));
      StepKeeps(s, a);
      StepForRegistered(s, a, c, id);
      ReceivesWhileRegistered(t, acts[1..], c, id);
      Regroup(Got(s, c), Bytes(a, id), Payload(acts[1..], id));
    }
  }

  lemma Regroup(x: seq<byte>, y: seq<byte>, z: seq<byte>)
    ensures (x + y) + z == x + (y + z)
  {
  }

  lemma StepForGone(s: Session, a: Action, c: Conn)
    requires Valid(s) && Enabled(s, a) && NewConn(s, a) && c in s.ids && s.ids[c] !in s.conns
    ensures var t := Step(s, a); c in t.ids && t.ids[c] == s.ids[c] && s.ids[c] !in t.conns && Got(t, c) == Got(s, c)
  {
    match a
    case Add(d) =>
    case Delete(d) =>
    case Receive(m, accepted) => assert m.connectId in s.conns ==> s.conns[m.connectId] != c;
    case OtherSession =>
    case Close =>
  }

  /** A connection that is not registered receives nothing more, whatever frames still arrive. */
  lemma {:induction false} SilentWhenGone(s: Session, acts: seq<Action>, c: Conn)
    requires Valid(s) && Orderly(s, acts) && Run(s, acts).Some?
    requires c in s.ids && s.ids[c] !in s.conns
    ensures Got(Run(s, acts).value, c) == Got(s, c)
    decreases |acts|
  {
    if acts != [] {
      StepKeeps(s, acts[0]);
      StepForGone(s, acts[0], c);
      SilentWhenGone(Step(s, acts[0]), acts[1..], c);
    }
  }

  /** From the addition of c to its deletion, and then after it. */
  lemma PayloadFrom(s: Session, c: Conn, mid: seq<Action>, post: seq<Action>)
    requires Valid(s) && !s.closed && Orderly(s, [Add(c)] + mid + [Delete(c)] + post)
    requires Run(s, [Add(c)] + mid + [Delete(c)] + post).Some? && Delete(c) !in mid
    ensures Got(Run(s, [Add(c)] + mid + [Delete(c)] + post).value, c) == Payload(mid, Draw(s.next))
  {
    var (rest, tail) := (mid + ([Delete(c)] + post), [Delete(c)] + post);
    assert [Add(c)] + mid + [Delete(c)] + post == [Add(c)] + rest;
    assert ([Add(c)] + rest)[1..] == rest;
    var t := Step(s, Add(c));
    StepKeeps(s, Add(c));
    RunSplit(t, mid, tail);
    var u := Run(t, mid).value;
    ReceivesWhileRegistered(t, mid, c, Draw(s.next));
    RunKeeps(t, mid);
    AfterDelete(u, c, post);
    assert Got(t, c) == [];
  }

  lemma AfterDelete(u: Session, c: Conn, post: seq<Action>)
    requires Valid(u) && Orderly(u, [Delete(c)] + post) && Run(u, [Delete(c)] + post).Some? && c in u.ids
    ensures Got(Run(u, [Delete(c)] + post).value, c) == Got(u, c)
  {
    assert ([Delete(c)] + post)[1..] == post;
    StepKeeps(u, Delete(c));
    SilentWhenGone(Step(u, Delete(c)), post, c);
  }

  /**
   * A connection added after any run receives exactly the payloads tagged with its id between its
   * addition and its deletion: no frame from before, none meant for another id, and none afterwards.
   */
  lemma ExactlyItsPayload(next: nat, pre: seq<Action>, c: Conn, mid: seq<Action>, post: seq<Action>)
    requires Orderly(Start(next), pre) && Run(Start(next), pre).Some?
    requires var s := Run(Start(next), pre).value;
             && !s.closed && Orderly(s, [Add(c)] + mid + [Delete(c)] + post)
             && Run(s, [Add(c)] + mid + [Delete(c)] + post).Some? && Delete(c) !in mid
    ensures var s := Run(Start(next), pre).value;
            Got(Run(s, [Add(c)] + mid + [Delete(c)] + post).value, c) == Payload(mid, Draw(s.next))
  {
    RunKeeps(Start(next), pre);
    PayloadFrom(Run(Start(next), pre).value, c, mid, post);
  }

  lemma {:induction false} RunSplit(s: Session, x: seq<Action>, y: seq<Action>)
    requires Orderly(s, x + y) && Run(s, x + y).Some?
    ensures Orderly(s, x) && Run(s, x).Some? && Orderly(Run(s, x).value, y) && Run(Run(s, x).value, y) == Run(s, x + y)
    decreases |x|
  {
    if x == [] {
      assert x + y == y;
    } else {
      assert (x + y)[1..] == x[1..] + y;
      RunSplit(Step(s, x[0]), x[1..], y);
    }
  }

  lemma StepKeepsIds(s: Session, a: Action, c: Conn)
    requires Valid(s) && Orderly(s, [a]) && Enabled(s, a) && c in s.ids
    ensures var s' := Step(s, a); c in s'.ids && s'.ids[c] == s.ids[c] && s.next <= s'.next
  {
  }

  lemma {:induction false} KeepsIds(s: Session, acts: seq<Action>, c: Conn)
    requires Valid(s) && Orderly(s, acts) && Run(s, acts).Some? && c in s.ids
    ensures var s' := Run(s, acts).value; c in s'.ids && s'.ids[c] == s.ids[c] && s.next <= s'.next
    decreases |acts|
  {
    if acts != [] {
      StepKeeps(s, acts[0]);
      StepKeepsIds(s, acts[0], c);
      KeepsIds(Step(s, acts[0]), acts[1..], c);
    }
  }

  /** An id is never given to a second connection. */
  lemma IdsAreNeverReused(next: nat, pre: seq<Action>, c: Conn, mid: seq<Action>, d: Conn)
    requires Orderly(Start(next), pre) && Run(Start(next), pre).Some?
    requires var s := Run(Start(next), pre).value;
             c in s.ids && Orderly(s, mid + [Add(d)]) && Run(s, mid + [Add(d)]).Some? && d != c
    ensures var s := Run(Start(next), pre).value;
            var t := Run(s, mid + [Add(d)]).value;
            c in t.ids && t.ids[c] == s.ids[c] && (d in t.ids ==> t.ids[d] != s.ids[c])
  {
    var s := Run(Start(next), pre).value;
    RunKeeps(Start(next), pre);
    KeepsIds(s, mid + [Add(d)], c);
    RunKeeps(s, mid + [Add(d)]);
  }

  /** The step tells the connection that its edge peer is gone. */
  ghost predicate Tells(s: Session, a: Action, c: Conn) {
    || (a.Receive? && a.msg.kind == 4 && a.msg.connectId in s.conns && s.conns[a.msg.connectId] == c)
    || (a.Close? && exists id :: id in s.conns && s.conns[id] == c)
  }

  lemma StepTells(s: Session, a: Action, c: Conn)
    requires Enabled(s, a)
    ensures c in Step(s, a).done <==> c in s.done || Tells(s, a, c)
  {
  }

  ghost predicate ToldAt(s: Session, acts: seq<Action>, q: nat, c: Conn)
    requires q < |acts| && Run(s, acts).Some?
  {
    Run(s, acts[..q]).Some? && Tells(Run(s, acts[..q]).value, acts[q], c)
  }

  /**
   * Over every run a connection knows that its edge peer is gone exactly when it did before, a remove frame for its id
   * arrived while it was registered, or the session was closed while it was registered.
   */
  lemma {:induction false} DoneIff(s: Session, acts: seq<Action>, c: Conn)
    requires Run(s, acts).Some?
    ensures c in Run(s, acts).value.done <==> c in s.done || exists q: nat :: q < |acts| && ToldAt(s, acts, q, c)
    decreases |acts|
  {
    if acts != [] {
      var (t, rest) := (Step(s, acts[0]), acts[1..]);
      StepTells(s, acts[0], c);
      DoneIff(t, rest, c);
      assert acts[..0] == [] && Run(s, []) == Some(s);
      assert ToldAt(s, acts, 0, c) <==> Tells(s, acts[0], c);
      forall q: nat | q < |rest| ensures ToldAt(t, rest, q, c) <==> ToldAt(s, acts, q + 1, c) {
        assert acts[..q + 1][1..] == rest[..q];
      }
      if q: nat :| q < |rest| && ToldAt(t, rest, q, c) {
        assert ToldAt(s, acts, q + 1, c);
      }
      if q: nat :| q < |acts| && ToldAt(s, acts, q, c) {
        assert q > 0 ==> ToldAt(t, rest, q - 1, c);
      }
    }
  }

  /** A frame of another type, or for an unknown id, changes nothing. */
  lemma OtherFramesAreIgnored(s: Session, m: Message, accepted: nat)
    requires accepted <= |m.data| && (m.connectId !in s.conns || (m.kind != 3 && m.kind != 4))
    ensures Step(s, Receive(m, accepted)) == s
  {
  }

  /** Every draw takes the next number, wrapping at 2 to the 64, and a new connection is registered under it. */
  lemma NextId(s: Session, c: Conn)
    requires s.next < 0x1_0000_0000_0000_0000
    ensures var id := if s.next == 0xFFFF_FFFF_FFFF_FFFF then 0 else s.next + 1;
            && Step(s, Add(c)).next == id && Step(s, OtherSession) == s.(next := id)
            && (!s.closed ==> var t := Step(s, Add(c)); t.conns == s.conns[id := c] && t.ids == s.ids[c := id] && t.done == s.done)
  {
  }

  /** A closed session registers nobody: the id is spent, nothing else changes, and it stays closed. */
  lemma ClosedRefuses(s: Session, c: Conn)
    ensures var t := Step(s, Close); t.closed && t.conns == s.conns && Step(t, Add(c)) == t.(next := Draw(t.next))
  {
  }

  // ---------------------------------------------------------------- the session object

  class TunnelSession {
    var apiServerConn: map<nat, Conn>
    var tunnelClosed: bool
    var nextMessageID: nat
    var messageIds: map<Conn, nat>
    var received: map<Conn, seq<byte>>
    var edgePeerDone: set<Conn>

    ghost function View(): Session
      reads this
    {
      Session(apiServerConn, tunnelClosed, nextMessageID, messageIds, received, edgePeerDone)
    }

    constructor (next: nat)
      ensures View() == Start(next)
    {
      apiServerConn, tunnelClosed, nextMessageID, messageIds, received, edgePeerDone := map[], false, next, map[], map[], {};
    }

    /**
     * ProxyTunnelMessageToApiserver. The writes script says how many bytes each call of the writer
     * takes; a writer makes progress, and the end of the script is a write error.
     */
    method ProxyTunnelMessage(m: Message, writes: seq<nat>) returns (found: bool, accepted: nat)
      modifies this
      ensures found <==> m.connectId in old(apiServerConn)
      ensures accepted <= |m.data|
      ensures View() == Step(old(View()), Receive(m, accepted))
      ensures found && m.kind == DATA && |writes| >= |m.data| ==> accepted == |m.data|
    {
      found, accepted := m.connectId in apiServerConn, 0;
      if !found { return; }
      var c := apiServerConn[m.connectId];
      if m.kind == REMOVE_CONNECT {
        edgePeerDone := edgePeerDone + {c};
      } else if m.kind == DATA {
        ghost var before := Got(View(), c);
        received := received[c := if c in received then received[c] else []];
        assert m.data[..0] == [] && before + [] == before;
        var k := 0;
        while accepted < |m.data|
          invariant accepted <= |m.data| && k <= |writes| && accepted >= k
          invariant View() == old(View()).(got := old(received)[c := before + m.data[..accepted]])
          decreases |m.data| - accepted
        {
          if k == |writes| { return; }
          var n := if writes[k] < 1 then 1 else if writes[k] > |m.data| - accepted then |m.data| - accepted else writes[k];
          assert before + m.data[..accepted] + m.data[accepted..accepted + n] == before + m.data[..accepted + n];
          received := received[c := received[c] + m.data[accepted..accepted + n]];
          accepted := accepted + n;
          k := k + 1;
        }
      }
    }

    /** AddAPIServerConnection; a closed tunnel refuses the connection, but its id is spent. */
    method AddConnection(c: Conn) returns (ok: bool)
      modifies this
      ensures ok == !old(tunnelClosed) && View() == Step(old(View()), Add(c))
    {
      nextMessageID := Draw(nextMessageID);
      ok := !tunnelClosed;
      if ok {
        messageIds := messageIds[c := nextMessageID];
        apiServerConn := apiServerConn[nextMessageID := c];
      }
    }

    method DeleteConnection(c: Conn)
      modifies this
      ensures View() == Step(old(View()), Delete(c))
    {
      apiServerConn := apiServerConn - {if c in messageIds then messageIds[c] else 0};
    }

    method CloseTunnel()
      modifies this
      ensures View() == Step(old(View()), Close)
    {
      edgePeerDone := edgePeerDone + (set id | id in apiServerConn :: apiServerConn[id]);
      tunnelClosed := true;
    }
  }
}
