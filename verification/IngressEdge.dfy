// What the edge nodes hold of the generated resources, node by node.
module IngressEdge {
  import opened Text
  import opened IngressStore

  // ---------------------------------------------------------------- what a node will hold

  /** The last message about k in a list queue. */
  function LastNote(line: seq<Note>, k: string): Option<Note> {
    if line == [] then None
    else if line[|line| - 1].key == k then Some(line[|line| - 1])
    else LastNote(line[..|line| - 1], k)
  }

  function Held(c: Controller, n: string, k: string): Option<Copy> {
    if k in EdgeOf(c, n) then Some(EdgeOf(c, n)[k]) else None
  }

  /** What the node holds of k once everything in its list queue has arrived. */
  function Expected(c: Controller, n: string, k: string): Option<Copy> {
    var last := LastNote(LineOf(c, n), k);
    if last.Some? then last.value.copy else Held(c, n, k)
  }

  lemma {:induction false} LastNoteFront(line: seq<Note>, k: string)
    requires line != []
    ensures var later := LastNote(line[1..], k);
            LastNote(line, k) == if later.Some? then later else if line[0].key == k then Some(line[0]) else None
  {
    if |line| > 1 && line[|line| - 1].key != k {
      LastNoteFront(line[..|line| - 1], k);
      assert line[..|line| - 1][1..] == line[1..][..|line| - 2];
    }
  }

  lemma LastNoteSnoc(line: seq<Note>, note: Note, k: string)
    ensures LastNote(line + [note], k) == if note.key == k then Some(note) else LastNote(line, k)
  {
    assert (line + [note])[..|line|] == line;
  }

  lemma ArrivalKeepsExpected(c: Controller, n: string, m: string, k: string)
    ensures Expected(DeliverNext(c, n, true), m, k) == Expected(c, m, k)
  {
    if m == n && LineOf(c, n) != [] {
      LastNoteFront(LineOf(c, n), k);
    }
  }

  function Drain(n: string, count: nat): seq<Action> { seq(count, _ => Deliver(n, true)) }

  /** When everything queued for a node arrives, the node holds what was expected. */
  lemma {:induction false} DrainedHoldsExpected(c: Controller, n: string, k: string)
    ensures var d := Run(c, Drain(n, |LineOf(c, n)|)); LineOf(d, n) == [] && Held(d, n, k) == Expected(c, n, k)
    decreases |LineOf(c, n)|
  {
    var acts := Drain(n, |LineOf(c, n)|);
    if LineOf(c, n) != [] {
      ArrivalKeepsExpected(c, n, n, k);
      DrainedHoldsExpected(DeliverNext(c, n, true), n, k);
      assert acts[1..] == Drain(n, |LineOf(c, n)| - 1);
    }
  }

  /** The stored version and body is what the node will hold. */
  ghost predicate Current(c: Controller, n: string, k: string) {
    k in c.store && Expected(c, n, k) == Some(CopyOf(c.store[k]))
  }

  /** The node is one the resource is meant for, and nothing is pending for the resource. */
  ghost predicate Due(c: Controller, n: string, k: string) {
    n in c.ready && k in c.store && k !in c.waiting && InGroups(c, n, c.store[k].groups)
  }

  /** Every ready member of a resource's groups holds what is stored, or it is on its way, unless the resource waits. */
  ghost predicate EdgeIsCurrent(c: Controller) {
    forall n, k :: Due(c, n, k) ==> Current(c, n, k)
  }

  /**
   * When a step leaves every ready member of a resource's groups up to date: always, except that a node turning ready
   * must not miss a resource it needs, a node must not join a group while ready unless it already holds the group's
   * resources, and a message may be dropped only if a later one about the same resource follows it, the node is not
   * meant to have the resource, or it holds the stored version already.
   */
  ghost predicate KeepsCurrent(c: Controller, a: Action) {
    match a
    case Ready(n, labelled, order) =>
      n in c.ready || !labelled ||
      forall k :: Due(c.(ready := c.ready + {n}), n, k) && k !in order ==> Current(c, n, k)
    case Regroup(members) =>
      forall n, k :: Due(c.(members := members), n, k) && !InGroups(c, n, c.store[k].groups) ==> Current(c, n, k)
    case Deliver(n, arrives) =>
      arrives || LineOf(c, n) == [] ||
      var k := LineOf(c, n)[0].key;
      LastNote(LineOf(c, n)[1..], k).Some? || !Due(c, n, k) || Held(c, n, k) == Some(CopyOf(c.store[k]))
    case _ => true
  }

  // ---------------------------------------------------------------- syncs queue what they change

  /** Unless a key is queued, adding resources leaves what is stored under it for the nodes as it was. */
  ghost predicate Same(c: Controller, c': Controller, k: string) {
    k in c'.store && k !in c'.waiting ==>
      k in c.store && k !in c.waiting && CopyOf(c'.store[k]) == CopyOf(c.store[k]) && c'.store[k].groups == c.store[k].groups
  }

  lemma {:induction false} PutAllSame(c: Controller, i: string, gen: seq<Generated>, k: string)
    requires i in c.index
    ensures Same(c, PutAll(c, i, gen), k)
  {
    if gen != [] { PutAllSame(c, i, gen[..|gen| - 1], k); }
  }

  lemma {:induction false} InitPutAllSame(c: Controller, i: string, gen: seq<Generated>, k: string)
    requires i in c.index
    ensures Same(c, InitPutAll(c, i, gen), k)
  {
    if gen != [] { InitPutAllSame(c, i, gen[..|gen| - 1], k); }
  }

  /** A step that changes neither the nodes nor what they hold, and queues what it changes. */
  lemma SameKeepsCurrent(c: Controller, c': Controller)
    requires EdgeIsCurrent(c) && c'.members == c.members && c'.ready == c.ready && c'.line == c.line && c'.edge == c.edge
    requires forall k :: Same(c, c', k)
    ensures EdgeIsCurrent(c')
  {
    forall n, k | Due(c', n, k) ensures Current(c', n, k) {
      assert Same(c, c', k);
      assert InGroups(c, n, c.store[k].groups);
      assert Due(c, n, k);
    }
  }

  lemma IngressKeepsCurrent(c: Controller, a: Action)
    requires EdgeIsCurrent(c) && (a.Start? || a.Sync? || a.Delete?)
    ensures EdgeIsCurrent(Step(c, a))
  {
    var c' := Step(c, a);
    match a
    case Start(i, gen) =>
      var d := c.(index := c.index[i := {}]);
      InitPutAllHistory(d, i, gen);
      forall k ensures Same(c, c', k) { InitPutAllSame(d, i, gen, k); }
      SameKeepsCurrent(c, c');
    case Sync(i, gen) =>
      var d := DropStale(c, i, Indexed(c, i) - Keys(gen));
      PutAllHistory(d, i, gen);
      forall k ensures Same(c, c', k) { PutAllSame(d, i, gen, k); }
      SameKeepsCurrent(c, c');
    case Delete(i) =>
      forall k ensures Same(c, c', k) { }
      SameKeepsCurrent(c, c');
  }

  // ---------------------------------------------------------------- dispatches and nodes

  /** What a dispatch does to one node and to the queue. */
  lemma DispatchAt(c: Controller, k: string, failed: set<string>, n: string)
    requires k in c.store
    ensures var c' := DispatchResource(c, k, failed);
            && LineOf(c', n) ==
                 (if n !in Targets(c, k) || n in failed then LineOf(c, n)
                  else LineOf(c, n) + [Note(k, if c.store[k].refs != {} then Some(CopyOf(c.store[k])) else None)])
            && EdgeOf(c', n) == EdgeOf(c, n) && (k in c'.waiting <==> Targets(c, k) * failed != {})
  {
  }

  /** A dispatch changes what is expected only about its own key, and only at the nodes it is posted to. */
  lemma DispatchExpected(c: Controller, x: string, failed: set<string>, n: string, k: string)
    requires x in c.store
    ensures Expected(DispatchResource(c, x, failed), n, k) ==
            if k != x || n !in Targets(c, x) || n in failed then Expected(c, n, k)
            else if c.store[x].refs != {} then Some(CopyOf(c.store[x])) else None
  {
    DispatchAt(c, x, failed, n);
    LastNoteSnoc(LineOf(c, n), Note(x, if c.store[x].refs != {} then Some(CopyOf(c.store[x])) else None), k);
  }

  lemma DispatchKeepsOne(c: Controller, x: string, failed: set<string>, n: string, k: string)
    requires EdgeIsCurrent(c) && x in c.store && Due(DispatchResource(c, x, failed), n, k)
    ensures Current(DispatchResource(c, x, failed), n, k)
  {
    DispatchAt(c, x, failed, n);
    DispatchExpected(c, x, failed, n, k);
    assert InGroups(c, n, c.store[k].groups);
    if k == x {
      assert n in Targets(c, x) && n !in Targets(c, x) * failed;
    } else {
      assert Due(c, n, k);
    }
  }

  lemma DispatchKeepsCurrent(c: Controller, x: string, failed: set<string>)
    requires EdgeIsCurrent(c)
    ensures EdgeIsCurrent(DispatchResource(c, x, failed))
  {
    var c' := DispatchResource(c, x, failed);
    forall n, k | Due(c', n, k) ensures Current(c', n, k) {
      if x in c.store {
        DispatchKeepsOne(c, x, failed, n, k);
      } else {
        assert InGroups(c, n, c.store[k].groups);
        assert Due(c, n, k);
      }
    }
  }

  lemma {:induction false} RefreshNotes(store: map<string, Resource>, line: seq<Note>, order: seq<string>, k: string)
    ensures LastNote(line + Refresh(store, order), k) ==
            if k in order && k in store then Some(Note(k, Some(CopyOf(store[k])))) else LastNote(line, k)
  {
    if order == [] {
      assert line + Refresh(store, order) == line;
    } else {
      var (init, x) := (order[..|order| - 1], order[|order| - 1]);
      RefreshNotes(store, line, init, k);
      assert k in order <==> k in init || k == x by { assert order == init + [x]; }
      RefreshSnoc(store, line, init, x, k);
      assert order[..|order| - 1] == init;
    }
  }

  lemma RefreshSnoc(store: map<string, Resource>, line: seq<Note>, init: seq<string>, x: string, k: string)
    ensures var before := line + Refresh(store, init);
            LastNote(line + (Refresh(store, init) + if x in store then [Note(x, Some(CopyOf(store[x])))] else []), k) ==
            if x in store && k == x then Some(Note(x, Some(CopyOf(store[x])))) else LastNote(before, k)
  {
    var before := line + Refresh(store, init);
    if x in store {
      var note := Note(x, Some(CopyOf(store[x])));
      LastNoteSnoc(before, note, k);
      assert line + (Refresh(store, init) + [note]) == before + [note];
    } else {
      assert Refresh(store, init) + [] == Refresh(store, init);
    }
  }

  /** What a node that turns ready can expect. */
  lemma ReadyAt(c: Controller, n: string, order: seq<string>, k: string)
    requires n !in c.ready
    ensures var c' := NodeReady(c, n, true, order);
            Expected(c', n, k) == if k in order && k in c.store then Some(CopyOf(c.store[k])) else Expected(c, n, k)
  {
    RefreshNotes(c.store, LineOf(c, n), order, k);
  }

  lemma ReadyKeepsCurrentIff(c: Controller, n: string, labelled: bool, order: seq<string>)
    requires EdgeIsCurrent(c)
    ensures EdgeIsCurrent(NodeReady(c, n, labelled, order)) <==> KeepsCurrent(c, Ready(n, labelled, order))
  {
    if n !in c.ready && labelled {
      var (c', d) := (NodeReady(c, n, labelled, order), c.(ready := c.ready + {n}));
      forall m, k ensures Due(c', m, k) == Due(d, m, k) && (m != n ==> Due(d, m, k) == Due(c, m, k)) {
        DueByMembers(c, c', m, k);
        DueByMembers(c, d, m, k);
      }
      forall k ensures Current(c', n, k) == (k in c.store && (k in order || Current(c, n, k))) {
        ReadyAt(c, n, order, k);
      }
      assert forall m, k :: m != n ==> Current(c', m, k) == Current(c, m, k);
      if EdgeIsCurrent(c') {
        forall k | Due(d, n, k) && k !in order ensures Current(c, n, k) {
          assert Due(c', n, k);
        }
      }
    }
  }

  lemma DueByMembers(c: Controller, c': Controller, n: string, k: string)
    requires c'.members == c.members && c'.store == c.store && c'.waiting == c.waiting
    ensures Due(c', n, k) <==> n in c'.ready && k in c.store && k !in c.waiting && InGroups(c, n, c.store[k].groups)
  {
  }

  lemma DeliverKeepsCurrentIff(c: Controller, n: string, arrives: bool)
    requires EdgeIsCurrent(c)
    ensures EdgeIsCurrent(DeliverNext(c, n, arrives)) <==> KeepsCurrent(c, Deliver(n, arrives))
  {
    var c' := DeliverNext(c, n, arrives);
    forall m, k ensures Due(c', m, k) == Due(c, m, k) {
      DueByMembers(c, c', m, k);
    }
    if arrives {
      forall m, k ensures Current(c', m, k) == Current(c, m, k) {
        ArrivalKeepsExpected(c, n, m, k);
      }
    } else if LineOf(c, n) != [] {
      var x := LineOf(c, n)[0].key;
      forall m, k | m != n || k != x ensures Current(c', m, k) == Current(c, m, k) {
        if m == n { LastNoteFront(LineOf(c, n), k); }
      }
      LastNoteFront(LineOf(c, n), x);
      assert Due(c, n, x) ==> Current(c, n, x);
    }
  }

  lemma RegroupKeepsCurrentIff(c: Controller, members: map<string, seq<string>>)
    requires EdgeIsCurrent(c)
    ensures EdgeIsCurrent(c.(members := members)) <==> KeepsCurrent(c, Regroup(members))
  {
    var c' := c.(members := members);
    forall n, k ensures Current(c', n, k) == Current(c, n, k) {
    }
    if EdgeIsCurrent(c') {
      forall n, k | n in c.ready && k in c.store && k !in c.waiting && InGroups(c', n, c.store[k].groups) ensures Current(c, n, k) {
        assert Due(c', n, k);
      }
    } else {
      var n, k :| Due(c', n, k) && !Current(c', n, k);
      assert !Due(c, n, k);
    }
  }

  /** Exactly when a step leaves every ready group member with the current version of every settled resource. */
  lemma StepKeepsCurrentIff(c: Controller, a: Action)
    requires EdgeIsCurrent(c)
    ensures EdgeIsCurrent(Step(c, a)) <==> KeepsCurrent(c, a)
  {
    match a
    case Start(i, gen) => IngressKeepsCurrent(c, a);
    case Sync(i, gen) => IngressKeepsCurrent(c, a);
    case Delete(i) => IngressKeepsCurrent(c, a);
    case Dispatch(k, failed) => DispatchKeepsCurrent(c, k, failed);
    case Ready(n, labelled, order) => ReadyKeepsCurrentIff(c, n, labelled, order);
    case Deliver(n, arrives) => DeliverKeepsCurrentIff(c, n, arrives);
    case NotReady(n) =>
      var c' := Step(c, a);
      forall m, k | Due(c', m, k) ensures Current(c', m, k) {
        assert InGroups(c, m, c.store[k].groups);
        assert Due(c, m, k);
      }
    case Regroup(members) => RegroupKeepsCurrentIff(c, members);
  }

  /** The guard holds at every step of the run. */
  ghost predicate AllKeepCurrent(c: Controller, acts: seq<Action>)
    decreases |acts|
  {
    acts == [] || (KeepsCurrent(c, acts[0]) && AllKeepCurrent(Step(c, acts[0]), acts[1..]))
  }

  /** Over every such run, a resource that is not waiting is current at every ready node of its groups. */
  lemma {:induction false} RunKeepsCurrent(c: Controller, acts: seq<Action>)
    requires EdgeIsCurrent(c) && AllKeepCurrent(c, acts)
    ensures EdgeIsCurrent(Run(c, acts))
    decreases |acts|
  {
    if acts != [] {
      StepKeepsCurrentIff(c, acts[0]);
      RunKeepsCurrent(Step(c, acts[0]), acts[1..]);
    }
  }

  // ---------------------------------------------------------------- lost deletes

  /** No later step generates the key again. */
  ghost predicate NeverGenerated(acts: seq<Action>, k: string) {
    forall a :: a in acts && (a.Start? || a.Sync?) ==> k !in Keys(a.gen)
  }

  /** Whether a node that holds k or not, with the given list queue, holds it after the deliveries among the actions. */
  ghost function Outcome(held: bool, line: seq<Note>, acts: seq<Action>, n: string, k: string): bool
    decreases |acts|
  {
    if acts == [] || line == [] then held
    else if acts[0].Deliver? && acts[0].node == n then
      Outcome(if acts[0].arrives && line[0].key == k then line[0].copy.Some? else held, line[1..], acts[1..], n, k)
    else Outcome(held, line, acts[1..], n, k)
  }

  /** What the actions do with the message behind ahead others in the list queue of n: it arrives, is dropped, or still waits. */
  ghost function Fate(acts: seq<Action>, n: string, ahead: nat): Option<bool>
    decreases |acts|
  {
    if acts == [] then None
    else if acts[0].Deliver? && acts[0].node == n then
      if ahead == 0 then Some(acts[0].arrives) else Fate(acts[1..], n, ahead - 1)
    else Fate(acts[1..], n, ahead)
  }

  ghost predicate NoNote(line: seq<Note>, k: string) { forall i :: 0 <= i < |line| ==> line[i].key != k }

  lemma {:induction false} OutcomeIgnoresOthers(held: bool, line: seq<Note>, more: seq<Note>, acts: seq<Action>, n: string, k: string)
    requires NoNote(more, k)
    ensures Outcome(held, line + more, acts, n, k) == Outcome(held, line, acts, n, k)
    decreases |acts|
  {
    if acts != [] {
      if acts[0].Deliver? && acts[0].node == n {
        if line == [] && more != [] {
          assert line + more == more && [] + more[1..] == more[1..];
          OutcomeIgnoresOthers(held, [], more[1..], acts[1..], n, k);
        } else if line != [] {
          assert (line + more)[1..] == line[1..] + more;
          var held' := if acts[0].arrives && line[0].key == k then line[0].copy.Some? else held;
          OutcomeIgnoresOthers(held', line[1..], more, acts[1..], n, k);
        }
      } else {
        OutcomeIgnoresOthers(held, line, more, acts[1..], n, k);
      }
    }
  }

  /** A Delete at the end of the list queue counts exactly when it arrives. */
  lemma {:induction false} OutcomeOfDelete(held: bool, line: seq<Note>, acts: seq<Action>, n: string, k: string)
    ensures Outcome(held, line + [Note(k, None)], acts, n, k) <==>
            Fate(acts, n, |line|) != Some(true) && Outcome(held, line, acts, n, k)
    decreases |acts|
  {
    if acts != [] {
      if acts[0].Deliver? && acts[0].node == n {
        if line != [] {
          assert (line + [Note(k, None)])[1..] == line[1..] + [Note(k, None)];
          var held' := if acts[0].arrives && line[0].key == k then line[0].copy.Some? else held;
          OutcomeOfDelete(held', line[1..], acts[1..], n, k);
        }
      } else {
        OutcomeOfDelete(held, line, acts[1..], n, k);
      }
    }
  }

  lemma {:induction false} RefreshHasNoNote(store: map<string, Resource>, order: seq<string>, k: string)
    requires k !in store
    ensures NoNote(Refresh(store, order), k)
  {
    if order != [] { RefreshHasNoNote(store, order[..|order| - 1], k); }
  }

  /** What node n holds is untouched, and its list queue grows by messages about other keys. */
  ghost predicate LeavesAlone(c: Controller, c': Controller, k: string, n: string) {
    && k !in c'.store && EdgeOf(c', n) == EdgeOf(c, n)
    && LineOf(c, n) <= LineOf(c', n) && NoNote(LineOf(c', n)[|LineOf(c, n)|..], k)
  }

  lemma IngressLeavesAlone(c: Controller, a: Action, k: string, n: string)
    requires k !in c.store && (a.Start? || a.Sync? || a.Delete?) && (!a.Delete? ==> k !in Keys(a.gen))
    ensures LeavesAlone(c, Step(c, a), k, n)
  {
    match a
    case Start(i, gen) =>
      var d := c.(index := c.index[i := {}]);
      InitPutAllRefers(d, i, gen, k);
      InitPutAllHistory(d, i, gen);
    case Sync(i, gen) =>
      var d := DropStale(c, i, Indexed(c, i) - Keys(gen));
      PutAllKeys(d, i, gen);
      PutAllHistory(d, i, gen);
    case Delete(i) =>
  }

  lemma DispatchLeavesAlone(c: Controller, x: string, failed: set<string>, k: string, n: string)
    requires k !in c.store
    ensures LeavesAlone(c, Step(c, Dispatch(x, failed)), k, n)
  {
    if x in c.store { DispatchAt(c, x, failed, n); }
  }

  lemma ReadyLeavesAlone(c: Controller, m: string, labelled: bool, order: seq<string>, k: string, n: string)
    requires k !in c.store
    ensures LeavesAlone(c, Step(c, Ready(m, labelled, order)), k, n)
  {
    RefreshHasNoNote(c.store, order, k);
    var more := Refresh(c.store, order);
    assert (LineOf(c, n) + more)[|LineOf(c, n)|..] == more;
  }

  lemma StepLeavesAlone(c: Controller, a: Action, k: string, n: string)
    requires k !in c.store && (a.Start? || a.Sync? ==> k !in Keys(a.gen)) && !(a.Deliver? && a.node == n)
    ensures LeavesAlone(c, Step(c, a), k, n)
  {
    match a
    case Start(i, gen) => IngressLeavesAlone(c, a, k, n);
    case Sync(i, gen) => IngressLeavesAlone(c, a, k, n);
    case Delete(i) => IngressLeavesAlone(c, a, k, n);
    case Dispatch(x, failed) => DispatchLeavesAlone(c, x, failed, k, n);
    case Ready(m, labelled, order) => ReadyLeavesAlone(c, m, labelled, order, k, n);
    case Deliver(m, arrives) =>
    case NotReady(m) =>
    case Regroup(members) =>
  }

  lemma OutcomeLeftAlone(c: Controller, c': Controller, rest: seq<Action>, k: string, n: string)
    requires LeavesAlone(c, c', k, n)
    ensures Outcome(k in EdgeOf(c', n), LineOf(c', n), rest, n, k) == Outcome(k in EdgeOf(c, n), LineOf(c, n), rest, n, k)
  {
    var more := LineOf(c', n)[|LineOf(c, n)|..];
    assert LineOf(c', n) == LineOf(c, n) + more;
    OutcomeIgnoresOthers(k in EdgeOf(c, n), LineOf(c, n), more, rest, n, k);
  }

  /** Once a key is out of the store, only what is already queued for a node decides whether the node holds it. */
  lemma {:induction false} GoneRun(c: Controller, acts: seq<Action>, k: string, n: string)
    requires k !in c.store && NeverGenerated(acts, k)
    ensures k in EdgeOf(Run(c, acts), n) <==> Outcome(k in EdgeOf(c, n), LineOf(c, n), acts, n, k)
    decreases |acts|
  {
    if acts != [] {
      var (a, rest) := (acts[0], acts[1..]);
      assert a in acts && NeverGenerated(rest, k);
      if a.Deliver? && a.node == n {
        GoneRun(DeliverNext(c, n, a.arrives), rest, k, n);
      } else {
        StepLeavesAlone(c, a, k, n);
        GoneRun(Step(c, a), rest, k, n);
        OutcomeLeftAlone(c, Step(c, a), rest, k, n);
      }
    }
  }

  lemma {:induction false} OutcomeWithoutNotes(held: bool, line: seq<Note>, acts: seq<Action>, n: string, k: string)
    requires NoNote(line, k)
    ensures Outcome(held, line, acts, n, k) == held
  {
    OutcomeIgnoresOthers(held, [], line, acts, n, k);
    assert [] + line == line;
  }

  /** The Delete of an orphaned resource is queued for the node. */
  ghost predicate Reached(c: Controller, k: string, failed: set<string>, n: string)
    requires k in c.store
  {
    n in c.ready && InGroups(c, n, c.store[k].groups) && n !in failed
  }

  /**
   * A node holds an orphaned resource after its one dispatch and any later run that does not generate it again, if and
   * only if what was already queued for the node leaves it there, and the Delete was not queued for the node (it was
   * not ready, not in the groups, or sending to it failed), was dropped by the list write loop, or still waits there.
   */
  lemma DeleteLostIff(c: Controller, k: string, failed: set<string>, n: string, acts: seq<Action>)
    requires k in c.store && c.store[k].refs == {} && NeverGenerated(acts, k)
    ensures k in EdgeOf(Run(Step(c, Dispatch(k, failed)), acts), n) <==>
            && (!Reached(c, k, failed, n) || Fate(acts, n, |LineOf(c, n)|) != Some(true))
            && Outcome(k in EdgeOf(c, n), LineOf(c, n), acts, n, k)
    ensures NoNote(LineOf(c, n), k) ==> Outcome(k in EdgeOf(c, n), LineOf(c, n), acts, n, k) == (k in EdgeOf(c, n))
  {
    DispatchAt(c, k, failed, n);
    GoneRun(Step(c, Dispatch(k, failed)), acts, k, n);
    OutcomeOfDelete(k in EdgeOf(c, n), LineOf(c, n), acts, n, k);
    if NoNote(LineOf(c, n), k) { OutcomeWithoutNotes(k in EdgeOf(c, n), LineOf(c, n), acts, n, k); }
  }

  /**
   * Deleting the only referrer of an indexed resource queues it; its dispatch takes it out of the store and sends the
   * Delete to exactly the ready members of its groups. A node with nothing about it under way loses it exactly when
   * that message was sent to the node without an error and arrives.
   */
  lemma SoleOwnerIsCleanedUp(c: Controller, i: string, k: string, failed: set<string>, n: string, acts: seq<Action>)
    requires Reachable(c) && InIndex(c, i, k) && k in c.store && c.store[k].refs == {i}
    requires k in EdgeOf(c, n) && NoNote(LineOf(c, n), k) && NeverGenerated(acts, k)
    ensures var d := Step(c, Delete(i));
            && k in d.waiting && k in d.store && d.store[k].refs == {}
            && var e := Step(d, Dispatch(k, failed));
               && k !in e.store && e.sent == d.sent + [Order(k, DeleteOp, Targets(c, k))]
               && (k in EdgeOf(Run(e, acts), n) <==>
                     n !in Targets(c, k) || n in failed || Fate(acts, n, |LineOf(c, n)|) != Some(true))
  {
    var d := Step(c, Delete(i));
    assert k in Emptied(c, i, Indexed(c, i));
    assert forall m :: InGroups(d, m, c.store[k].groups) <==> InGroups(c, m, c.store[k].groups);
    assert Targets(d, k) == Targets(c, k);
    DeleteLostIff(d, k, failed, n, acts);
  }

  /** A sync never changes the node groups of a stored resource, so a second ingress's groups are not added. */
  lemma SecondGroupIsIgnored(c: Controller, i: string, gen: seq<Generated>, k: string)
    requires k in c.store
    ensures var c' := Step(c, Sync(i, gen));
            k in c'.store && c'.store[k].groups == c.store[k].groups && Targets(c', k) == Targets(c, k)
  {
    var d := DropStale(c, i, Indexed(c, i) - Keys(gen));
    PutAllHistory(d, i, gen);
    var c' := Step(c, Sync(i, gen));
    assert forall m :: InGroups(c', m, c.store[k].groups) <==> InGroups(c, m, c.store[k].groups);
  }

  /** One ready node in one group, one resource, one dropped message: nothing is pending and the node lacks the resource. */
  lemma ReadyNodeCanLack(key: string, group: string, node: string, version: string, spec: string)
    ensures var g := Generated(key, {group}, version, spec);
            var c := Run(Initial(map[group := [node]], {node}, map[]), [Sync("a", [g]), Dispatch(key, {}), Deliver(node, false)]);
            Due(c, node, key) && LineOf(c, node) == [] && Held(c, node, key) == None
  {
    var g := Generated(key, {group}, version, spec);
    var acts := [Sync("a", [g]), Dispatch(key, {}), Deliver(node, false)];
    var c := Initial(map[group := [node]], {node}, map[]);
    var start := DropStale(c, "a", Indexed(c, "a") - Keys([g]));
    var d := Step(c, acts[0]);
    assert [g][..0] == [] && PutAll(start, "a", [g]) == Put(start, "a", g);
    assert d.store[key] == Resource({"a"}, {group}, version, spec) && EdgeOf(d, node) == map[] && LineOf(d, node) == [];
    assert InGroups(d, node, {group}) by { assert group in {group} && node in d.members[group]; }
    var e := Step(d, acts[1]);
    DispatchAt(d, key, {}, node);
    assert node in Targets(d, key);
    var f := Step(e, acts[2]);
    assert InGroups(f, node, {group}) by { assert group in {group} && node in f.members[group]; }
    assert Run(f, acts[3..]) == f;
    assert Run(e, acts[2..]) == f by { assert acts[2..][1..] == acts[3..]; }
    assert Run(d, acts[1..]) == f by { assert acts[1..][1..] == acts[2..]; }
  }
}
