// Reference counting of generated Envoy resources: the resource store, the per-ingress name index
// and the dispatch queue, over every run of the controller.
module IngressStore {
  import opened Text

  /** A generated resource under its key, for the node groups of its ingress; the protobuf body is an opaque text. */
  datatype Generated = Generated(key: string, groups: set<string>, version: string, spec: string)

  datatype Resource = Resource(refs: set<string>, groups: set<string>, version: string, spec: string)

  /** What a node holds of one resource: its version and body. */
  type Copy = (string, string)

  function CopyOf(r: Resource): Copy { (r.version, r.spec) }

  datatype Operation = InsertOp | DeleteOp

  /** A message on its way to one node: the resource, or its deletion. */
  datatype Note = Note(key: string, copy: Option<Copy>)

  /** One dispatch: the key, the operation and the nodes it is sent to. */
  datatype Order = Order(key: string, op: Operation, nodes: set<string>)

  /**
   * waiting is the content of resourceQueue, including keys that will be retried after a delay;
   * members is Group2node and ready the nodes whose recorded status is "True"; line is the list queue
   * of each node in the cloud hub. latest (what the last sync of each live ingress generated), sent (the
   * dispatches) and edge (what each node holds after the messages that arrived) are history.
   */
  datatype Controller = Controller(store: map<string, Resource>, index: map<string, set<string>>, waiting: set<string>,
                                   members: map<string, seq<string>>, ready: set<string>, line: map<string, seq<Note>>,
                                   latest: map<string, set<string>>, sent: seq<Order>, edge: map<string, map<string, Copy>>)

  /** Before start-up, with the nodes initCache has found and whatever they still hold. */
  function Initial(members: map<string, seq<string>>, ready: set<string>, edge: map<string, map<string, Copy>>): Controller {
    Controller(map[], map[], {}, members, ready, map[], map[], [], edge)
  }

  function Keys(gen: seq<Generated>): set<string> { set g | g in gen :: g.key }

  function Indexed(c: Controller, i: string): set<string> { if i in c.index then c.index[i] else {} }

  // ---------------------------------------------------------------- dropping references

  /** The resource stored under k once ingress i no longer refers to the keys in stale. */
  function Dropped(c: Controller, i: string, stale: set<string>, k: string): Resource
    requires k in c.store
  {
    if k in stale then c.store[k].(refs := c.store[k].refs - {i}) else c.store[k]
  }

  function DropStore(c: Controller, i: string, stale: set<string>): map<string, Resource> {
    map k | k in c.store :: Dropped(c, i, stale, k)
  }

  /** Those of the keys whose last reference goes away. */
  function Emptied(c: Controller, i: string, stale: set<string>): set<string> {
    set k | k in stale && k in c.store && c.store[k].refs - {i} == {}
  }

  /** The deletion half of a sync: keys still referenced by others stay in the index of i. */
  function DropStale(c: Controller, i: string, stale: set<string>): Controller {
    var gone := Emptied(c, i, stale);
    c.(store := DropStore(c, i, stale), waiting := c.waiting + gone, index := c.index[i := Indexed(c, i) - gone])
  }

  /** An ingress that no longer exists. */
  function DeleteIngress(c: Controller, i: string): Controller {
    var keys := Indexed(c, i);
    c.(store := DropStore(c, i, keys), waiting := c.waiting + Emptied(c, i, keys), index := c.index - {i}, latest := c.latest - {i})
  }

  // ---------------------------------------------------------------- adding references

  /** Insertion of one resource; only a resource that was not stored yet is indexed, and a stored one keeps its node groups. */
  function Put(c: Controller, i: string, g: Generated): Controller
    requires i in c.index
  {
    if g.key !in c.store then
      c.(store := c.store[g.key := Resource({i}, g.groups, g.version, g.spec)],
         index := c.index[i := c.index[i] + {g.key}],
         waiting := c.waiting + {g.key})
    else
      c.(store := c.store[g.key := Resource(c.store[g.key].refs + {i}, c.store[g.key].groups, g.version, g.spec)],
         waiting := c.waiting + {g.key})
  }

  /** The same at start-up, where an unchanged resource is not queued again. */
  function InitPut(c: Controller, i: string, g: Generated): Controller
    requires i in c.index
  {
    if g.key in c.store && c.store[g.key].spec == g.spec then
      c.(store := c.store[g.key := c.store[g.key].(refs := c.store[g.key].refs + {i})])
    else Put(c, i, g)
  }

  function PutAll(c: Controller, i: string, gen: seq<Generated>): (r: Controller)
    requires i in c.index
    ensures i in r.index
  {
    if gen == [] then c else Put(PutAll(c, i, gen[..|gen| - 1]), i, gen[|gen| - 1])
  }

  function InitPutAll(c: Controller, i: string, gen: seq<Generated>): (r: Controller)
    requires i in c.index
    ensures i in r.index
  {
    if gen == [] then c else InitPut(InitPutAll(c, i, gen[..|gen| - 1]), i, gen[|gen| - 1])
  }

  // ---------------------------------------------------------------- steps

  function SyncIngress(c: Controller, i: string, gen: seq<Generated>): Controller {
    PutAll(DropStale(c, i, Indexed(c, i) - Keys(gen)), i, gen).(latest := c.latest[i := Keys(gen)])
  }

  /** One ingress of initiateEnvoyResources. */
  function InitIngress(c: Controller, i: string, gen: seq<Generated>): Controller {
    InitPutAll(c.(index := c.index[i := {}]), i, gen).(latest := c.latest[i := Keys(gen)])
  }

  function EdgeOf(c: Controller, n: string): map<string, Copy> { if n in c.edge then c.edge[n] else map[] }

  predicate InGroups(c: Controller, n: string, groups: set<string>) {
    exists g :: g in groups && g in c.members && n in c.members[g]
  }

  /** The nodes a dispatch of the resource goes to: ready members of its groups. */
  function Targets(c: Controller, k: string): set<string>
    requires k in c.store
  {
    set n | n in c.ready && InGroups(c, n, c.store[k].groups)
  }

  function LineOf(c: Controller, n: string): seq<Note> { if n in c.line then c.line[n] else [] }

  /** The list queues with one more message for each of the nodes. */
  function Posted(line: map<string, seq<Note>>, nodes: set<string>, note: Note): map<string, seq<Note>> {
    map n | n in line.Keys + nodes :: (if n in line then line[n] else []) + if n in nodes then [note] else []
  }

  /**
   * syncEnvoyResource; failed are the nodes for which building or sending the message reports an error. A missing
   * resource or a failed node puts the key back after a delay. With no ready node nothing is sent and the key is forgotten.
   */
  function DispatchResource(c: Controller, k: string, failed: set<string>): Controller {
    if k !in c.store then c.(waiting := c.waiting + {k})
    else
      var (r, nodes) := (c.store[k], Targets(c, k));
      var c' := c.(waiting := if nodes * failed != {} then c.waiting + {k} else c.waiting - {k});
      if r.refs != {} then
        c'.(sent := c.sent + [Order(k, InsertOp, nodes)], line := Posted(c.line, nodes - failed, Note(k, Some(CopyOf(r)))))
      else
        c'.(sent := c.sent + [Order(k, DeleteOp, nodes)], line := Posted(c.line, nodes - failed, Note(k, None)), store := c.store - {k})
  }

  /** What a node is sent when it turns ready: the stored resources in the order they are visited, whatever their groups. */
  function Refresh(store: map<string, Resource>, order: seq<string>): seq<Note> {
    if order == [] then []
    else
      var k := order[|order| - 1];
      Refresh(store, order[..|order| - 1]) + if k in store then [Note(k, Some(CopyOf(store[k])))] else []
  }

  /**
   * A node event. A node without the node group label is not recorded; syncAllResourcesToEdgeNodes is called only
   * when the node turns ready, and order are the keys it sends: the others reported an error, which is dropped.
   */
  function NodeReady(c: Controller, n: string, labelled: bool, order: seq<string>): Controller {
    if n in c.ready || !labelled then c
    else c.(ready := c.ready + {n}, line := c.line[n := LineOf(c, n) + Refresh(c.store, order)])
  }

  function Apply(held: map<string, Copy>, note: Note): map<string, Copy> {
    if note.copy.Some? then held[note.key := note.copy.value] else held - {note.key}
  }

  /** One message of the list write loop; without a connection, or after a write error, it is dropped for good. */
  function DeliverNext(c: Controller, n: string, arrives: bool): Controller {
    if LineOf(c, n) == [] then c
    else
      var (head, rest) := (LineOf(c, n)[0], LineOf(c, n)[1..]);
      c.(line := c.line[n := rest], edge := if arrives then c.edge[n := Apply(EdgeOf(c, n), head)] else c.edge)
  }

  datatype Action =
    | Start(ingress: string, gen: seq<Generated>)              // during start-up
    | Sync(ingress: string, gen: seq<Generated>)
    | Delete(ingress: string)
    | Dispatch(key: string, failed: set<string>)
    | Ready(node: string, labelled: bool, order: seq<string>)
    | Deliver(node: string, arrives: bool)                     // by the list write loop
    | NotReady(node: string)                                   // also when the node is deleted
    | Regroup(members: map<string, seq<string>>)               // labels of nodes changed

  function Step(c: Controller, a: Action): Controller {
    match a
    case Start(i, gen) => InitIngress(c, i, gen)
    case Sync(i, gen) => SyncIngress(c, i, gen)
    case Delete(i) => DeleteIngress(c, i)
    case Dispatch(k, failed) => DispatchResource(c, k, failed)
    case Ready(n, labelled, order) => NodeReady(c, n, labelled, order)
    case Deliver(n, arrives) => DeliverNext(c, n, arrives)
    case NotReady(n) => c.(ready := c.ready - {n})
    case Regroup(members) => c.(members := members)
  }

  function Run(c: Controller, acts: seq<Action>): Controller
    decreases |acts|
  {
    if acts == [] then c else Run(Step(c, acts[0]), acts[1..])
  }

  // ---------------------------------------------------------------- the invariant

  ghost predicate RefersTo(c: Controller, i: string, k: string) { k in c.store && i in c.store[k].refs }

  ghost predicate InIndex(c: Controller, i: string, k: string) { i in c.index && k in c.index[i] }

  /** A resource is indexed by at most one ingress. */
  ghost predicate IndexedOnce(c: Controller) {
    forall i, j, k :: InIndex(c, i, k) && InIndex(c, j, k) ==> i == j
  }

  /** An indexed resource is stored and still referred to. */
  ghost predicate IndexedIsLive(c: Controller) {
    forall i, k :: InIndex(c, i, k) ==> k in c.store && c.store[k].refs != {}
  }

  /** A resource nobody refers to waits to be dispatched. */
  ghost predicate OrphansWait(c: Controller) {
    forall k :: k in c.store && c.store[k].refs == {} ==> k in c.waiting
  }

  /** What the last sync of a live ingress generated is stored and refers to it. */
  ghost predicate LatestIsReferenced(c: Controller) {
    forall i, k :: i in c.latest && k in c.latest[i] ==> RefersTo(c, i, k)
  }

  ghost predicate Inv(c: Controller) {
    IndexedOnce(c) && IndexedIsLive(c) && OrphansWait(c) && LatestIsReferenced(c)
  }

  /** The invariant without what concerns the ingress being synced. */
  ghost predicate StoreInv(c: Controller) { IndexedOnce(c) && IndexedIsLive(c) && OrphansWait(c) }

  ghost predicate OthersReferenced(c: Controller, i: string) {
    forall j, k :: j in c.latest && j != i && k in c.latest[j] ==> RefersTo(c, j, k)
  }

  lemma DropStaleKeeps(c: Controller, i: string, stale: set<string>)
    requires Inv(c) && stale <= Indexed(c, i)
    ensures StoreInv(DropStale(c, i, stale)) && OthersReferenced(DropStale(c, i, stale), i)
  {
    var c' := DropStale(c, i, stale);
    forall j, k | InIndex(c', j, k) ensures InIndex(c, j, k) && k in c'.store && c'.store[k].refs != {} {
      assert InIndex(c, j, k);
      if k in stale {
        assert InIndex(c, i, k);
        assert k !in Emptied(c, i, stale);
      }
    }
    forall j, k | j in c'.latest && j != i && k in c'.latest[j] ensures RefersTo(c', j, k) {
      assert RefersTo(c, j, k);
    }
  }

  lemma DeleteKeeps(c: Controller, i: string)
    requires Inv(c)
    ensures Inv(DeleteIngress(c, i))
  {
    var c' := DeleteIngress(c, i);
    forall j, k | InIndex(c', j, k) ensures InIndex(c, j, k) && k in c'.store && c'.store[k].refs != {} {
      assert InIndex(c, j, k);
      assert k !in Indexed(c, i) by {
        if k in Indexed(c, i) {
          assert InIndex(c, i, k);
        }
      }
    }
    forall j, k | j in c'.latest && k in c'.latest[j] ensures RefersTo(c', j, k) {
      assert RefersTo(c, j, k);
    }
  }

  lemma PutKeeps(c: Controller, i: string, g: Generated)
    requires StoreInv(c) && i in c.index && OthersReferenced(c, i)
    ensures StoreInv(Put(c, i, g)) && OthersReferenced(Put(c, i, g), i)
    ensures RefersTo(Put(c, i, g), i, g.key)
    ensures forall j, k :: RefersTo(c, j, k) ==> RefersTo(Put(c, i, g), j, k)
  {
    var c' := Put(c, i, g);
    forall j, k | InIndex(c', j, k) ensures InIndex(c, j, k) || (j == i && k == g.key && k !in c.store) {
    }
    forall j, k | j in c'.latest && j != i && k in c'.latest[j] ensures RefersTo(c', j, k) {
      assert RefersTo(c, j, k);
    }
  }

  lemma InitPutKeeps(c: Controller, i: string, g: Generated)
    requires StoreInv(c) && i in c.index && OthersReferenced(c, i)
    ensures StoreInv(InitPut(c, i, g)) && OthersReferenced(InitPut(c, i, g), i)
    ensures RefersTo(InitPut(c, i, g), i, g.key)
    ensures forall j, k :: RefersTo(c, j, k) ==> RefersTo(InitPut(c, i, g), j, k)
  {
    if g.key in c.store && c.store[g.key].spec == g.spec {
      var c' := InitPut(c, i, g);
      assert forall j, k :: InIndex(c', j, k) <==> InIndex(c, j, k);
      forall j, k | j in c'.latest && j != i && k in c'.latest[j] ensures RefersTo(c', j, k) {
        assert RefersTo(c, j, k);
      }
    } else {
      PutKeeps(c, i, g);
    }
  }

  lemma {:induction false} PutAllKeeps(c: Controller, i: string, gen: seq<Generated>)
    requires StoreInv(c) && i in c.index && OthersReferenced(c, i)
    ensures StoreInv(PutAll(c, i, gen)) && OthersReferenced(PutAll(c, i, gen), i)
    ensures PutAll(c, i, gen).latest == c.latest
    ensures forall k :: k in Keys(gen) ==> RefersTo(PutAll(c, i, gen), i, k)
  {
    if gen != [] {
      var (init, g) := (gen[..|gen| - 1], gen[|gen| - 1]);
      PutAllKeeps(c, i, init);
      PutKeeps(PutAll(c, i, init), i, g);
      assert Keys(gen) == Keys(init) + {g.key} by { assert gen == init + [g]; }
    }
  }

  lemma {:induction false} InitPutAllKeeps(c: Controller, i: string, gen: seq<Generated>)
    requires StoreInv(c) && i in c.index && OthersReferenced(c, i)
    ensures StoreInv(InitPutAll(c, i, gen)) && OthersReferenced(InitPutAll(c, i, gen), i)
    ensures InitPutAll(c, i, gen).latest == c.latest
    ensures forall k :: k in Keys(gen) ==> RefersTo(InitPutAll(c, i, gen), i, k)
  {
    if gen != [] {
      var (init, g) := (gen[..|gen| - 1], gen[|gen| - 1]);
      InitPutAllKeeps(c, i, init);
      InitPutKeeps(InitPutAll(c, i, init), i, g);
      assert Keys(gen) == Keys(init) + {g.key} by { assert gen == init + [g]; }
    }
  }

  /** Setting what the synced ingress generated completes the invariant. */
  lemma CloseLatest(c: Controller, i: string, keys: set<string>)
    requires StoreInv(c) && OthersReferenced(c, i)
    requires forall k :: k in keys ==> RefersTo(c, i, k)
    ensures Inv(c.(latest := c.latest[i := keys]))
  {
    var c' := c.(latest := c.latest[i := keys]);
    assert forall j, k :: InIndex(c', j, k) <==> InIndex(c, j, k);
    assert forall j, k :: RefersTo(c', j, k) <==> RefersTo(c, j, k);
  }

  lemma SyncKeeps(c: Controller, i: string, gen: seq<Generated>)
    requires Inv(c)
    ensures Inv(SyncIngress(c, i, gen))
  {
    var d := DropStale(c, i, Indexed(c, i) - Keys(gen));
    DropStaleKeeps(c, i, Indexed(c, i) - Keys(gen));
    PutAllKeeps(d, i, gen);
    CloseLatest(PutAll(d, i, gen), i, Keys(gen));
  }

  lemma InitKeeps(c: Controller, i: string, gen: seq<Generated>)
    requires Inv(c)
    ensures Inv(InitIngress(c, i, gen))
  {
    var d := c.(index := c.index[i := {}]);
    assert forall j, k :: InIndex(d, j, k) ==> InIndex(c, j, k);
    assert forall j, k :: RefersTo(d, j, k) <==> RefersTo(c, j, k);
    InitPutAllKeeps(d, i, gen);
    CloseLatest(InitPutAll(d, i, gen), i, Keys(gen));
  }

  /** The invariant does not depend on the nodes. */
  lemma NodesKeep(c: Controller, c': Controller)
    requires Inv(c) && c'.store == c.store && c'.index == c.index && c'.waiting == c.waiting && c'.latest == c.latest
    ensures Inv(c')
  {
    assert forall i, k :: InIndex(c', i, k) <==> InIndex(c, i, k);
    assert forall i, k :: RefersTo(c', i, k) <==> RefersTo(c, i, k);
  }

  /** Dropping an orphan from the store. */
  lemma OrphanLeaves(c: Controller, c': Controller, k: string)
    requires Inv(c) && k in c.store && c.store[k].refs == {}
    requires c'.store == c.store - {k} && c'.index == c.index && c'.latest == c.latest && c.waiting - {k} <= c'.waiting
    ensures Inv(c')
  {
    assert forall i, x :: InIndex(c', i, x) <==> InIndex(c, i, x);
    forall i, x | i in c'.latest && x in c'.latest[i] ensures RefersTo(c', i, x) {
      assert RefersTo(c, i, x);
    }
  }

  /** Nothing but the queue changes, which loses at most a key that is still referred to. */
  lemma QueueChanges(c: Controller, c': Controller, k: string)
    requires Inv(c) && c'.store == c.store && c'.index == c.index && c'.latest == c.latest && c.waiting - {k} <= c'.waiting
    requires k in c.store && k !in c'.waiting ==> c.store[k].refs != {}
    ensures Inv(c')
  {
    assert forall i, x :: InIndex(c', i, x) <==> InIndex(c, i, x);
    assert forall i, x :: RefersTo(c', i, x) <==> RefersTo(c, i, x);
  }

  lemma DispatchKeeps(c: Controller, k: string, failed: set<string>)
    requires Inv(c)
    ensures Inv(DispatchResource(c, k, failed))
  {
    if k in c.store && c.store[k].refs == {} {
      OrphanLeaves(c, DispatchResource(c, k, failed), k);
    } else {
      QueueChanges(c, DispatchResource(c, k, failed), k);
    }
  }

  lemma StepKeeps(c: Controller, a: Action)
    requires Inv(c)
    ensures Inv(Step(c, a))
  {
    match a
    case Start(i, gen) => InitKeeps(c, i, gen);
    case Sync(i, gen) => SyncKeeps(c, i, gen);
    case Delete(i) => DeleteKeeps(c, i);
    case Dispatch(k, failed) => DispatchKeeps(c, k, failed);
    case Ready(n, labelled, order) => NodesKeep(c, Step(c, a));
    case Deliver(n, arrives) => NodesKeep(c, Step(c, a));
    case NotReady(n) => NodesKeep(c, Step(c, a));
    case Regroup(members) => NodesKeep(c, Step(c, a));
  }

  /** Every reachable state keeps the store, the index and the queue consistent. */
  lemma {:induction false} RunKeeps(c: Controller, acts: seq<Action>)
    requires Inv(c)
    ensures Inv(Run(c, acts))
    decreases |acts|
  {
    if acts != [] {
      StepKeeps(c, acts[0]);
      RunKeeps(Step(c, acts[0]), acts[1..]);
    }
  }

  /** A state some run leads to, from any set of nodes. */
  ghost predicate Reachable(c: Controller) {
    exists members, ready, edge, acts :: Run(Initial(members, ready, edge), acts) == c
  }

  /** In every reachable state: indexed once, indexed means stored and referred to, orphans wait. */
  lemma ReachableConsistent(c: Controller)
    requires Reachable(c)
    ensures Inv(c)
  {
    var members, ready, edge, acts :| Run(Initial(members, ready, edge), acts) == c;
    RunKeeps(Initial(members, ready, edge), acts);
  }

  /** No Delete is ever dispatched for a resource that the last sync of a live ingress generated. */
  lemma NoLiveResourceIsDeleted(c: Controller, k: string, failed: set<string>)
    requires Reachable(c) && k in c.store
    requires Step(c, Dispatch(k, failed)).sent == c.sent + [Order(k, DeleteOp, Targets(c, k))]
    ensures forall i :: (i in c.latest ==> k !in c.latest[i]) && !InIndex(c, i, k)
  {
    ReachableConsistent(c);
    assert c.store[k].refs == {} by {
      assert (c.sent + [Order(k, DeleteOp, Targets(c, k))])[|c.sent|].op == DeleteOp;
    }
    forall i ensures (i in c.latest ==> k !in c.latest[i]) && !InIndex(c, i, k) {
      assert !RefersTo(c, i, k);
    }
  }

  // ---------------------------------------------------------------- references that are never taken back

  /** A reference the name index does not know about. */
  ghost predicate Leaked(c: Controller, i: string, k: string) { RefersTo(c, i, k) && !InIndex(c, i, k) }

  lemma KeysSnoc(gen: seq<Generated>, g: Generated)
    ensures Keys(gen + [g]) == Keys(gen) + {g.key}
  {
  }

  lemma PutStores(c: Controller, i: string, g: Generated)
    requires i in c.index
    ensures Put(c, i, g).store.Keys == c.store.Keys + {g.key}
  {
  }

  lemma PutIndexes(c: Controller, i: string, g: Generated, j: string, k: string)
    requires i in c.index
    ensures InIndex(Put(c, i, g), j, k) <==> InIndex(c, j, k) || (j == i && k == g.key && k !in c.store)
  {
  }

  lemma PutRefers(c: Controller, i: string, g: Generated, j: string, k: string)
    requires i in c.index
    ensures RefersTo(c, j, k) ==> RefersTo(Put(c, i, g), j, k)
  {
  }

  lemma {:induction false} PutAllKeys(c: Controller, i: string, gen: seq<Generated>)
    requires i in c.index
    ensures PutAll(c, i, gen).store.Keys == c.store.Keys + Keys(gen)
  {
    if gen != [] {
      var (init, g) := (gen[..|gen| - 1], gen[|gen| - 1]);
      PutAllKeys(c, i, init);
      PutStores(PutAll(c, i, init), i, g);
      assert gen == init + [g];
      KeysSnoc(init, g);
    }
  }

  lemma {:induction false} PutAllIndexes(c: Controller, i: string, gen: seq<Generated>, j: string, k: string)
    requires i in c.index
    ensures InIndex(PutAll(c, i, gen), j, k) <==> InIndex(c, j, k) || (j == i && k in Keys(gen) && k !in c.store)
    ensures RefersTo(c, j, k) ==> RefersTo(PutAll(c, i, gen), j, k)
  {
    if gen != [] {
      var (init, g) := (gen[..|gen| - 1], gen[|gen| - 1]);
      PutAllKeys(c, i, init);
      PutAllIndexes(c, i, init, j, k);
      PutIndexes(PutAll(c, i, init), i, g, j, k);
      PutRefers(PutAll(c, i, init), i, g, j, k);
      assert gen == init + [g];
      KeysSnoc(init, g);
    }
  }

  lemma {:induction false} InitPutAllIndexes(c: Controller, i: string, gen: seq<Generated>, j: string, k: string)
    requires i in c.index
    ensures InIndex(InitPutAll(c, i, gen), j, k) ==> InIndex(c, j, k) || (j == i && k !in c.store)
    ensures RefersTo(c, j, k) ==> RefersTo(InitPutAll(c, i, gen), j, k)
    ensures c.store.Keys <= InitPutAll(c, i, gen).store.Keys
  {
    if gen != [] {
      InitPutAllIndexes(c, i, gen[..|gen| - 1], j, k);
    }
  }

  /** A sync leaks its reference exactly when the resource was already stored without being in its own index. */
  lemma SyncLeaksIff(c: Controller, i: string, gen: seq<Generated>, k: string)
    requires Reachable(c) && k in Keys(gen)
    ensures Leaked(Step(c, Sync(i, gen)), i, k) <==> k in c.store && k !in Indexed(c, i)
  {
    ReachableConsistent(c);
    var d := DropStale(c, i, Indexed(c, i) - Keys(gen));
    DropStaleKeeps(c, i, Indexed(c, i) - Keys(gen));
    PutAllIndexes(d, i, gen, i, k);
    PutAllKeeps(d, i, gen);
    if k in Indexed(c, i) {
      assert InIndex(c, i, k);
      assert k !in Emptied(c, i, Indexed(c, i) - Keys(gen));
      assert InIndex(d, i, k);
    }
  }

  lemma InitPutRefers(c: Controller, i: string, g: Generated, k: string)
    requires i in c.index
    ensures RefersTo(InitPut(c, i, g), i, k) <==> RefersTo(c, i, k) || k == g.key
    ensures InIndex(InitPut(c, i, g), i, k) <==> InIndex(c, i, k) || (k == g.key && k !in c.store)
    ensures InitPut(c, i, g).store.Keys == c.store.Keys + {g.key}
  {
  }

  lemma {:induction false} InitPutAllRefers(c: Controller, i: string, gen: seq<Generated>, k: string)
    requires i in c.index
    ensures RefersTo(InitPutAll(c, i, gen), i, k) <==> RefersTo(c, i, k) || k in Keys(gen)
    ensures InIndex(InitPutAll(c, i, gen), i, k) <==> InIndex(c, i, k) || (k in Keys(gen) && k !in c.store)
    ensures InitPutAll(c, i, gen).store.Keys == c.store.Keys + Keys(gen)
  {
    if gen != [] {
      var (init, g) := (gen[..|gen| - 1], gen[|gen| - 1]);
      InitPutAllRefers(c, i, init, k);
      InitPutRefers(InitPutAll(c, i, init), i, g, k);
      assert Keys(gen) == Keys(init) + {g.key} by { assert gen == init + [g]; }
    }
  }

  /** Start-up resets the index of the ingress, and so leaks every reference to a resource that was already stored. */
  lemma StartLeaksIff(c: Controller, i: string, gen: seq<Generated>, k: string)
    ensures Leaked(Step(c, Start(i, gen)), i, k) <==> k in c.store && (k in Keys(gen) || i in c.store[k].refs)
  {
    InitPutAllRefers(c.(index := c.index[i := {}]), i, gen, k);
  }

  /** Nothing but store, index and queue changes, and stored resources stay, with their node groups. */
  ghost predicate OnlyAdds(c: Controller, r: Controller) {
    && r.sent == c.sent && r.latest == c.latest && r.edge == c.edge && r.line == c.line && r.members == c.members && r.ready == c.ready
    && forall k :: k in c.store ==> k in r.store && r.store[k].groups == c.store[k].groups
  }

  lemma PutOnlyAdds(c: Controller, i: string, g: Generated)
    requires i in c.index
    ensures OnlyAdds(c, Put(c, i, g)) && OnlyAdds(c, InitPut(c, i, g))
  {
  }

  lemma {:induction false} PutAllHistory(c: Controller, i: string, gen: seq<Generated>)
    requires i in c.index
    ensures OnlyAdds(c, PutAll(c, i, gen))
  {
    if gen != [] {
      var (init, g) := (gen[..|gen| - 1], gen[|gen| - 1]);
      PutAllHistory(c, i, init);
      PutOnlyAdds(PutAll(c, i, init), i, g);
    }
  }

  lemma {:induction false} InitPutAllHistory(c: Controller, i: string, gen: seq<Generated>)
    requires i in c.index
    ensures OnlyAdds(c, InitPutAll(c, i, gen))
  {
    if gen != [] {
      var (init, g) := (gen[..|gen| - 1], gen[|gen| - 1]);
      InitPutAllHistory(c, i, init);
      PutOnlyAdds(InitPutAll(c, i, init), i, g);
    }
  }

  /** The reference stays outside the index, with the node groups of its resource. */
  ghost predicate StillLeaked(c: Controller, c': Controller, i: string, k: string)
    requires k in c.store
  {
    Leaked(c', i, k) && c'.store[k].groups == c.store[k].groups
  }

  lemma LeakSurvivesStart(c: Controller, j: string, gen: seq<Generated>, i: string, k: string)
    requires Leaked(c, i, k)
    ensures StillLeaked(c, Step(c, Start(j, gen)), i, k) && Step(c, Start(j, gen)).sent == c.sent
  {
    var d := c.(index := c.index[j := {}]);
    assert Leaked(d, i, k);
    InitPutAllIndexes(d, j, gen, i, k);
    InitPutAllHistory(d, j, gen);
  }

  lemma LeakSurvivesSync(c: Controller, j: string, gen: seq<Generated>, i: string, k: string)
    requires Leaked(c, i, k)
    ensures StillLeaked(c, Step(c, Sync(j, gen)), i, k) && Step(c, Sync(j, gen)).sent == c.sent
  {
    var d := DropStale(c, j, Indexed(c, j) - Keys(gen));
    assert i == j ==> k !in Indexed(c, j);
    assert StillLeaked(c, d, i, k);
    PutAllIndexes(d, j, gen, i, k);
    PutAllHistory(d, j, gen);
  }

  lemma LeakSurvivesDelete(c: Controller, j: string, i: string, k: string)
    requires Leaked(c, i, k)
    ensures StillLeaked(c, Step(c, Delete(j)), i, k) && Step(c, Delete(j)).sent == c.sent
  {
    assert i == j ==> k !in Indexed(c, j);
  }

  lemma LeakSurvivesDispatch(c: Controller, x: string, failed: set<string>, i: string, k: string)
    requires Leaked(c, i, k)
    ensures StillLeaked(c, Step(c, Dispatch(x, failed)), i, k)
    ensures var s := Step(c, Dispatch(x, failed)).sent;
            s == c.sent || exists o :: s == c.sent + [o] && !(o.key == k && o.op == DeleteOp)
  {
    if x in c.store {
      var o := Order(x, if c.store[x].refs != {} then InsertOp else DeleteOp, Targets(c, x));
      assert Step(c, Dispatch(x, failed)).sent == c.sent + [o] && !(o.key == k && o.op == DeleteOp);
    }
  }

  lemma LeakPersists(c: Controller, a: Action, i: string, k: string)
    requires Leaked(c, i, k)
    ensures StillLeaked(c, Step(c, a), i, k)
    ensures var s := Step(c, a).sent; s == c.sent || exists o :: s == c.sent + [o] && !(o.key == k && o.op == DeleteOp)
  {
    match a
    case Start(j, gen) => LeakSurvivesStart(c, j, gen, i, k);
    case Sync(j, gen) => LeakSurvivesSync(c, j, gen, i, k);
    case Delete(j) => LeakSurvivesDelete(c, j, i, k);
    case Dispatch(x, failed) => LeakSurvivesDispatch(c, x, failed, i, k);
    case Ready(n, labelled, order) =>
    case Deliver(n, arrives) =>
    case NotReady(n) =>
    case Regroup(members) =>
  }

  /**
   * A leaked reference is never taken back: whatever happens later, no Delete of the resource is dispatched,
   * and its node groups stay those of the first ingress.
   */
  lemma {:induction false} LeakIsForever(c: Controller, acts: seq<Action>, i: string, k: string)
    requires Leaked(c, i, k)
    ensures Leaked(Run(c, acts), i, k)
    ensures c.sent <= Run(c, acts).sent
    ensures forall t :: |c.sent| <= t < |Run(c, acts).sent| && Run(c, acts).sent[t].key == k ==> Run(c, acts).sent[t].op != DeleteOp
    ensures Run(c, acts).store[k].groups == c.store[k].groups
    decreases |acts|
  {
    if acts != [] {
      LeakPersists(c, acts[0], i, k);
      LeakIsForever(Step(c, acts[0]), acts[1..], i, k);
    }
  }

  /** Two ingresses that generate one resource: the second reference leaks, and no later run takes it back. */
  lemma SharedResourceLeaks(g: Generated, acts: seq<Action>)
    ensures Leaked(Run(Initial(map[], {}, map[]), [Sync("a", [g]), Sync("b", [g])] + acts), "b", g.key)
  {
    var c := Initial(map[], {}, map[]);
    var (first, second) := (Sync("a", [g]), Sync("b", [g]));
    var (d, e) := (Step(c, first), Step(Step(c, first), second));
    assert g in [g] && g.key in Keys([g]);
    var start := DropStale(c, "a", Indexed(c, "a") - Keys([g]));
    PutAllKeys(start, "a", [g]);
    PutAllIndexes(start, "a", [g], "b", g.key);
    assert !InIndex(d, "b", g.key);
    assert Reachable(d) by {
      assert [first][1..] == [] && Run(d, []) == d;
      assert Run(c, [first]) == d;
    }
    SyncLeaksIff(d, "b", [g], g.key);
    LeakIsForever(e, acts, "b", g.key);
    var all := [first, second] + acts;
    assert all[1..] == [second] + acts && ([second] + acts)[1..] == acts;
    assert Run(d, all[1..]) == Run(e, acts);
  }
}
