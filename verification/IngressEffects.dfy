// What each step of the ingress controller does to references, the index, the queue and the dispatched orders.
module IngressEffects {
  import opened Text
  import opened IngressStore
  import opened IngressEdge

  function RefsOf(c: Controller, k: string): set<string> { if k in c.store then c.store[k].refs else {} }

  /** The ready nodes that some group of the resource lists. */
  ghost function ReadyMembers(c: Controller, k: string): set<string>
    requires k in c.store
  {
    set n | n in c.ready && exists g :: g in c.store[k].groups && g in c.members && n in c.members[g]
  }

  // ---------------------------------------------------------------- adding references

  lemma PutAt(c: Controller, i: string, g: Generated, k: string)
    requires i in c.index
    ensures var c' := Put(c, i, g);
            && c'.waiting == c.waiting + {g.key}
            && (if k == g.key then k in c'.store && c'.store[k].refs == RefsOf(c, k) + {i}
                else (k in c'.store <==> k in c.store) && (k in c.store ==> c'.store[k] == c.store[k]))
  {
  }

  /** Generated keys gain the reference and are queued; the others stay as they are. */
  lemma {:induction false} PutAllAt(c: Controller, i: string, gen: seq<Generated>, k: string)
    requires i in c.index
    ensures var c' := PutAll(c, i, gen);
            && c'.waiting == c.waiting + Keys(gen)
            && (if k in Keys(gen) then k in c'.store && c'.store[k].refs == RefsOf(c, k) + {i}
                else (k in c'.store <==> k in c.store) && (k in c.store ==> c'.store[k] == c.store[k]))
  {
    if gen != [] {
      var (init, g) := (gen[..|gen| - 1], gen[|gen| - 1]);
      PutAllAt(c, i, init, k);
      PutAt(PutAll(c, i, init), i, g, k);
      assert gen == init + [g];
      KeysSnoc(init, g);
    }
  }

  lemma PutGroups(c: Controller, i: string, g: Generated, k: string)
    requires i in c.index && k in c.store
    ensures k in Put(c, i, g).store && Put(c, i, g).store[k].groups == c.store[k].groups
  {
  }

  /** A new resource takes its node groups from the first that generates it. */
  lemma {:induction false} NewGroups(c: Controller, i: string, gen: seq<Generated>, first: nat)
    requires i in c.index && first < |gen| && gen[first].key !in c.store
    requires forall t :: 0 <= t < first ==> gen[t].key != gen[first].key
    ensures var (c', k) := (PutAll(c, i, gen), gen[first].key); k in c'.store && c'.store[k].groups == gen[first].groups
    decreases |gen|
  {
    var (init, g) := (gen[..|gen| - 1], gen[|gen| - 1]);
    if first < |init| {
      NewGroups(c, i, init, first);
      PutGroups(PutAll(c, i, init), i, g, gen[first].key);
    } else {
      PutAllAt(c, i, init, g.key);
      assert g.key !in Keys(init);
    }
  }

  /** Version and body are those of the last that generates the key. */
  lemma {:induction false} LastGenerated(c: Controller, i: string, gen: seq<Generated>, last: nat)
    requires i in c.index && last < |gen| && forall t :: last < t < |gen| ==> gen[t].key != gen[last].key
    ensures var (c', g) := (PutAll(c, i, gen), gen[last]);
            g.key in c'.store && c'.store[g.key].version == g.version && c'.store[g.key].spec == g.spec
    decreases |gen|
  {
    var (init, g) := (gen[..|gen| - 1], gen[|gen| - 1]);
    if last < |init| {
      LastGenerated(c, i, init, last);
      PutAt(PutAll(c, i, init), i, g, gen[last].key);
    }
  }

  // ---------------------------------------------------------------- a sync

  lemma DroppedAt(c: Controller, i: string, stale: set<string>, k: string)
    ensures var d := DropStale(c, i, stale);
            && (k in d.store <==> k in c.store) && RefsOf(d, k) == (if k in stale then RefsOf(c, k) - {i} else RefsOf(c, k))
            && (k in c.store ==> d.store[k] == c.store[k].(refs := RefsOf(d, k)))
            && (k in d.waiting <==> k in c.waiting || (k in stale && k in c.store && RefsOf(d, k) == {}))
  {
  }

  /** What an edited ingress no longer generates loses its reference; without others it is queued and leaves the index. */
  lemma SyncDropsStale(c: Controller, i: string, gen: seq<Generated>, k: string)
    requires Reachable(c) && InIndex(c, i, k) && k !in Keys(gen)
    ensures var c' := Step(c, Sync(i, gen));
            && k in c.store && k in c'.store && c'.store[k] == c.store[k].(refs := c.store[k].refs - {i})
            && (if c.store[k].refs == {i} then k in c'.waiting && !InIndex(c', i, k) else InIndex(c', i, k))
  {
    ReachableConsistent(c);
    var stale := Indexed(c, i) - Keys(gen);
    var d := DropStale(c, i, stale);
    DroppedAt(c, i, stale, k);
    PutAllAt(d, i, gen, k);
    PutAllIndexes(d, i, gen, i, k);
    assert c.store[k].refs == {i} <==> c.store[k].refs - {i} == {};
  }

  /** What it generates has the reference and is queued, beside the references it had. */
  lemma SyncAddsGenerated(c: Controller, i: string, gen: seq<Generated>, k: string)
    requires k in Keys(gen)
    ensures var c' := Step(c, Sync(i, gen)); k in c'.store && c'.store[k].refs == RefsOf(c, k) + {i} && k in c'.waiting
  {
    var stale := Indexed(c, i) - Keys(gen);
    DroppedAt(c, i, stale, k);
    PutAllAt(DropStale(c, i, stale), i, gen, k);
  }

  /** Everything else, and every other ingress's index, is untouched. */
  lemma SyncLeavesOthers(c: Controller, i: string, gen: seq<Generated>, j: string, k: string)
    ensures var c' := Step(c, Sync(i, gen));
            && (k !in Keys(gen) && !InIndex(c, i, k) ==>
                  (k in c'.store <==> k in c.store) && (k in c.store ==> c'.store[k] == c.store[k]) && (k in c'.waiting <==> k in c.waiting))
            && (j != i ==> (InIndex(c', j, k) <==> InIndex(c, j, k)))
            && c'.sent == c.sent && c'.line == c.line && c'.edge == c.edge
  {
    var stale := Indexed(c, i) - Keys(gen);
    var d := DropStale(c, i, stale);
    DroppedAt(c, i, stale, k);
    PutAllAt(d, i, gen, k);
    PutAllIndexes(d, i, gen, j, k);
    PutAllHistory(d, i, gen);
  }

  lemma SyncStoresLast(c: Controller, i: string, gen: seq<Generated>, last: nat)
    requires last < |gen| && forall t :: last < t < |gen| ==> gen[t].key != gen[last].key
    ensures var (c', g) := (Step(c, Sync(i, gen)), gen[last]);
            g.key in c'.store && c'.store[g.key].version == g.version && c'.store[g.key].spec == g.spec
  {
    LastGenerated(DropStale(c, i, Indexed(c, i) - Keys(gen)), i, gen, last);
  }

  // ---------------------------------------------------------------- dispatch

  /** A key without a resource is an error: it is tried again, and nothing else happens. */
  lemma MissingIsRetried(c: Controller, k: string, failed: set<string>)
    requires k !in c.store
    ensures Step(c, Dispatch(k, failed)) == c.(waiting := c.waiting + {k})
  {
  }

  /** Node events only change who is ready, or who is in which group, and what a node that turns ready is sent. */
  lemma NodeEvents(c: Controller, n: string, labelled: bool, order: seq<string>, members: map<string, seq<string>>)
    ensures Step(c, NotReady(n)) == c.(ready := c.ready - {n}) && Step(c, Regroup(members)) == c.(members := members)
    ensures var c' := Step(c, Ready(n, labelled, order));
            && c' == c.(ready := c'.ready, line := c'.line) && c'.ready == (if labelled then c.ready + {n} else c.ready)
            && (forall m :: m != n ==> LineOf(c', m) == LineOf(c, m)) && (n in c.ready || !labelled ==> LineOf(c', n) == LineOf(c, n))
  {
    if n in c.ready { assert c.ready + {n} == c.ready; }
  }

  /** One order per dispatch: an Insert while someone refers to the resource, otherwise a Delete, to the ready members. */
  lemma DispatchSends(c: Controller, k: string, failed: set<string>)
    requires k in c.store
    ensures var (c', nodes) := (Step(c, Dispatch(k, failed)), ReadyMembers(c, k));
            && c'.sent == c.sent + [Order(k, if c.store[k].refs != {} then InsertOp else DeleteOp, nodes)]
            && c'.store == (if c.store[k].refs != {} then c.store else c.store - {k}) && c'.index == c.index
            && (k in c'.waiting <==> exists n :: n in nodes && n in failed)
  {
    var c' := Step(c, Dispatch(k, failed));
    forall n ensures InGroups(c, n, c.store[k].groups) <==> exists g :: g in c.store[k].groups && g in c.members && n in c.members[g] {
    }
    assert Targets(c, k) == ReadyMembers(c, k);
    if k in c'.waiting {
      assert Targets(c, k) * failed != {};
      var n :| n in Targets(c, k) * failed;
    }
    if n :| n in ReadyMembers(c, k) && n in failed {
      assert n in Targets(c, k) * failed;
    }
  }

  /** An edited ingress's last reference: the next dispatch of the key is a Delete to the ready members of its groups. */
  lemma StaleIsDeleted(c: Controller, i: string, gen: seq<Generated>, k: string, failed: set<string>)
    requires Reachable(c) && InIndex(c, i, k) && k !in Keys(gen) && k in c.store && c.store[k].refs == {i}
    ensures var d := Step(c, Sync(i, gen));
            var e := Step(d, Dispatch(k, failed));
            k in d.waiting && k !in e.store && e.sent == c.sent + [Order(k, DeleteOp, ReadyMembers(c, k))]
  {
    var d := Step(c, Sync(i, gen));
    SyncDropsStale(c, i, gen, k);
    SyncLeavesOthers(c, i, gen, i, k);
    PutAllHistory(DropStale(c, i, Indexed(c, i) - Keys(gen)), i, gen);
    assert ReadyMembers(d, k) == ReadyMembers(c, k);
    DispatchSends(d, k, failed);
  }

  // ---------------------------------------------------------------- deletion and start-up

  /** A deleted ingress has no index, and every key that was in it loses the reference. */
  lemma DeleteDrops(c: Controller, i: string, k: string)
    ensures var c' := Step(c, Delete(i));
            && i !in c'.index && (k in c'.store <==> k in c.store)
            && (k in c.store ==> c'.store[k] == c.store[k].(refs := if InIndex(c, i, k) then c.store[k].refs - {i} else c.store[k].refs))
            && (k in c'.waiting <==> k in c.waiting || (InIndex(c, i, k) && k in c.store && c.store[k].refs - {i} == {}))
            && (forall j :: j != i ==> (InIndex(c', j, k) <==> InIndex(c, j, k)))
  {
  }

  lemma InitPutAt(c: Controller, i: string, g: Generated, k: string)
    requires i in c.index
    ensures var c' := InitPut(c, i, g);
            if k == g.key then
              && k in c'.store && c'.store[k].refs == RefsOf(c, k) + {i}
              && c'.store[k].spec == g.spec && (k !in c.store || c.store[k].spec != g.spec ==> k in c'.waiting)
              && (k in c.store && c.store[k].spec == g.spec ==> c'.waiting == c.waiting && c'.store[k].version == c.store[k].version)
            else
              && (k in c'.store <==> k in c.store) && (k in c.store ==> c'.store[k] == c.store[k]) && (k in c'.waiting <==> k in c.waiting)
  {
  }

  /** At start-up generated keys gain the reference; new ones are queued, those with the stored body are not. */
  lemma {:induction false} InitPutAllAt(c: Controller, i: string, gen: seq<Generated>, k: string)
    requires i in c.index
    ensures var c' := InitPutAll(c, i, gen);
            if k in Keys(gen) then
              && k in c'.store && c'.store[k].refs == RefsOf(c, k) + {i} && (k !in c.store ==> k in c'.waiting)
              && (k in c.waiting ==> k in c'.waiting)
              && (k in c.store && (forall t :: 0 <= t < |gen| && gen[t].key == k ==> gen[t].spec == c.store[k].spec) ==>
                    && (k in c'.waiting <==> k in c.waiting)
                    && c'.store[k].spec == c.store[k].spec && c'.store[k].version == c.store[k].version)
            else
              && (k in c'.store <==> k in c.store) && (k in c.store ==> c'.store[k] == c.store[k]) && (k in c'.waiting <==> k in c.waiting)
  {
    if gen != [] {
      var (init, g) := (gen[..|gen| - 1], gen[|gen| - 1]);
      InitPutAllAt(c, i, init, k);
      InitPutAt(InitPutAll(c, i, init), i, g, k);
      assert gen == init + [g];
      KeysSnoc(init, g);
      assert forall t :: 0 <= t < |init| ==> init[t] == gen[t];
    }
  }

  lemma StartAdds(c: Controller, i: string, gen: seq<Generated>, k: string)
    ensures var c' := Step(c, Start(i, gen));
            && (if k in Keys(gen) then k in c'.store && c'.store[k].refs == RefsOf(c, k) + {i} && (k !in c.store ==> k in c'.waiting)
                else (k in c'.store <==> k in c.store) && (k in c.store ==> c'.store[k] == c.store[k]))
            && (InIndex(c', i, k) <==> k in Keys(gen) && k !in c.store)
  {
    var d := c.(index := c.index[i := {}]);
    InitPutAllAt(d, i, gen, k);
    InitPutAllRefers(d, i, gen, k);
  }
}
