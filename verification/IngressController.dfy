// The ingress controller as an object that edits its store, index and queue in place.
module IngressController {
  import opened Text
  import opened IngressStore

  /** Dropping one reference; during a sync a resource that nobody needs any more also leaves the index. */
  function DropRef(c: Controller, i: string, k: string, unindex: bool): Controller {
    if k !in c.store then c
    else
      var refs := c.store[k].refs - {i};
      var c' := c.(store := c.store[k := c.store[k].(refs := refs)]);
      if refs != {} then c'
      else c'.(waiting := c.waiting + {k}, index := if unindex && i in c.index then c.index[i := c.index[i] - {k}] else c.index)
  }

  lemma EmptiedOneMore(c: Controller, i: string, done: set<string>, k: string)
    requires k !in done
    ensures Emptied(c, i, done + {k}) ==
              Emptied(c, i, done) + (if k in c.store && c.store[k].refs - {i} == {} then {k} else {})
    ensures DropStore(c, i, done + {k}) ==
              if k in c.store then DropStore(c, i, done)[k := c.store[k].(refs := c.store[k].refs - {i})] else DropStore(c, i, done)
  {
  }

  lemma DropOneMore(c: Controller, i: string, done: set<string>, k: string)
    requires k !in done
    ensures DropStale(c, i, done + {k}) == DropRef(DropStale(c, i, done), i, k, true)
  {
    EmptiedOneMore(c, i, done, k);
    var d := DropStale(c, i, done);
    assert k in c.store ==> d.store[k] == c.store[k];
    var E := Emptied(c, i, done);
    assert E + {} == E;
    assert Indexed(c, i) - E - {k} == Indexed(c, i) - (E + {k});
    assert c.waiting + E + {k} == c.waiting + (E + {k});
    assert d.index[i := Indexed(c, i) - E - {k}] == c.index[i := Indexed(c, i) - E - {k}];
  }

  lemma DropNothing(c: Controller, i: string)
    ensures DropStale(c, i, {}) == c.(index := c.index[i := Indexed(c, i)])
  {
    assert Emptied(c, i, {}) == {};
    assert DropStore(c, i, {}) == c.store;
    assert c.waiting + {} == c.waiting;
    assert Indexed(c, i) - {} == Indexed(c, i);
  }

  /** The stale keys among those no longer to do. */
  ghost function Stale(keys: set<string>, todo: set<string>, live: set<string>): set<string> { (keys - todo) - live }

  lemma StaleOneMore(keys: set<string>, todo: set<string>, live: set<string>, k: string)
    requires k in todo && todo <= keys
    ensures k !in Stale(keys, todo, live)
    ensures Stale(keys, todo - {k}, live) == if k in live then Stale(keys, todo, live) else Stale(keys, todo, live) + {k}
  {
  }

  /** Part of the way through the removal of an ingress. */
  ghost function Removing(c: Controller, i: string, done: set<string>): Controller {
    c.(store := DropStore(c, i, done), waiting := c.waiting + Emptied(c, i, done), index := c.index - {i}, latest := c.latest - {i})
  }

  lemma RemoveOneMore(c: Controller, i: string, done: set<string>, k: string)
    requires k !in done
    ensures Removing(c, i, done + {k}) == DropRef(Removing(c, i, done), i, k, false)
  {
    EmptiedOneMore(c, i, done, k);
  }

  lemma RemoveNothing(c: Controller, i: string)
    ensures Removing(c, i, {}) == c.(index := c.index - {i}, latest := c.latest - {i})
  {
    assert Emptied(c, i, {}) == {};
    assert DropStore(c, i, {}) == c.store;
    assert c.waiting + {} == c.waiting;
  }

  class EnvoyIngressController {
    var resourceStore: map<string, Resource>
    var nameIndex: map<string, set<string>>
    var resourceQueue: set<string>
    var group2node: map<string, seq<string>>
    var readyNodes: set<string>
    var listQueues: map<string, seq<Note>>
    var dispatched: seq<Order>
    ghost var latest: map<string, set<string>>
    ghost var edge: map<string, map<string, Copy>>

    ghost function View(): Controller
      reads this
    {
      Controller(resourceStore, nameIndex, resourceQueue, group2node, readyNodes, listQueues, latest, dispatched, edge)
    }

    constructor (members: map<string, seq<string>>, ready: set<string>, ghost held: map<string, map<string, Copy>>)
      ensures View() == Initial(members, ready, held)
    {
      resourceStore, nameIndex, resourceQueue, listQueues, dispatched, latest := map[], map[], {}, map[], [], map[];
      group2node, readyNodes, edge := members, ready, held;
    }

    /** Whether the newly generated list still holds a key. */
    method IsCurrent(gen: seq<Generated>, k: string) returns (current: bool)
      ensures current <==> k in Keys(gen)
    {
      current := false;
      for t := 0 to |gen|
        invariant current <==> exists u :: 0 <= u < t && gen[u].key == k
      {
        if gen[t].key == k { current := true; }
      }
    }

    method DropReference(i: string, k: string, unindex: bool)
      modifies this
      ensures View() == DropRef(old(View()), i, k, unindex)
    {
      if k !in resourceStore { return; }
      var refs := resourceStore[k].refs - {i};
      resourceStore := resourceStore[k := resourceStore[k].(refs := refs)];
      if refs != {} { return; }
      if unindex && i in nameIndex { nameIndex := nameIndex[i := nameIndex[i] - {k}]; }
      resourceQueue := resourceQueue + {k};
    }

    /** One key of the deletion half of a sync. */
    method DropIfStale(i: string, gen: seq<Generated>, k: string, ghost before: Controller, ghost done: set<string>)
      requires View() == DropStale(before, i, done) && k !in done
      modifies this
      ensures View() == DropStale(before, i, if k in Keys(gen) then done else done + {k})
    {
      var current := IsCurrent(gen, k);
      if !current {
        DropOneMore(before, i, done, k);
        DropReference(i, k, true);
      }
    }

    /** The deletion half of a sync. */
    method DropStaleResources(i: string, gen: seq<Generated>)
      modifies this
      ensures View() == DropStale(old(View()), i, Indexed(old(View()), i) - Keys(gen))
    {
      ghost var before := View();
      var keys := if i in nameIndex then nameIndex[i] else {};
      nameIndex := nameIndex[i := keys];
      var todo := keys;
      ghost var live := Keys(gen);
      DropNothing(before, i);
      assert Stale(keys, todo, live) == {};
      while todo != {}
        invariant todo <= keys && View() == DropStale(before, i, Stale(keys, todo, live))
        decreases |todo|
      {
        var k :| k in todo;
        StaleOneMore(keys, todo, live, k);
        DropIfStale(i, gen, k, before, Stale(keys, todo, live));
        todo := todo - {k};
      }
      assert Stale(keys, {}, live) == keys - live;
    }

    /** syncEnvoyIngress for an ingress that exists. */
    method SyncEnvoyIngress(i: string, gen: seq<Generated>)
      modifies this
      ensures View() == Step(old(View()), Sync(i, gen))
    {
      DropStaleResources(i, gen);
      ghost var dropped := View();
      for t := 0 to |gen|
        invariant View() == PutAll(dropped, i, gen[..t])
      {
        var g := gen[t];
        assert gen[..t + 1][..t] == gen[..t];
        if g.key !in resourceStore {
          resourceStore := resourceStore[g.key := Resource({i}, g.groups, g.version, g.spec)];
          nameIndex := nameIndex[i := nameIndex[i] + {g.key}];
        } else {
          var r := resourceStore[g.key];
          resourceStore := resourceStore[g.key := r.(refs := r.refs + {i}, version := g.version, spec := g.spec)];
        }
        resourceQueue := resourceQueue + {g.key};
      }
      assert gen[..|gen|] == gen;
      PutAllHistory(dropped, i, gen);
      latest := latest[i := Keys(gen)];
    }

    /** initiateEnvoyResources for one ingress. */
    method InitiateIngress(i: string, gen: seq<Generated>)
      modifies this
      ensures View() == Step(old(View()), Start(i, gen))
    {
      nameIndex := nameIndex[i := {}];
      ghost var reset := View();
      for t := 0 to |gen|
        invariant View() == InitPutAll(reset, i, gen[..t])
      {
        var g := gen[t];
        assert gen[..t + 1][..t] == gen[..t];
        if g.key !in resourceStore {
          resourceStore := resourceStore[g.key := Resource({i}, g.groups, g.version, g.spec)];
          nameIndex := nameIndex[i := nameIndex[i] + {g.key}];
          resourceQueue := resourceQueue + {g.key};
        } else {
          var r := resourceStore[g.key];
          if r.spec != g.spec {
            r := r.(version := g.version, spec := g.spec);
            resourceQueue := resourceQueue + {g.key};
          }
          resourceStore := resourceStore[g.key := r.(refs := r.refs + {i})];
        }
      }
      assert gen[..|gen|] == gen;
      InitPutAllHistory(reset, i, gen);
      latest := latest[i := Keys(gen)];
    }

    /** syncEnvoyIngress for an ingress that is gone. */
    method RemoveEnvoyIngress(i: string)
      modifies this
      ensures View() == Step(old(View()), Delete(i))
    {
      ghost var before := View();
      var keys := if i in nameIndex then nameIndex[i] else {};
      nameIndex := nameIndex - {i};
      latest := latest - {i};
      var todo := keys;
      RemoveNothing(before, i);
      while todo != {}
        invariant todo <= keys
        invariant View() == Removing(before, i, keys - todo)
        decreases |todo|
      {
        var k :| k in todo;
        RemoveOneMore(before, i, keys - todo, k);
        DropReference(i, k, false);
        assert keys - (todo - {k}) == (keys - todo) + {k};
        todo := todo - {k};
      }
      assert keys - {} == Indexed(before, i);
    }

    /** The ready members of the given groups. */
    method NodesToSend(groups: set<string>) returns (nodes: set<string>)
      ensures nodes == set n | n in readyNodes && InGroups(View(), n, groups)
    {
      nodes := {};
      var todo := groups;
      while todo != {}
        invariant todo <= groups
        invariant nodes == set n | n in readyNodes && InGroups(View(), n, groups - todo)
        decreases |todo|
      {
        var g :| g in todo;
        var list := if g in group2node then group2node[g] else [];
        ghost var before := nodes;
        for t := 0 to |list|
          invariant nodes == before + (set n | n in list[..t] && n in readyNodes)
        {
          if list[t] in readyNodes { nodes := nodes + {list[t]}; }
        }
        assert groups - (todo - {g}) == (groups - todo) + {g};
        forall n ensures InGroups(View(), n, groups - todo + {g}) <==> InGroups(View(), n, groups - todo) || n in list {
        }
        todo := todo - {g};
      }
      assert groups - {} == groups;
    }

    /** The sending loop: the nodes whose message was queued, and whether that was all of them. */
    method SendEach(nodes: set<string>, failed: set<string>) returns (ok: bool, queued: set<string>)
      ensures queued == nodes - failed
      ensures ok <==> nodes * failed == {}
    {
      var todo := nodes;
      ok, queued := true, {};
      while todo != {}
        invariant todo <= nodes && queued == nodes - todo - failed
        invariant ok <==> (nodes - todo) * failed == {}
        decreases |todo|
      {
        var n :| n in todo;
        if n in failed { ok := false; } else { queued := queued + {n}; }
        assert (nodes - (todo - {n})) * failed == (nodes - todo) * failed + {n} * failed;
        todo := todo - {n};
      }
    }

    /** syncEnvoyResource and the queue handling after it; ok means no error was returned. */
    method SyncEnvoyResource(k: string, failed: set<string>) returns (ok: bool)
      modifies this
      ensures View() == Step(old(View()), Dispatch(k, failed))
      ensures ok <==> k in old(resourceStore) && Targets(old(View()), k) * failed == {}
    {
      ok := k in resourceStore;
      if ok {
        var r := resourceStore[k];
        var nodes := NodesToSend(r.groups);
        assert nodes == Targets(View(), k);
        var queued;
        ok, queued := SendEach(nodes, failed);
        if r.refs != {} {
          dispatched := dispatched + [Order(k, InsertOp, nodes)];
          listQueues := Posted(listQueues, queued, Note(k, Some(CopyOf(r))));
        } else {
          resourceStore := resourceStore - {k};
          dispatched := dispatched + [Order(k, DeleteOp, nodes)];
          listQueues := Posted(listQueues, queued, Note(k, None));
        }
      }
      resourceQueue := if ok then resourceQueue - {k} else resourceQueue + {k};
    }

    /** syncAllResourcesToEdgeNodes: a message for every stored resource that can be sent, in some order. */
    method NotesForAll(failed: set<string>) returns (notes: seq<Note>, order: seq<string>)
      ensures notes == Refresh(resourceStore, order) && NoDup(order)
      ensures forall k :: k in order <==> k in resourceStore && k !in failed
    {
      var todo := resourceStore.Keys;
      notes, order := [], [];
      while todo != {}
        invariant todo <= resourceStore.Keys && NoDup(order) && notes == Refresh(resourceStore, order)
        invariant forall k :: k in order <==> k in resourceStore && k !in todo && k !in failed
        decreases |todo|
      {
        var k :| k in todo;
        if k !in failed {
          notes := notes + [Note(k, Some(CopyOf(resourceStore[k])))];
          assert (order + [k])[..|order|] == order;
          order := order + [k];
        }
        todo := todo - {k};
      }
    }

    /** The part of a node event that deals with readiness; order are the keys whose resources were sent. */
    method NodeTurnsReady(n: string, labelled: bool, failed: set<string>) returns (order: seq<string>)
      modifies this
      ensures View() == Step(old(View()), Ready(n, labelled, order))
      ensures n !in old(readyNodes) && labelled ==> NoDup(order) && forall k :: k in order <==> k in resourceStore && k !in failed
    {
      order := [];
      if n in readyNodes || !labelled { return; }
      readyNodes := readyNodes + {n};
      var notes;
      notes, order := NotesForAll(failed);
      listQueues := listQueues[n := (if n in listQueues then listQueues[n] else []) + notes];
    }

    /** One pass of ListMessageWriteLoop: the message leaves the queue whether or not it could be written. */
    method ListWritePass(n: string, connected: bool, written: bool)
      modifies this
      ensures View() == Step(old(View()), Deliver(n, connected && written))
    {
      if n !in listQueues || listQueues[n] == [] { return; }
      ghost var held := EdgeOf(View(), n);
      var note := listQueues[n][0];
      listQueues := listQueues[n := listQueues[n][1..]];
      if !connected { return; }
      if written { edge := edge[n := Apply(held, note)]; }
    }
  }
}
