// The de-duplicating work queue of client-go, with its delayed (rate-limited) additions.
module WorkQueue {
  import opened Text

  datatype Queue = Queue(order: seq<string>, dirty: set<string>, processing: set<string>, delayed: set<string>)

  const EMPTY := Queue([], {}, {}, {})

  /** What waits in order is exactly what is dirty and not being processed, each key once. */
  ghost predicate Valid(q: Queue) {
    && NoDup(q.order)
    && (forall k :: k in q.order <==> k in q.dirty && k !in q.processing)
  }

  function Add(q: Queue, k: string): (r: Queue)
    ensures Valid(q) ==> Valid(r)
    ensures k in r.dirty && r.dirty == q.dirty + {k} && r.processing == q.processing && r.delayed == q.delayed
    ensures r.order == if k in q.dirty || k in q.processing then q.order else q.order + [k]
  {
    if k in q.dirty then q
    else if k in q.processing then q.(dirty := q.dirty + {k})
    else q.(dirty := q.dirty + {k}, order := q.order + [k])
  }

  function Get(q: Queue): (r: (string, Queue))
    requires q.order != []
    ensures Valid(q) ==> Valid(r.1) && r.0 in q.dirty && r.0 !in r.1.dirty && r.0 in r.1.processing
    ensures [r.0] + r.1.order == q.order
    ensures r.1.dirty == q.dirty - {r.0} && r.1.processing == q.processing + {r.0} && r.1.delayed == q.delayed
  {
    var k := q.order[0];
    (k, q.(order := q.order[1..], processing := q.processing + {k}, dirty := q.dirty - {k}))
  }

  function Done(q: Queue, k: string): (r: Queue)
    ensures Valid(q) && k in q.processing ==> Valid(r)
    ensures r.dirty == q.dirty && r.processing == q.processing - {k} && r.delayed == q.delayed
    ensures r.order == if k in q.dirty then q.order + [k] else q.order
  {
    q.(processing := q.processing - {k}, order := if k in q.dirty then q.order + [k] else q.order)
  }

  /** AddRateLimited: the key is added once its back-off has passed. */
  function AddRateLimited(q: Queue, k: string): Queue { q.(delayed := q.delayed + {k}) }

  /** The back-off is over. */
  function Fire(q: Queue, k: string): (r: Queue)
    ensures k in r.dirty && k !in r.delayed && r.processing == q.processing
    ensures k !in q.dirty && k !in q.processing ==> r.order == q.order + [k]
  {
    Add(q.(delayed := q.delayed - {k}), k)
  }
}
