/**
 * BoundPropagator: what the upward and downward propagators share, the
 * store they write and the set of nodes a traversal has already visited.
 */
module Traversal {
  import opened Ast
  import opened Store

  /** A traversal's progress: the store's contents and the visited nodes. */
  datatype Walk = Walk(store: State, cache: set<NodeId>)

  /** The walk after visited(n) has recorded `n`. */
  function Enter(w: Walk, n: NodeId): (r: Walk)
    ensures r.store == w.store && n in r.cache && w.cache <= r.cache
  {
    w.(cache := w.cache + {n})
  }

  class BoundPropagator {
    var cache: set<NodeId>
    const bounds: ExpressionBounds

    constructor (bounds: ExpressionBounds)
      ensures this.bounds == bounds && cache == {}
    {
      this.bounds := bounds;
      cache := {};
    }

    /** The walk this propagator is at. */
    ghost function Snapshot(): Walk
      reads this, bounds, bounds.bounds
    {
      Walk(bounds.View(), cache)
    }

    /** visited: false the first time `n` is offered, true on every later call. */
    method Visited(n: NodeId) returns (seen: bool)
      modifies this
      ensures seen == (n in old(cache))
      ensures cache == old(cache) + {n}
    {
      seen := n in cache;
      cache := cache + {n};
    }
  }
}
