/**
 * `topo_sort`: Kahn's algorithm seeded with the root commits, then reversed so that every
 * commit comes before all of its parents.
 */
module TopoSort {
  import opened Seqs
  import opened CommitGraph
  import opened GraphBuilder

  /** Each listed hash is a node whose parents are all listed before it. */
  predicate ParentsFirst(g: Graph, s: seq<Hash>)
  {
    forall i, p :: 0 <= i < |s| && s[i] in g && p in g[s[i]].parents ==> p in s[..i]
  }

  /**
   * Between two dequeues: `pending[h]` is what is left of `h`'s parent set after removing every
   * dequeued hash from it, and a hash has been queued exactly when its set became empty.
   */
  ghost predicate KahnInv(g: Graph, pending: map<Hash, set<Hash>>, queue: seq<Hash>, result: seq<Hash>)
  {
    && pending.Keys == g.Keys
    && (forall h, p :: h in g ==> (p in pending[h] <==> p in g[h].parents && p !in result))
    && Distinct(result) && Distinct(queue)
    && (forall h :: h in result ==> h in g && h !in queue)
    && (forall h :: h in queue ==> h in g)
    && (forall h :: h in g ==> (pending[h] == {} <==> h in result || h in queue))
    && ParentsFirst(g, result)
  }

  /** While the children of the just-dequeued `h` are visited; `kids` are the ones not yet visited. */
  ghost predicate ChildrenInv(g: Graph, pending: map<Hash, set<Hash>>, queue: seq<Hash>, result: seq<Hash>,
                              h: Hash, kids: set<Hash>)
  {
    && pending.Keys == g.Keys
    && |result| > 0 && result[|result| - 1] == h && h in g
    && kids <= g[h].children
    && (forall c, p :: c in g ==>
          (p in pending[c] <==> p in g[c].parents && (p !in result || (p == h && c in kids))))
    && Distinct(result) && Distinct(queue)
    && (forall x :: x in result ==> x in g && x !in queue)
    && (forall x :: x in queue ==> x in g)
    && (forall c :: c in g && c !in kids ==> (pending[c] == {} <==> c in result || c in queue))
    && (forall c :: c in kids ==> c !in result && c !in queue)
    && ParentsFirst(g, result)
  }

  lemma InitialKahnInv(g: Graph, queue: seq<Hash>)
    requires Enumerates(queue, RootsOf(g))
    ensures KahnInv(g, map h | h in g :: g[h].parents, queue, [])
  {
    var pending := map h | h in g :: g[h].parents;
    forall h | h in g
      ensures pending[h] == {} <==> h in queue
    {
      assert h in queue <==> h in Elems(queue);
    }
    forall h | h in queue
      ensures h in g
    {
      assert h in Elems(queue);
    }
  }

  lemma DequeueKeepsInv(g: Graph, pending: map<Hash, set<Hash>>, queue: seq<Hash>, result: seq<Hash>)
    requires Linked(g)
    requires KahnInv(g, pending, queue, result)
    requires queue != []
    ensures ChildrenInv(g, pending, queue[1..], result + [queue[0]], queue[0], g[queue[0]].children)
  {
    var h := queue[0];
    var result' := result + [h];
    assert h in g && h !in result;
    forall c | c in g[h].children
      ensures c !in result' && c !in queue[1..]
    {
      assert h in pending[c];
    }
    forall i, p | 0 <= i < |result'| && result'[i] in g && p in g[result'[i]].parents
      ensures p in result'[..i]
    {
      if i < |result| {
        assert result'[..i] == result[..i];
      } else {
        assert pending[h] == {};
        assert p in result;
        assert result'[..i] == result;
      }
    }
    forall x | x in queue[1..]
      ensures x !in result'
    {
      assert x != h;
    }
  }

  lemma RemoveEdgeKeepsInv(g: Graph, pending: map<Hash, set<Hash>>, queue: seq<Hash>, result: seq<Hash>,
                           h: Hash, kids: set<Hash>, c: Hash)
    requires Linked(g)
    requires ChildrenInv(g, pending, queue, result, h, kids)
    requires c in kids
    ensures c in g && h in pending[c]
    ensures var pending' := pending[c := pending[c] - {h}];
      ChildrenInv(g, pending', if pending'[c] == {} then queue + [c] else queue, result, h, kids - {c})
  {
    assert c in g && h in g[c].parents;
  }

  lemma FinishChildrenKeepsInv(g: Graph, pending: map<Hash, set<Hash>>, queue: seq<Hash>, result: seq<Hash>, h: Hash)
    requires ChildrenInv(g, pending, queue, result, h, {})
    ensures KahnInv(g, pending, queue, result)
  {
  }

  /** A drained queue has placed every node exactly when no set of nodes feeds back on itself. */
  lemma {:induction false} DrainedCompleteIffAcyclic(g: Graph, pending: map<Hash, set<Hash>>, result: seq<Hash>)
    requires Linked(g)
    requires KahnInv(g, pending, [], result)
    ensures (forall h :: h in g ==> h in result) <==> Acyclic(g)
  {
    if forall h :: h in g ==> h in result {
      var rank := map h | h in g :: IndexOf(result, h);
      forall c, p | c in g && p in g[c].parents
        ensures c in rank && p in rank && rank[p] < rank[c]
      {
        var i := IndexOf(result, c);
        assert p in result[..i];
        var j :| 0 <= j < i && result[j] == p;
        assert IndexOf(result, p) == j;
      }
      assert Ranked(g, rank);
    }
    if Acyclic(g) {
      var rank :| Ranked(g, rank);
      var missing := set h | h in g && h !in result;
      if missing != {} {
        RankedHasSource(g, rank, missing);
        var h :| h in missing && g[h].parents !! missing;
        SourceIsPlaced(g, pending, result, h);
        assert false;
      }
      forall h | h in g
        ensures h in result
      {
        assert h !in missing;
      }
    }
  }

  /** Once the queue is drained, a node whose parents have all been placed has been placed too. */
  lemma SourceIsPlaced(g: Graph, pending: map<Hash, set<Hash>>, result: seq<Hash>, h: Hash)
    requires Linked(g)
    requires KahnInv(g, pending, [], result)
    requires h in g
    requires forall p :: p in g[h].parents && p in g ==> p in result
    ensures h in result
  {
    forall p
      ensures p !in pending[h]
    {
      PendingMeaning(g, pending, [], result, h, p);
      if p in g[h].parents {
        assert p in g;
      }
    }
    assert pending[h] == {};
  }

  lemma PendingMeaning(g: Graph, pending: map<Hash, set<Hash>>, queue: seq<Hash>, result: seq<Hash>, h: Hash, p: Hash)
    requires KahnInv(g, pending, queue, result)
    requires h in g
    ensures p in pending[h] <==> p in g[h].parents && p !in result
  {
  }

  /**
   * The loop of lines 160-174 on a linked graph: dequeue a hash, append it to the result, remove
   * it from each child's remaining parents and enqueue a child whose set became empty. Roots and
   * children are taken in whatever order the sets yield them.
   */
  method Kahn(g: Graph, roots: set<Hash>) returns (result: seq<Hash>)
    requires Linked(g)
    requires roots == RootsOf(g)
    ensures Distinct(result)
    ensures forall i :: 0 <= i < |result| ==> result[i] in g
    ensures ParentsFirst(g, result)
    ensures (forall h :: h in g ==> h in result) <==> Acyclic(g)
  {
    var queue := Enumerate(roots);
    var pending := map h | h in g :: g[h].parents;
    result := [];
    InitialKahnInv(g, queue);
    while queue != []
      invariant KahnInv(g, pending, queue, result)
      decreases g.Keys - Elems(result)
    {
      var current := queue[0];
      DequeueKeepsInv(g, pending, queue, result);
      ElemsAppend(result, current);
      queue := queue[1..];
      result := result + [current];
      var kids := g[current].children;
      while kids != {}
        invariant ChildrenInv(g, pending, queue, result, current, kids)
        decreases kids
      {
        var child :| child in kids;
        RemoveEdgeKeepsInv(g, pending, queue, result, current, kids, child);
        pending := pending[child := pending[child] - {current}];
        if pending[child] == {} {
          queue := queue + [child];
        }
        kids := kids - {child};
      }
      FinishChildrenKeepsInv(g, pending, queue, result, current);
    }
    DrainedCompleteIffAcyclic(g, pending, result);
  }

  /** Reversing a parents-first listing puts every hash strictly before each of its parents. */
  lemma ReversedPutsChildrenFirst(g: Graph, result: seq<Hash>)
    requires Distinct(result)
    requires ParentsFirst(g, result)
    ensures var order := Reverse(result);
      forall i, p :: 0 <= i < |order| && order[i] in g && p in g[order[i]].parents ==> p in order[i + 1..]
  {
    var order := Reverse(result);
    forall i, p | 0 <= i < |order| && order[i] in g && p in g[order[i]].parents
      ensures p in order[i + 1..]
    {
      ReversedParentAfter(g, result, order, i, p);
    }
  }

  /** In the reverse of a parents-first listing, a parent of the hash at `i` comes after `i`. */
  lemma ReversedParentAfter(g: Graph, result: seq<Hash>, order: seq<Hash>, i: nat, p: Hash)
    requires ParentsFirst(g, result)
    requires |order| == |result| && forall k :: 0 <= k < |result| ==> order[k] == result[|result| - 1 - k]
    requires i < |order| && order[i] in g && p in g[order[i]].parents
    ensures p in order[i + 1..]
  {
    var n := |result|;
    var k := n - 1 - i;
    assert result[k] == order[i];
    assert p in result[..k];
    var j :| 0 <= j < k && result[j] == p;
    assert order[n - 1 - j] == p;
    assert order[i + 1..][n - 1 - j - (i + 1)] == p;
  }

  /** `rank` strictly decreases from `h` to each of its parents in the object store. */
  predicate RankedAt(db: ObjectStore, rank: map<Hash, nat>, h: Hash)
  {
    forall p :: p in StoreParents(db, h) ==> h in rank && p in rank && rank[p] < rank[h]
  }

  /** `rank` strictly decreases along every parent edge among commits reachable from `heads`. */
  ghost predicate StoreRanked(db: ObjectStore, heads: set<Hash>, rank: map<Hash, nat>)
  {
    forall h :: Reachable(db, heads, h) ==> RankedAt(db, rank, h)
  }

  /** The ancestry reachable from `heads` has no cycle. */
  ghost predicate AncestryAcyclic(db: ObjectStore, heads: set<Hash>)
  {
    exists rank :: StoreRanked(db, heads, rank)
  }

  /** A graph holding exactly the reachable commits, with their stored parents, is acyclic exactly when their ancestry is. */
  lemma AcyclicGraphIffAncestry(db: ObjectStore, heads: set<Hash>, g: Graph)
    requires forall h :: h in g <==> Reachable(db, heads, h)
    requires forall h :: h in g ==> g[h].parents == StoreParents(db, h)
    ensures Acyclic(g) <==> AncestryAcyclic(db, heads)
  {
    if Acyclic(g) {
      var rank :| Ranked(g, rank);
      RankTransfersToStore(db, heads, g, rank);
    }
    if AncestryAcyclic(db, heads) {
      var rank :| StoreRanked(db, heads, rank);
      RankTransfersToGraph(db, heads, g, rank);
    }
  }

  lemma RankTransfersToStore(db: ObjectStore, heads: set<Hash>, g: Graph, rank: map<Hash, nat>)
    requires forall h :: Reachable(db, heads, h) ==> h in g
    requires forall h :: h in g ==> g[h].parents == StoreParents(db, h)
    requires Ranked(g, rank)
    ensures StoreRanked(db, heads, rank)
  {
    forall h | Reachable(db, heads, h)
      ensures RankedAt(db, rank, h)
    {
      forall p | p in StoreParents(db, h)
        ensures h in rank && p in rank && rank[p] < rank[h]
      {
        RankedEdge(g, rank, h, p);
      }
    }
  }

  lemma RankTransfersToGraph(db: ObjectStore, heads: set<Hash>, g: Graph, rank: map<Hash, nat>)
    requires forall h :: h in g ==> Reachable(db, heads, h)
    requires forall h :: h in g ==> g[h].parents == StoreParents(db, h)
    requires StoreRanked(db, heads, rank)
    ensures Ranked(g, rank)
  {
    forall c, p | c in g && p in g[c].parents
      ensures c in rank && p in rank && rank[p] < rank[c]
    {
      StoreEdgeRanked(db, heads, g, rank, c, p);
    }
  }

  lemma StoreEdgeRanked(db: ObjectStore, heads: set<Hash>, g: Graph, rank: map<Hash, nat>, c: Hash, p: Hash)
    requires forall h :: h in g ==> g[h].parents == StoreParents(db, h)
    requires forall h :: h in g ==> Reachable(db, heads, h)
    requires StoreRanked(db, heads, rank)
    requires c in g && p in g[c].parents
    ensures c in rank && p in rank && rank[p] < rank[c]
  {
    assert RankedAt(db, rank, c);
  }

  /**
   * `topo_sort` (lines 155-176): build a fresh graph, run Kahn's algorithm from its roots and
   * reverse the result. Every listed commit is reachable and listed once, each commit comes
   * strictly before every one of its parents, and all reachable commits are listed exactly when
   * their ancestry has no cycle.
   */
  method TopoSort(db: ObjectStore, heads: seq<Hash>) returns (order: seq<Hash>)
    ensures Distinct(order)
    ensures forall i :: 0 <= i < |order| ==> Reachable(db, Elems(heads), order[i])
    ensures forall i, p :: 0 <= i < |order| && p in StoreParents(db, order[i]) ==> p in order[i + 1..]
    ensures (forall h :: Reachable(db, Elems(heads), h) ==> h in order) <==> AncestryAcyclic(db, Elems(heads))
  {
    var graph, roots := BuildGraph(db, heads);
    var result := Kahn(graph, roots);
    order := Reverse(result);
    ReverseKeepsElems(result);
    ReversedListsReachable(db, Elems(heads), graph, result);
    ReversedPutsStoreChildrenFirst(db, graph, result);
    ReversedCompleteIffAcyclic(db, Elems(heads), graph, result);
  }

  lemma ReversedListsReachable(db: ObjectStore, heads: set<Hash>, g: Graph, result: seq<Hash>)
    requires forall h :: h in g ==> Reachable(db, heads, h)
    requires forall i :: 0 <= i < |result| ==> result[i] in g
    ensures forall i :: 0 <= i < |result| ==> Reachable(db, heads, Reverse(result)[i])
  {
    var order := Reverse(result);
    forall i | 0 <= i < |order|
      ensures Reachable(db, heads, order[i])
    {
      assert order[i] == result[|result| - 1 - i];
    }
  }

  lemma ReversedPutsStoreChildrenFirst(db: ObjectStore, g: Graph, result: seq<Hash>)
    requires forall h :: h in g ==> g[h].parents == StoreParents(db, h)
    requires forall i :: 0 <= i < |result| ==> result[i] in g
    requires Distinct(result)
    requires ParentsFirst(g, result)
    ensures var order := Reverse(result);
      forall i, p :: 0 <= i < |order| && p in StoreParents(db, order[i]) ==> p in order[i + 1..]
  {
    var order := Reverse(result);
    forall i, p | 0 <= i < |order| && p in StoreParents(db, order[i])
      ensures p in order[i + 1..]
    {
      assert order[i] == result[|result| - 1 - i];
      ReversedParentAfter(g, result, order, i, p);
    }
  }

  lemma ReversedCompleteIffAcyclic(db: ObjectStore, heads: set<Hash>, g: Graph, result: seq<Hash>)
    requires forall h :: h in g <==> Reachable(db, heads, h)
    requires forall h :: h in g ==> g[h].parents == StoreParents(db, h)
    requires (forall h :: h in g ==> h in result) <==> Acyclic(g)
    ensures (forall h :: Reachable(db, heads, h) ==> h in Reverse(result)) <==> AncestryAcyclic(db, heads)
  {
    ReverseKeepsElems(result);
    AcyclicGraphIffAncestry(db, heads, g);
  }
}
