/** The commit graph: one node per commit hash, with parent and child sets. */
module CommitGraph {
  import opened Seqs

  type Hash = string

  datatype CommitNode = CommitNode(hash: Hash, parents: set<Hash>, children: set<Hash>)

  /** Maps a commit hash to its node. */
  type Graph = map<Hash, CommitNode>

  /** A failed lookup (Python's KeyError / IndexError in the original program). */
  datatype Error =
    | MissingCommit(hash: Hash)  // a hash looked up in the graph is not one of its keys
    | EmptyOrder                 // the order handed to the formatter has no last element

  predicate KeysMatch(g: Graph)
  {
    forall h :: h in g ==> g[h].hash == h
  }

  /** Every parent a node names is itself a node. */
  predicate ParentClosed(g: Graph)
  {
    forall h, p :: h in g && p in g[h].parents ==> p in g
  }

  predicate ChildrenClosed(g: Graph)
  {
    forall h, c :: h in g && c in g[h].children ==> c in g
  }

  /** Edge symmetry: `c` is a child of `p` exactly when `p` is a parent of `c`. */
  predicate ChildrenInverse(g: Graph)
  {
    forall c, p :: c in g && p in g ==> (c in g[p].children <==> p in g[c].parents)
  }

  predicate Linked(g: Graph)
  {
    KeysMatch(g) && ParentClosed(g) && ChildrenClosed(g) && ChildrenInverse(g)
  }

  function RootsOf(g: Graph): set<Hash>
  {
    set h | h in g && g[h].parents == {}
  }

  /** `rank` strictly decreases along every parent edge. */
  predicate Ranked(g: Graph, rank: map<Hash, nat>)
  {
    forall c, p :: c in g && p in g[c].parents ==> c in rank && p in rank && rank[p] < rank[c]
  }

  lemma RankedEdge(g: Graph, rank: map<Hash, nat>, c: Hash, p: Hash)
    requires Ranked(g, rank)
    requires c in g && p in g[c].parents
    ensures c in rank && p in rank && rank[p] < rank[c]
  {
  }

  ghost predicate Acyclic(g: Graph)
  {
    exists rank :: Ranked(g, rank)
  }

  /** In an acyclic graph every non-empty set of nodes holds a node none of whose parents is in the set. */
  lemma {:induction false} RankedHasSource(g: Graph, rank: map<Hash, nat>, m: set<Hash>)
    requires Ranked(g, rank)
    requires m <= g.Keys && m != {}
    ensures exists h :: h in m && g[h].parents !! m
  {
    var h :| h in m;
    DescendToSource(g, rank, m, h);
  }

  lemma {:induction false} DescendToSource(g: Graph, rank: map<Hash, nat>, m: set<Hash>, h: Hash)
    requires Ranked(g, rank)
    requires m <= g.Keys && h in m
    ensures exists s :: s in m && g[s].parents !! m
    decreases if h in rank then rank[h] else 0
  {
    if !(g[h].parents !! m) {
      var p :| p in g[h].parents && p in m;
      DescendToSource(g, rank, m, p);
    }
  }

  /** Two linked graphs with the same nodes and the same parent sets are the same graph. */
  lemma {:induction false} LinkedGraphDeterminedByParents(g1: Graph, g2: Graph)
    requires Linked(g1) && Linked(g2)
    requires g1.Keys == g2.Keys
    requires forall h :: h in g1 ==> g1[h].parents == g2[h].parents
    ensures g1 == g2
  {
    forall h | h in g1
      ensures g1[h] == g2[h]
    {
      forall c
        ensures c in g1[h].children <==> c in g2[h].children
      {
        if c in g1[h].children {
          assert c in g1 && h in g1[c].parents;
        }
        if c in g2[h].children {
          assert c in g2 && h in g2[c].parents;
        }
      }
    }
  }
}
