/**
 * Building the commit graph (`getGraph`): a stack-driven walk from every branch head that
 * asks the object store for each commit's parent lines, then a second pass that fills in
 * the children sets as the inverse of the parent sets.
 */
module GraphBuilder {
  import opened Seqs
  import opened Wrappers
  import opened CommitGraph
  import opened ParentLines

  /** What `git cat-file -p <hash>` prints for each object of the repository, split at newlines. */
  type ObjectStore = map<Hash, seq<string>>

  /** The lines printed for `h`; for a hash with no object nothing is printed on standard output. */
  function LinesOf(db: ObjectStore, h: Hash): seq<string>
  {
    if h in db then db[h] else []
  }

  function StoreParents(db: ObjectStore, h: Hash): set<Hash>
  {
    ParentSet(LinesOf(db, h))
  }

  /** The node the walk creates for `h`: its parents as read from the store, no children yet. */
  function NodeFor(db: ObjectStore, h: Hash): CommitNode
  {
    CommitNode(h, StoreParents(db, h), {})
  }

  /** `path` starts at a head and steps from each commit to one of its parents. */
  ghost predicate IsAncestryPath(db: ObjectStore, heads: set<Hash>, path: seq<Hash>)
  {
    && |path| > 0
    && path[0] in heads
    && forall i :: 0 <= i < |path| - 1 ==> path[i + 1] in StoreParents(db, path[i])
  }

  ghost predicate Reachable(db: ObjectStore, heads: set<Hash>, h: Hash)
  {
    exists path :: IsAncestryPath(db, heads, path) && path[|path| - 1] == h
  }

  lemma HeadReachable(db: ObjectStore, heads: set<Hash>, h: Hash)
    requires h in heads
    ensures Reachable(db, heads, h)
  {
    assert IsAncestryPath(db, heads, [h]);
  }

  lemma ParentReachable(db: ObjectStore, heads: set<Hash>, h: Hash, p: Hash)
    requires Reachable(db, heads, h)
    requires p in StoreParents(db, h)
    ensures Reachable(db, heads, p)
  {
    var path :| IsAncestryPath(db, heads, path) && path[|path| - 1] == h;
    assert IsAncestryPath(db, heads, path + [p]);
  }

  /** A set that holds every head and every store parent of its members holds every reachable hash. */
  lemma {:induction false} ClosedSetHoldsReachable(db: ObjectStore, heads: set<Hash>, s: set<Hash>, h: Hash)
    requires heads <= s
    requires forall x, p :: x in s && p in StoreParents(db, x) ==> p in s
    requires Reachable(db, heads, h)
    ensures h in s
  {
    var path :| IsAncestryPath(db, heads, path) && path[|path| - 1] == h;
    PathStaysInClosedSet(db, heads, s, path, |path| - 1);
  }

  lemma {:induction false} PathStaysInClosedSet(db: ObjectStore, heads: set<Hash>, s: set<Hash>, path: seq<Hash>, k: nat)
    requires heads <= s
    requires forall x, p :: x in s && p in StoreParents(db, x) ==> p in s
    requires IsAncestryPath(db, heads, path)
    requires k < |path|
    ensures path[k] in s
  {
    if k > 0 {
      PathStaysInClosedSet(db, heads, s, path, k - 1);
    }
  }

  /** Every hash some stored object names as a parent. */
  function Mentioned(db: ObjectStore): set<Hash>
  {
    set h, p | h in db && p in StoreParents(db, h) :: p
  }

  /** A finite set the walk never leaves. */
  function Universe(db: ObjectStore, heads: set<Hash>): set<Hash>
  {
    heads + db.Keys + Mentioned(db)
  }

  /** `u` holds the store parents of each of its members. */
  ghost predicate StoreClosed(db: ObjectStore, u: set<Hash>)
  {
    forall h, p :: h in u && p in StoreParents(db, h) ==> p in u
  }

  lemma UniverseIsClosed(db: ObjectStore, heads: set<Hash>)
    ensures heads <= Universe(db, heads)
    ensures StoreClosed(db, Universe(db, heads))
  {
    forall h, p | h in Universe(db, heads) && p in StoreParents(db, h)
      ensures p in Universe(db, heads)
    {
      assert h in db;
      assert p in Mentioned(db);
    }
  }

  datatype WalkState = WalkState(graph: Graph, roots: set<Hash>, stack: seq<Hash>)

  /** The hash the next iteration pops. */
  function Top(s: WalkState): Hash
    requires s.stack != []
  {
    s.stack[|s.stack| - 1]
  }

  /**
   * One iteration of the walk as the original writes it: pop the top hash, push each parent
   * line's hash, add the hash to the roots when no line names a parent, and store a fresh node
   * only when the hash is not yet a key.
   */
  function Expand(db: ObjectStore, s: WalkState): (t: WalkState)
    requires s.stack != []
    ensures t.graph.Keys == s.graph.Keys + {Top(s)}
    ensures forall k :: k in s.graph ==> t.graph[k] == s.graph[k]
    ensures Top(s) !in s.graph ==> t.graph[Top(s)] == NodeFor(db, Top(s))
    ensures Top(s) in t.roots <==> Top(s) in s.roots || StoreParents(db, Top(s)) == {}
    ensures t.roots - {Top(s)} == s.roots - {Top(s)}
    ensures |t.stack| >= |s.stack| - 1 && t.stack[..|s.stack| - 1] == s.stack[..|s.stack| - 1]
    ensures Elems(t.stack[|s.stack| - 1..]) == StoreParents(db, Top(s))
  {
    var h := Top(s);
    var ps := ParentHashes(LinesOf(db, h));
    ParentHashesSpec(LinesOf(db, h));
    assert Elems(ps) == StoreParents(db, h);
    assert |ps| > 0 ==> ps[0] in Elems(ps);
    assert (s.stack[..|s.stack| - 1] + ps)[|s.stack| - 1..] == ps;
    WalkState(
      if h in s.graph then s.graph else s.graph[h := CommitNode(h, Elems(ps), {})],
      if |ps| == 0 then s.roots + {h} else s.roots,
      s.stack[..|s.stack| - 1] + ps)
  }

  /**
   * Expanding a hash that is already a key changes neither the graph nor the roots, and pushes
   * only parents that are already keys or still waiting on the stack: skipping it leaves the
   * walk's result unchanged.
   */
  lemma ReExpandChangesNothing(db: ObjectStore, s: WalkState)
    requires s.stack != [] && s.stack[|s.stack| - 1] in s.graph
    requires forall h :: h in s.graph ==> s.graph[h] == NodeFor(db, h)
    requires s.roots == RootsOf(s.graph)
    requires forall h, p :: h in s.graph && p in s.graph[h].parents ==> p in s.graph || p in s.stack
    ensures Expand(db, s).graph == s.graph
    ensures Expand(db, s).roots == s.roots
    ensures forall p :: p in Expand(db, s).stack ==> p in s.graph || p in s.stack
  {
    ReExpandKeepsRoots(db, s);
    ReExpandPushesKnown(db, s);
  }

  lemma ReExpandKeepsRoots(db: ObjectStore, s: WalkState)
    requires s.stack != [] && s.stack[|s.stack| - 1] in s.graph
    requires forall h :: h in s.graph ==> s.graph[h] == NodeFor(db, h)
    requires s.roots == RootsOf(s.graph)
    ensures Expand(db, s).roots == s.roots
  {
    var t := Expand(db, s);
    var h := s.stack[|s.stack| - 1];
    assert h in t.roots <==> h in s.roots;
    assert t.roots == (t.roots - {h}) + (if h in t.roots then {h} else {});
    assert s.roots == (s.roots - {h}) + (if h in s.roots then {h} else {});
  }

  lemma ReExpandPushesKnown(db: ObjectStore, s: WalkState)
    requires s.stack != [] && s.stack[|s.stack| - 1] in s.graph
    requires forall h :: h in s.graph ==> s.graph[h] == NodeFor(db, h)
    requires forall h, p :: h in s.graph && p in s.graph[h].parents ==> p in s.graph || p in s.stack
    ensures forall p :: p in Expand(db, s).stack ==> p in s.graph || p in s.stack
  {
    var h := s.stack[|s.stack| - 1];
    var ps := ParentHashes(LinesOf(db, h));
    ParentHashesSpec(LinesOf(db, h));
    assert |ps| > 0 ==> ps[0] in Elems(ps);
    forall p | p in Expand(db, s).stack
      ensures p in s.graph || p in s.stack
    {
      if p !in s.stack[..|s.stack| - 1] {
        assert p in ps;
        assert p in s.graph[h].parents;
      }
    }
  }

  /** What stays true of the graph and roots between two pops of the walk. */
  ghost predicate GraphInv(db: ObjectStore, heads: set<Hash>, u: set<Hash>, graph: Graph, roots: set<Hash>)
  {
    && (forall h :: h in graph ==> graph[h] == NodeFor(db, h))
    && (forall h :: h in graph ==> Reachable(db, heads, h))
    && graph.Keys <= u
    && roots == RootsOf(graph)
  }

  /** Every stacked hash is reachable and stays inside the universe. */
  ghost predicate StackReachable(db: ObjectStore, heads: set<Hash>, u: set<Hash>, stack: seq<Hash>)
  {
    forall i :: 0 <= i < |stack| ==> Reachable(db, heads, stack[i]) && stack[i] in u
  }

  /** Every parent of a node is a node or is still waiting on the stack. */
  ghost predicate ParentsPending(graph: Graph, stack: seq<Hash>)
  {
    forall h, p :: h in graph && p in graph[h].parents ==> p in graph || p in stack
  }

  lemma HeadsPrefixGrows(heads: seq<Hash>, b: nat, keys: set<Hash>)
    requires b < |heads|
    requires forall j :: 0 <= j < b ==> heads[j] in keys
    requires heads[b] in keys
    ensures forall j :: 0 <= j < b + 1 ==> heads[j] in keys
  {
  }

  lemma DrainedStackClosesGraph(graph: Graph)
    requires ParentsPending(graph, [])
    ensures ParentClosed(graph)
  {
  }

  lemma PopKnownKeepsPending(graph: Graph, stack: seq<Hash>)
    requires ParentsPending(graph, stack)
    requires stack != [] && stack[|stack| - 1] in graph
    ensures ParentsPending(graph, stack[..|stack| - 1])
  {
    var rest := stack[..|stack| - 1];
    forall h, p | h in graph && p in graph[h].parents
      ensures p in graph || p in rest
    {
      if p !in graph {
        var i :| 0 <= i < |stack| && stack[i] == p;
        assert rest[i] == p;
      }
    }
  }

  lemma ExpandNewKeepsGraphInv(db: ObjectStore, heads: set<Hash>, u: set<Hash>, graph: Graph, roots: set<Hash>, stack: seq<Hash>)
    requires GraphInv(db, heads, u, graph, roots) && StackReachable(db, heads, u, stack)
    requires stack != [] && stack[|stack| - 1] !in graph
    ensures var t := Expand(db, WalkState(graph, roots, stack)); GraphInv(db, heads, u, t.graph, t.roots)
  {
    var top := stack[|stack| - 1];
    var t := Expand(db, WalkState(graph, roots, stack));
    assert Reachable(db, heads, top) && top in u;
    assert t.graph == graph[top := NodeFor(db, top)];
    forall x
      ensures x in t.roots <==> x in RootsOf(t.graph)
    {
      if x == top {
        assert x in t.roots <==> StoreParents(db, top) == {};
      } else {
        assert x in t.roots <==> x in roots;
      }
    }
  }

  lemma ExpandKeepsStackReachable(db: ObjectStore, heads: set<Hash>, u: set<Hash>, graph: Graph, roots: set<Hash>, stack: seq<Hash>)
    requires StackReachable(db, heads, u, stack)
    requires StoreClosed(db, u)
    requires stack != []
    ensures StackReachable(db, heads, u, Expand(db, WalkState(graph, roots, stack)).stack)
  {
    var top := stack[|stack| - 1];
    var ps := ParentHashes(LinesOf(db, top));
    var next := Expand(db, WalkState(graph, roots, stack)).stack;
    assert next == stack[..|stack| - 1] + ps;
    PushedParentsReachable(db, heads, u, top, ps);
    forall i | 0 <= i < |next|
      ensures Reachable(db, heads, next[i]) && next[i] in u
    {
      if i >= |stack| - 1 {
        assert next[i] == ps[i - (|stack| - 1)];
      } else {
        assert next[i] == stack[i];
      }
    }
  }

  lemma ExpandNewKeepsPending(db: ObjectStore, graph: Graph, roots: set<Hash>, stack: seq<Hash>)
    requires ParentsPending(graph, stack)
    requires stack != [] && stack[|stack| - 1] !in graph
    ensures var t := Expand(db, WalkState(graph, roots, stack)); ParentsPending(t.graph, t.stack)
  {
    var top := stack[|stack| - 1];
    var t := Expand(db, WalkState(graph, roots, stack));
    var ps := ParentHashes(LinesOf(db, top));
    assert t.stack == stack[..|stack| - 1] + ps;
    forall h, p | h in t.graph && p in t.graph[h].parents
      ensures p in t.graph || p in t.stack
    {
      if h == top {
        assert p in Elems(ps);
        var i :| 0 <= i < |ps| && ps[i] == p;
        assert t.stack[|stack| - 1 + i] == p;
      } else if p !in graph {
        var i :| 0 <= i < |stack| && stack[i] == p;
        if i < |stack| - 1 {
          assert t.stack[i] == p;
        }
      }
    }
  }

  lemma PushedParentsReachable(db: ObjectStore, heads: set<Hash>, u: set<Hash>, top: Hash, ps: seq<Hash>)
    requires Reachable(db, heads, top) && top in u
    requires StoreClosed(db, u)
    requires ps == ParentHashes(LinesOf(db, top))
    ensures forall i :: 0 <= i < |ps| ==> Reachable(db, heads, ps[i]) && ps[i] in u
  {
    ParentHashesSpec(LinesOf(db, top));
    forall i | 0 <= i < |ps|
      ensures Reachable(db, heads, ps[i]) && ps[i] in u
    {
      assert ps[i] in StoreParents(db, top);
      ParentReachable(db, heads, top, ps[i]);
    }
  }

  /** Everything the inner loop of the walk keeps true while draining the stack for head `hb`. */
  ghost predicate WalkInv(db: ObjectStore, heads: set<Hash>, u: set<Hash>, hb: Hash, s: WalkState)
  {
    && (hb in s.graph || (|s.stack| > 0 && s.stack[0] == hb))
    && GraphInv(db, heads, u, s.graph, s.roots)
    && StackReachable(db, heads, u, s.stack)
    && ParentsPending(s.graph, s.stack)
  }

  /** One pass of the inner loop: pop a known hash, or expand a new one. */
  function WalkStep(db: ObjectStore, s: WalkState): (t: WalkState)
    requires s.stack != []
    ensures s.graph.Keys <= t.graph.Keys
  {
    if s.stack[|s.stack| - 1] in s.graph then s.(stack := s.stack[..|s.stack| - 1])
    else Expand(db, s)
  }

  lemma WalkStepKeepsInv(db: ObjectStore, heads: set<Hash>, u: set<Hash>, hb: Hash, s: WalkState)
    requires StoreClosed(db, u)
    requires WalkInv(db, heads, u, hb, s)
    requires s.stack != []
    ensures WalkInv(db, heads, u, hb, WalkStep(db, s))
    ensures WalkStep(db, s).graph.Keys <= u
    ensures || (WalkStep(db, s).graph.Keys == s.graph.Keys && |WalkStep(db, s).stack| < |s.stack|)
            || (u - WalkStep(db, s).graph.Keys < u - s.graph.Keys)
  {
    if s.stack[|s.stack| - 1] in s.graph {
      PopStepKeepsInv(db, heads, u, hb, s);
    } else {
      ExpandStepKeepsInv(db, heads, u, hb, s);
    }
  }

  lemma PopStepKeepsInv(db: ObjectStore, heads: set<Hash>, u: set<Hash>, hb: Hash, s: WalkState)
    requires WalkInv(db, heads, u, hb, s)
    requires s.stack != [] && s.stack[|s.stack| - 1] in s.graph
    ensures WalkInv(db, heads, u, hb, s.(stack := s.stack[..|s.stack| - 1]))
  {
    PopKnownKeepsPending(s.graph, s.stack);
  }

  lemma ExpandStepKeepsInv(db: ObjectStore, heads: set<Hash>, u: set<Hash>, hb: Hash, s: WalkState)
    requires StoreClosed(db, u)
    requires WalkInv(db, heads, u, hb, s)
    requires s.stack != [] && s.stack[|s.stack| - 1] !in s.graph
    ensures WalkInv(db, heads, u, hb, Expand(db, s))
    ensures u - Expand(db, s).graph.Keys < u - s.graph.Keys
  {
    var top := s.stack[|s.stack| - 1];
    ExpandNewKeepsGraphInv(db, heads, u, s.graph, s.roots, s.stack);
    ExpandKeepsStackReachable(db, heads, u, s.graph, s.roots, s.stack);
    ExpandNewKeepsPending(db, s.graph, s.roots, s.stack);
    assert top in u && top !in s.graph;
    assert top in u - s.graph.Keys && top !in u - Expand(db, s).graph.Keys;
    assert |s.stack| > 1 ==> Expand(db, s).stack[0] == s.stack[0];
  }

  /**
   * The walk of lines 102-135, with a hash that is already a key popped without being
   * re-expanded (see `ReExpandChangesNothing`). Afterwards the keys are exactly the hashes
   * reachable from a head, every node carries the parents the store names, the graph is
   * closed under parents and the roots are the nodes without parents.
   */
  method WalkAncestry(db: ObjectStore, heads: seq<Hash>) returns (graph: Graph, roots: set<Hash>)
    ensures forall h :: h in graph <==> Reachable(db, Elems(heads), h)
    ensures forall h :: h in graph ==> graph[h] == NodeFor(db, h)
    ensures ParentClosed(graph)
    ensures roots == RootsOf(graph)
  {
    ghost var H := Elems(heads);
    ghost var U := Universe(db, H);
    UniverseIsClosed(db, H);
    graph := map[];
    roots := {};
    var b := 0;
    while b < |heads|
      invariant 0 <= b <= |heads|
      invariant forall j :: 0 <= j < b ==> heads[j] in graph
      invariant GraphInv(db, H, U, graph, roots)
      invariant ParentClosed(graph)
    {
      var s := WalkState(graph, roots, [heads[b]]);
      HeadReachable(db, H, heads[b]);
      while s.stack != []
        invariant forall j :: 0 <= j < b ==> heads[j] in s.graph
        invariant WalkInv(db, H, U, heads[b], s)
        decreases U - s.graph.Keys, |s.stack|
      {
        WalkStepKeepsInv(db, H, U, heads[b], s);
        s := WalkStep(db, s);
      }
      graph, roots := s.graph, s.roots;
      DrainedStackClosesGraph(graph);
      HeadsPrefixGrows(heads, b, graph.Keys);
      b := b + 1;
    }
    assert heads[..|heads|] == heads;
    forall h | Reachable(db, H, h)
      ensures h in graph
    {
      ClosedSetHoldsReachable(db, H, graph.Keys, h);
    }
  }

  /**
   * The children recorded after the commits in `done`, and the first parents `cDone` of the
   * commit `c`, have had their edges added.
   */
  ghost predicate LinkedSoFar(g: Graph, linked: Graph, done: set<Hash>, c: Hash, cDone: set<Hash>)
  {
    && linked.Keys == g.Keys
    && (forall h :: h in g ==> linked[h].hash == g[h].hash && linked[h].parents == g[h].parents)
    && (forall h, x :: h in g ==>
         (x in linked[h].children <==>
            || x in g[h].children
            || (x in done && x in g && h in g[x].parents)
            || (x == c && h in cDone)))
  }

  lemma AddChildKeepsLinked(g: Graph, linked: Graph, done: set<Hash>, c: Hash, cDone: set<Hash>, p: Hash)
    requires LinkedSoFar(g, linked, done, c, cDone)
    requires p in g
    ensures LinkedSoFar(g, linked[p := linked[p].(children := linked[p].children + {c})], done, c, cDone + {p})
  {
  }

  lemma SwitchCommitKeepsLinked(g: Graph, linked: Graph, done: set<Hash>, c: Hash, c': Hash)
    requires LinkedSoFar(g, linked, done, c, {})
    ensures LinkedSoFar(g, linked, done, c', {})
  {
  }

  lemma FinishCommitKeepsLinked(g: Graph, linked: Graph, done: set<Hash>, c: Hash, c': Hash)
    requires c in g
    requires LinkedSoFar(g, linked, done, c, g[c].parents)
    ensures LinkedSoFar(g, linked, done + {c}, c', {})
  {
  }

  /**
   * The second pass of `getGraph` (lines 138-144): add each commit to the children of each of
   * its parents. Looking up a parent that is not a key fails, as `graph[p]` does in the original.
   */
  method LinkChildren(g: Graph) returns (r: Result<Graph, Error>)
    ensures r.Success? <==> ParentClosed(g)
    ensures r.Failure? ==> r.error.MissingCommit?
    ensures r.Failure? ==> exists c :: c in g && r.error.hash in g[c].parents && r.error.hash !in g
    ensures r.Success? ==> r.value.Keys == g.Keys
    ensures r.Success? ==> forall h :: h in g ==>
      r.value[h].hash == g[h].hash && r.value[h].parents == g[h].parents
    ensures r.Success? ==> forall h, c :: h in g ==>
      (c in r.value[h].children <==> c in g[h].children || (c in g && h in g[c].parents))
  {
    var linked := g;
    var todo := g.Keys;
    ghost var done: set<Hash> := {};
    ghost var anyC: Hash := "";
    while todo != {}
      invariant todo <= g.Keys && done == g.Keys - todo
      invariant LinkedSoFar(g, linked, done, anyC, {})
      invariant forall c, p :: c in done && p in g[c].parents ==> p in g
      decreases todo
    {
      var c :| c in todo;
      SwitchCommitKeepsLinked(g, linked, done, anyC, c);
      var step := LinkParents(g, linked, done, c);
      if step.Failure? {
        return Failure(step.error);
      }
      linked := step.value;
      FinishCommitKeepsLinked(g, linked, done, c, anyC);
      todo := todo - {c};
      done := done + {c};
    }
    LinkedAllDone(g, linked, anyC);
    return Success(linked);
  }

  /** Once every commit is done, the children are the old ones plus exactly the inverse edges. */
  lemma LinkedAllDone(g: Graph, linked: Graph, c: Hash)
    requires LinkedSoFar(g, linked, g.Keys, c, {})
    ensures linked.Keys == g.Keys
    ensures forall h :: h in g ==> linked[h].hash == g[h].hash && linked[h].parents == g[h].parents
    ensures forall h, x :: h in g ==>
      (x in linked[h].children <==> x in g[h].children || (x in g && h in g[x].parents))
  {
  }

  /**
   * The inner loop of the children pass (lines 142-144) for one commit `c`: add `c` to the
   * children of each of its parents, failing on the first parent that is not a key.
   */
  method LinkParents(g: Graph, linked: Graph, ghost done: set<Hash>, c: Hash) returns (r: Result<Graph, Error>)
    requires c in g
    requires LinkedSoFar(g, linked, done, c, {})
    ensures r.Failure? ==> r.error.MissingCommit? && r.error.hash in g[c].parents && r.error.hash !in g
    ensures r.Success? ==> forall p :: p in g[c].parents ==> p in g
    ensures r.Success? ==> LinkedSoFar(g, r.value, done, c, g[c].parents)
  {
    var linked := linked;
    var ps := g[c].parents;
    while ps != {}
      invariant ps <= g[c].parents
      invariant LinkedSoFar(g, linked, done, c, g[c].parents - ps)
      invariant forall p :: p in g[c].parents - ps ==> p in g
      decreases ps
    {
      var p :| p in ps;
      if p !in linked {
        return Failure(MissingCommit(p));
      }
      AddChildKeepsLinked(g, linked, done, c, g[c].parents - ps, p);
      assert (g[c].parents - ps) + {p} == g[c].parents - (ps - {p});
      linked := linked[p := linked[p].(children := linked[p].children + {c})];
      ps := ps - {p};
    }
    assert g[c].parents - ps == g[c].parents;
    return Success(linked);
  }

  /** Adding the inverse edges to nodes that had no children yields a linked graph. */
  lemma LinkingFreshNodes(g: Graph, linked: Graph)
    requires KeysMatch(g) && ParentClosed(g)
    requires forall h :: h in g ==> g[h].children == {}
    requires linked.Keys == g.Keys
    requires forall h :: h in g ==> linked[h].hash == g[h].hash && linked[h].parents == g[h].parents
    requires forall h, c :: h in g ==> (c in linked[h].children <==> c in g[h].children || (c in g && h in g[c].parents))
    ensures Linked(linked)
  {
  }

  /**
   * `getGraph` as a whole: the walk followed by the children pass. The children pass cannot
   * fail here because the walk's graph is closed under parents.
   */
  method BuildGraph(db: ObjectStore, heads: seq<Hash>) returns (graph: Graph, roots: set<Hash>)
    ensures forall h :: h in graph <==> Reachable(db, Elems(heads), h)
    ensures forall h :: h in graph ==> graph[h].parents == StoreParents(db, h)
    ensures Linked(graph)
    ensures roots == RootsOf(graph)
  {
    var parentsOnly;
    parentsOnly, roots := WalkAncestry(db, heads);
    var r := LinkChildren(parentsOnly);
    assert r.Success?;
    graph := r.value;
    LinkingFreshNodes(parentsOnly, graph);
    assert RootsOf(graph) == RootsOf(parentsOnly);
  }
}
