/**
 * `topo_order_commits`: build the graph, sort it, label the tips and print the sorted commits
 * with sticky markers. `TopoOrderCommits` prints them with the loop as written;
 * `TopoOrderCommitsFixed` prints them with the corrected loop that marks every gap.
 */
module TopoOrder {
  import opened Wrappers
  import opened Seqs
  import opened CommitGraph
  import opened GraphBuilder
  import TopoSort
  import opened Branches
  import opened OutputLines
  import opened Formatter
  import opened Render

  /** `b` follows `a` in the output without being one of its parents, so a sticky break is due. */
  predicate Gap(db: ObjectStore, a: Hash, b: Hash)
  {
    b !in StoreParents(db, a)
  }

  /**
   * The loop as written closes after position `i` of `cs` when the next commit is not a parent
   * of this one and position `i` was not itself printed right after a closing marker.
   */
  predicate ClosesAt(db: ObjectStore, cs: seq<Hash>, i: nat)
    requires i < |cs| - 1
  {
    !(i > 0 && ClosesAt(db, cs, i - 1)) && Gap(db, cs[i], cs[i + 1])
  }

  /** `s` is exactly the set of walked commits that name `h` among their parents. */
  ghost predicate ChildrenIn(db: ObjectStore, heads: set<Hash>, h: Hash, s: set<Hash>)
  {
    forall c :: c in s <==> Reachable(db, heads, c) && h in StoreParents(db, c)
  }

  /** The commits the output lists, in order, form a topological order of the ancestry walked from the tips. */
  ghost predicate ListsAncestry(db: ObjectStore, heads: set<Hash>, cs: seq<Hash>)
  {
    && Distinct(cs)
    && (forall i :: 0 <= i < |cs| ==> Reachable(db, heads, cs[i]))
    && (forall i, p :: 0 <= i < |cs| && p in StoreParents(db, cs[i]) ==> p in cs[i + 1..])
    && ((forall h :: Reachable(db, heads, h) ==> h in cs) <==> TopoSort.AncestryAcyclic(db, heads))
  }

  /** A closing marker lists the commit's parents in the store, an opening marker its walked children. */
  ghost predicate MarkerContents(db: ObjectStore, heads: set<Hash>, lines: seq<Line>)
  {
    var cs := CommitsOf(lines);
    && |ClosingOf(lines)| == |cs| && |OpeningOf(lines)| == |cs|
    && (forall i :: 0 <= i < |cs| && ClosingOf(lines)[i].Some? ==> ClosingOf(lines)[i].value == StoreParents(db, cs[i]))
    && (forall i :: 0 <= i < |cs| && OpeningOf(lines)[i].Some? ==> ChildrenIn(db, heads, cs[i], OpeningOf(lines)[i].value))
  }

  /**
   * The markers of the loop as written: a closing marker follows exactly the positions where
   * `ClosesAt` holds, and an opening marker precedes exactly the positions after one, except the
   * last commit, which is printed plainly.
   */
  predicate MarksAsWritten(db: ObjectStore, lines: seq<Line>)
  {
    var cs := CommitsOf(lines);
    && |ClosingOf(lines)| == |cs| && |OpeningOf(lines)| == |cs|
    && (forall i :: 0 <= i < |cs| ==> (ClosingOf(lines)[i].Some? <==> i < |cs| - 1 && ClosesAt(db, cs, i)))
    && (forall i :: 0 <= i < |cs| ==> (OpeningOf(lines)[i].Some? <==> 0 < i < |cs| - 1 && ClosesAt(db, cs, i - 1)))
  }

  /** A closing marker follows exactly the commits before a gap, an opening marker precedes exactly those after one. */
  predicate MarksGaps(db: ObjectStore, lines: seq<Line>)
  {
    var cs := CommitsOf(lines);
    && |ClosingOf(lines)| == |cs| && |OpeningOf(lines)| == |cs|
    && (forall i :: 0 <= i < |cs| ==> (ClosingOf(lines)[i].Some? <==> i < |cs| - 1 && Gap(db, cs[i], cs[i + 1])))
    && (forall i :: 0 <= i < |cs| ==> (OpeningOf(lines)[i].Some? <==> i > 0 && Gap(db, cs[i - 1], cs[i])))
  }

  /**
   * The whole program on a repository given as its object store and its branch list, printing
   * with the loop as written. The output is empty exactly when the sort yields nothing (where
   * the original fails on `order[-1]`); this cannot happen for a non-empty branch list with
   * acyclic ancestry.
   */
  method TopoOrderCommits(db: ObjectStore, branches: seq<Branch>) returns (r: Result<seq<Line>, Error>, text: seq<string>)
    requires UniqueNames(branches)
    ensures r.Failure? ==> r.error == EmptyOrder && text == []
    ensures branches == [] ==> r.Failure?
    ensures branches != [] && TopoSort.AncestryAcyclic(db, Elems(Heads(branches))) ==> r.Success?
    ensures r.Success? ==> ListsAncestry(db, Elems(Heads(branches)), CommitsOf(r.value))
    ensures r.Success? ==> WholeEntries(HashToBranch(branches), r.value)
    ensures r.Success? ==> MarksAsWritten(db, r.value)
    ensures r.Success? ==> MarkerContents(db, Elems(Heads(branches)), r.value)
    ensures r.Success? ==> Labelled(HashToBranch(branches), r.value)
    ensures r.Success? ==> |text| == |r.value| && forall i :: 0 <= i < |text| ==> RendersAs(r.value[i], text[i])
  {
    var heads := Heads(branches);
    var graph, _ := BuildGraph(db, heads);
    var order := TopoSort.TopoSort(db, heads);
    var htb := HashToBranch(branches);
    WalkedOrderCovered(db, Elems(heads), graph, order);
    r := Format(graph, htb, order);
    if r.Success? {
      WalkedAsWritten(db, Elems(heads), graph, htb, order);
      assert r.value == Lines(htb, AsWrittenEntries(graph, order, |order|));
      text := RenderAll(r.value);
    } else {
      text := [];
      if branches != [] && TopoSort.AncestryAcyclic(db, Elems(heads)) {
        HeadReachable(db, Elems(heads), heads[0]);
        assert false;
      }
    }
  }

  /**
   * The whole program with the corrected printing loop: the same listing, with a closing marker
   * after and an opening marker before every gap.
   */
  method TopoOrderCommitsFixed(db: ObjectStore, branches: seq<Branch>) returns (r: Result<seq<Line>, Error>, text: seq<string>)
    requires UniqueNames(branches)
    ensures r.Failure? ==> r.error == EmptyOrder && text == []
    ensures branches == [] ==> r.Failure?
    ensures branches != [] && TopoSort.AncestryAcyclic(db, Elems(Heads(branches))) ==> r.Success?
    ensures r.Success? ==> ListsAncestry(db, Elems(Heads(branches)), CommitsOf(r.value))
    ensures r.Success? ==> WholeEntries(HashToBranch(branches), r.value)
    ensures r.Success? ==> MarksGaps(db, r.value)
    ensures r.Success? ==> MarkerContents(db, Elems(Heads(branches)), r.value)
    ensures r.Success? ==> Labelled(HashToBranch(branches), r.value)
    ensures r.Success? ==> |text| == |r.value| && forall i :: 0 <= i < |text| ==> RendersAs(r.value[i], text[i])
  {
    var heads := Heads(branches);
    var graph, _ := BuildGraph(db, heads);
    var order := TopoSort.TopoSort(db, heads);
    var htb := HashToBranch(branches);
    WalkedOrderCovered(db, Elems(heads), graph, order);
    r := FormatFixed(graph, htb, order);
    if r.Success? {
      WalkedFixed(db, Elems(heads), graph, htb, order);
      assert r.value == Lines(htb, FixedEntries(graph, order, |order|));
      text := RenderAll(r.value);
    } else {
      text := [];
      if branches != [] && TopoSort.AncestryAcyclic(db, Elems(heads)) {
        HeadReachable(db, Elems(heads), heads[0]);
        assert false;
      }
    }
  }

  /**
   * On the walked graph, the listing the loop as written prints names the order, marks the
   * positions `ClosesAt` picks on the store, lists the store's parents and the walked children,
   * and labels every tip.
   */
  lemma WalkedAsWritten(db: ObjectStore, heads: set<Hash>, graph: Graph, htb: map<Hash, string>, order: seq<Hash>)
    requires forall h :: h in graph <==> Reachable(db, heads, h)
    requires forall h :: h in graph ==> graph[h].parents == StoreParents(db, h)
    requires Linked(graph)
    requires forall i :: 0 <= i < |order| ==> Reachable(db, heads, order[i])
    ensures CoveredAsWritten(graph, order, |order|)
    ensures CommitsOf(AsWrittenOutput(graph, htb, order)) == order
    ensures MarksAsWritten(db, AsWrittenOutput(graph, htb, order))
    ensures MarkerContents(db, heads, AsWrittenOutput(graph, htb, order))
    ensures Labelled(htb, AsWrittenOutput(graph, htb, order))
  {
    WalkedOrderCovered(db, heads, graph, order);
    AsWrittenReadBack(graph, htb, order);
    WalkedClosesAt(db, heads, graph, order);
    WalkedContents(db, heads, graph, order, AsWrittenOutput(graph, htb, order));
  }

  /**
   * On the walked graph, the listing the corrected loop prints names the order, marks exactly
   * the gaps in the store's parent lists, lists the store's parents and the walked children,
   * and labels every tip.
   */
  lemma WalkedFixed(db: ObjectStore, heads: set<Hash>, graph: Graph, htb: map<Hash, string>, order: seq<Hash>)
    requires forall h :: h in graph <==> Reachable(db, heads, h)
    requires forall h :: h in graph ==> graph[h].parents == StoreParents(db, h)
    requires Linked(graph)
    requires forall i :: 0 <= i < |order| ==> Reachable(db, heads, order[i])
    ensures CoveredFixed(graph, order, |order|)
    ensures CommitsOf(FixedOutput(graph, htb, order)) == order
    ensures MarksGaps(db, FixedOutput(graph, htb, order))
    ensures MarkerContents(db, heads, FixedOutput(graph, htb, order))
    ensures Labelled(htb, FixedOutput(graph, htb, order))
  {
    WalkedOrderCovered(db, heads, graph, order);
    FixedReadBack(graph, htb, order);
    GapsAreBreaks(db, heads, graph, order);
    WalkedContents(db, heads, graph, order, FixedOutput(graph, htb, order));
  }

  /** Every commit of the sorted order is a key of the walked graph, so no lookup fails. */
  lemma WalkedOrderCovered(db: ObjectStore, heads: set<Hash>, graph: Graph, order: seq<Hash>)
    requires forall h :: h in graph <==> Reachable(db, heads, h)
    requires forall i :: 0 <= i < |order| ==> Reachable(db, heads, order[i])
    ensures CoveredAsWritten(graph, order, |order|)
    ensures CoveredFixed(graph, order, |order|)
    ensures Covered(graph, order, |order|)
  {
  }

  /** On the walked graph, a break between consecutive commits is a gap in the store's parent lists. */
  lemma GapsAreBreaks(db: ObjectStore, heads: set<Hash>, graph: Graph, order: seq<Hash>)
    requires forall h :: h in graph <==> Reachable(db, heads, h)
    requires forall h :: h in graph ==> graph[h].parents == StoreParents(db, h)
    requires forall i :: 0 <= i < |order| ==> Reachable(db, heads, order[i])
    ensures forall i :: 0 <= i < |order| - 1 ==> (Breaks(graph, order, i) <==> Gap(db, order[i], order[i + 1]))
  {
  }

  /** On the walked graph, the as-written closing rule is `ClosesAt` on the store. */
  lemma WalkedClosesAt(db: ObjectStore, heads: set<Hash>, graph: Graph, order: seq<Hash>)
    requires forall h :: h in graph <==> Reachable(db, heads, h)
    requires forall h :: h in graph ==> graph[h].parents == StoreParents(db, h)
    requires forall i :: 0 <= i < |order| ==> Reachable(db, heads, order[i])
    ensures CoveredAsWritten(graph, order, |order|)
    ensures forall i :: 0 <= i < |order| - 1 ==> ClosesAsWritten(graph, order, i) == ClosesAt(db, order, i)
  {
    forall i | 0 <= i < |order| - 1
      ensures ClosesAsWritten(graph, order, i) == ClosesAt(db, order, i)
    {
      ClosesAtAgrees(db, heads, graph, order, i);
    }
  }

  lemma {:induction false} ClosesAtAgrees(db: ObjectStore, heads: set<Hash>, graph: Graph, order: seq<Hash>, i: nat)
    requires forall h :: h in graph <==> Reachable(db, heads, h)
    requires forall h :: h in graph ==> graph[h].parents == StoreParents(db, h)
    requires forall i :: 0 <= i < |order| ==> Reachable(db, heads, order[i])
    requires i < |order| - 1
    ensures CoveredAsWritten(graph, order, i + 1)
    ensures ClosesAsWritten(graph, order, i) == ClosesAt(db, order, i)
  {
    assert order[i] in graph;
    if i > 0 {
      ClosesAtAgrees(db, heads, graph, order, i - 1);
    }
  }

  /** On the walked graph, a commit's children are exactly the walked commits naming it as a parent. */
  lemma WalkedChildren(db: ObjectStore, heads: set<Hash>, graph: Graph, h: Hash)
    requires forall h :: h in graph <==> Reachable(db, heads, h)
    requires forall h :: h in graph ==> graph[h].parents == StoreParents(db, h)
    requires Linked(graph)
    requires h in graph
    ensures ChildrenIn(db, heads, h, graph[h].children)
  {
    forall c
      ensures c in graph[h].children <==> Reachable(db, heads, c) && h in StoreParents(db, c)
    {
      if c in graph[h].children {
        assert c in graph;
      }
    }
  }

  /** Markers that list the walked graph's parents and children list the store's parents and the walked children. */
  lemma WalkedContents(db: ObjectStore, heads: set<Hash>, graph: Graph, order: seq<Hash>, lines: seq<Line>)
    requires forall h :: h in graph <==> Reachable(db, heads, h)
    requires forall h :: h in graph ==> graph[h].parents == StoreParents(db, h)
    requires Linked(graph)
    requires CommitsOf(lines) == order
    requires |ClosingOf(lines)| == |order| && |OpeningOf(lines)| == |order|
    requires forall i :: 0 <= i < |order| && ClosingOf(lines)[i].Some? ==>
      order[i] in graph && ClosingOf(lines)[i].value == graph[order[i]].parents
    requires forall i :: 0 <= i < |order| && OpeningOf(lines)[i].Some? ==>
      order[i] in graph && OpeningOf(lines)[i].value == graph[order[i]].children
    ensures MarkerContents(db, heads, lines)
  {
    forall i | 0 <= i < |order| && OpeningOf(lines)[i].Some?
      ensures ChildrenIn(db, heads, order[i], OpeningOf(lines)[i].value)
    {
      WalkedChildren(db, heads, graph, order[i]);
    }
  }
}
