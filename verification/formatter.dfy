/**
 * The printing loop of `topo_order_commits` (lines 183-227): a two-state machine over adjacent
 * pairs of the order that marks where the listing jumps between unrelated commits. Both the
 * loop as written and a corrected loop that marks every such jump are modelled.
 */
module Formatter {
  import opened Wrappers
  import opened CommitGraph
  import opened OutputLines

  /** Every position the loop looks up (all but the last, below `n`) is a key of the graph. */
  predicate CoveredAsWritten(g: Graph, order: seq<Hash>, n: nat)
  {
    forall k :: 0 <= k < n && k < |order| - 1 ==> order[k] in g
  }

  /** Every position below `n` is a key of the graph. */
  predicate Covered(g: Graph, order: seq<Hash>, n: nat)
  {
    forall k :: 0 <= k < n && k < |order| ==> order[k] in g
  }

  /** The pair at `i` is broken: the next commit listed is not a parent of this one. */
  predicate Breaks(g: Graph, order: seq<Hash>, i: nat)
    requires i < |order| - 1 && order[i] in g
  {
    order[i + 1] !in g[order[i]].parents
  }

  /** `h` is the first of the first `n` positions that is not a key of the graph. */
  ghost predicate FirstMissing(g: Graph, order: seq<Hash>, h: Hash, n: int)
  {
    exists k :: 0 <= k < n && k < |order| && order[k] == h && h !in g && Covered(g, order, k)
  }

  lemma MissingAt(g: Graph, order: seq<Hash>, k: nat, n: int)
    requires k < n && k < |order| && order[k] !in g
    requires forall j :: 0 <= j < k ==> order[j] in g
    ensures FirstMissing(g, order, order[k], n)
  {
    assert Covered(g, order, k);
  }

  // ---------------------------------------------------------------------------------------
  // The loop as written

  /**
   * Whether the loop as written prints a closing marker after position `i`: the `elif` of
   * line 204 is reached only when position `i` did not itself follow a closing marker.
   */
  predicate ClosesAsWritten(g: Graph, order: seq<Hash>, i: nat)
    requires i < |order| - 1 && CoveredAsWritten(g, order, i + 1)
  {
    !(i > 0 && ClosesAsWritten(g, order, i - 1)) && Breaks(g, order, i)
  }

  /** What the loop as written prints for position `i`. */
  function AsWrittenEntry(g: Graph, order: seq<Hash>, i: nat): Entry
    requires i < |order| && CoveredAsWritten(g, order, i + 1)
  {
    var h := order[i];
    if i == |order| - 1 then Entry(h, None, None)
    else if i > 0 && ClosesAsWritten(g, order, i - 1) then Entry(h, Some(g[h].children), None)
    else if !Breaks(g, order, i) then Entry(h, None, None)
    else Entry(h, None, Some(g[h].parents))
  }

  function AsWrittenEntries(g: Graph, order: seq<Hash>, n: nat): (es: seq<Entry>)
    requires n <= |order| && CoveredAsWritten(g, order, n)
    ensures |es| == n
    ensures forall i :: 0 <= i < n ==> es[i] == AsWrittenEntry(g, order, i)
  {
    if n == 0 then [] else AsWrittenEntries(g, order, n - 1) + [AsWrittenEntry(g, order, n - 1)]
  }

  /** The listing the loop as written prints for a non-empty order. */
  function AsWrittenOutput(g: Graph, htb: map<Hash, string>, order: seq<Hash>): seq<Line>
    requires CoveredAsWritten(g, order, |order|)
  {
    Lines(htb, AsWrittenEntries(g, order, |order|))
  }

  /**
   * Lines 183-227 as written. An empty order fails at `order[-1]` (line 223); a position before
   * the last whose hash is not a graph key fails at `graph[commit]` (line 189). Otherwise the
   * listing is the one `AsWrittenOutput` describes.
   */
  method Format(g: Graph, htb: map<Hash, string>, order: seq<Hash>) returns (r: Result<seq<Line>, Error>)
    ensures order == [] ==> r == Failure(EmptyOrder)
    ensures r.Success? <==> order != [] && CoveredAsWritten(g, order, |order|)
    ensures r.Failure? && order != [] ==> r.error.MissingCommit? && FirstMissing(g, order, r.error.hash, |order| - 1)
    ensures r.Success? ==> r.value == AsWrittenOutput(g, htb, order)
  {
    var out: seq<Line> := [];
    var emptyLine := false;
    var i := 0;
    while i < |order| - 1
      invariant i <= |order|
      invariant order != [] ==> i <= |order| - 1
      invariant CoveredAsWritten(g, order, i)
      invariant emptyLine == (i > 0 && ClosesAsWritten(g, order, i - 1))
      invariant out == Lines(htb, AsWrittenEntries(g, order, i))
    {
      var commit := order[i];
      if commit !in g {
        AsWrittenMissingAt(g, order, i);
        return Failure(MissingCommit(commit));
      }
      var node := g[commit];
      ghost var reopens := emptyLine;
      var e: Entry;
      if emptyLine {
        e := Entry(commit, Some(node.children), None);   // "=", the children, the commit
        emptyLine := false;
      } else if order[i + 1] in node.parents {
        e := Entry(commit, None, None);                  // the commit alone
      } else {
        e := Entry(commit, None, Some(node.parents));    // the commit, its parents then "=", a blank line
        emptyLine := true;
      }
      AsWrittenStep(g, htb, order, i, reopens, e, emptyLine, out);
      out := out + EntryLines(htb, e);
      i := i + 1;
    }
    if order == [] {
      return Failure(EmptyOrder);
    }
    AsWrittenLast(g, htb, order, i);
    out := out + EntryLines(htb, Entry(order[|order| - 1], None, None));
    r := Success(out);
  }

  /** A position before the last that the loop as written finds missing is the first missing one. */
  lemma AsWrittenMissingAt(g: Graph, order: seq<Hash>, i: nat)
    requires i < |order| - 1 && CoveredAsWritten(g, order, i) && order[i] !in g
    ensures FirstMissing(g, order, order[i], |order| - 1)
    ensures !CoveredAsWritten(g, order, |order|)
  {
    MissingAt(g, order, i, |order| - 1);
  }

  /** After the loop as written, the last commit is printed plainly, completing the listing. */
  lemma AsWrittenLast(g: Graph, htb: map<Hash, string>, order: seq<Hash>, i: nat)
    requires order != [] && i == |order| - 1 && CoveredAsWritten(g, order, i)
    ensures CoveredAsWritten(g, order, |order|)
    ensures AsWrittenOutput(g, htb, order)
         == Lines(htb, AsWrittenEntries(g, order, i)) + EntryLines(htb, Entry(order[i], None, None))
  {
    assert CoveredAsWritten(g, order, |order|);
    AsWrittenEntriesSnoc(g, htb, order, i);
  }

  /** One pass of the loop body as written prints the entry `AsWrittenEntry` describes and sets the flag when it closes. */
  lemma AsWrittenStep(g: Graph, htb: map<Hash, string>, order: seq<Hash>, i: nat, reopens: bool, e: Entry, closes: bool, prev: seq<Line>)
    requires i < |order| - 1 && CoveredAsWritten(g, order, i) && order[i] in g
    requires reopens == (i > 0 && ClosesAsWritten(g, order, i - 1))
    requires e == if reopens then Entry(order[i], Some(g[order[i]].children), None)
                  else if order[i + 1] in g[order[i]].parents then Entry(order[i], None, None)
                  else Entry(order[i], None, Some(g[order[i]].parents))
    requires closes == (!reopens && order[i + 1] !in g[order[i]].parents)
    requires prev == Lines(htb, AsWrittenEntries(g, order, i))
    ensures CoveredAsWritten(g, order, i + 1)
    ensures e == AsWrittenEntry(g, order, i)
    ensures closes == ClosesAsWritten(g, order, i)
    ensures prev + EntryLines(htb, e) == Lines(htb, AsWrittenEntries(g, order, i + 1))
  {
    assert CoveredAsWritten(g, order, i + 1);
    AsWrittenEntriesSnoc(g, htb, order, i);
  }

  lemma AsWrittenEntriesSnoc(g: Graph, htb: map<Hash, string>, order: seq<Hash>, i: nat)
    requires i < |order| && CoveredAsWritten(g, order, i + 1)
    ensures Lines(htb, AsWrittenEntries(g, order, i + 1))
         == Lines(htb, AsWrittenEntries(g, order, i)) + EntryLines(htb, AsWrittenEntry(g, order, i))
  {
    assert AsWrittenEntries(g, order, i + 1)[..i] == AsWrittenEntries(g, order, i);
  }

  /**
   * The listing as written, read back: the commit lines are the order, one each; a closing
   * marker follows position `i` exactly when the loop's `elif` fires there, and an opening
   * marker precedes position `i` exactly when the position before it closed, except at the
   * last position, which is always printed plainly. A closing marker lists the commit's
   * parents and an opening marker its children.
   */
  lemma AsWrittenReadBack(g: Graph, htb: map<Hash, string>, order: seq<Hash>)
    requires CoveredAsWritten(g, order, |order|)
    ensures CommitsOf(AsWrittenOutput(g, htb, order)) == order
    ensures Labelled(htb, AsWrittenOutput(g, htb, order))
    ensures |ClosingOf(AsWrittenOutput(g, htb, order))| == |order|
    ensures |OpeningOf(AsWrittenOutput(g, htb, order))| == |order|
    ensures forall i :: 0 <= i < |order| ==>
      (ClosingOf(AsWrittenOutput(g, htb, order))[i].Some? <==> i < |order| - 1 && ClosesAsWritten(g, order, i))
    ensures forall i :: 0 <= i < |order| ==>
      (OpeningOf(AsWrittenOutput(g, htb, order))[i].Some? <==> 0 < i < |order| - 1 && ClosesAsWritten(g, order, i - 1))
    ensures forall i :: 0 <= i < |order| && ClosingOf(AsWrittenOutput(g, htb, order))[i].Some? ==>
      order[i] in g && ClosingOf(AsWrittenOutput(g, htb, order))[i].value == g[order[i]].parents
    ensures forall i :: 0 <= i < |order| && OpeningOf(AsWrittenOutput(g, htb, order))[i].Some? ==>
      order[i] in g && OpeningOf(AsWrittenOutput(g, htb, order))[i].value == g[order[i]].children
  {
    var es := AsWrittenEntries(g, order, |order|);
    LinesCommits(htb, es);
    LinesLabelled(htb, es);
    assert CommitsOf(Lines(htb, es)) == order;
    AsWrittenClosings(g, htb, order, es);
    AsWrittenOpenings(g, htb, order, es);
  }

  lemma AsWrittenClosings(g: Graph, htb: map<Hash, string>, order: seq<Hash>, es: seq<Entry>)
    requires CoveredAsWritten(g, order, |order|)
    requires |es| == |order| && forall i :: 0 <= i < |order| ==> es[i] == AsWrittenEntry(g, order, i)
    ensures |ClosingOf(Lines(htb, es))| == |order|
    ensures forall i :: 0 <= i < |order| ==>
      (ClosingOf(Lines(htb, es))[i].Some? <==> i < |order| - 1 && ClosesAsWritten(g, order, i))
    ensures forall i :: 0 <= i < |order| && ClosingOf(Lines(htb, es))[i].Some? ==>
      order[i] in g && ClosingOf(Lines(htb, es))[i].value == g[order[i]].parents
  {
    LinesClosed(htb, es);
    forall i | 0 <= i < |order|
      ensures AsWrittenEntry(g, order, i).closing.Some? <==> i < |order| - 1 && ClosesAsWritten(g, order, i)
      ensures AsWrittenEntry(g, order, i).closing.Some? ==>
        order[i] in g && AsWrittenEntry(g, order, i).closing.value == g[order[i]].parents
    {
      AsWrittenEntryMarkers(g, order, i);
    }
  }

  lemma AsWrittenOpenings(g: Graph, htb: map<Hash, string>, order: seq<Hash>, es: seq<Entry>)
    requires CoveredAsWritten(g, order, |order|)
    requires |es| == |order| && forall i :: 0 <= i < |order| ==> es[i] == AsWrittenEntry(g, order, i)
    ensures |OpeningOf(Lines(htb, es))| == |order|
    ensures forall i :: 0 <= i < |order| ==>
      (OpeningOf(Lines(htb, es))[i].Some? <==> 0 < i < |order| - 1 && ClosesAsWritten(g, order, i - 1))
    ensures forall i :: 0 <= i < |order| && OpeningOf(Lines(htb, es))[i].Some? ==>
      order[i] in g && OpeningOf(Lines(htb, es))[i].value == g[order[i]].children
  {
    LinesOpened(htb, es);
    forall i | 0 <= i < |order|
      ensures AsWrittenEntry(g, order, i).opening.Some? <==> 0 < i < |order| - 1 && ClosesAsWritten(g, order, i - 1)
      ensures AsWrittenEntry(g, order, i).opening.Some? ==>
        order[i] in g && AsWrittenEntry(g, order, i).opening.value == g[order[i]].children
    {
      AsWrittenEntryMarkers(g, order, i);
    }
  }

  /** The markers of one entry as written: after a close it reopens, otherwise it closes at a break. */
  lemma AsWrittenEntryMarkers(g: Graph, order: seq<Hash>, i: nat)
    requires i < |order| && CoveredAsWritten(g, order, |order|)
    ensures AsWrittenEntry(g, order, i).closing.Some? <==> i < |order| - 1 && ClosesAsWritten(g, order, i)
    ensures AsWrittenEntry(g, order, i).opening.Some? <==> 0 < i < |order| - 1 && ClosesAsWritten(g, order, i - 1)
    ensures AsWrittenEntry(g, order, i).closing.Some? ==>
      order[i] in g && AsWrittenEntry(g, order, i).closing.value == g[order[i]].parents
    ensures AsWrittenEntry(g, order, i).opening.Some? ==>
      order[i] in g && AsWrittenEntry(g, order, i).opening.value == g[order[i]].children
  {
  }

  /**
   * The markers the loop as written prints are never wrong, but can be missing: a closing
   * marker is printed only at a broken pair, never right after an opening marker, and the
   * pair it closes is always followed by an opening marker unless the last commit comes next.
   */
  lemma AsWrittenMarkersSound(g: Graph, htb: map<Hash, string>, order: seq<Hash>, i: nat)
    requires CoveredAsWritten(g, order, |order|)
    requires i < |order|
    ensures var out := AsWrittenOutput(g, htb, order);
      && |ClosingOf(out)| == |OpeningOf(out)| == |order|
      && (ClosingOf(out)[i].Some? ==> i < |order| - 1 && Breaks(g, order, i))
      && !(OpeningOf(out)[i].Some? && ClosingOf(out)[i].Some?)
      && (ClosingOf(out)[i].Some? && i + 1 < |order| - 1 ==> OpeningOf(out)[i + 1].Some?)
      && !OpeningOf(out)[|order| - 1].Some? && !ClosingOf(out)[|order| - 1].Some?
  {
    AsWrittenReadBack(g, htb, order);
  }

  // ---------------------------------------------------------------------------------------
  // The corrected loop

  /** The last pair is broken, so the corrected loop reopens before the last commit. */
  predicate ReopensLast(g: Graph, order: seq<Hash>)
  {
    |order| >= 2 && order[|order| - 2] in g && order[|order| - 1] !in g[order[|order| - 2]].parents
  }

  /**
   * Every position below `n` the corrected loop looks up is a key of the graph: every position
   * but the last, as in the original, and the last one too when it is reopened.
   */
  predicate CoveredFixed(g: Graph, order: seq<Hash>, n: nat)
  {
    CoveredAsWritten(g, order, n) && (n >= |order| && ReopensLast(g, order) ==> order[|order| - 1] in g)
  }

  /**
   * What the corrected loop prints for position `i`: an opening marker exactly when the pair
   * before it is broken, a closing marker exactly when the pair after it is broken.
   */
  function FixedEntry(g: Graph, order: seq<Hash>, i: nat): Entry
    requires i < |order| && CoveredFixed(g, order, i + 1)
  {
    var h := order[i];
    var opens := i > 0 && Breaks(g, order, i - 1);
    Entry(h,
          if opens then Some(g[h].children) else None,
          if i < |order| - 1 && order[i + 1] !in g[h].parents then Some(g[h].parents) else None)
  }

  function FixedEntries(g: Graph, order: seq<Hash>, n: nat): (es: seq<Entry>)
    requires n <= |order| && CoveredFixed(g, order, n)
    ensures |es| == n
    ensures forall i :: 0 <= i < n ==> es[i] == FixedEntry(g, order, i)
  {
    if n == 0 then [] else FixedEntries(g, order, n - 1) + [FixedEntry(g, order, n - 1)]
  }

  function FixedOutput(g: Graph, htb: map<Hash, string>, order: seq<Hash>): seq<Line>
    requires CoveredFixed(g, order, |order|)
  {
    Lines(htb, FixedEntries(g, order, |order|))
  }

  /**
   * The loop with the `elif` of line 204 made an independent `if` and the last commit handled
   * by the same body: the closing check runs at every position but the last, and an opening
   * marker follows every closing marker. Like the original, it looks up every position but the
   * last; it looks up the last one only to list its children when it has to be reopened.
   */
  method FormatFixed(g: Graph, htb: map<Hash, string>, order: seq<Hash>) returns (r: Result<seq<Line>, Error>)
    ensures order == [] ==> r == Failure(EmptyOrder)
    ensures r.Success? <==> order != [] && CoveredFixed(g, order, |order|)
    ensures r.Failure? && order != [] ==> r.error.MissingCommit? && FirstMissing(g, order, r.error.hash, |order|)
    ensures r.Success? ==> r.value == FixedOutput(g, htb, order)
  {
    var out: seq<Line> := [];
    var emptyLine := false;
    var i := 0;
    while i < |order|
      invariant i <= |order|
      invariant CoveredFixed(g, order, i)
      invariant 0 < i < |order| ==> order[i - 1] in g
      invariant emptyLine == (0 < i < |order| && Breaks(g, order, i - 1))
      invariant out == Lines(htb, FixedEntries(g, order, i))
    {
      var pass := FixedPass(g, order, i, emptyLine);
      if pass.Failure? {
        return Failure(pass.error);
      }
      var e := pass.value.0;
      emptyLine := pass.value.1;
      FixedEntriesSnoc(g, htb, order, i, out);
      out := out + EntryLines(htb, e);
      i := i + 1;
    }
    if order == [] {
      return Failure(EmptyOrder);
    }
    r := Success(out);
  }

  /** A position the corrected loop looks up and finds missing is the first missing one. */
  lemma FixedMissingAt(g: Graph, order: seq<Hash>, i: nat)
    requires i < |order| && CoveredFixed(g, order, i)
    requires 0 < i < |order| ==> order[i - 1] in g
    requires i < |order| - 1 || (i > 0 && Breaks(g, order, i - 1))
    requires order[i] !in g
    ensures FirstMissing(g, order, order[i], |order|)
    ensures !CoveredFixed(g, order, |order|)
  {
    MissingAt(g, order, i, |order|);
  }

  /**
   * One pass of the corrected loop's body: look the commit up unless it is the last one and
   * needs no opening marker, failing when it is not a key; then an opening marker listing the
   * children when the flag is set, and a closing marker listing the parents when the next commit
   * is not one of them, which sets the flag again.
   */
  method FixedPass(g: Graph, order: seq<Hash>, i: nat, emptyLine: bool) returns (r: Result<(Entry, bool), Error>)
    requires i < |order| && CoveredFixed(g, order, i)
    requires 0 < i ==> order[i - 1] in g
    requires emptyLine == (0 < i && Breaks(g, order, i - 1))
    ensures r.Failure? ==> r.error == MissingCommit(order[i]) && FirstMissing(g, order, order[i], |order|)
    ensures r.Failure? ==> !CoveredFixed(g, order, |order|)
    ensures r.Success? ==> CoveredFixed(g, order, i + 1) && (i < |order| - 1 ==> order[i] in g)
    ensures r.Success? ==> r.value.0 == FixedEntry(g, order, i)
    ensures r.Success? ==> r.value.1 == (i < |order| - 1 && Breaks(g, order, i))
  {
    var commit := order[i];
    if (i < |order| - 1 || emptyLine) && commit !in g {
      FixedMissingAt(g, order, i);
      return Failure(MissingCommit(commit));
    }
    FixedCoveredGrows(g, order, i);
    var opening: Option<set<Hash>> := None;
    var closing: Option<set<Hash>> := None;
    var closes := false;
    if emptyLine {
      opening := Some(g[commit].children);             // "=", then the children
    }
    if i < |order| - 1 && order[i + 1] !in g[commit].parents {
      closing := Some(g[commit].parents);              // the parents then "=", a blank line
      closes := true;
    }
    return Success((Entry(commit, opening, closing), closes));
  }

  lemma FixedCoveredGrows(g: Graph, order: seq<Hash>, i: nat)
    requires i < |order| && CoveredFixed(g, order, i)
    requires 0 < i ==> order[i - 1] in g
    requires i < |order| - 1 || (0 < i && Breaks(g, order, i - 1)) ==> order[i] in g
    ensures CoveredFixed(g, order, i + 1)
  {
  }

  lemma FixedEntriesSnoc(g: Graph, htb: map<Hash, string>, order: seq<Hash>, i: nat, prev: seq<Line>)
    requires i < |order| && CoveredFixed(g, order, i + 1)
    requires prev == Lines(htb, FixedEntries(g, order, i))
    ensures prev + EntryLines(htb, FixedEntry(g, order, i)) == Lines(htb, FixedEntries(g, order, i + 1))
  {
    assert FixedEntries(g, order, i + 1)[..i] == FixedEntries(g, order, i);
  }

  /**
   * The corrected listing read back: the commit lines are the order, one each; a closing marker
   * follows a commit exactly when the next commit listed is not one of its parents, and an
   * opening marker precedes a commit exactly when it does not continue the commit above it.
   * A closing marker lists the commit's parents and an opening marker its children.
   */
  lemma FixedReadBack(g: Graph, htb: map<Hash, string>, order: seq<Hash>)
    requires CoveredFixed(g, order, |order|)
    ensures CommitsOf(FixedOutput(g, htb, order)) == order
    ensures Labelled(htb, FixedOutput(g, htb, order))
    ensures |ClosingOf(FixedOutput(g, htb, order))| == |order| && |OpeningOf(FixedOutput(g, htb, order))| == |order|
    ensures forall i :: 0 <= i < |order| - 1 ==> order[i] in g
    ensures forall i :: 0 <= i < |order| ==>
      (ClosingOf(FixedOutput(g, htb, order))[i].Some? <==> i < |order| - 1 && Breaks(g, order, i))
    ensures forall i :: 0 <= i < |order| ==>
      (OpeningOf(FixedOutput(g, htb, order))[i].Some? <==> i > 0 && Breaks(g, order, i - 1))
    ensures forall i :: 0 <= i < |order| && ClosingOf(FixedOutput(g, htb, order))[i].Some? ==>
      order[i] in g && ClosingOf(FixedOutput(g, htb, order))[i].value == g[order[i]].parents
    ensures forall i :: 0 <= i < |order| && OpeningOf(FixedOutput(g, htb, order))[i].Some? ==>
      order[i] in g && OpeningOf(FixedOutput(g, htb, order))[i].value == g[order[i]].children
  {
    var es := FixedEntries(g, order, |order|);
    LinesCommits(htb, es);
    LinesLabelled(htb, es);
    assert CommitsOf(Lines(htb, es)) == order;
    FixedClosings(g, htb, order, es);
    FixedOpenings(g, htb, order, es);
  }

  lemma FixedClosings(g: Graph, htb: map<Hash, string>, order: seq<Hash>, es: seq<Entry>)
    requires CoveredFixed(g, order, |order|)
    requires |es| == |order| && forall i :: 0 <= i < |order| ==> es[i] == FixedEntry(g, order, i)
    ensures |ClosingOf(Lines(htb, es))| == |order|
    ensures forall i :: 0 <= i < |order| ==>
      (ClosingOf(Lines(htb, es))[i].Some? <==> i < |order| - 1 && Breaks(g, order, i))
    ensures forall i :: 0 <= i < |order| && ClosingOf(Lines(htb, es))[i].Some? ==>
      order[i] in g && ClosingOf(Lines(htb, es))[i].value == g[order[i]].parents
  {
    LinesClosed(htb, es);
    forall i | 0 <= i < |order|
      ensures FixedEntry(g, order, i).closing.Some? <==> i < |order| - 1 && Breaks(g, order, i)
      ensures FixedEntry(g, order, i).closing.Some? ==>
        order[i] in g && FixedEntry(g, order, i).closing.value == g[order[i]].parents
    {
      FixedEntryMarkers(g, order, i);
    }
  }

  lemma FixedOpenings(g: Graph, htb: map<Hash, string>, order: seq<Hash>, es: seq<Entry>)
    requires CoveredFixed(g, order, |order|)
    requires |es| == |order| && forall i :: 0 <= i < |order| ==> es[i] == FixedEntry(g, order, i)
    ensures |OpeningOf(Lines(htb, es))| == |order|
    ensures forall i :: 0 <= i < |order| ==>
      (OpeningOf(Lines(htb, es))[i].Some? <==> i > 0 && Breaks(g, order, i - 1))
    ensures forall i :: 0 <= i < |order| && OpeningOf(Lines(htb, es))[i].Some? ==>
      order[i] in g && OpeningOf(Lines(htb, es))[i].value == g[order[i]].children
  {
    LinesOpened(htb, es);
    forall i | 0 <= i < |order|
      ensures FixedEntry(g, order, i).opening.Some? <==> i > 0 && Breaks(g, order, i - 1)
      ensures FixedEntry(g, order, i).opening.Some? ==>
        order[i] in g && FixedEntry(g, order, i).opening.value == g[order[i]].children
    {
      FixedEntryMarkers(g, order, i);
    }
  }

  /** The markers of one corrected entry: at the broken pairs around it, listing its parents and children. */
  lemma FixedEntryMarkers(g: Graph, order: seq<Hash>, i: nat)
    requires i < |order| && CoveredFixed(g, order, |order|)
    ensures i < |order| - 1 ==> order[i] in g
    ensures 0 < i ==> order[i - 1] in g
    ensures FixedEntry(g, order, i).closing.Some? <==> i < |order| - 1 && Breaks(g, order, i)
    ensures FixedEntry(g, order, i).opening.Some? <==> i > 0 && Breaks(g, order, i - 1)
    ensures FixedEntry(g, order, i).closing.Some? ==>
      order[i] in g && FixedEntry(g, order, i).closing.value == g[order[i]].parents
    ensures FixedEntry(g, order, i).opening.Some? ==>
      order[i] in g && FixedEntry(g, order, i).opening.value == g[order[i]].children
  {
  }

  /** In the corrected listing the two markers always come in pairs around a broken pair. */
  lemma FixedMarkersPair(g: Graph, htb: map<Hash, string>, order: seq<Hash>, i: nat)
    requires CoveredFixed(g, order, |order|)
    requires i < |order| - 1
    ensures var out := FixedOutput(g, htb, order);
      |ClosingOf(out)| == |OpeningOf(out)| == |order| && (ClosingOf(out)[i].Some? <==> OpeningOf(out)[i + 1].Some?)
  {
    FixedReadBack(g, htb, order);
  }

  /**
   * Where no two broken pairs are adjacent and the last pair is not broken, the loop as written
   * prints exactly what the corrected loop prints.
   */
  lemma {:induction false} AsWrittenAgreesWithoutAdjacentBreaks(g: Graph, htb: map<Hash, string>, order: seq<Hash>)
    requires CoveredAsWritten(g, order, |order|)
    requires forall i :: 0 <= i < |order| - 2 ==> !(Breaks(g, order, i) && Breaks(g, order, i + 1))
    requires |order| >= 2 ==> !Breaks(g, order, |order| - 2)
    ensures AsWrittenOutput(g, htb, order) == FixedOutput(g, htb, order)
  {
    var n := |order|;
    forall i | 0 <= i < n
      ensures AsWrittenEntry(g, order, i) == FixedEntry(g, order, i)
    {
      if i < n - 1 {
        ClosesExactlyAtBreaks(g, order, i);
      }
      if i > 0 {
        ClosesExactlyAtBreaks(g, order, i - 1);
      }
    }
    assert AsWrittenEntries(g, order, n) == FixedEntries(g, order, n);
  }

  lemma {:induction false} ClosesExactlyAtBreaks(g: Graph, order: seq<Hash>, i: nat)
    requires CoveredAsWritten(g, order, |order|)
    requires forall j :: 0 <= j < |order| - 2 ==> !(Breaks(g, order, j) && Breaks(g, order, j + 1))
    requires i < |order| - 1
    ensures ClosesAsWritten(g, order, i) == Breaks(g, order, i)
  {
    if i > 0 {
      ClosesExactlyAtBreaks(g, order, i - 1);
    }
  }

  // ---------------------------------------------------------------------------------------
  // Where the loop as written differs

  /** Three unrelated root commits listed in a row. */
  function ThreeRoots(): Graph
  {
    map["a" := CommitNode("a", {}, {}), "b" := CommitNode("b", {}, {}), "c" := CommitNode("c", {}, {})]
  }

  /**
   * Order a, b, c over three unrelated roots: the pair (b, c) is broken, yet the loop as
   * written prints no closing marker after b, because b follows a closing marker.
   */
  lemma MissedCloseAfterReopen()
    ensures var g, order := ThreeRoots(), ["a", "b", "c"];
      && Breaks(g, order, 1)
      && AsWrittenOutput(g, map[], order)
         == [CommitLine("a", None), CloseLine({}), BlankLine, OpenLine, ChildrenLine({}), CommitLine("b", None), CommitLine("c", None)]
      && |ClosingOf(AsWrittenOutput(g, map[], order))| == 3
      && !ClosingOf(AsWrittenOutput(g, map[], order))[1].Some?
  {
    var g, order := ThreeRoots(), ["a", "b", "c"];
    var es := AsWrittenEntries(g, order, 3);
    ThreeRootsEntries();
    ThreeRootsLines(es);
    LinesClosed(map[], es);
  }

  lemma ThreeRootsEntries()
    ensures var g, order := ThreeRoots(), ["a", "b", "c"];
      AsWrittenEntries(g, order, 3) == [Entry("a", None, Some({})), Entry("b", Some({}), None), Entry("c", None, None)]
  {
    var g, order := ThreeRoots(), ["a", "b", "c"];
    assert ClosesAsWritten(g, order, 0);
    assert !ClosesAsWritten(g, order, 1);
    var es := AsWrittenEntries(g, order, 3);
    assert es[0] == Entry("a", None, Some({}));
    assert es[1] == Entry("b", Some({}), None);
    assert es[2] == Entry("c", None, None);
  }

  lemma ThreeRootsLines(es: seq<Entry>)
    requires es == [Entry("a", None, Some({})), Entry("b", Some({}), None), Entry("c", None, None)]
    ensures Lines(map[], es)
         == [CommitLine("a", None), CloseLine({}), BlankLine, OpenLine, ChildrenLine({}), CommitLine("b", None), CommitLine("c", None)]
  {
    LinesOfThree(map[], es[0], es[1], es[2]);
  }

  /**
   * Order a, b over two unrelated roots: the loop as written closes after a, but prints b, the
   * last commit, without the opening marker that every other closing marker is followed by.
   */
  lemma MissedReopenAtEnd()
    ensures var g, order := ThreeRoots(), ["a", "b"];
      && Breaks(g, order, 0)
      && AsWrittenOutput(g, map[], order) == [CommitLine("a", None), CloseLine({}), BlankLine, CommitLine("b", None)]
      && |ClosingOf(AsWrittenOutput(g, map[], order))| == 2
      && |OpeningOf(AsWrittenOutput(g, map[], order))| == 2
      && ClosingOf(AsWrittenOutput(g, map[], order))[0].Some?
      && !OpeningOf(AsWrittenOutput(g, map[], order))[1].Some?
  {
    var g, order := ThreeRoots(), ["a", "b"];
    var es := AsWrittenEntries(g, order, 2);
    TwoRootsEntries();
    LinesOfTwo(map[], es[0], es[1]);
    LinesClosed(map[], es);
    LinesOpened(map[], es);
  }

  lemma TwoRootsEntries()
    ensures var g, order := ThreeRoots(), ["a", "b"];
      AsWrittenEntries(g, order, 2) == [Entry("a", None, Some({})), Entry("b", None, None)]
  {
    var g, order := ThreeRoots(), ["a", "b"];
    assert ClosesAsWritten(g, order, 0);
    var es := AsWrittenEntries(g, order, 2);
    assert es[0] == Entry("a", None, Some({}));
    assert es[1] == Entry("b", None, None);
  }

  lemma LinesOfTwo(htb: map<Hash, string>, e0: Entry, e1: Entry)
    ensures Lines(htb, [e0, e1]) == EntryLines(htb, e0) + EntryLines(htb, e1)
  {
    assert [e0, e1][..1] == [e0];
    assert [e0][..0] == [];
    assert Lines(htb, [e0]) == [] + EntryLines(htb, e0) == EntryLines(htb, e0);
  }

  lemma LinesOfThree(htb: map<Hash, string>, e0: Entry, e1: Entry, e2: Entry)
    ensures Lines(htb, [e0, e1, e2]) == EntryLines(htb, e0) + EntryLines(htb, e1) + EntryLines(htb, e2)
  {
    assert [e0, e1, e2][..2] == [e0, e1];
    LinesOfTwo(htb, e0, e1);
  }
}
