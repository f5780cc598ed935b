/**
 * The lines the formatter prints, as structured values, and three ways of reading a printed
 * listing back: which commits it names, which parents the closing marker after each commit
 * line lists, and which children the opening marker before it lists.
 */
module OutputLines {
  import opened Wrappers
  import opened Seqs
  import opened CommitGraph

  datatype Line =
    | CommitLine(hash: Hash, branch: Option<string>)  // a commit, with its branch name when it is a tip
    | CloseLine(parents: set<Hash>)                   // closing marker: each parent then a space, then "="
    | BlankLine                                        // the empty line after a closing marker
    | OpenLine                                         // opening marker "="
    | ChildrenLine(children: set<Hash>)               // the children, printed one after another

  /**
   * What the loop decides for one position of the order: the children listed by an opening
   * marker before the commit line, and the parents listed by a closing marker after it.
   */
  datatype Entry = Entry(hash: Hash, opening: Option<set<Hash>>, closing: Option<set<Hash>>)

  /** The commit line for `h`: suffixed with the branch name exactly when `h` is a branch tip. */
  function Label(htb: map<Hash, string>, h: Hash): Line
  {
    CommitLine(h, if h in htb then Some(htb[h]) else None)
  }

  /** The lines printed for one position, in print order. */
  function EntryLines(htb: map<Hash, string>, e: Entry): seq<Line>
  {
    (if e.opening.Some? then [OpenLine, ChildrenLine(e.opening.value)] else [])
    + [Label(htb, e.hash)]
    + (if e.closing.Some? then [CloseLine(e.closing.value), BlankLine] else [])
  }

  function Lines(htb: map<Hash, string>, es: seq<Entry>): seq<Line>
  {
    if es == [] then [] else Lines(htb, es[..|es| - 1]) + EntryLines(htb, es[|es| - 1])
  }

  /** The hashes of the commit lines, top to bottom. */
  function CommitsOf(lines: seq<Line>): seq<Hash>
  {
    if lines == [] then []
    else
      var last := lines[|lines| - 1];
      CommitsOf(lines[..|lines| - 1]) + (if last.CommitLine? then [last.hash] else [])
  }

  /** The closing marker right after a commit line, if any: the parents it lists. */
  function CloseAfter(lines: seq<Line>): Option<set<Hash>>
    requires lines != []
  {
    if |lines| > 1 && lines[1].CloseLine? then Some(lines[1].parents) else None
  }

  /** One entry per commit line: the parents listed by the closing marker right after it, if any. */
  function ClosingOf(lines: seq<Line>): seq<Option<set<Hash>>>
  {
    if lines == [] then []
    else (if lines[0].CommitLine? then [CloseAfter(lines)] else []) + ClosingOf(lines[1..])
  }

  /** The children line right before the last line, if any: the children it lists. */
  function OpenBefore(lines: seq<Line>): Option<set<Hash>>
    requires lines != []
  {
    var n := |lines|;
    if n > 1 && lines[n - 2].ChildrenLine? then Some(lines[n - 2].children) else None
  }

  /** One entry per commit line: the children listed by the opening marker right before it, if any. */
  function OpeningOf(lines: seq<Line>): seq<Option<set<Hash>>>
  {
    if lines == [] then [] else OpeningOf(lines[..|lines| - 1]) + LastOpening(lines)
  }

  /** The entry the last line contributes to `OpeningOf`: one when it is a commit line. */
  function LastOpening(lines: seq<Line>): seq<Option<set<Hash>>>
    requires lines != []
  {
    if lines[|lines| - 1].CommitLine? then [OpenBefore(lines)] else []
  }

  /** The hashes of a run of entries, and the markers each asked for. */
  function HashesOf(es: seq<Entry>): (r: seq<Hash>)
    ensures |r| == |es| && forall i :: 0 <= i < |es| ==> r[i] == es[i].hash
  {
    seq(|es|, i requires 0 <= i < |es| => es[i].hash)
  }

  function ClosingsOf(es: seq<Entry>): (r: seq<Option<set<Hash>>>)
    ensures |r| == |es| && forall i :: 0 <= i < |es| ==> r[i] == es[i].closing
  {
    seq(|es|, i requires 0 <= i < |es| => es[i].closing)
  }

  function OpeningsOf(es: seq<Entry>): (r: seq<Option<set<Hash>>>)
    ensures |r| == |es| && forall i :: 0 <= i < |es| ==> r[i] == es[i].opening
  {
    seq(|es|, i requires 0 <= i < |es| => es[i].opening)
  }

  lemma FieldsSnoc(es: seq<Entry>)
    requires es != []
    ensures HashesOf(es) == HashesOf(es[..|es| - 1]) + [es[|es| - 1].hash]
    ensures ClosingsOf(es) == ClosingsOf(es[..|es| - 1]) + [es[|es| - 1].closing]
    ensures OpeningsOf(es) == OpeningsOf(es[..|es| - 1]) + [es[|es| - 1].opening]
  {
    var n := |es| - 1;
    assert forall i :: 0 <= i < n ==> es[..n][i] == es[i];
  }

  /** Every commit line carries a branch name exactly when its hash is a tip, and then the tip's name. */
  predicate Labelled(htb: map<Hash, string>, lines: seq<Line>)
  {
    forall k :: 0 <= k < |lines| && lines[k].CommitLine? ==> lines[k] == Label(htb, lines[k].hash)
  }

  lemma {:induction false} CommitsOfAppend(a: seq<Line>, b: seq<Line>)
    ensures CommitsOf(a + b) == CommitsOf(a) + CommitsOf(b)
    decreases |b|
  {
    if b == [] {
      assert a + b == a;
    } else {
      var n := |b| - 1;
      var tail := if b[n].CommitLine? then [b[n].hash] else [];
      assert (a + b)[..|a + b| - 1] == a + b[..n];
      assert (a + b)[|a + b| - 1] == b[n];
      assert CommitsOf(a + b) == CommitsOf(a + b[..n]) + tail;
      assert CommitsOf(b) == CommitsOf(b[..n]) + tail;
      CommitsOfAppend(a, b[..n]);
    }
  }

  lemma ClosingOfCons(x: Line, rest: seq<Line>)
    ensures ClosingOf([x] + rest) == (if x.CommitLine? then [CloseAfter([x] + rest)] else []) + ClosingOf(rest)
  {
    assert ([x] + rest)[1..] == rest;
  }

  lemma {:induction false} ClosingOfAppend(a: seq<Line>, b: seq<Line>)
    requires a == [] || b == [] || !a[|a| - 1].CommitLine? || !b[0].CloseLine?
    ensures ClosingOf(a + b) == ClosingOf(a) + ClosingOf(b)
    decreases |a|
  {
    if a == [] {
      assert a + b == b;
    } else {
      var rest := a[1..];
      assert a == [a[0]] + rest;
      assert a + b == [a[0]] + (rest + b);
      ClosingOfCons(a[0], rest);
      ClosingOfCons(a[0], rest + b);
      var head := if a[0].CommitLine? then [CloseAfter(a)] else [];
      if rest == [] {
        assert rest + b == b;
        assert ClosingOf(rest) == [];
      } else {
        assert (rest + b)[0] == rest[0];
        ClosingOfAppend(rest, b);
      }
      assert ClosingOf(a + b) == head + (ClosingOf(rest) + ClosingOf(b));
      AppendAssoc(head, ClosingOf(rest), ClosingOf(b));
    }
  }

  lemma {:induction false} OpeningOfAppend(a: seq<Line>, b: seq<Line>)
    requires a == [] || b == [] || !a[|a| - 1].ChildrenLine? || !b[0].CommitLine?
    ensures OpeningOf(a + b) == OpeningOf(a) + OpeningOf(b)
    decreases |b|
  {
    if b == [] {
      assert a + b == a;
    } else {
      var n := |b| - 1;
      var ab := a + b;
      assert ab[..|ab| - 1] == a + b[..n];
      OpeningOfUnfold(ab);
      OpeningOfUnfold(b);
      LastOpeningAppend(a, b);
      if n == 0 {
        assert a + b[..n] == a;
        assert OpeningOf(b[..n]) == [];
      } else {
        assert b[..n][0] == b[0];
        OpeningOfAppend(a, b[..n]);
      }
      AppendAssoc(OpeningOf(a), OpeningOf(b[..n]), LastOpening(b));
    }
  }

  lemma OpeningOfUnfold(lines: seq<Line>)
    requires lines != []
    ensures OpeningOf(lines) == OpeningOf(lines[..|lines| - 1]) + LastOpening(lines)
  {
  }

  lemma LastOpeningAppend(a: seq<Line>, b: seq<Line>)
    requires b != []
    requires a == [] || !a[|a| - 1].ChildrenLine? || !b[0].CommitLine?
    ensures LastOpening(a + b) == LastOpening(b)
  {
    var m := |a + b|;
    assert (a + b)[m - 1] == b[|b| - 1];
    if |b| == 1 {
      if a != [] {
        assert (a + b)[m - 2] == a[|a| - 1];
      }
    } else {
      assert (a + b)[m - 2] == b[|b| - 2];
    }
  }

  /** The marker lines around the commit line of one position: none of them is a commit line. */
  function Opening(e: Entry): seq<Line>
  {
    if e.opening.Some? then [OpenLine, ChildrenLine(e.opening.value)] else []
  }

  function Closing(e: Entry): seq<Line>
  {
    if e.closing.Some? then [CloseLine(e.closing.value), BlankLine] else []
  }

  lemma EntryLinesSplit(htb: map<Hash, string>, e: Entry)
    ensures EntryLines(htb, e) == Opening(e) + [Label(htb, e.hash)] + Closing(e)
  {
  }

  lemma MarkersNameNoCommit(e: Entry)
    ensures CommitsOf(Opening(e)) == [] && ClosingOf(Opening(e)) == [] && OpeningOf(Opening(e)) == []
    ensures CommitsOf(Closing(e)) == [] && ClosingOf(Closing(e)) == [] && OpeningOf(Closing(e)) == []
  {
    NoCommitLines(Opening(e));
    NoCommitLines(Closing(e));
  }

  lemma {:induction false} NoCommitLines(ls: seq<Line>)
    requires forall k :: 0 <= k < |ls| ==> !ls[k].CommitLine?
    ensures CommitsOf(ls) == [] && ClosingOf(ls) == [] && OpeningOf(ls) == []
  {
    if ls != [] {
      NoCommitLines(ls[..|ls| - 1]);
      NoCommitLines(ls[1..]);
    }
  }

  /** One position prints one commit line, flagged by whether it has each marker. */
  lemma EntryReadBack(htb: map<Hash, string>, e: Entry)
    ensures CommitsOf(EntryLines(htb, e)) == [e.hash]
    ensures ClosingOf(EntryLines(htb, e)) == [e.closing]
    ensures OpeningOf(EntryLines(htb, e)) == [e.opening]
    ensures Labelled(htb, EntryLines(htb, e))
    ensures EntryLines(htb, e)[0].OpenLine? || EntryLines(htb, e)[0].CommitLine?
    ensures var ls := EntryLines(htb, e); ls[|ls| - 1].CommitLine? || ls[|ls| - 1].BlankLine?
  {
    EntryLinesSplit(htb, e);
    MarkersNameNoCommit(e);
    EntryCommits(htb, e);
    EntryClosed(htb, e);
    EntryOpened(htb, e);
    EntryLabelled(htb, e);
  }

  lemma EntryLabelled(htb: map<Hash, string>, e: Entry)
    ensures Labelled(htb, EntryLines(htb, e))
  {
    var o, c := Opening(e), Closing(e);
    var ls := o + [Label(htb, e.hash)] + c;
    EntryLinesSplit(htb, e);
    forall k | 0 <= k < |ls| && ls[k].CommitLine?
      ensures ls[k] == Label(htb, ls[k].hash)
    {
      assert k == |o|;
    }
  }

  lemma EntryCommits(htb: map<Hash, string>, e: Entry)
    requires CommitsOf(Opening(e)) == [] && CommitsOf(Closing(e)) == []
    ensures CommitsOf(Opening(e) + [Label(htb, e.hash)] + Closing(e)) == [e.hash]
  {
    var commit := Label(htb, e.hash);
    assert CommitsOf([commit]) == [e.hash] by {
      assert [commit][..0] == [];
    }
    CommitsOfAppend(Opening(e), [commit]);
    CommitsOfAppend(Opening(e) + [commit], Closing(e));
  }

  lemma EntryClosed(htb: map<Hash, string>, e: Entry)
    requires ClosingOf(Opening(e)) == [] && ClosingOf(Closing(e)) == []
    ensures ClosingOf(Opening(e) + [Label(htb, e.hash)] + Closing(e)) == [e.closing]
  {
    var commit := Label(htb, e.hash);
    ClosingOfCons(commit, Closing(e));
    ClosingOfAppend(Opening(e), [commit] + Closing(e));
    assert Opening(e) + [commit] + Closing(e) == Opening(e) + ([commit] + Closing(e));
  }

  lemma EntryOpened(htb: map<Hash, string>, e: Entry)
    requires OpeningOf(Opening(e)) == [] && OpeningOf(Closing(e)) == []
    ensures OpeningOf(Opening(e) + [Label(htb, e.hash)] + Closing(e)) == [e.opening]
  {
    var commit := Label(htb, e.hash);
    var o := Opening(e) + [commit];
    assert o[..|o| - 1] == Opening(e);
    assert OpeningOf(o) == [e.opening];
    OpeningOfAppend(o, Closing(e));
  }

  /**
   * Reading the printed listing back: its commit lines are the entries' hashes in order, each
   * labelled as a tip or not, and each surrounded by the markers its entry asked for, listing
   * the sets the entry gave them.
   */
  lemma LinesReadBack(htb: map<Hash, string>, es: seq<Entry>)
    ensures |CommitsOf(Lines(htb, es))| == |es|
    ensures forall i :: 0 <= i < |es| ==> CommitsOf(Lines(htb, es))[i] == es[i].hash
    ensures |ClosingOf(Lines(htb, es))| == |es|
    ensures forall i :: 0 <= i < |es| ==> ClosingOf(Lines(htb, es))[i] == es[i].closing
    ensures |OpeningOf(Lines(htb, es))| == |es|
    ensures forall i :: 0 <= i < |es| ==> OpeningOf(Lines(htb, es))[i] == es[i].opening
    ensures Labelled(htb, Lines(htb, es))
  {
    LinesCommits(htb, es);
    LinesClosed(htb, es);
    LinesOpened(htb, es);
    LinesLabelled(htb, es);
  }

  /**
   * `lines` is made of whole entries: no stray line, each closing marker followed by its blank
   * line and each children line preceded by its `=` line and followed by a commit line.
   */
  ghost predicate WholeEntries(htb: map<Hash, string>, lines: seq<Line>)
  {
    exists es :: lines == Lines(htb, es)
  }

  /**
   * A listing made of whole entries is fixed by what it reads back as: two such listings naming
   * the same commits with the same markers are the same lines.
   */
  lemma ListingDeterminedByReadBack(htb: map<Hash, string>, a: seq<Line>, b: seq<Line>)
    requires WholeEntries(htb, a) && WholeEntries(htb, b)
    requires CommitsOf(a) == CommitsOf(b) && ClosingOf(a) == ClosingOf(b) && OpeningOf(a) == OpeningOf(b)
    ensures a == b
  {
    var ea: seq<Entry> :| a == Lines(htb, ea);
    var eb: seq<Entry> :| b == Lines(htb, eb);
    LinesReadBack(htb, ea);
    LinesReadBack(htb, eb);
    forall i | 0 <= i < |ea|
      ensures ea[i] == eb[i]
    {
      assert ea[i].hash == CommitsOf(a)[i] == eb[i].hash;
      assert ea[i].closing == ClosingOf(a)[i] == eb[i].closing;
      assert ea[i].opening == OpeningOf(a)[i] == eb[i].opening;
    }
    assert ea == eb;
  }

  /** The listing never ends in a children line and never starts with a closing marker. */
  lemma {:induction false} LinesEnds(htb: map<Hash, string>, es: seq<Entry>)
    ensures var ls := Lines(htb, es); ls == [] || ls[|ls| - 1].CommitLine? || ls[|ls| - 1].BlankLine?
  {
    if es != [] {
      EntryReadBack(htb, es[|es| - 1]);
    }
  }

  lemma {:induction false} LinesCommits(htb: map<Hash, string>, es: seq<Entry>)
    ensures CommitsOf(Lines(htb, es)) == HashesOf(es)
    ensures |CommitsOf(Lines(htb, es))| == |es|
    ensures forall i :: 0 <= i < |es| ==> CommitsOf(Lines(htb, es))[i] == es[i].hash
  {
    if es != [] {
      LinesCommits(htb, es[..|es| - 1]);
      CommitsOfSnoc(htb, es);
      FieldsSnoc(es);
    }
  }

  lemma CommitsOfSnoc(htb: map<Hash, string>, es: seq<Entry>)
    requires es != []
    ensures CommitsOf(Lines(htb, es)) == CommitsOf(Lines(htb, es[..|es| - 1])) + [es[|es| - 1].hash]
  {
    var n := |es| - 1;
    EntryReadBack(htb, es[n]);
    CommitsOfAppend(Lines(htb, es[..n]), EntryLines(htb, es[n]));
  }

  lemma {:induction false} LinesClosed(htb: map<Hash, string>, es: seq<Entry>)
    ensures ClosingOf(Lines(htb, es)) == ClosingsOf(es)
    ensures |ClosingOf(Lines(htb, es))| == |es|
    ensures forall i :: 0 <= i < |es| ==> ClosingOf(Lines(htb, es))[i] == es[i].closing
  {
    if es != [] {
      LinesClosed(htb, es[..|es| - 1]);
      ClosingOfSnoc(htb, es);
      FieldsSnoc(es);
    }
  }

  lemma ClosingOfSnoc(htb: map<Hash, string>, es: seq<Entry>)
    requires es != []
    ensures ClosingOf(Lines(htb, es)) == ClosingOf(Lines(htb, es[..|es| - 1])) + [es[|es| - 1].closing]
  {
    var n := |es| - 1;
    LinesEnds(htb, es[..n]);
    EntryReadBack(htb, es[n]);
    ClosingOfAppend(Lines(htb, es[..n]), EntryLines(htb, es[n]));
  }

  lemma {:induction false} LinesOpened(htb: map<Hash, string>, es: seq<Entry>)
    ensures OpeningOf(Lines(htb, es)) == OpeningsOf(es)
    ensures |OpeningOf(Lines(htb, es))| == |es|
    ensures forall i :: 0 <= i < |es| ==> OpeningOf(Lines(htb, es))[i] == es[i].opening
  {
    if es != [] {
      LinesOpened(htb, es[..|es| - 1]);
      OpeningOfSnoc(htb, es);
      FieldsSnoc(es);
    }
  }

  lemma OpeningOfSnoc(htb: map<Hash, string>, es: seq<Entry>)
    requires es != []
    ensures OpeningOf(Lines(htb, es)) == OpeningOf(Lines(htb, es[..|es| - 1])) + [es[|es| - 1].opening]
  {
    var n := |es| - 1;
    LinesEnds(htb, es[..n]);
    EntryReadBack(htb, es[n]);
    OpeningOfAppend(Lines(htb, es[..n]), EntryLines(htb, es[n]));
  }

  lemma {:induction false} LinesLabelled(htb: map<Hash, string>, es: seq<Entry>)
    ensures Labelled(htb, Lines(htb, es))
  {
    if es != [] {
      var n := |es| - 1;
      var prev: seq<Line> := Lines(htb, es[..n]);
      var last: seq<Line> := EntryLines(htb, es[n]);
      LinesLabelled(htb, es[..n]);
      EntryReadBack(htb, es[n]);
      forall k | 0 <= k < |prev + last| && (prev + last)[k].CommitLine?
        ensures (prev + last)[k] == Label(htb, (prev + last)[k].hash)
      {
        if k < |prev| {
          assert (prev + last)[k] == prev[k];
        } else {
          assert (prev + last)[k] == last[k - |prev|];
        }
      }
    }
  }
}
