/**
 * Turning structured output lines into the text `print` writes. The sets a marker line lists
 * are printed in whatever order Python's set iteration yields; any order is allowed here.
 */
module Render {
  import opened Wrappers
  import opened Seqs
  import opened CommitGraph
  import opened OutputLines

  /** `print(commit, htb[commit])` or `print(commit)`: a space separates the two arguments. */
  function CommitText(h: Hash, branch: Option<string>): string
  {
    if branch.Some? then h + " " + branch.value else h
  }

  /** Lines 217-219: each parent followed by a space, then "=". */
  function CloseText(ps: seq<Hash>): string
  {
    if ps == [] then "=" else ps[0] + " " + CloseText(ps[1..])
  }

  /** Lines 194-196: the children one after another, with nothing between them. */
  function ChildrenText(cs: seq<Hash>): string
  {
    if cs == [] then "" else cs[0] + ChildrenText(cs[1..])
  }

  /** `s` is a text `print` can write for `l`, for some iteration order of the sets it lists. */
  ghost predicate RendersAs(l: Line, s: string)
  {
    match l
    case CommitLine(h, b) => s == CommitText(h, b)
    case CloseLine(ps) => exists xs :: Enumerates(xs, ps) && s == CloseText(xs)
    case BlankLine => s == ""
    case OpenLine => s == "="
    case ChildrenLine(cs) => exists xs :: Enumerates(xs, cs) && s == ChildrenText(xs)
  }

  method RenderLine(l: Line) returns (s: string)
    ensures RendersAs(l, s)
  {
    match l {
      case CommitLine(h, b) =>
        s := CommitText(h, b);
      case CloseLine(ps) =>
        var xs := Enumerate(ps);
        s := CloseText(xs);
      case BlankLine =>
        s := "";
      case OpenLine =>
        s := "=";
      case ChildrenLine(cs) =>
        var xs := Enumerate(cs);
        s := ChildrenText(xs);
    }
  }

  /** The printed text: one string per line, each a rendering of its line. */
  method RenderAll(lines: seq<Line>) returns (text: seq<string>)
    ensures |text| == |lines|
    ensures forall i :: 0 <= i < |lines| ==> RendersAs(lines[i], text[i])
  {
    text := [];
    var i := 0;
    while i < |lines|
      invariant i <= |lines|
      invariant |text| == i
      invariant forall k :: 0 <= k < i ==> RendersAs(lines[k], text[k])
    {
      var s := RenderLine(lines[i]);
      text := text + [s];
      i := i + 1;
    }
  }

  predicate NoSpace(h: Hash)
  {
    forall k :: 0 <= k < |h| ==> h[k] != ' '
  }

  /** Splits a printed commit line at its first space into the hash and the branch name. */
  function ParseCommitText(s: string): (Hash, Option<string>)
  {
    if s == [] then ("", None)
    else if s[0] == ' ' then ("", Some(s[1..]))
    else
      var (h, b) := ParseCommitText(s[1..]);
      ([s[0]] + h, b)
  }

  /** A commit line reads back as the hash and the branch name it was printed with (hashes hold no spaces). */
  lemma {:induction false} CommitTextRoundTrip(h: Hash, b: Option<string>)
    requires NoSpace(h)
    ensures ParseCommitText(CommitText(h, b)) == (h, b)
  {
    if h == [] {
      if b.Some? {
        assert CommitText(h, b) == [' '] + b.value;
        assert CommitText(h, b)[1..] == b.value;
      }
    } else {
      assert CommitText(h, b)[0] == h[0];
      assert CommitText(h, b)[1..] == CommitText(h[1..], b);
      CommitTextRoundTrip(h[1..], b);
      assert [h[0]] + h[1..] == h;
    }
  }

  /** Splits a printed closing marker back into the parents it lists. */
  function ParseCloseText(s: string): seq<Hash>
    decreases |s|
  {
    if s == [] || s == "=" then []
    else
      var split := SplitAtSpace(s);
      [split.0] + ParseCloseText(split.1)
  }

  /** The text before the first space and the text after it. */
  function SplitAtSpace(s: string): (r: (string, string))
    ensures s != [] ==> |r.1| < |s|
  {
    if s == [] then ("", "")
    else if s[0] == ' ' then ("", s[1..])
    else
      var (p, rest) := SplitAtSpace(s[1..]);
      ([s[0]] + p, rest)
  }

  lemma {:induction false} SplitAtSpaceAppend(p: Hash, rest: string)
    requires NoSpace(p)
    ensures SplitAtSpace(p + " " + rest) == (p, rest)
  {
    if p == [] {
      assert p + " " + rest == [' '] + rest;
      assert ([' '] + rest)[1..] == rest;
    } else {
      assert (p + " " + rest)[0] == p[0];
      assert (p + " " + rest)[1..] == p[1..] + " " + rest;
      SplitAtSpaceAppend(p[1..], rest);
      assert [p[0]] + p[1..] == p;
    }
  }

  /** A closing marker reads back as the parents it lists, in the order they were printed. */
  lemma {:induction false} CloseTextRoundTrip(ps: seq<Hash>)
    requires forall i :: 0 <= i < |ps| ==> NoSpace(ps[i])
    ensures ParseCloseText(CloseText(ps)) == ps
  {
    if ps != [] {
      var rest := CloseText(ps[1..]);
      SplitAtSpaceAppend(ps[0], rest);
      assert CloseText(ps) != "=" by {
        assert |CloseText(ps)| >= 2;
      }
      CloseTextRoundTrip(ps[1..]);
    }
  }
}
