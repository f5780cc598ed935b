/** Reading a commit's parents out of the lines `git cat-file -p <hash>` prints. */
module ParentLines {
  import opened CommitGraph

  /** Python's `line.startswith("parent")`. */
  predicate IsParentLine(line: string)
  {
    |line| >= 6 && line[..6] == "parent"
  }

  /** Python's `line[7:]`: empty when the line is shorter than that. */
  function ParentOf(line: string): Hash
  {
    if |line| >= 7 then line[7..] else ""
  }

  /**
   * The parent hashes in the order their lines appear (this is the order they are pushed on
   * the walk's stack); a hash named on two lines appears twice.
   */
  function ParentHashes(lines: seq<string>): (ps: seq<Hash>)
    ensures |ps| <= |lines|
  {
    if lines == [] then []
    else
      var rest := ParentHashes(lines[..|lines| - 1]);
      var last := lines[|lines| - 1];
      if IsParentLine(last) then rest + [ParentOf(last)] else rest
  }

  /** The parent set of a commit: the hash each line starting with "parent" carries. */
  function ParentSet(lines: seq<string>): set<Hash>
  {
    set i | 0 <= i < |lines| && IsParentLine(lines[i]) :: ParentOf(lines[i])
  }

  /**
   * The hashes pushed are exactly the parent set, and none are pushed exactly when no line
   * starts with "parent".
   */
  lemma {:induction false} ParentHashesSpec(lines: seq<string>)
    ensures forall p :: p in ParentHashes(lines) <==> p in ParentSet(lines)
    ensures |ParentHashes(lines)| == 0 <==> forall i :: 0 <= i < |lines| ==> !IsParentLine(lines[i])
  {
    if lines != [] {
      var init := lines[..|lines| - 1];
      ParentHashesSpec(init);
      forall p | p in ParentHashes(lines)
        ensures p in ParentSet(lines)
      {
        if p in ParentHashes(init) {
          var i :| 0 <= i < |init| && IsParentLine(init[i]) && ParentOf(init[i]) == p;
          assert lines[i] == init[i];
        }
      }
      forall p | p in ParentSet(lines)
        ensures p in ParentHashes(lines)
      {
        var i :| 0 <= i < |lines| && IsParentLine(lines[i]) && ParentOf(lines[i]) == p;
        if i < |init| {
          assert init[i] == lines[i];
        }
      }
      if |ParentHashes(lines)| == 0 {
        forall i | 0 <= i < |lines|
          ensures !IsParentLine(lines[i])
        {
          if i < |init| {
            assert init[i] == lines[i];
          }
        }
      }
    }
  }
}
