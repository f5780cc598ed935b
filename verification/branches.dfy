/**
 * `map_hash_to_branch`: inverting the branch-name -> tip-hash listing into a tip-hash ->
 * branch-name map.
 */
module Branches {
  import opened CommitGraph

  /** A branch: its name under `refs/heads` and the hash its reference file holds. */
  type Branch = (string, Hash)

  /** Each branch name is listed once, as in the name -> tip dictionary the branches are read into. */
  predicate UniqueNames(branches: seq<Branch>)
  {
    forall i, j :: 0 <= i < j < |branches| ==> branches[i].0 != branches[j].0
  }

  /** The tip hashes in the order the branches are listed (the walk starts from each in turn). */
  function Heads(branches: seq<Branch>): (hs: seq<Hash>)
    ensures |hs| == |branches|
    ensures forall i :: 0 <= i < |branches| ==> hs[i] == branches[i].1
  {
    if branches == [] then [] else Heads(branches[..|branches| - 1]) + [branches[|branches| - 1].1]
  }

  /**
   * Lines 76-78: each branch in turn overwrites the entry of its tip hash, so when several
   * branches share a tip the one listed last is the one kept.
   */
  function HashToBranch(branches: seq<Branch>): (htb: map<Hash, string>)
  {
    if branches == [] then map[]
    else
      var (name, tip) := branches[|branches| - 1];
      HashToBranch(branches[..|branches| - 1])[tip := name]
  }

  /** `name` is the branch listed last among those whose tip is `h`. */
  predicate LastBranchAt(branches: seq<Branch>, h: Hash, name: string)
  {
    exists i :: 0 <= i < |branches| && branches[i] == (name, h) && forall j :: i < j < |branches| ==> branches[j].1 != h
  }

  /**
   * The map's keys are exactly the tip hashes, and each key is mapped to the last branch
   * listed with that tip.
   */
  lemma {:induction false} HashToBranchInverts(branches: seq<Branch>)
    ensures forall h :: h in HashToBranch(branches) <==> exists i :: 0 <= i < |branches| && branches[i].1 == h
    ensures forall h :: h in HashToBranch(branches) ==> LastBranchAt(branches, h, HashToBranch(branches)[h])
  {
    if branches != [] {
      var n := |branches| - 1;
      var init := branches[..n];
      HashToBranchInverts(init);
      var htb := HashToBranch(branches);
      var prev := HashToBranch(init);
      assert htb == prev[branches[n].1 := branches[n].0];
      forall h | exists i :: 0 <= i < |branches| && branches[i].1 == h
        ensures h in htb
      {
        var i :| 0 <= i < |branches| && branches[i].1 == h;
        if i < n {
          assert init[i].1 == h;
          assert h in prev;
        }
      }
      forall h | h in htb
        ensures (exists i :: 0 <= i < |branches| && branches[i].1 == h) && LastBranchAt(branches, h, htb[h])
      {
        if h == branches[n].1 {
          assert branches[n] == (htb[h], h);
        } else {
          assert h in prev && htb[h] == prev[h];
          assert LastBranchAt(init, h, prev[h]);
          var i :| 0 <= i < |init| && init[i] == (htb[h], h) && forall j :: i < j < |init| ==> init[j].1 != h;
          assert branches[i] == init[i];
          assert forall j :: i < j < |branches| ==> branches[j].1 != h by {
            forall j | i < j < |branches|
              ensures branches[j].1 != h
            {
              if j < n {
                assert branches[j] == init[j];
              }
            }
          }
        }
      }
    }
  }

  /** A branch listed with tip `h` means `h` is labelled, and the label is a branch whose tip is `h`. */
  lemma LabelNamesABranchAtTip(branches: seq<Branch>, h: Hash)
    ensures h in HashToBranch(branches) <==> h in Heads(branches)
    ensures h in HashToBranch(branches) ==> (HashToBranch(branches)[h], h) in branches
  {
    HashToBranchInverts(branches);
    var hs := Heads(branches);
    if h in hs {
      var i :| 0 <= i < |hs| && hs[i] == h;
      assert branches[i].1 == h;
    }
    if h in HashToBranch(branches) {
      var i :| 0 <= i < |branches| && branches[i].1 == h;
      assert hs[i] == h;
    }
  }
}
