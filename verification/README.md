# topo-order-commits in Dafny

A model of `topo_order_commits.py`, a script that prints the commits of a git repository in
topological order, newest first, with "sticky" markers wherever two adjacent commits in the
listing are not parent and child. It proves the model's properties. The script works in four
steps, and the model follows them:

1. **Parent lines and the graph.** `getGraph` starts from every branch tip and walks down the
   parents. It reads each commit's parents from the lines of `git cat-file -p <hash>` that
   start with `parent` and stores one `CommitNode` per hash. The first node stored for a hash
   is the one kept. A second pass fills in each node's children as the inverse of the parent
   edges.
2. **Sorting.** `topo_sort` runs Kahn's algorithm from the root commits, then reverses the
   result so that every commit comes before its parents.
3. **Labels.** `map_hash_to_branch` inverts the branch → tip listing into a tip → branch map.
4. **Listing.** The loop in `topo_order_commits` prints each commit, labelled with its branch
   when it is a tip. After a commit whose successor is not one of its parents it prints a
   closing marker: the parents, then `=`, then a blank line. Before the next commit it prints
   an opening marker: `=`, then the children.

The repository is given as an object store, `ObjectStore = map<Hash, seq<string>>`. It maps a
hash to the lines `git cat-file -p` prints for it. A hash absent from the store has no lines,
so it has no parents. The branches are given as a sequence of `(name, tip)` pairs, in the
order the script would iterate its dictionary.

Modules:

- `Wrappers` and `Seqs` in `seqs.dfy`: `Option`, `Result`, and sequence helpers.
- `CommitGraph`: `CommitNode`, graphs, edge symmetry, and acyclicity by rank.
- `ParentLines`: parsing parent lines.
- `GraphBuilder`: the ancestry walk, the children pass, and `getGraph` as a whole.
- `TopoSort`: Kahn's algorithm and the reversed order.
- `Branches`: `map_hash_to_branch`.
- `OutputLines`: the printed lines as a datatype, and read-back views of a listing.
  - `CommitsOf` gives the commits listed.
  - `ClosingOf` gives, for each commit line, the parents listed by the closing marker after it, if any.
  - `OpeningOf` gives, for each commit line, the children listed by the opening marker before it, if any.
- `Formatter`: the listing loop as written, and a corrected loop.
- `Render`: lines to text.
- `TopoOrder`: the whole program.

The ancestry walk in `GraphBuilder.WalkAncestry` skips a popped hash that is already a key of
the graph. The script instead expands it again. `GraphBuilder.ReExpandChangesNothing` proves
that expanding again changes neither the graph nor the roots. It also proves that the parents
pushed again are already keys or already waiting on the stack. So the skip yields the same
graph and roots. It also lets the walk terminate on a cyclic store, where the script would
loop forever.

The listing loop of the script does not mark every gap; see "## Findings". After a closing
marker (the sticky end, lines 216-221) the next commit always takes the sticky-start branch
(lines 191-202). That branch never checks whether the commit after it is a parent, so a gap
right after a reopened commit gets no closing marker. The last commit (lines 223-227) is
printed without looking at the flag, so a closing marker on the second-to-last commit is never
followed by an opening marker. `Formatter.Format` models the loop exactly as written, and
`TopoOrder.TopoOrderCommits`, the whole program, uses it. `Formatter.FormatFixed` is a
corrected loop that closes at every gap and reopens after every close, and
`TopoOrder.TopoOrderCommitsFixed` is the whole program with that loop.

## Model

| member | source | states |
|---|---|---|
| ParentLines.ParentHashesSpec | topo_order_commits.py:116-129 | the hashes pushed for a commit are exactly the suffixes from index 7 of its lines starting with "parent"; none are pushed (so the commit is a root) exactly when no line starts with "parent" |
| GraphBuilder.Expand | topo_order_commits.py:106-135 | one pop of the walk adds the popped hash as a key and keeps every existing node unchanged (first write wins); a new key gets the node built from the store; the stack keeps everything below the popped hash and then holds exactly the parents the store names for it; the hash becomes a root exactly when it was one already or the store names no parent for it, and no other root changes |
| GraphBuilder.ReExpandChangesNothing | topo_order_commits.py:108-135 | expanding a hash that is already a key leaves graph and roots unchanged and pushes only hashes already known, so skipping it is harmless |
| GraphBuilder.WalkAncestry | topo_order_commits.py:102-135 | after the stack drains, the keys are exactly the hashes reachable from a branch tip along parent lines, each node holds the parents the store names, the graph is closed under parents and the roots are exactly the nodes without parents |
| GraphBuilder.LinkChildren | topo_order_commits.py:138-144 | the children pass succeeds exactly when every parent is a key, and otherwise fails on a parent that is not a key (the `graph[p]` lookup); on success keys and parents are unchanged and a commit is a child of a node exactly when that node is among its parents (or it already was a child) |
| GraphBuilder.LinkParents | topo_order_commits.py:142-144 | for one commit, each of its parents gains it as a child; the pass fails on a parent that is not a key, naming that parent |
| GraphBuilder.BuildGraph | topo_order_commits.py:90-146 | `getGraph` yields a graph whose keys are exactly the commits reachable from the tips, with the store's parents, children the exact inverse of parents, and roots the parentless nodes |
| CommitGraph.LinkedGraphDeterminedByParents | topo_order_commits.py:138-144 | once children are the inverse of parents, the nodes and their parent sets determine the whole graph, so calling `getGraph` twice gives the formatter and the sort the same graph |
| TopoSort.Kahn | topo_order_commits.py:155-174 | on a linked graph each hash is appended at most once, only graph keys are appended, every hash comes after all of its parents, and every key is appended exactly when the graph is acyclic |
| TopoSort.DrainedCompleteIffAcyclic | topo_order_commits.py:163-174 | when the queue drains, every node has been placed exactly when the graph has a rank strictly decreasing along parent edges |
| TopoSort.ReversedPutsChildrenFirst | topo_order_commits.py:176 | reversing a parents-first listing puts every commit strictly before each of its parents |
| TopoSort.AcyclicGraphIffAncestry | topo_order_commits.py:155-176 | the walked graph is acyclic exactly when the ancestry of the tips in the store is |
| TopoSort.TopoSort | topo_order_commits.py:155-176 | the order lists distinct commits, all reachable from the tips, each before all of its parents in the store, and lists every reachable commit exactly when that ancestry is acyclic |
| Branches.HashToBranchInverts | topo_order_commits.py:74-79 | the keys of the inverted map are exactly the tip hashes, and each key maps to the last branch listed with that tip |
| Branches.LabelNamesABranchAtTip | topo_order_commits.py:74-79 | a hash is labelled exactly when it is the tip of some branch, and its label is a branch whose tip it is |
| OutputLines.LinesReadBack | topo_order_commits.py:191-227 | a listing built from per-commit entries reads back as those entries: one commit line per entry in order, a closing marker after exactly the entries that close and listing the parents the entry gave it, an opening marker before exactly the entries that open and listing the children the entry gave it, and every commit line labelled by the tip map |
| OutputLines.ListingDeterminedByReadBack | topo_order_commits.py:191-227 | two listings made of whole entries (each `=` line followed by its children line and a commit line, each closing marker followed by its blank line, nothing else) that read back as the same commits and the same markers are the same lines, so the read-back views pin the whole output |
| Formatter.Format | topo_order_commits.py:179-227 | the loop as written fails on an empty order, fails with a missing commit when a position before the last is not a graph key, and otherwise prints the listing the as-written marker rule describes |
| Formatter.AsWrittenReadBack | topo_order_commits.py:185-227 | as written, the listing names the order once each; a closing marker follows position i exactly when i is not last, position i-1 did not close and order[i+1] is not a parent of order[i], and it lists the parents of order[i]; an opening marker precedes exactly the non-last positions after a close, and it lists the children of order[i] |
| Formatter.AsWrittenMarkersSound | topo_order_commits.py:191-227 | as written, a closing marker only follows a real break, never shares a position with an opening marker, is followed by an opening marker unless the last commit comes next, and the last commit is printed plainly |
| Formatter.FormatFixed | topo_order_commits.py:179-227 | the corrected loop fails on an empty order; like the original it looks up every position but the last, and it also looks up the last one when it has to reopen it; it fails on the first lookup that misses and otherwise prints the corrected listing |
| Formatter.FixedPass | topo_order_commits.py:187-221 | one pass of the corrected body: it fails exactly on a missing lookup, naming the commit; otherwise it prints the entry the corrected rule gives the position and sets the flag exactly when the position closes |
| Formatter.FixedReadBack | topo_order_commits.py:185-227 | corrected: a closing marker follows position i exactly when order[i+1] is not a parent of order[i], and lists the parents of order[i]; an opening marker precedes position i exactly when order[i] is not a parent of order[i-1], and lists the children of order[i] |
| Formatter.FixedMarkersPair | topo_order_commits.py:191-221 | corrected: every closing marker is followed by an opening marker and every opening marker is preceded by a closing one |
| Formatter.AsWrittenAgreesWithoutAdjacentBreaks | topo_order_commits.py:185-227 | when no two adjacent pairs both break and the last pair does not break, the loop as written prints exactly the corrected listing |
| Formatter.MissedCloseAfterReopen | topo_order_commits.py:191-221 | for three unrelated roots listed a, b, c, the pair (b, c) breaks but the loop as written prints no closing marker after b |
| Formatter.MissedReopenAtEnd | topo_order_commits.py:210-227 | for two unrelated roots listed a, b, the loop as written closes after a but prints b without an opening marker |
| Render.RenderAll | topo_order_commits.py:191-227 | every line is printed as the text `print` writes for it: commit and branch separated by a space, each parent followed by a space and then "=", the children run together, for some iteration order of each set |
| Render.CommitTextRoundTrip | topo_order_commits.py:198-201 | a printed commit line splits back at its first space into the hash and the branch name |
| Render.CloseTextRoundTrip | topo_order_commits.py:217-219 | a printed closing marker splits back into the parents it lists, in printed order |
| TopoOrder.TopoOrderCommits | topo_order_commits.py:179-227 | for a branch list with one entry per name, the program fails only on an empty order, which cannot happen for a non-empty branch list with acyclic ancestry; otherwise it lists the reachable commits once each before their parents (all of them exactly when the ancestry is acyclic); in store terms, a closing marker follows position i exactly when i is not last, position i-1 did not close and cs[i+1] is not among the parents the store names for cs[i], and an opening marker precedes exactly the non-last positions after a close; a closing marker lists the store's parents of its commit, an opening marker exactly the walked commits that name it as a parent; every tip is labelled with its branch; the output is made of whole entries and holds no other line, so by `ListingDeterminedByReadBack` these facts fix it line for line; each line is printed faithfully |
| TopoOrder.TopoOrderCommitsFixed | topo_order_commits.py:179-227 | the whole program with the corrected loop: the same failure rule and commit listing as `TopoOrderCommits`; a closing marker follows exactly the commits whose successor is not a parent in the store, an opening marker precedes exactly the commits that are not a parent of their predecessor, and the markers list the store's parents and the walked children; the output is made of whole entries and holds no other line |
| TopoOrder.WalkedAsWritten | topo_order_commits.py:179-227 | on the walked graph, the listing as written names the sorted order, places its markers by the as-written rule stated over the store's parent lists, lists the store's parents and the walked children, and labels every tip |
| TopoOrder.WalkedFixed | topo_order_commits.py:179-227 | on the walked graph, the corrected listing names the sorted order, marks exactly the gaps in the store's parent lists, lists the store's parents and the walked children, and labels every tip |
| TopoOrder.WalkedChildren | topo_order_commits.py:138-144 | after the children pass, a commit's children are exactly the walked commits whose parent lines name it |

## Left out

- `getPath` (lines 23-45) is not part of this model. It finds the `.git` directory and exits with an error when there is none, which is filesystem I/O.
- `getBranch` (lines 54-65) is not part of this model. It reads the branch files under `refs/heads`; the branch list is an input instead, with one entry per branch name as in the dictionary that function builds.
- The `git cat-file -p` call (line 114) is an external process. It is replaced by the `ObjectStore` map, and a hash absent from the map has no lines.
- Python's iteration order over sets and dicts is not modelled. Roots, children and parents are taken in any order, and the properties hold for every order.
- Printing to stdout is modelled as a sequence of output lines and their texts. The partial output printed before a failure is not modelled; a failure returns no text.
- GraphBuilder.WalkAncestry: does not re-expand a hash that is already a key. `GraphBuilder.ReExpandChangesNothing` shows the result is the same. The repeated `git cat-file` calls and the non-termination on a cyclic store are not modelled.
- Formatter.FormatFixed: is not failure-for-failure the original. It also looks up the last commit when that commit has to be reopened, because the opening marker lists its children, so it additionally fails when that commit is not a graph key. The original never looks up the last commit. On the walked graph every sorted commit is a key, so `TopoOrder.TopoOrderCommitsFixed` never meets this case.
- The children line run together with no separator (lines 194-196) is modelled as written.
- A line that starts with "parent" but is shorter than 7 characters yields the empty hash, as Python's `line[7:]` does.

## Findings

| source | as written | input that shows it | evidently intended | confidence | as-written member | corrected member |
|---|---|---|---|---|---|---|
| topo_order_commits.py:191-221 | the `elif` that checks whether the next commit is a parent is skipped for a commit printed right after a closing marker, so no closing marker follows it even when the next commit is not its parent | three unrelated root commits listed a, b, c: the output is `a`, `=`, blank, `=`, empty children line, `b`, `c`, with nothing between `b` and `c` | after the opening marker, a commit whose successor is not a parent also gets a closing marker | high, not executed | Formatter.MissedCloseAfterReopen | Formatter.FixedReadBack |
| topo_order_commits.py:223-227 | the last commit is printed with no look at the state flag, so after a closing marker on the second-to-last commit no opening marker follows | two unrelated root commits listed a, b: the output is `a`, `=`, blank, `b` | the last commit gets an opening marker when the commit before it closed | medium, not executed | Formatter.MissedReopenAtEnd | Formatter.FixedMarkersPair |
