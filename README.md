# Commit-history check, modelled in Dafny

The repository grades a student project by walking its git history once, depth first from
the tip commit, and computing four facts in that single pass:

- **all authors**: the author emails of every commit reached;
- **merge authors**: the author emails of merge commits reported as window boundaries;
- **the commit-sequence window** (`commitsSequence`): a small state machine over a run of
  non-merge commits that finishes when the run holds exactly `teamSize` distinct authors and
  has at least one step where the author time went *up* while the walk moved to an ancestor
  (a non-chronological step);
- **the revert reference**: parsed by `ParsecRevertRef`, the hash captured by the first match
  of the pattern in the first message, in visiting order, that matches; because `.*` is
  greedy, that is the last hash the keyword's line leads to.

`Traverse` then packages these as two author lists, the flag `sequenceGood` and the flag
`hasReverts` (the reference names a commit the repository has).

The model:

- `commits.dfy` (module `Commits`): a commit is a value with author email, author time (an
  integer), message and its ordered parents. A history is therefore a finite tree: an
  ancestor shared by two branches is the same subtree twice, which is exactly how the
  traversal treats it, since it keeps no record of visited commits. `Preorder(c)` lists the
  commits in the order the walk reaches them.
- `sequence.dfy` (module `Sequence`): the detector, as the value `Window` with the pure
  transitions `Reseeded` (for `reset`) and `Handled` (for `handle`), and as the class
  `CommitsSequence` whose methods `Reset` and `Handle` update its fields in place and are
  proved to perform those transitions.
- `authors.dfy` (module `Authors`): the author set as a class, and `Slice`, which copies the
  set into an array in a loop.
- `revert.dfy` (module `RevertRef`): the pattern `[Rr]evert.*\s+([a-f0-9]{40})` written out
  as a predicate on positions (`MatchAt`), the match Go's regexp package reports first written
  out as `LeftmostFirst` (earliest start, then the longest `.*`), and a scanner
  `ParsecRevertRef` proved to return exactly the hash captured by that match, or "" when there
  is no match.
- `walk.dfy` (module `WalkSpec`): the walk as a function of the commit tree over the four
  pieces of state, with lemmas on what each piece holds afterwards.
- `traversal.dfy` (module `Traversal`): the recursive `traverse` as a method that mutates the
  two author sets, the detector and the revert holder, proved equal to the walk function; and
  `Traverse`, whose contract states three of its four results in terms of the commits
  reachable from the tip, and `sequenceGood` as the walk's finished flag.
- `scenarios.dfy` (module `Scenarios`): small histories worked through the walk, one per
  edge case of the detector, each for all emails and times of that shape.

Some behaviour of the code is easy to misread, and the model follows the code:

- `reset` (traverse.go:61-70) never clears `nonChronological`, so a flag raised in an
  abandoned window carries over to the next window (`Scenarios.FlagCarriesOverReset`).
- The flag is raised only when the new time is strictly later than `lastTs`
  (traverse.go:82); equal times do not raise it (`Scenarios.EqualTimesDoNotCount`). As the
  seed commit is compared with its own time right after `reset`, a history of one commit
  never finishes a window, not even for a team of one (`Scenarios.SingleCommit`).
- Once finished, `handle` returns false even for merge commits (traverse.go:73-75), so later
  merge authors are not recorded (`Scenarios.MergeAfterFinishIsNotCounted`).
- The keyword is only `Revert` or `revert` (not `REVERT`), and the captured hash is 40
  lower-case hexadecimal digits: a shorter run is not recognised, and a longer one gives its
  first 40.

## Model

| member | source | states |
|---|---|---|
| Authors.AuthorsSet.constructor | traverse.go:15-16 | a new author set is empty |
| Authors.AuthorsSet.Slice | traverse.go:41-49 | the list has as many entries as the set has members, no entry twice, and holds exactly the set's members |
| Sequence.CommitsSequence.constructor | traverse.go:18 | the detector starts as the zero value: no commits, no authors, zero time, both flags false |
| Sequence.CommitsSequence.Reset | traverse.go:61-70 | when finished nothing changes; otherwise start is the commit, end is empty, authors are exactly its email and lastTs its time; nonChronological and finished are kept in every case; the new state is `Reseeded` of the old |
| Sequence.CommitsSequence.Handle | traverse.go:72-89 | finished: returns false, nothing changes; unfinished merge: returns true, nothing changes; otherwise returns false, sets end, adds the email, raises the flag and keeps lastTs if lastTs is strictly before the commit's time, else sets lastTs to that time, and sets finished to (number of authors == teamSize and flag); the result is `Handled` of the old state |
| Sequence.Reseeded | traverse.go:61-70 | reset keeps both flags, puts the commit's author in an unfinished window, and preserves soundness of a finished window |
| Sequence.Handled | traverse.go:72-89 | a boundary is reported only for a merge in an unfinished window, which then stays as it was; finished stays finished; start is kept and authors only grow; lastTs never increases; the flag is never cleared; after a fold finished is exactly (authors == teamSize and flag); soundness is preserved |
| RevertRef.ParsecRevertRef | traverse.go:91-98 | the result is "" or exactly 40 characters of `[a-f0-9]` |
| RevertRef.ParsecRevertRefIsLeftmostFirst | traverse.go:91-98 | the result is "" exactly when the pattern matches nowhere; otherwise a leftmost-first match exists and the result is the hash it captures |
| RevertRef.LeftmostFirstIsResult | traverse.go:93-95 | the capture of the leftmost-first match is the result |
| RevertRef.ScanIsLeftmost | traverse.go:91-95 | scanning from index i returns the capture of a match that starts earliest at or after i and has the longest `.*`, or "" when no match starts at or after i |
| RevertRef.StartAtIsGreedy | traverse.go:91 | at a fixed start, the capture is that of the match with the longest `.*`, or "" when none starts there |
| RevertRef.BacktrackIsGreedy | traverse.go:91 | the greedy `.*` settles on the largest end position at which `\s+([a-f0-9]{40})` succeeds |
| RevertRef.CaptureAtIsTail | traverse.go:91 | `\s+` followed by a hash can succeed in only one way, because a hex digit is never a space |
| RevertRef.MatchAtStart | traverse.go:91 | with the keyword at i, `.*` can end at q exactly when no newline precedes q on that line and the tail succeeds at q |
| RevertRef.OtherCommitHasNoRef | traverse_test.go:14 | "something else" yields "" |
| RevertRef.RevertCommitHasRef | traverse_test.go:15-19 | "This reverts commit 397747d22bd12cce4bc6bd0aa979a4f8eed3d29a" yields that hash |
| WalkSpec.FirstRef | traverse.go:111-113 | the first non-empty reference among a sequence of commits in order: "" exactly when all are empty, else the reference of a commit preceded only by commits with none |
| WalkSpec.FirstRefConcat | traverse.go:111-113 | the first reference of two runs one after the other is that of the first run if it has one, else that of the second |
| WalkSpec.WalkAuthors | traverse.go:100-124 | the walk adds to the author set exactly the emails of every commit reachable from the commit |
| WalkSpec.WalkParentsAuthors | traverse.go:115-124 | the loop over parents from index i adds exactly the emails of their unfoldings |
| WalkSpec.WalkRevertRef | traverse.go:111-113 | a reference already held is never overwritten; otherwise the walk ends with the first non-empty reference in visiting order |
| WalkSpec.WalkParentsRevertRef | traverse.go:115-124 | the same for the loop over parents from index i |
| WalkSpec.WalkFrozen | traverse.go:62-75 | once the window is finished the rest of the walk changes neither the window nor the merge authors |
| WalkSpec.WalkParentsFrozen | traverse.go:115-124 | the same for the loop over parents from index i |
| WalkSpec.WalkSound | traverse.go:87 | a window the walk leaves finished holds exactly teamSize authors, at least one, and has its flag raised |
| WalkSpec.WalkParentsSound | traverse.go:115-124 | the same for the loop over parents from index i |
| WalkSpec.WalkWindowAuthors | traverse.go:104-123 | every author in the window is among the authors the walk recorded |
| WalkSpec.WalkParentsWindowAuthors | traverse.go:115-124 | the same for the loop over parents from index i |
| WalkSpec.WalkMergeAuthors | traverse.go:105-109 | the walk only adds emails of merge commits it reaches to the merge authors, and adds all of them when the window is not finished at the end |
| WalkSpec.WalkParentsMergeAuthors | traverse.go:115-124 | the same for the loop over parents from index i |
| WalkSpec.WalkFromTip | traverse.go:21-29 | from the tip, the walk records exactly the reachable authors, only reachable merge authors and all of them unless a window finished, the first reference in visiting order, and finishes only for 1 <= teamSize <= number of authors |
| Traversal.RevertHolder.constructor | traverse.go:19 | the revert reference starts empty |
| Traversal.TraverseFrom | traverse.go:100-124 | visiting a commit and, parent by parent, everything reachable from it (resetting the window at each parent of a boundary) changes the four pieces of state exactly as the walk function does |
| Traversal.Traverse | traverse.go:13-37 | authors are distinct and exactly the emails of reachable commits; sequenceGood is the walk's finished flag and implies 1 <= teamSize <= number of authors; merge authors are distinct emails of reachable merge commits, all of them when sequenceGood is false; hasReverts holds exactly when the first non-empty reference in visiting order exists and names a commit of the repository |
| Scenarios.SingleCommit | traverse.go:80-87 | a single root commit: its email is the only author, no merge authors, its message decides the reference, and the window never finishes for any team size |
| Scenarios.LinearRunFinishes | traverse.go:80-87 | three commits by three authors where the second is strictly later than the tip finish the window for a team of three |
| Scenarios.EqualTimesDoNotCount | traverse.go:82-86 | the same run with equal times and an older third commit does not finish |
| Scenarios.MergeOfTwoRoots | traverse.go:105-123 | a merge of two roots records the merge author as the only merge author, all three authors, ends with the window seeded at the second parent, and does not finish |
| Scenarios.SingleWindowStays | traverse.go:61-87 | visiting a root commit right after a reset at it adds its author and nothing to the merge authors, and leaves an unflagged window unfinished |
| Scenarios.FlagCarriesOverReset | traverse.go:61-70 | a flag raised above a merge by a single author lets the window seeded at the merge's first parent finish for a team of two, whatever the times below the merge, even when that window alone is strictly chronological |
| Scenarios.FlaggedPairFinishes | traverse.go:80-87 | a window already flagged, seeded with a commit whose one parent is a root by another author, finishes with those two authors for a team of two |
| Scenarios.MergeAfterFinishIsNotCounted | traverse.go:73-75 | a merge reached after the window finished is not recorded as a merge author, though its author is recorded |

## Left out

- The command-line driver in check.go is not part of this model: flag parsing, cloning the
  repository into a temporary directory, log-based scoring, starting and polling the
  project's server, running the formatter, parsing the deadline and the late-commit penalty.
  They are process, network, file-system and clock operations.
- The timing and log line around the walk in `Traverse` (traverse.go:23-25) are side effects
  only and are left out.
- The repository lookup of the revert hash (traverse.go:30-35) is a call into go-git; it is
  the parameter `commitHashes`, the set of hashes the lookup resolves to a commit.
- The nil guard (traverse.go:101-103) and the panic when a parent cannot be loaded
  (traverse.go:116-119) cannot occur in the model: parents are part of the commit value.
- Authors.AuthorsSet.Slice: the order of the list follows Go's map iteration order, which is
  unspecified; the contract states only length, distinctness and membership.
- Author times are integers; Go's zero time of the fresh detector is 0. It is never compared,
  because `Traverse` resets the detector at the tip before the walk.
- Messages are sequences of characters; UTF-8 decoding of the message by the regexp package
  is not modelled.
- Traversal.Traverse: whether `sequenceGood` holds is stated as the finished flag of the walk
  function, with soundness and the author bound proved about it, not as a closed-form
  condition on the history, because the flag carried over by `reset` makes the outcome
  depend on windows that were abandoned.
- Stack depth and running time of the un-memoised walk (shared ancestors are visited once per
  path) are not modelled.
