/** The traversal as the repository runs it: a recursive method that updates two author sets,
    the detector and the revert reference in place, and the entry point that packages the four
    results. Both are proved to compute the walk of WalkSpec, and Traverse states what its
    results mean in terms of the commits reachable from the tip. */
module Traversal {
  import opened Commits
  import opened Sequence
  import opened Authors
  import opened RevertRef
  import opened WalkSpec

  /** The string the traversal writes the revert reference to through a pointer. */
  class RevertHolder {
    var ref: string

    constructor ()
      ensures ref == ""
    {
      ref := "";
    }
  }

  /** The four pieces of state the traversal threads through its recursion, as one value. */
  function StateOf(am: AuthorsSet, cs: CommitsSequence, ma: AuthorsSet, revertRef: RevertHolder): State
    reads am, cs, ma, revertRef
  {
    State(am.members, cs.Snapshot(), ma.members, revertRef.ref)
  }

  /** Visit `co` and, parent by parent, everything reachable from it. */
  method TraverseFrom(co: Commit, teamSize: int, am: AuthorsSet, cs: CommitsSequence, ma: AuthorsSet,
                      revertRef: RevertHolder)
    requires am != ma
    modifies am, cs, ma, revertRef
    ensures StateOf(am, cs, ma, revertRef) == Walk(co, teamSize, old(StateOf(am, cs, ma, revertRef)))
    decreases co
  {
    am.members := am.members + {co.email};
    var merge := cs.Handle(co, teamSize);

    if merge {
      ma.members := ma.members + {co.email};
    }

    if revertRef.ref == "" {
      revertRef.ref := ParsecRevertRef(co.message);
    }

    var i := 0;
    while i < |co.parents|
      invariant 0 <= i <= |co.parents|
      invariant WalkParents(co, i, merge, teamSize, StateOf(am, cs, ma, revertRef))
             == Walk(co, teamSize, old(StateOf(am, cs, ma, revertRef)))
    {
      var p := co.parents[i];
      if merge {
        cs.Reset(p);
      }
      TraverseFrom(p, teamSize, am, cs, ma, revertRef);
      i := i + 1;
    }
  }

  /** Walk the history from `tip` and report: the authors of all reachable commits, whether a
      window of exactly `teamSize` authors with a non-chronological step was found, the authors
      of merge commits, and whether a revert reference was found that names a commit of the
      repository. The repository's commit lookup is given as the set of hashes it resolves. */
  method Traverse(tip: Commit, teamSize: int, commitHashes: set<string>)
    returns (authors: seq<string>, sequenceGood: bool, mergeAuthors: seq<string>, hasReverts: bool)
    ensures forall i, j :: 0 <= i < j < |authors| ==> authors[i] != authors[j]
    ensures forall a :: a in authors <==> a in EmailsOf(Preorder(tip))
    ensures sequenceGood == Walk(tip, teamSize, Initial(tip)).window.finished
    ensures sequenceGood ==> 1 <= teamSize <= |authors|
    ensures forall i, j :: 0 <= i < j < |mergeAuthors| ==> mergeAuthors[i] != mergeAuthors[j]
    ensures forall a :: a in mergeAuthors ==> a in MergeEmailsOf(Preorder(tip))
    ensures !sequenceGood ==> forall a :: a in mergeAuthors <==> a in MergeEmailsOf(Preorder(tip))
    ensures hasReverts <==> FirstRef(Preorder(tip)) != "" && FirstRef(Preorder(tip)) in commitHashes
  {
    var am := new AuthorsSet();
    var ma := new AuthorsSet();
    var cs := new CommitsSequence();
    var revRef := new RevertHolder();
    cs.Reset(tip);
    assert StateOf(am, cs, ma, revRef) == Initial(tip);

    TraverseFrom(tip, teamSize, am, cs, ma, revRef);
    ghost var final := Walk(tip, teamSize, Initial(tip));
    assert StateOf(am, cs, ma, revRef) == final;

    authors := am.Slice();
    sequenceGood := cs.finished;
    mergeAuthors := ma.Slice();
    hasReverts := false;
    if revRef.ref != "" {
      hasReverts := revRef.ref in commitHashes;
    }

    WalkFromTip(tip, teamSize);
  }
}
