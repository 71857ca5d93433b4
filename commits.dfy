/** The commit graph as the traversal sees it.
    A commit is a value whose parents are commits themselves, so a history is a finite tree;
    an ancestor shared by two branches is simply the same subtree appearing twice, which is
    how the traversal treats it (it keeps no record of commits already visited). */
module Commits {

  datatype Option<T> = None | Some(value: T)

  /** Author email, author time (an instant as an integer), message and the ordered parents. */
  datatype Commit = Commit(email: string, when: int, message: string, parents: seq<Commit>)

  /** A merge commit has more than one parent. */
  predicate IsMerge(c: Commit) {
    |c.parents| > 1
  }

  /** Every commit the depth-first walk reaches from `c`, in the order it reaches them:
      `c` itself, then the unfolding of parent 0, then that of parent 1, and so on. */
  function Preorder(c: Commit): seq<Commit>
    decreases c, 1
  {
    [c] + PreorderFrom(c, 0)
  }

  /** The unfoldings of the parents of `c` from index `i` on, one after the other. */
  function PreorderFrom(c: Commit, i: nat): seq<Commit>
    requires i <= |c.parents|
    decreases c, 0, |c.parents| - i
  {
    if i == |c.parents| then [] else Preorder(c.parents[i]) + PreorderFrom(c, i + 1)
  }

  /** The author emails of the commits in `s`. */
  function EmailsOf(s: seq<Commit>): set<string> {
    set c | c in s :: c.email
  }

  /** The author emails of the merge commits in `s`. */
  function MergeEmailsOf(s: seq<Commit>): set<string> {
    set c | c in s && IsMerge(c) :: c.email
  }

  lemma EmailsOfConcat(a: seq<Commit>, b: seq<Commit>)
    ensures EmailsOf(a + b) == EmailsOf(a) + EmailsOf(b)
    ensures MergeEmailsOf(a + b) == MergeEmailsOf(a) + MergeEmailsOf(b)
  {
    forall e | e in EmailsOf(a + b) ensures e in EmailsOf(a) + EmailsOf(b) {
      var c :| c in a + b && c.email == e;
      if c in a { assert e in EmailsOf(a); } else { assert e in EmailsOf(b); }
    }
    forall e | e in EmailsOf(a) + EmailsOf(b) ensures e in EmailsOf(a + b) {
      if e in EmailsOf(a) {
        var c :| c in a && c.email == e;
        assert c in a + b;
      } else {
        var c :| c in b && c.email == e;
        assert c in a + b;
      }
    }
    forall e | e in MergeEmailsOf(a + b) ensures e in MergeEmailsOf(a) + MergeEmailsOf(b) {
      var c :| c in a + b && IsMerge(c) && c.email == e;
      if c in a { assert e in MergeEmailsOf(a); } else { assert e in MergeEmailsOf(b); }
    }
    forall e | e in MergeEmailsOf(a) + MergeEmailsOf(b) ensures e in MergeEmailsOf(a + b) {
      if e in MergeEmailsOf(a) {
        var c :| c in a && IsMerge(c) && c.email == e;
        assert c in a + b;
      } else {
        var c :| c in b && IsMerge(c) && c.email == e;
        assert c in a + b;
      }
    }
  }

  /** A commit's own email, and its email among the merge emails exactly when it is a merge,
      followed by what its parents' unfoldings contribute. */
  lemma EmailsOfPreorder(c: Commit)
    ensures EmailsOf(Preorder(c)) == {c.email} + EmailsOf(PreorderFrom(c, 0))
    ensures MergeEmailsOf(Preorder(c))
         == (if IsMerge(c) then {c.email} else {}) + MergeEmailsOf(PreorderFrom(c, 0))
  {
    EmailsOfConcat([c], PreorderFrom(c, 0));
    assert EmailsOf([c]) == {c.email};
    if IsMerge(c) { assert MergeEmailsOf([c]) == {c.email}; } else { assert MergeEmailsOf([c]) == {}; }
  }

  lemma EmailsOfPreorderFrom(c: Commit, i: nat)
    requires i < |c.parents|
    ensures EmailsOf(PreorderFrom(c, i)) == EmailsOf(Preorder(c.parents[i])) + EmailsOf(PreorderFrom(c, i + 1))
    ensures MergeEmailsOf(PreorderFrom(c, i))
         == MergeEmailsOf(Preorder(c.parents[i])) + MergeEmailsOf(PreorderFrom(c, i + 1))
  {
    EmailsOfConcat(Preorder(c.parents[i]), PreorderFrom(c, i + 1));
  }
}
