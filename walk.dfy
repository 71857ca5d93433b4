/** The depth-first traversal as a function of the commit tree: what the four pieces of state
    the walk threads through its recursion (all authors, the detector, the merge authors and
    the revert reference) are once it has visited a commit and all of its ancestors. The
    imperative traversal is proved equal to it; the lemmas below say what that state means. */
module WalkSpec {
  import opened Commits
  import opened Sequence
  import opened RevertRef

  datatype State = State(am: set<string>, window: Window, ma: set<string>, revertRef: string)

  /** The state the walk starts in: empty sets, no reference, the detector reset at the tip. */
  function Initial(tip: Commit): State {
    State({}, Reseeded(Zero, tip), {}, "")
  }

  /** The work done at `co` itself: record its author, feed it to the detector, record it as a
      merge author if the detector reports a boundary, and parse its message while no reference
      has been found. Also returns the boundary flag. */
  function Arrive(co: Commit, teamSize: int, st: State): (State, bool) {
    var (w, merge) := Handled(st.window, co, teamSize);
    var ma := if merge then st.ma + {co.email} else st.ma;
    var revertRef := if st.revertRef == "" then ParsecRevertRef(co.message) else st.revertRef;
    (State(st.am + {co.email}, w, ma, revertRef), merge)
  }

  /** Before descending into parent `p` of a merge boundary, the detector is reset at `p`. */
  function Descend(st: State, p: Commit, merge: bool): State {
    if merge then st.(window := Reseeded(st.window, p)) else st
  }

  /** The state after visiting `co` and everything reachable from it. */
  function Walk(co: Commit, teamSize: int, st: State): State
    decreases co, 1
  {
    var (st', merge) := Arrive(co, teamSize, st);
    WalkParents(co, 0, merge, teamSize, st')
  }

  /** The state after descending into parents i, i + 1, ... of `co`, in order. */
  function WalkParents(co: Commit, i: nat, merge: bool, teamSize: int, st: State): State
    requires i <= |co.parents|
    decreases co, 0, |co.parents| - i
  {
    if i == |co.parents| then st
    else
      var p := co.parents[i];
      WalkParents(co, i + 1, merge, teamSize, Walk(p, teamSize, Descend(st, p, merge)))
  }

  /** The first non-empty revert reference among the messages of `s`, or "". */
  function FirstRef(s: seq<Commit>): (r: string)
    ensures r == "" <==> forall k :: 0 <= k < |s| ==> ParsecRevertRef(s[k].message) == ""
    ensures r != "" ==>
      exists k :: 0 <= k < |s| && r == ParsecRevertRef(s[k].message) &&
        forall j :: 0 <= j < k ==> ParsecRevertRef(s[j].message) == ""
  {
    if s == [] then ""
    else if ParsecRevertRef(s[0].message) != "" then ParsecRevertRef(s[0].message)
    else
      var r := FirstRef(s[1..]);
      assert r != "" ==> (exists k :: 0 <= k < |s| && r == ParsecRevertRef(s[k].message) &&
                                       forall j :: 0 <= j < k ==> ParsecRevertRef(s[j].message) == "") by {
        if r != "" {
          var k :| 0 <= k < |s| - 1 && r == ParsecRevertRef(s[1..][k].message) &&
            forall j :: 0 <= j < k ==> ParsecRevertRef(s[1..][j].message) == "";
          assert forall j :: 0 <= j < k + 1 ==> ParsecRevertRef(s[j].message) == "" by {
            forall j | 0 <= j < k + 1 ensures ParsecRevertRef(s[j].message) == "" {
              if j > 0 { assert s[j] == s[1..][j - 1]; }
            }
          }
        }
      }
      r
  }

  lemma {:induction false} FirstRefConcat(a: seq<Commit>, b: seq<Commit>)
    ensures FirstRef(a + b) == if FirstRef(a) != "" then FirstRef(a) else FirstRef(b)
  {
    if a != [] {
      assert (a + b)[0] == a[0] && (a + b)[1..] == a[1..] + b;
      FirstRefConcat(a[1..], b);
    } else {
      assert a + b == b;
    }
  }

  // ---------------------------------------------------------------------------------------
  // All authors.

  /** The walk adds to `am` exactly the authors of every commit in the unfolding. */
  lemma {:induction false} WalkAuthors(co: Commit, teamSize: int, st: State)
    ensures Walk(co, teamSize, st).am == st.am + EmailsOf(Preorder(co))
    decreases co, 1
  {
    var (st', merge) := Arrive(co, teamSize, st);
    WalkParentsAuthors(co, 0, merge, teamSize, st');
    EmailsOfPreorder(co);
  }

  lemma {:induction false} WalkParentsAuthors(co: Commit, i: nat, merge: bool, teamSize: int, st: State)
    requires i <= |co.parents|
    ensures WalkParents(co, i, merge, teamSize, st).am == st.am + EmailsOf(PreorderFrom(co, i))
    decreases co, 0, |co.parents| - i
  {
    if i < |co.parents| {
      var p := co.parents[i];
      var st' := Descend(st, p, merge);
      WalkAuthors(p, teamSize, st');
      WalkParentsAuthors(co, i + 1, merge, teamSize, Walk(p, teamSize, st'));
      EmailsOfPreorderFrom(co, i);
    }
  }

  // ---------------------------------------------------------------------------------------
  // The revert reference.

  /** A reference already found is never overwritten; otherwise the walk finds the first
      non-empty reference in visiting order. */
  lemma {:induction false} WalkRevertRef(co: Commit, teamSize: int, st: State)
    ensures Walk(co, teamSize, st).revertRef
         == if st.revertRef != "" then st.revertRef else FirstRef(Preorder(co))
    decreases co, 1
  {
    var (st', merge) := Arrive(co, teamSize, st);
    WalkParentsRevertRef(co, 0, merge, teamSize, st');
    FirstRefConcat([co], PreorderFrom(co, 0));
  }

  lemma {:induction false} WalkParentsRevertRef(co: Commit, i: nat, merge: bool, teamSize: int, st: State)
    requires i <= |co.parents|
    ensures WalkParents(co, i, merge, teamSize, st).revertRef
         == if st.revertRef != "" then st.revertRef else FirstRef(PreorderFrom(co, i))
    decreases co, 0, |co.parents| - i
  {
    if i < |co.parents| {
      var p := co.parents[i];
      var st' := Descend(st, p, merge);
      WalkRevertRef(p, teamSize, st');
      WalkParentsRevertRef(co, i + 1, merge, teamSize, Walk(p, teamSize, st'));
      FirstRefConcat(Preorder(p), PreorderFrom(co, i + 1));
    }
  }

  // ---------------------------------------------------------------------------------------
  // The detector.

  /** A finished window is frozen for the rest of the walk, and no merge author is added after it. */
  lemma {:induction false} WalkFrozen(co: Commit, teamSize: int, st: State)
    requires st.window.finished
    ensures Walk(co, teamSize, st).window == st.window
    ensures Walk(co, teamSize, st).ma == st.ma
    decreases co, 1
  {
    var (st', merge) := Arrive(co, teamSize, st);
    WalkParentsFrozen(co, 0, merge, teamSize, st');
  }

  lemma {:induction false} WalkParentsFrozen(co: Commit, i: nat, merge: bool, teamSize: int, st: State)
    requires i <= |co.parents| && st.window.finished
    ensures WalkParents(co, i, merge, teamSize, st).window == st.window
    ensures WalkParents(co, i, merge, teamSize, st).ma == st.ma
    decreases co, 0, |co.parents| - i
  {
    if i < |co.parents| {
      var p := co.parents[i];
      var st' := Descend(st, p, merge);
      WalkFrozen(p, teamSize, st');
      WalkParentsFrozen(co, i + 1, merge, teamSize, Walk(p, teamSize, st'));
    }
  }

  /** Every window the walk finishes holds exactly `teamSize` authors and has seen a
      non-chronological step. */
  lemma {:induction false} WalkSound(co: Commit, teamSize: int, st: State)
    requires Sound(st.window, teamSize)
    ensures Sound(Walk(co, teamSize, st).window, teamSize)
    decreases co, 1
  {
    var (st', merge) := Arrive(co, teamSize, st);
    WalkParentsSound(co, 0, merge, teamSize, st');
  }

  lemma {:induction false} WalkParentsSound(co: Commit, i: nat, merge: bool, teamSize: int, st: State)
    requires i <= |co.parents| && Sound(st.window, teamSize)
    ensures Sound(WalkParents(co, i, merge, teamSize, st).window, teamSize)
    decreases co, 0, |co.parents| - i
  {
    if i < |co.parents| {
      var p := co.parents[i];
      var st' := Descend(st, p, merge);
      WalkSound(p, teamSize, st');
      WalkParentsSound(co, i + 1, merge, teamSize, Walk(p, teamSize, st'));
    }
  }

  /** The window's authors are authors the walk has recorded: when the walk arrives at a
      commit, the window holds at most that commit's author besides recorded ones. */
  lemma {:induction false} WalkWindowAuthors(co: Commit, teamSize: int, st: State)
    requires st.window.authors <= st.am + {co.email}
    ensures Walk(co, teamSize, st).window.authors <= Walk(co, teamSize, st).am
    decreases co, 1
  {
    var (st', merge) := Arrive(co, teamSize, st);
    WalkParentsWindowAuthors(co, 0, merge, teamSize, st');
  }

  lemma {:induction false} WalkParentsWindowAuthors(co: Commit, i: nat, merge: bool, teamSize: int, st: State)
    requires i <= |co.parents| && st.window.authors <= st.am
    ensures WalkParents(co, i, merge, teamSize, st).window.authors <= WalkParents(co, i, merge, teamSize, st).am
    decreases co, 0, |co.parents| - i
  {
    if i < |co.parents| {
      var p := co.parents[i];
      var st' := Descend(st, p, merge);
      WalkWindowAuthors(p, teamSize, st');
      WalkParentsAuthors(co, i, merge, teamSize, st);
      WalkParentsWindowAuthors(co, i + 1, merge, teamSize, Walk(p, teamSize, st'));
    }
  }

  // ---------------------------------------------------------------------------------------
  // Merge authors.

  /** The walk only adds authors of merge commits to `ma`, and it adds every one of them
      unless a window finishes on the way. */
  lemma {:induction false} WalkMergeAuthors(co: Commit, teamSize: int, st: State)
    ensures st.ma <= Walk(co, teamSize, st).ma <= st.ma + MergeEmailsOf(Preorder(co))
    ensures !Walk(co, teamSize, st).window.finished ==>
      Walk(co, teamSize, st).ma == st.ma + MergeEmailsOf(Preorder(co))
    decreases co, 1
  {
    var (st', merge) := Arrive(co, teamSize, st);
    WalkParentsMergeAuthors(co, 0, merge, teamSize, st');
    EmailsOfPreorder(co);
    if st.window.finished {
      WalkParentsFrozen(co, 0, merge, teamSize, st');
    }
  }

  lemma {:induction false} WalkParentsMergeAuthors(co: Commit, i: nat, merge: bool, teamSize: int, st: State)
    requires i <= |co.parents|
    ensures st.ma <= WalkParents(co, i, merge, teamSize, st).ma <= st.ma + MergeEmailsOf(PreorderFrom(co, i))
    ensures !WalkParents(co, i, merge, teamSize, st).window.finished ==>
      WalkParents(co, i, merge, teamSize, st).ma == st.ma + MergeEmailsOf(PreorderFrom(co, i))
    decreases co, 0, |co.parents| - i
  {
    if i < |co.parents| {
      var p := co.parents[i];
      var st' := Descend(st, p, merge);
      var st'' := Walk(p, teamSize, st');
      var final := WalkParents(co, i + 1, merge, teamSize, st'');
      assert WalkParents(co, i, merge, teamSize, st) == final;
      WalkMergeAuthors(p, teamSize, st');
      WalkParentsMergeAuthors(co, i + 1, merge, teamSize, st'');
      EmailsOfPreorderFrom(co, i);
      if st''.window.finished {
        WalkParentsFrozen(co, i + 1, merge, teamSize, st'');
      }
      ChainBounds(st.ma, st''.ma, final.ma, MergeEmailsOf(Preorder(p)), MergeEmailsOf(PreorderFrom(co, i + 1)),
                  st''.window.finished, final.window.finished);
    }
  }

  /** Two steps that each add at most, and unless finished exactly, their share. */
  lemma ChainBounds(a: set<string>, b: set<string>, c: set<string>, here: set<string>, rest: set<string>,
                    midFinished: bool, endFinished: bool)
    requires a <= b <= a + here && (!midFinished ==> b == a + here)
    requires b <= c <= b + rest && (!endFinished ==> c == b + rest)
    requires midFinished ==> endFinished
    ensures a <= c <= a + (here + rest)
    ensures !endFinished ==> c == a + (here + rest)
  {
  }

  // ---------------------------------------------------------------------------------------
  // The walk from the tip, as Traverse starts it.

  /** What the walk from the tip leaves behind: every reachable author, the reachable merge
      authors (all of them unless a window finished), the first reference in visiting order,
      and a finished window only for a team of at least one that is no larger than the
      number of authors. */
  lemma WalkFromTip(tip: Commit, teamSize: int)
    ensures Walk(tip, teamSize, Initial(tip)).am == EmailsOf(Preorder(tip))
    ensures Walk(tip, teamSize, Initial(tip)).ma <= MergeEmailsOf(Preorder(tip))
    ensures !Walk(tip, teamSize, Initial(tip)).window.finished ==>
      Walk(tip, teamSize, Initial(tip)).ma == MergeEmailsOf(Preorder(tip))
    ensures Walk(tip, teamSize, Initial(tip)).revertRef == FirstRef(Preorder(tip))
    ensures Walk(tip, teamSize, Initial(tip)).window.finished ==>
      1 <= teamSize <= |Walk(tip, teamSize, Initial(tip)).am|
  {
    var final := Walk(tip, teamSize, Initial(tip));
    WalkAuthors(tip, teamSize, Initial(tip));
    WalkMergeAuthors(tip, teamSize, Initial(tip));
    WalkRevertRef(tip, teamSize, Initial(tip));
    WalkSound(tip, teamSize, Initial(tip));
    if final.window.finished {
      WalkWindowAuthors(tip, teamSize, Initial(tip));
      SubsetSize(final.window.authors, final.am);
    }
  }

  lemma {:induction false} SubsetSize(a: set<string>, b: set<string>)
    requires a <= b
    ensures |a| <= |b|
  {
    if a != {} {
      var x :| x in a;
      SubsetSize(a - {x}, b - {x});
    }
  }
}
