/** Small histories worked through the walk: the edge cases of the detector and the merge
    author set, each for every choice of emails and times that fits the shape. */
module Scenarios {
  import opened Commits
  import opened Sequence
  import opened RevertRef
  import opened WalkSpec

  /** A history of one root commit: its author is the only author, there are no merge authors,
      its message decides the reference, and the window never finishes, whatever the team size:
      the seed commit is compared with its own time, which is not strictly later. */
  lemma SingleCommit(c: Commit, teamSize: int)
    requires c.parents == []
    ensures Walk(c, teamSize, Initial(c)).am == {c.email}
    ensures Walk(c, teamSize, Initial(c)).ma == {}
    ensures Walk(c, teamSize, Initial(c)).revertRef == ParsecRevertRef(c.message)
    ensures !Walk(c, teamSize, Initial(c)).window.finished
  {
    var (st, merge) := Arrive(c, teamSize, Initial(c));
    assert Walk(c, teamSize, Initial(c)) == WalkParents(c, 0, merge, teamSize, st) == st;
  }

  /** Three continuation commits by three authors, walked tip first: the second is strictly
      later than the first, so the window of all three finishes for a team of three. */
  lemma LinearRunFinishes(a: string, b: string, c: string, t1: int, t2: int, t3: int)
    requires a != b && b != c && a != c
    requires t1 < t2
    ensures
      var tip := Commit(a, t1, "", [Commit(b, t2, "", [Commit(c, t3, "", [])])]);
      Walk(tip, 3, Initial(tip)).window.finished
  {
    var third := Commit(c, t3, "", []);
    var second := Commit(b, t2, "", [third]);
    var tip := Commit(a, t1, "", [second]);
    var (s1, m1) := Arrive(tip, 3, Initial(tip));
    assert s1.window.authors == {a} && s1.window.lastTs == t1 && !m1;
    var (s2, m2) := Arrive(second, 3, s1);
    assert s2.window.authors == {a, b} && s2.window.nonChronological && !m2;
    var (s3, m3) := Arrive(third, 3, s2);
    assert s3.window.authors == {a, b, c};
    assert s3.window.finished;
    assert Walk(third, 3, s2) == s3;
    assert Walk(second, 3, s1) == WalkParents(second, 1, false, 3, s3) == s3;
    assert Walk(tip, 3, Initial(tip)) == WalkParents(tip, 1, false, 3, s3);
  }

  /** The same run with the second commit at the same time as the first and the third no later:
      equal times are not a non-chronological step, so the window does not finish. */
  lemma EqualTimesDoNotCount(a: string, b: string, c: string, t: int, t3: int)
    requires a != b && b != c && a != c
    requires t3 <= t
    ensures
      var tip := Commit(a, t, "", [Commit(b, t, "", [Commit(c, t3, "", [])])]);
      !Walk(tip, 3, Initial(tip)).window.finished
  {
    var third := Commit(c, t3, "", []);
    var second := Commit(b, t, "", [third]);
    var tip := Commit(a, t, "", [second]);
    var (s1, m1) := Arrive(tip, 3, Initial(tip));
    assert !s1.window.nonChronological && !m1;
    var (s2, m2) := Arrive(second, 3, s1);
    assert !s2.window.nonChronological && s2.window.lastTs == t && !m2;
    var (s3, m3) := Arrive(third, 3, s2);
    assert !s3.window.finished;
    assert Walk(third, 3, s2) == s3;
    assert Walk(second, 3, s1) == WalkParents(second, 1, false, 3, s3) == s3;
    assert Walk(tip, 3, Initial(tip)) == WalkParents(tip, 1, false, 3, s3);
  }

  /** A merge tip with two root parents: the merge's author is the one merge author, all three
      are authors, and a new window is started at each parent in turn, so the last one is
      seeded with the second parent; a window holding one root commit never finishes. */
  lemma MergeOfTwoRoots(m: string, a: string, b: string, tm: int, ta: int, tb: int, teamSize: int)
    ensures
      var left := Commit(a, ta, "", []);
      var right := Commit(b, tb, "", []);
      var tip := Commit(m, tm, "", [left, right]);
      && Walk(tip, teamSize, Initial(tip)).ma == {m}
      && Walk(tip, teamSize, Initial(tip)).am == {m, a, b}
      && Walk(tip, teamSize, Initial(tip)).window.start == Some(right)
      && !Walk(tip, teamSize, Initial(tip)).window.finished
  {
    var left := Commit(a, ta, "", []);
    var right := Commit(b, tb, "", []);
    var tip := Commit(m, tm, "", [left, right]);
    var (s0, m0) := Arrive(tip, teamSize, Initial(tip));
    assert m0 && s0.ma == {m};
    var s1 := Walk(left, teamSize, Descend(s0, left, true));
    SingleWindowStays(left, teamSize, Descend(s0, left, true));
    var s2 := Walk(right, teamSize, Descend(s1, right, true));
    SingleWindowStays(right, teamSize, Descend(s1, right, true));
    assert Walk(tip, teamSize, Initial(tip)) == WalkParents(tip, 0, true, teamSize, s0);
    assert WalkParents(tip, 0, true, teamSize, s0) == WalkParents(tip, 1, true, teamSize, s1);
    assert WalkParents(tip, 1, true, teamSize, s1) == WalkParents(tip, 2, true, teamSize, s2) == s2;
  }

  /** Visiting a root commit right after a window was seeded with it. */
  lemma SingleWindowStays(c: Commit, teamSize: int, st: State)
    requires c.parents == []
    ensures Walk(c, teamSize, st).ma == st.ma
    ensures Walk(c, teamSize, st).am == st.am + {c.email}
    ensures !st.window.finished && !st.window.nonChronological && st.window.lastTs == c.when ==>
      !Walk(c, teamSize, st).window.finished && Walk(c, teamSize, st).window.start == st.window.start
  {
    var (s, merge) := Arrive(c, teamSize, st);
    assert Walk(c, teamSize, st) == WalkParents(c, 0, merge, teamSize, s) == s;
  }

  /** A flag raised in an abandoned window carries over: the run above the merge has the only
      non-chronological step (t1 < t2) but a single author; after the merge, the window seeded
      with the first parent finishes with the team of two because `reset` does not clear the
      flag, whatever the times below the merge, including when that window alone is strictly
      chronological (tbelow < tleft). */
  lemma FlagCarriesOverReset(a: string, t1: int, t2: int, m: string, tm: int, b: string, tleft: int,
                             d: string, tbelow: int, c: string, tright: int)
    requires t1 < t2 && b != d
    ensures
      var below := Commit(d, tbelow, "", []);
      var left := Commit(b, tleft, "", [below]);
      var merge := Commit(m, tm, "", [left, Commit(c, tright, "", [])]);
      var tip := Commit(a, t1, "", [Commit(a, t2, "", [merge])]);
      var final := Walk(tip, 2, Initial(tip));
      final.window.finished && final.window.start == Some(left) && final.window.authors == {b, d}
  {
    var below := Commit(d, tbelow, "", []);
    var left := Commit(b, tleft, "", [below]);
    var right := Commit(c, tright, "", []);
    var merge := Commit(m, tm, "", [left, right]);
    var second := Commit(a, t2, "", [merge]);
    var tip := Commit(a, t1, "", [second]);
    var (s1, _) := Arrive(tip, 2, Initial(tip));
    var (s2, _) := Arrive(second, 2, s1);
    assert s2.window.nonChronological && s2.window.authors == {a} && !s2.window.finished;
    var (s3, m3) := Arrive(merge, 2, s2);
    assert m3 && s3.window == s2.window;
    var s4 := Descend(s3, left, true);
    assert s4.window.authors == {b} && s4.window.nonChronological && s4.window.lastTs == tleft;
    var s6 := Walk(left, 2, s4);
    FlaggedPairFinishes(left, s4);
    var s7 := Walk(right, 2, Descend(s6, right, true));
    WalkFrozen(right, 2, Descend(s6, right, true));
    assert Walk(merge, 2, s2) == WalkParents(merge, 0, true, 2, s3);
    assert WalkParents(merge, 0, true, 2, s3) == WalkParents(merge, 1, true, 2, s6);
    assert WalkParents(merge, 1, true, 2, s6) == WalkParents(merge, 2, true, 2, s7) == s7;
    assert Walk(second, 2, s1) == WalkParents(second, 1, false, 2, s7);
    assert Walk(tip, 2, Initial(tip)) == WalkParents(tip, 1, false, 2, s7);
  }

  /** A window already flagged and seeded with a commit whose one parent is a root by another
      author finishes with the two of them for a team of two. */
  lemma FlaggedPairFinishes(c: Commit, st: State)
    requires |c.parents| == 1 && c.parents[0].parents == [] && c.email != c.parents[0].email
    requires !st.window.finished && st.window.nonChronological
    requires st.window.authors == {c.email} && st.window.lastTs == c.when
    ensures Walk(c, 2, st).window.finished
    ensures Walk(c, 2, st).window.start == st.window.start
    ensures Walk(c, 2, st).window.authors == {c.email, c.parents[0].email}
  {
    var below := c.parents[0];
    var (s1, _) := Arrive(c, 2, st);
    assert s1.window.authors == {c.email} && !s1.window.finished;
    var (s2, _) := Arrive(below, 2, s1);
    assert s2.window.authors == {c.email, below.email} && s2.window.finished;
    assert Walk(below, 2, s1) == s2;
    assert Walk(c, 2, st) == WalkParents(c, 1, false, 2, s2) == s2;
  }

  /** Once the window finishes, later merges are no longer reported as boundaries, so their
      authors are left out of the merge authors: here a strictly later second commit (t1 < t2)
      finishes the window for a team of one before the merge is reached. */
  lemma MergeAfterFinishIsNotCounted(a: string, t1: int, t2: int, m: string, tm: int,
                                     b: string, tb: int, c: string, tc: int)
    requires t1 < t2
    ensures
      var merge := Commit(m, tm, "", [Commit(b, tb, "", []), Commit(c, tc, "", [])]);
      var tip := Commit(a, t1, "", [Commit(a, t2, "", [merge])]);
      var final := Walk(tip, 1, Initial(tip));
      final.window.finished && final.ma == {} && m in final.am
  {
    var merge := Commit(m, tm, "", [Commit(b, tb, "", []), Commit(c, tc, "", [])]);
    var second := Commit(a, t2, "", [merge]);
    var tip := Commit(a, t1, "", [second]);
    var (s1, _) := Arrive(tip, 1, Initial(tip));
    var (s2, _) := Arrive(second, 1, s1);
    assert s2.window.finished && s2.ma == {};
    WalkFrozen(merge, 1, s2);
    WalkAuthors(merge, 1, s2);
    assert m in EmailsOf(Preorder(merge)) by { assert Preorder(merge)[0] == merge; }
    assert Walk(second, 1, s1) == WalkParents(second, 1, false, 1, Walk(merge, 1, s2));
    assert Walk(tip, 1, Initial(tip)) == WalkParents(tip, 1, false, 1, Walk(merge, 1, s2));
  }
}
