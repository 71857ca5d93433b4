/** The commit-sequence detector: one window over a run of non-merge commits, looking for a
    run by exactly the whole team with at least one step where the author time went up while
    the walk moved to an ancestor. */
module Sequence {
  import opened Commits

  /** The detector's state as a value: the fields of the repository's `commitsSequence`. */
  datatype Window = Window(
    start: Option<Commit>,
    end: Option<Commit>,
    authors: set<string>,
    lastTs: int,
    nonChronological: bool,
    finished: bool)

  /** The zero value the detector has before it is first reset; its time stands for Go's zero time. */
  const Zero := Window(None, None, {}, 0, false, false)

  /** A finished window holds exactly the team, at least one author, and has seen a
      non-chronological step. */
  ghost predicate Sound(w: Window, teamSize: int) {
    w.finished ==> w.authors != {} && |w.authors| == teamSize && w.nonChronological
  }

  /** The detector after `reset(co)`: unless frozen, a new window seeded with `co`.
      It keeps `nonChronological` and `finished` as they were. */
  function Reseeded(w: Window, co: Commit): (r: Window)
    ensures r.nonChronological == w.nonChronological && r.finished == w.finished
    ensures !w.finished ==> co.email in r.authors
    ensures forall teamSize :: Sound(w, teamSize) ==> Sound(r, teamSize)
  {
    if w.finished then w
    else w.(start := Some(co), end := None, authors := {co.email}, lastTs := co.when)
  }

  /** The detector after `handle(co, teamSize)`, paired with what `handle` returns:
      whether `co` is a merge boundary at which the caller must start new windows. */
  function Handled(w: Window, co: Commit, teamSize: int): (r: (Window, bool))
    ensures r.1 ==> !w.finished && IsMerge(co) && r.0 == w
    ensures w.finished ==> r.0.finished
    ensures r.0.start == w.start && w.authors <= r.0.authors
    ensures r.0.lastTs <= w.lastTs
    ensures w.nonChronological ==> r.0.nonChronological
    ensures !w.finished && !IsMerge(co) ==> r.0.finished == (|r.0.authors| == teamSize && r.0.nonChronological)
    ensures Sound(w, teamSize) ==> Sound(r.0, teamSize)
  {
    if w.finished then (w, false)
    else if IsMerge(co) then (w, true)
    else
      var authors := w.authors + {co.email};
      // A strictly later time sets the flag; otherwise the time becomes the new last time.
      var (nonChronological, lastTs) := if w.lastTs < co.when then (true, w.lastTs) else (w.nonChronological, co.when);
      (Window(w.start, Some(co), authors, lastTs, nonChronological, |authors| == teamSize && nonChronological), false)
  }

  /** The detector object the traversal threads through its recursion. */
  class CommitsSequence {
    var start: Option<Commit>
    var end: Option<Commit>
    var authors: set<string>
    var lastTs: int
    var nonChronological: bool
    var finished: bool

    function Snapshot(): Window
      reads this
    {
      Window(start, end, authors, lastTs, nonChronological, finished)
    }

    /** The zero value of the detector. */
    constructor ()
      ensures Snapshot() == Zero
    {
      start, end, authors := None, None, {};
      lastTs, nonChronological, finished := 0, false, false;
    }

    /** Start a new window at `co`, unless the current one is finished. */
    method Reset(co: Commit)
      modifies this
      ensures old(finished) ==> Snapshot() == old(Snapshot())
      ensures !old(finished) ==> start == Some(co) && end == None && authors == {co.email} && lastTs == co.when
      ensures nonChronological == old(nonChronological) && finished == old(finished)
      ensures Snapshot() == Reseeded(old(Snapshot()), co)
    {
      if finished {
        return;
      }
      start := Some(co);
      end := None;
      authors := {co.email};
      lastTs := co.when;
    }

    /** Feed `co` to the window; report whether it is a merge boundary. */
    method Handle(co: Commit, teamSize: int) returns (merge: bool)
      modifies this
      ensures old(finished) ==> !merge && Snapshot() == old(Snapshot())
      ensures !old(finished) && IsMerge(co) ==> merge && Snapshot() == old(Snapshot())
      ensures !old(finished) && !IsMerge(co) ==>
        && !merge
        && start == old(start) && end == Some(co)
        && authors == old(authors) + {co.email}
        && (if old(lastTs) < co.when
            then nonChronological && lastTs == old(lastTs)
            else nonChronological == old(nonChronological) && lastTs == co.when)
        && finished == (|authors| == teamSize && nonChronological)
      ensures (Snapshot(), merge) == Handled(old(Snapshot()), co, teamSize)
    {
      if finished {
        return false;
      }
      if |co.parents| > 1 {
        // A merge commit is not folded into the window.
        return true;
      }
      end := Some(co);
      authors := authors + {co.email};
      if lastTs < co.when {
        nonChronological := true;
      } else {
        lastTs := co.when;
      }
      finished := |authors| == teamSize && nonChronological;
      return false;
    }
  }
}
