/** Extraction of the commit hash a revert message refers to.

    The repository matches messages against the pattern `[Rr]evert.*\s+([a-f0-9]{40})` and
    returns the captured group of the first match, or "" when there is none. Here the pattern
    is written out once as a predicate (MatchAt), the preference Go's regexp package applies
    among matches is written out once (LeftmostFirst: the earliest start, then the longest
    `.*`), and a direct scanner, ParsecRevertRef, is proved to return exactly the hash of the
    preferred match. */
module RevertRef {

  const HashLength: nat := 40

  /** The class `[a-f0-9]`. */
  predicate IsHexDigit(c: char) {
    '0' <= c <= '9' || 'a' <= c <= 'f'
  }

  /** The class `\s` of Go's regexp syntax: tab, newline, form feed, carriage return, space. */
  predicate IsSpace(c: char) {
    c == '\t' || c == '\n' || c == '\U{000C}' || c == '\r' || c == ' '
  }

  /** A full hash: exactly 40 lower-case hexadecimal digits. */
  predicate IsHash(r: string) {
    |r| == HashLength && forall k :: 0 <= k < |r| ==> IsHexDigit(r[k])
  }

  /** `[Rr]evert` begins at index i. */
  predicate KeywordAt(s: string, i: nat) {
    i + 6 <= |s| && (s[i] == 'R' || s[i] == 'r') && s[i + 1..i + 6] == "evert"
  }

  /** `[a-f0-9]{40}` begins at index p. */
  predicate HashAt(s: string, p: nat) {
    p + HashLength <= |s| && IsHash(s[p..p + HashLength])
  }

  /** `.` matches every character but the newline, so `.*` can cover s[a..b] when it holds no newline. */
  predicate WithinLine(s: string, a: nat, b: nat)
    requires a <= b <= |s|
  {
    forall k :: a <= k < b ==> s[k] != '\n'
  }

  predicate AllSpaces(s: string, a: nat, b: nat)
    requires a <= b <= |s|
  {
    forall k :: a <= k < b ==> IsSpace(s[k])
  }

  /** The tail `\s+([a-f0-9]{40})` matches from q, with the hash at p. */
  ghost predicate TailAt(s: string, q: nat, p: nat) {
    q < p && HashAt(s, p) && AllSpaces(s, q, p)
  }

  /** One match of the whole pattern: the keyword at i, `.*` over s[i+6..q], `\s+` over
      s[q..p] and the captured hash at p. */
  ghost predicate MatchAt(s: string, i: nat, q: nat, p: nat) {
    KeywordAt(s, i) && i + 6 <= q && TailAt(s, q, p) && WithinLine(s, i + 6, q)
  }

  /** The match Go's regexp reports first: no match starts earlier, and among those that start
      at i, none lets the greedy `.*` run further. */
  ghost predicate LeftmostFirst(s: string, i: nat, q: nat, p: nat) {
    MatchAt(s, i, q, p) &&
    forall i': nat, q': nat, p': nat :: MatchAt(s, i', q', p') ==> i < i' || (i == i' && q' <= q)
  }

  /** The index of the first newline at or after j, or |s|: the furthest `.*` can reach from j. */
  function LineEnd(s: string, j: nat): (e: nat)
    requires j <= |s|
    ensures j <= e <= |s| && WithinLine(s, j, e)
    ensures e < |s| ==> s[e] == '\n'
    decreases |s| - j
  {
    if j == |s| || s[j] == '\n' then j else LineEnd(s, j + 1)
  }

  /** The end of the run of spaces that starts at q. */
  function SpacesEnd(s: string, q: nat): (e: nat)
    requires q <= |s|
    ensures q <= e <= |s| && AllSpaces(s, q, e)
    ensures e < |s| ==> !IsSpace(s[e])
    decreases |s| - q
  {
    if q < |s| && IsSpace(s[q]) then SpacesEnd(s, q + 1) else q
  }

  /** What `\s+([a-f0-9]{40})` captures when tried at q, or "" when it fails there.
      The greedy `\s+` has only one way to succeed: a hex digit is never a space, so the
      hash must start where the run of spaces ends. */
  function CaptureAt(s: string, q: nat): (r: string)
    requires q <= |s|
    ensures r == "" || IsHash(r)
  {
    if q < |s| && IsSpace(s[q]) && HashAt(s, SpacesEnd(s, q)) then
      s[SpacesEnd(s, q)..SpacesEnd(s, q) + HashLength]
    else
      ""
  }

  /** The greedy `.*` backtracking: try the tail at q = hi, hi - 1, ..., lo, in that order. */
  function Backtrack(s: string, lo: nat, hi: int): (r: string)
    requires hi <= |s|
    ensures r == "" || IsHash(r)
    decreases hi + 1 - lo
  {
    if hi < lo then ""
    else if CaptureAt(s, hi) != "" then CaptureAt(s, hi)
    else Backtrack(s, lo, hi - 1)
  }

  /** What a match starting at i captures, or "". */
  function StartAt(s: string, i: nat): (r: string)
    requires i <= |s|
    ensures r == "" || IsHash(r)
  {
    if KeywordAt(s, i) then Backtrack(s, i + 6, LineEnd(s, i + 6)) else ""
  }

  /** The leftmost start at or after i that yields a match. */
  function Scan(s: string, i: nat): (r: string)
    requires i <= |s|
    ensures r == "" || IsHash(r)
    decreases |s| - i
  {
    if i == |s| then ""
    else if StartAt(s, i) != "" then StartAt(s, i)
    else Scan(s, i + 1)
  }

  /** The hash a revert message refers to, or "" when it refers to none. */
  function ParsecRevertRef(msg: string): (r: string)
    ensures r == "" || IsHash(r)
  {
    Scan(msg, 0)
  }

  // ---------------------------------------------------------------------------------------
  // The scanner finds exactly the preferred match.

  /** No tail succeeds at any q in [a, b]. */
  ghost predicate NoTailIn(s: string, a: int, b: int) {
    forall q: nat :: a <= q <= b && q <= |s| ==> CaptureAt(s, q) == ""
  }

  /** No match starts at any index in [a, b). */
  ghost predicate NoMatchIn(s: string, a: nat, b: nat) {
    forall j: nat, q: nat, p: nat :: a <= j < b ==> !MatchAt(s, j, q, p)
  }

  /** No match starting at i has a longer `.*` than one ending at q. */
  ghost predicate LongestAt(s: string, i: nat, q: nat) {
    forall q': nat, p': nat :: MatchAt(s, i, q', p') ==> q' <= q
  }

  lemma HexIsNotSpace(c: char)
    requires IsHexDigit(c)
    ensures !IsSpace(c)
  {
  }

  /** The tail succeeds at q exactly when CaptureAt is non-empty, and then CaptureAt is its hash. */
  lemma CaptureAtIsTail(s: string, q: nat)
    requires q <= |s|
    ensures CaptureAt(s, q) != "" ==> TailAt(s, q, SpacesEnd(s, q))
    ensures forall p: nat :: TailAt(s, q, p) ==> p == SpacesEnd(s, q) && CaptureAt(s, q) == s[p..p + HashLength]
  {
    forall p: nat | TailAt(s, q, p) ensures p == SpacesEnd(s, q) {
      var e := SpacesEnd(s, q);
      if p < e {
        assert s[p..p + HashLength][0] == s[p];
        HexIsNotSpace(s[p]);
      }
    }
  }

  /** Ruling out one more end position. */
  lemma NoTailStep(s: string, a: int, b: int)
    requires NoTailIn(s, a, b - 1)
    requires 0 <= b <= |s| ==> CaptureAt(s, b) == ""
    ensures NoTailIn(s, a, b)
  {
  }

  /** Backtrack returns the tail at the largest q in [lo, hi] where one succeeds. */
  lemma {:induction false} BacktrackIsGreedy(s: string, lo: nat, hi: int)
    requires hi <= |s|
    ensures Backtrack(s, lo, hi) == "" ==> NoTailIn(s, lo, hi)
    ensures Backtrack(s, lo, hi) != "" ==>
      exists q: nat :: lo <= q <= hi && Backtrack(s, lo, hi) == CaptureAt(s, q) && NoTailIn(s, q + 1, hi)
    decreases hi + 1 - lo
  {
    if hi < lo {
      assert NoTailIn(s, lo, hi);
    } else if CaptureAt(s, hi) != "" {
      var q: nat := hi;
      assert NoTailIn(s, q + 1, hi);
    } else {
      var r := Backtrack(s, lo, hi - 1);
      assert Backtrack(s, lo, hi) == r;
      BacktrackIsGreedy(s, lo, hi - 1);
      if r != "" {
        var q: nat :| lo <= q <= hi - 1 && r == CaptureAt(s, q) && NoTailIn(s, q + 1, hi - 1);
        NoTailStep(s, q + 1, hi);
      } else {
        NoTailStep(s, lo, hi);
      }
    }
  }

  /** With the keyword at i, a match starting at i ends its `.*` at q exactly when q is within
      reach of `.*` and the tail succeeds at q. */
  lemma MatchAtStart(s: string, i: nat, q: nat)
    requires KeywordAt(s, i) && i + 6 <= q <= |s|
    ensures (exists p: nat :: MatchAt(s, i, q, p)) <==> (q <= LineEnd(s, i + 6) && CaptureAt(s, q) != "")
  {
    CaptureAtIsTail(s, q);
    if q <= LineEnd(s, i + 6) && CaptureAt(s, q) != "" {
      assert MatchAt(s, i, q, SpacesEnd(s, q));
    }
  }

  /** StartAt returns the hash of the match at i with the longest `.*`, and "" when no match starts at i. */
  lemma StartAtIsGreedy(s: string, i: nat)
    requires i <= |s|
    ensures StartAt(s, i) == "" ==> NoMatchIn(s, i, i + 1)
    ensures StartAt(s, i) != "" ==>
      exists q: nat, p: nat :: MatchAt(s, i, q, p) && StartAt(s, i) == s[p..p + HashLength] && LongestAt(s, i, q)
  {
    if KeywordAt(s, i) {
      var lo, hi := i + 6, LineEnd(s, i + 6);
      BacktrackIsGreedy(s, lo, hi);
      if StartAt(s, i) == "" {
        forall j: nat, q: nat, p: nat | i <= j < i + 1 && MatchAt(s, j, q, p) ensures false {
          MatchAtStart(s, i, q);
        }
      } else {
        var q: nat :| lo <= q <= hi && StartAt(s, i) == CaptureAt(s, q) && NoTailIn(s, q + 1, hi);
        MatchAtStart(s, i, q);
        CaptureAtIsTail(s, q);
        var p := SpacesEnd(s, q);
        assert MatchAt(s, i, q, p);
        forall q': nat, p': nat | MatchAt(s, i, q', p') ensures q' <= q {
          MatchAtStart(s, i, q');
        }
      }
    }
  }

  /** Scan returns the hash of the preferred match among those starting at or after i. */
  lemma {:induction false} ScanIsLeftmost(s: string, i: nat)
    requires i <= |s|
    ensures Scan(s, i) == "" ==> forall j: nat, q: nat, p: nat :: i <= j ==> !MatchAt(s, j, q, p)
    ensures Scan(s, i) != "" ==>
      exists j: nat, q: nat, p: nat :: i <= j && MatchAt(s, j, q, p) && Scan(s, i) == s[p..p + HashLength] &&
        LongestAt(s, j, q) && NoMatchIn(s, i, j)
    decreases |s| - i
  {
    StartAtIsGreedy(s, i);
    if i == |s| {
    } else if StartAt(s, i) != "" {
      var q: nat, p: nat :| MatchAt(s, i, q, p) && StartAt(s, i) == s[p..p + HashLength] && LongestAt(s, i, q);
      assert NoMatchIn(s, i, i);
    } else {
      ScanIsLeftmost(s, i + 1);
      if Scan(s, i) != "" {
        var j: nat, q: nat, p: nat :| i + 1 <= j && MatchAt(s, j, q, p) && Scan(s, i + 1) == s[p..p + HashLength] &&
          LongestAt(s, j, q) && NoMatchIn(s, i + 1, j);
        assert NoMatchIn(s, i, j);
      } else {
        forall j: nat, q: nat, p: nat | i <= j ensures !MatchAt(s, j, q, p) {
          if j == i { assert NoMatchIn(s, i, i + 1); }
        }
      }
    }
  }

  /** ParsecRevertRef is "" exactly when the message does not match the pattern anywhere, and
      otherwise it is the hash captured by the match Go's regexp reports first. */
  lemma {:induction false} ParsecRevertRefIsLeftmostFirst(msg: string)
    ensures ParsecRevertRef(msg) == "" <==> forall i: nat, q: nat, p: nat :: !MatchAt(msg, i, q, p)
    ensures ParsecRevertRef(msg) != "" ==> exists i: nat, q: nat, p: nat :: LeftmostFirst(msg, i, q, p)
    ensures forall i: nat, q: nat, p: nat :: LeftmostFirst(msg, i, q, p) ==> ParsecRevertRef(msg) == msg[p..p + HashLength]
  {
    ScanIsLeftmost(msg, 0);
    var r := ParsecRevertRef(msg);
    if r != "" {
      var j: nat, q0: nat, p0: nat :| MatchAt(msg, j, q0, p0) && r == msg[p0..p0 + HashLength] &&
        LongestAt(msg, j, q0) && NoMatchIn(msg, 0, j);
      assert LeftmostFirst(msg, j, q0, p0);
      forall i: nat, q: nat, p: nat | LeftmostFirst(msg, i, q, p) ensures r == msg[p..p + HashLength] {
        assert i == j && q == q0;
        CaptureAtIsTail(msg, q);
      }
    }
  }

  /** The preferred match determines the result. */
  lemma LeftmostFirstIsResult(msg: string, i: nat, q: nat, p: nat)
    requires LeftmostFirst(msg, i, q, p)
    ensures ParsecRevertRef(msg) == msg[p..p + HashLength]
  {
    ParsecRevertRefIsLeftmostFirst(msg);
  }

  // ---------------------------------------------------------------------------------------
  // The two messages of the repository's unit test.

  /** A message without the keyword refers to no commit. */
  lemma OtherCommitHasNoRef()
    ensures ParsecRevertRef("something else") == ""
  {
    var msg := "something else";
    assert 'r' !in msg && 'R' !in msg;
    forall i: nat, q: nat, p: nat ensures !MatchAt(msg, i, q, p) {
      if KeywordAt(msg, i) { assert msg[i] in msg; }
    }
    ParsecRevertRefIsLeftmostFirst(msg);
  }

  /** No character of s from index i on is c; written recursively so that it can be evaluated
      on a literal. */
  predicate Avoids(s: string, c: char, i: nat)
    decreases |s| - i
  {
    i >= |s| || (s[i] != c && Avoids(s, c, i + 1))
  }

  lemma {:induction false} AvoidsAll(s: string, c: char, i: nat)
    requires Avoids(s, c, i)
    ensures forall k :: i <= k < |s| ==> s[k] != c
    decreases |s| - i
  {
    if i < |s| {
      AvoidsAll(s, c, i + 1);
    }
  }

  lemma SampleHashIsHash()
    ensures IsHash("397747d22bd12cce4bc6bd0aa979a4f8eed3d29a")
  {
    var hash := "397747d22bd12cce4bc6bd0aa979a4f8eed3d29a";
    forall k | 0 <= k < |hash| ensures IsHexDigit(hash[k]) { assert hash[k] in hash; }
  }

  /** The message git writes for a revert, "This reverts commit <hash>", yields the reverted
      commit's hash: the preferred match starts at the keyword (index 5), its `.*` stops before
      the last space (index 19) and the hash follows (index 20). The two parts are parameters
      fixed by `requires` because, applied to one literal, the scanner would be unfolded over
      all sixty characters by the verifier. */
  lemma RevertCommitHasRef(head: string, hash: string)
    requires head == "This reverts commit " && hash == "397747d22bd12cce4bc6bd0aa979a4f8eed3d29a"
    ensures ParsecRevertRef(head + hash) == hash
  {
    var msg := head + hash;
    assert msg[20..60] == hash;
    SampleHashIsHash();
    assert KeywordAt(msg, 5) by {
      assert msg[5] == head[5] && msg[6..11] == head[6..11] == "evert";
    }
    assert WithinLine(msg, 11, 19) by {
      assert msg[11..19] == "s commit";
      AvoidsAll("s commit", '\n', 0);
      assert forall k :: 11 <= k < 19 ==> msg[k] == msg[11..19][k - 11];
    }
    assert MatchAt(msg, 5, 19, 20);
    // No match starts before the keyword, and one starting at 5 needs 40 characters after its tail's spaces.
    assert msg[..5] == "This ";
    AvoidsAll("This ", 'r', 0);
    AvoidsAll("This ", 'R', 0);
    assert forall k :: 0 <= k < 5 ==> msg[k] == msg[..5][k];
    assert forall i': nat, q': nat, p': nat :: MatchAt(msg, i', q', p') ==> 5 < i' || (5 == i' && q' <= 19);
    LeftmostFirstIsResult(msg, 5, 19, 20);
  }
}
