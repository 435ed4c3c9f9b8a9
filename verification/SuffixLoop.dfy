/**
 The invariant of the loop that finds a maximal suffix, and one lemma for each of its branches.

 The loop compares the best start so far, i, with a later start j; their first k - 1 letters agree
 and p is the period of everything seen, x[i..j + k - 1].
 */
module SuffixLoop {
  import opened Factorization

  /** The suffix at s loses to the suffix at q at a position of its own before end. */
  ghost predicate LosesBefore(x: Word, s: nat, q: nat, end: nat, rev: bool) {
    end <= |x| && exists t: nat :: s + t < end && LosesAfter(x, s, q, t, rev)
  }

  /** Every start strictly between i and end loses to i before end. */
  ghost predicate LoseInside(x: Word, i: nat, end: nat, rev: bool) {
    forall s: nat :: i < s < end ==> LosesBefore(x, s, i, end, rev)
  }

  /** Every earlier start loses to i. */
  ghost predicate BeatsEarlier(x: Word, i: nat, rev: bool) {
    forall s: nat :: s < i ==> Loses(x, s, i, rev)
  }

  ghost predicate Invariant(x: Word, i: nat, j: nat, k: nat, p: nat, rev: bool) {
    && 1 <= k <= p && i + p <= j && j + k - 1 <= |x|
    && PeriodOn(x, i, j + k - 1, p)
    && Agree(x, i, j - p, p)
    && Agree(x, i, j, k - 1)
    && LoseInside(x, i, i + p, rev)
    && BeatsEarlier(x, i, rev)
  }

  lemma Start(x: Word, rev: bool)
    requires |x| >= 1
    ensures Invariant(x, 0, 1, 1, 1, rev)
  {
  }

  /** The compared letters are equal: one more letter agrees, or a whole period is complete. */
  lemma EqualLetters(x: Word, i: nat, j: nat, k: nat, p: nat, rev: bool)
    requires Invariant(x, i, j, k, p, rev)
    requires j + k - 1 < |x| && x[i + k - 1] == x[j + k - 1]
    ensures k < p ==> Invariant(x, i, j, k + 1, p, rev)
    ensures k == p ==> Invariant(x, i, j + p, 1, p, rev)
  {
    var e := j + k - 1;
    assert Agree(x, i, j, k);
    assert PeriodOn(x, i, e + 1, p) by {
      assert x[i + (k - 1)] == x[j - p + (k - 1)];
    }
  }

  /** The challenger's letter is smaller: everything seen becomes the new period. */
  lemma SmallerLetter(x: Word, i: nat, j: nat, k: nat, p: nat, rev: bool)
    requires Invariant(x, i, j, k, p, rev)
    requires j + k - 1 < |x| && Less(x[j + k - 1], x[i + k - 1], rev)
    ensures Invariant(x, i, j + k, 1, j + k - i, rev)
  {
    var end := j + k;
    assert x[i + (k - 1)] == x[j - p + (k - 1)];
    forall s: nat | i < s < end ensures LosesBefore(x, s, i, end, rev) {
      LosesUpToMismatch(x, i, end - 1, p, s, rev);
    }
  }

  /** Within a run of period p that ends at e with a smaller letter, every later start loses. */
  lemma {:induction false} LosesUpToMismatch(x: Word, i: nat, e: nat, p: nat, s: nat, rev: bool)
    requires p >= 1 && i + p <= e < |x| && i < s <= e
    requires PeriodOn(x, i, e, p) && LoseInside(x, i, i + p, rev)
    requires Less(x[e], x[e - p], rev)
    ensures LosesBefore(x, s, i, e + 1, rev)
    decreases s
  {
    if s < i + p {
      assert LosesBefore(x, s, i, i + p, rev);
    } else if s == i + p {
      assert LosesAfter(x, s, i, e - s, rev);
    } else {
      var s' := s - p;
      LosesUpToMismatch(x, i, e, p, s', rev);
      var t: nat :| s' + t < e + 1 && LosesAfter(x, s', i, t, rev);
      LosesShifted(x, i, e, p, s', t, rev);
    }
  }

  /** One period further on the same start loses at the same letter, or at the mismatch. */
  lemma LosesShifted(x: Word, i: nat, e: nat, p: nat, s': nat, t: nat, rev: bool)
    requires p >= 1 && i < s' && s' + p <= e < |x|
    requires PeriodOn(x, i, e, p)
    requires Less(x[e], x[e - p], rev)
    requires s' + t <= e && LosesAfter(x, s', i, t, rev)
    ensures LosesBefore(x, s' + p, i, e + 1, rev)
  {
    var s := s' + p;
    var u := if s + t < e then t else e - s;
    assert Agree(x, s, s', u);
    assert Agree(x, s', i, u);
    AgreeTransitive(x, s, s', i, u);
    assert x[s' + u] == x[i + u] || Less(x[s' + u], x[i + u], rev);
    assert s + u < e ==> x[s' + u] == x[s + u];
    assert LosesAfter(x, s, i, u, rev);
  }

  /** The challenger's letter is greater: j is the new best start. */
  lemma GreaterLetter(x: Word, i: nat, j: nat, k: nat, p: nat, rev: bool)
    requires Invariant(x, i, j, k, p, rev)
    requires j + k - 1 < |x| && Less(x[i + k - 1], x[j + k - 1], rev)
    ensures j + 1 <= |x| && Invariant(x, j, j + 1, 1, 1, rev)
  {
    assert LosesAfter(x, i, j, k - 1, rev);
    assert x[i + (k - 1)] == x[j - p + (k - 1)];
    forall s: nat | s < j ensures Loses(x, s, j, rev) {
      if s < i {
        assert Loses(x, s, i, rev);
        LosesTransitive(x, s, i, j, rev);
      } else {
        LosesToChallenger(x, i, j, j + k - 1, p, s, rev);
      }
    }
  }

  lemma LosesToNextPeriod(x: Word, i: nat, e: nat, p: nat, s: nat, rev: bool)
    requires p >= 1 && i <= s && s + p <= e < |x|
    requires PeriodOn(x, i, e, p) && Less(x[e - p], x[e], rev)
    ensures Loses(x, s, s + p, rev)
  {
    assert Agree(x, s, s + p, e - s - p);
    assert LosesAfter(x, s, s + p, e - s - p, rev);
  }

  /** Within a run of period p that ends at e with a greater letter, each start loses to the one a
      period later, and so to the last one, j. */
  lemma {:induction false} LosesToChallenger(x: Word, i: nat, j: nat, e: nat, p: nat, s: nat, rev: bool)
    requires p >= 1 && i + p <= j <= e < |x| && i <= s < j
    requires PeriodOn(x, i, e, p) && LoseInside(x, i, i + p, rev)
    requires Agree(x, i, j - p, p) && Loses(x, i, j, rev)
    requires Less(x[e - p], x[e], rev)
    ensures Loses(x, s, j, rev)
    decreases j - s
  {
    if s + p <= j {
      LosesToNextPeriod(x, i, e, p, s, rev);
      if s + p < j {
        LosesToChallenger(x, i, j, e, p, s + p, rev);
        LosesTransitive(x, s, s + p, j, rev);
      }
    } else {
      LosesInLastPeriod(x, i, j, p, s, rev);
      LosesTransitive(x, s, i, j, rev);
    }
  }

  /** The period before j is a copy of the one at i, so a start inside it loses in the same place. */
  lemma LosesInLastPeriod(x: Word, i: nat, j: nat, p: nat, s: nat, rev: bool)
    requires p >= 1 && i + p <= j <= |x| && j - p < s < j
    requires Agree(x, i, j - p, p) && LoseInside(x, i, i + p, rev)
    ensures Loses(x, s, i, rev)
  {
    var s' := i + (s - (j - p));
    assert LosesBefore(x, s', i, i + p, rev);
    var t: nat :| s' + t < i + p && LosesAfter(x, s', i, t, rev);
    assert Agree(x, s, s', t);
    AgreeTransitive(x, s, s', i, t);
    assert x[s' + t] == x[s + t];
    assert LosesAfter(x, s, i, t, rev);
  }

  /** The challenger has run off the end: i starts the maximal suffix and p is its smallest
      period. */
  lemma Finish(x: Word, i: nat, j: nat, k: nat, p: nat, rev: bool)
    requires Invariant(x, i, j, k, p, rev) && j + k - 1 == |x|
    ensures MaximalSuffix(x, i, rev)
    ensures p <= |x| - i && SmallestPeriodOn(x, i, |x|, p)
  {
    forall s: nat | s < |x| && s != i ensures Loses(x, s, i, rev) {
      if s > i {
        LosesAtEnd(x, i, p, s, rev);
      }
    }
    forall d | 1 <= d < p ensures !PeriodOn(x, i, |x|, d) {
      var s: nat := i + d;
      assert LosesBefore(x, s, i, i + p, rev);
      var t: nat :| s + t < i + p && LosesAfter(x, s, i, t, rev);
      assert x[s + t] != x[i + t];
    }
  }

  lemma {:induction false} LosesAtEnd(x: Word, i: nat, p: nat, s: nat, rev: bool)
    requires p >= 1 && i < s < |x|
    requires PeriodOn(x, i, |x|, p) && i + p <= |x| && LoseInside(x, i, i + p, rev)
    ensures Loses(x, s, i, rev)
    decreases s
  {
    if s < i + p {
      assert LosesBefore(x, s, i, i + p, rev);
    } else if s == i + p {
      assert LosesAfter(x, s, i, |x| - s, rev);
    } else {
      var s' := s - p;
      LosesAtEnd(x, i, p, s', rev);
      var t: nat :| LosesAfter(x, s', i, t, rev);
      LosesShiftedAtEnd(x, i, p, s', t, rev);
    }
  }

  lemma LosesShiftedAtEnd(x: Word, i: nat, p: nat, s': nat, t: nat, rev: bool)
    requires p >= 1 && i < s' && s' + p < |x|
    requires PeriodOn(x, i, |x|, p) && LosesAfter(x, s', i, t, rev)
    ensures Loses(x, s' + p, i, rev)
  {
    var s := s' + p;
    var u := if s + t < |x| then t else |x| - s;
    assert Agree(x, s, s', u);
    assert Agree(x, s', i, u);
    AgreeTransitive(x, s, s', i, u);
    assert s + u < |x| ==> x[s' + u] == x[s + u];
    assert LosesAfter(x, s, i, u, rev);
  }
}
