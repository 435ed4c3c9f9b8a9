/**
 Combinatorics on words behind the two-way search of src/orbis_wchar32.c: periods, the
 lexicographically maximal suffix under an order and under its reverse, and the critical
 factorization theorem that makes every shift of the search safe.

 Throughout, a quantifier over two positions of a word writes the second one as its own variable,
 so that no position term can produce a new one.
 */
module Factorization {

  type Word = seq<int>

  /** r is a period of the range [lo, hi) of x. */
  ghost predicate PeriodOn(x: Word, lo: nat, hi: nat, r: int)
    requires hi <= |x|
  {
    r >= 1 && forall i, j :: lo <= i < hi && lo <= j < hi && j == i + r ==> x[i] == x[j]
  }

  ghost predicate Period(x: Word, r: int) {
    PeriodOn(x, 0, |x|, r)
  }

  ghost predicate SmallestPeriodOn(x: Word, lo: nat, hi: nat, r: int)
    requires hi <= |x|
  {
    PeriodOn(x, lo, hi, r) && forall d :: 1 <= d < r ==> !PeriodOn(x, lo, hi, d)
  }

  /** A repetition of length r around the cut q: what lies before q equals what lies r further on,
      as far as both exist. */
  ghost predicate Repetition(x: Word, q: nat, r: int) {
    r >= 1 && forall i, j :: 0 <= i < q <= j < |x| && j == i + r ==> x[i] == x[j]
  }

  /** q is a critical cut: every repetition around it is longer than the part in front of it and is
      already a period of the whole word. */
  ghost predicate Critical(x: Word, q: nat) {
    forall r :: Repetition(x, q, r) ==> r > q && Period(x, r)
  }

  /** The order on letters, or its reverse. */
  predicate Less(a: int, b: int, rev: bool) {
    if rev then a > b else a < b
  }

  lemma LessIsTotal(a: int, b: int, rev: bool)
    ensures Less(a, b, rev) || a == b || Less(b, a, rev)
  {
  }

  ghost predicate Agree(x: Word, s: nat, q: nat, t: nat) {
    && s + t <= |x| && q + t <= |x|
    && forall i, j :: s <= i < s + t && q <= j < q + t && j - q == i - s ==> x[i] == x[j]
  }

  /** The suffix at s loses against the suffix at q after exactly t common letters. */
  ghost predicate LosesAfter(x: Word, s: nat, q: nat, t: nat, rev: bool) {
    && Agree(x, s, q, t)
    && q + t < |x|
    && (s + t == |x| || Less(x[s + t], x[q + t], rev))
  }

  /** The suffix at s is lexicographically smaller than the suffix at q. */
  ghost predicate Loses(x: Word, s: nat, q: nat, rev: bool) {
    exists t: nat :: LosesAfter(x, s, q, t, rev)
  }

  /** The suffix at q is the lexicographically greatest one. */
  ghost predicate MaximalSuffix(x: Word, q: nat, rev: bool) {
    q < |x| && forall s :: 0 <= s < |x| && s != q ==> Loses(x, s, q, rev)
  }

  lemma LosesAsymmetric(x: Word, s: nat, q: nat, rev: bool)
    requires Loses(x, s, q, rev)
    ensures !Loses(x, q, s, rev)
  {
  }

  lemma AgreeTransitive(x: Word, s: nat, m: nat, q: nat, t: nat)
    requires Agree(x, s, m, t) && Agree(x, m, q, t)
    ensures Agree(x, s, q, t)
  {
    forall a, b | s <= a < s + t && q <= b < q + t && b - q == a - s ensures x[a] == x[b] {
      var c := m + (a - s);
      assert x[a] == x[c];
      assert x[c] == x[b];
    }
  }

  lemma AgreeShorter(x: Word, s: nat, q: nat, t: nat, w: nat)
    requires Agree(x, s, q, t) && w <= t
    ensures Agree(x, s, q, w)
    ensures w < t ==> x[s + w] == x[q + w]
  {
  }

  lemma LosesTransitive(x: Word, s: nat, q: nat, m: nat, rev: bool)
    requires Loses(x, s, q, rev) && Loses(x, q, m, rev)
    ensures Loses(x, s, m, rev)
  {
    hide Agree;
    var t: nat :| LosesAfter(x, s, q, t, rev);
    var u: nat :| LosesAfter(x, q, m, u, rev);
    var w := if t < u then t else u;
    AgreeShorter(x, s, q, t, w);
    AgreeShorter(x, q, m, u, w);
    AgreeTransitive(x, s, q, m, w);
    AgreeInside(x, s, q, t);
    assert LosesAfter(x, s, m, w, rev);
  }

  lemma AgreeInside(x: Word, s: nat, q: nat, t: nat)
    requires Agree(x, s, q, t)
    ensures s + t <= |x| && q + t <= |x|
  {
  }

  /** A repetition around the start of a maximal suffix is longer than the part before it. */
  lemma RepetitionReachesPastFront(x: Word, q: nat, r: int, rev: bool)
    requires MaximalSuffix(x, q, rev) && Repetition(x, q, r)
    ensures r > q
  {
    if r <= q {
      var s := q - r;
      assert Loses(x, s, q, rev);
      var t: nat :| LosesAfter(x, s, q, t, rev);
      assert t >= r;
      assert LosesAfter(x, q, q + r, t - r, rev) by {
        assert Agree(x, q, q + r, t - r);
      }
      LosesAsymmetric(x, q, q + r, rev);
    }
  }

  /** Once the repetition is longer than the front, losing under both orders leaves no mismatch. */
  lemma LosesBothWays(x: Word, s: nat, q: nat)
    requires Loses(x, s, q, false) && Loses(x, s, q, true)
    ensures q <= s <= |x| && Agree(x, s, q, |x| - s)
  {
  }

  /** Critical factorization: the later of the two maximal-suffix cuts is critical, and what lies in
      front of it is shorter than every period of the word. */
  lemma LaterCutIsCritical(x: Word, q: nat, q2: nat, rev: bool)
    requires MaximalSuffix(x, q, rev) && MaximalSuffix(x, q2, !rev) && q2 <= q
    ensures Critical(x, q)
    ensures forall r :: Period(x, r) ==> q < r
  {
    assert forall r :: Period(x, r) ==> Repetition(x, q, r);
    forall r | Repetition(x, q, r) ensures r > q && Period(x, r) {
      RepetitionReachesPastFront(x, q, r, rev);
      if q + r < |x| {
        RepetitionIsPeriod(x, q, q2, r, rev);
      }
    }
  }

  lemma RepetitionIsPeriod(x: Word, q: nat, q2: nat, r: int, rev: bool)
    requires MaximalSuffix(x, q, rev) && MaximalSuffix(x, q2, !rev) && q2 <= q
    requires Repetition(x, q, r) && q < r && q + r < |x|
    ensures Period(x, r)
  {
    var e := q - q2;
    assert Loses(x, q2 + r, q2, !rev);
    var t: nat :| LosesAfter(x, q2 + r, q2, t, !rev);
    assert t >= e;
    var t' := t - e;
    assert Agree(x, q + r, q, t');
    assert LosesAfter(x, q + r, q, t', !rev);
    assert Loses(x, q + r, q, rev);
    LosesBothWays(x, q + r, q);
    forall i, j | 0 <= i < |x| && 0 <= j < |x| && j == i + r ensures x[i] == x[j] {
      if i >= q {
        assert q + r <= j;
      }
    }
  }

  // ------------------------------------------------------------- what the search needs

  /** The periodic branch: the period of the right part carries over the cut, so it is the smallest
      period of the word and longer than the front. */
  lemma PeriodicNeedle(x: Word, q: nat, p: int)
    requires q < |x| && Critical(x, q) && SmallestPeriodOn(x, q, |x|, p) && p <= |x| - q
    requires Agree(x, 0, p, q)
    ensures Period(x, p) && q < p
    ensures forall d :: 1 <= d < p ==> !Period(x, d)
  {
    assert Period(x, p) by {
      forall i, j | 0 <= i < |x| && 0 <= j < |x| && j == i + p ensures x[i] == x[j] {
      }
    }
    assert Repetition(x, q, p);
    forall d | 1 <= d < p ensures !Period(x, d) {
      assert !PeriodOn(x, q, |x|, d);
    }
  }

  /** The other branch: every period of the word exceeds both the front and the rest. */
  lemma AperiodicNeedle(x: Word, q: nat, p: int, d: int)
    requires q < |x| && Critical(x, q) && SmallestPeriodOn(x, q, |x|, p) && p <= |x| - q
    requires !Agree(x, 0, p, q)
    requires Period(x, d)
    ensures d > q && d > |x| - q
    decreases d
  {
    assert Repetition(x, q, d);
    if d <= |x| - q {
      assert PeriodOn(x, q, |x|, d);
      assert d >= p;
      assert d != p;
      var r := d - p;
      forall i, j | 0 <= i < q <= j < |x| && j == i + r ensures x[i] == x[j] {
        assert x[i] == x[i + d];
        assert x[j] == x[j + p];
      }
      assert Repetition(x, q, r);
      AperiodicNeedle(x, q, p, r);
    }
  }
}
