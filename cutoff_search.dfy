/**
 * The `--n-clusters` loop of `main`: cluster, and while the number of
 * groups is not the requested one, raise the cutoff by half of itself when
 * there are too many groups and lower it by half when there are too few.
 * The source loop has no bound; here `rounds` bounds the number of cutoff
 * changes, and running out of rounds is an outcome of its own.
 */
module CutoffSearch {
  import opened Matrices
  import opened Grouping

  datatype Search =
    | TooManyRequested                              // n_clusters > n_molecs: error exit
    | Converged(clusters: Clusters, cutoff: real)   // the loop ended
    | GaveUp(clusters: Clusters, cutoff: real)      // still unequal when the rounds ran out

  /** The loop itself, from `cutoff`, with at most `rounds` cutoff changes left. */
  function Adapt(dist: Matrix, target: int, cutoff: real, rounds: nat): (s: Search)
    requires Square(dist)
    ensures s.Converged? || s.GaveUp?
    decreases rounds
  {
    var clusters := Greedy(dist, cutoff);
    if |clusters| == target then Converged(clusters, cutoff)
    else if rounds == 0 then GaveUp(clusters, cutoff)
    else if |clusters| > target then Adapt(dist, target, cutoff + cutoff * 0.5, rounds - 1)
    else Adapt(dist, target, cutoff - cutoff * 0.5, rounds - 1)
  }

  /**
   * The loop ends on the clustering at its last cutoff: with the requested
   * count when it stopped by itself, with another count when the rounds ran out.
   */
  lemma {:induction false} AdaptOutcome(dist: Matrix, target: int, cutoff: real, rounds: nat)
    requires Square(dist)
    ensures var s := Adapt(dist, target, cutoff, rounds);
      && s.clusters == Greedy(dist, s.cutoff)
      && (s.Converged? <==> |s.clusters| == target)
    decreases rounds
  {
    var count := |Greedy(dist, cutoff)|;
    if count != target && rounds > 0 {
      if count > target {
        AdaptOutcome(dist, target, cutoff + cutoff * 0.5, rounds - 1);
      } else {
        AdaptOutcome(dist, target, cutoff - cutoff * 0.5, rounds - 1);
      }
    }
  }

  /** One turn of the loop: an unequal count moves the cutoff to `next` and uses up a round. */
  lemma AdaptStep(dist: Matrix, target: int, cutoff: real, rounds: nat, next: real)
    requires Square(dist) && rounds > 0 && |Greedy(dist, cutoff)| != target
    requires next == if |Greedy(dist, cutoff)| > target then cutoff + cutoff * 0.5 else cutoff - cutoff * 0.5
    ensures Adapt(dist, target, cutoff, rounds) == Adapt(dist, target, next, rounds - 1)
  {
  }

  /** The requested count is checked against the number of molecules before any clustering. */
  function SearchCount(dist: Matrix, target: int, cutoff: real, rounds: nat): (s: Search)
    requires Square(dist)
    ensures s.TooManyRequested? <==> target > |dist|
    ensures s.Converged? ==> |s.clusters| == target && IsPartition(s.clusters, |dist|)
  {
    if target > |dist| then TooManyRequested
    else
      var s := Adapt(dist, target, cutoff, rounds);
      AdaptOutcome(dist, target, cutoff, rounds);
      GreedyIsPartition(dist, s.cutoff);
      s
  }

  function Pow(b: real, k: nat): real {
    if k == 0 then 1.0 else b * Pow(b, k - 1)
  }

  /** `cutoff` raised `a` times and lowered `b` times. */
  function Scaled(cutoff: real, a: nat, b: nat): real {
    cutoff * Pow(1.5, a) * Pow(0.5, b)
  }

  /** Raising the cutoff by half of itself is one more factor 1.5. */
  lemma Raised(cutoff: real, a: nat, b: nat)
    ensures Scaled(cutoff + cutoff * 0.5, a, b) == Scaled(cutoff, a + 1, b)
  {
    var x, y := Pow(1.5, a), Pow(0.5, b);
    assert Pow(1.5, a + 1) == 1.5 * x;
    assert (cutoff + cutoff * 0.5) * x * y == cutoff * (1.5 * x) * y;
  }

  /** Lowering the cutoff by half of itself is one more factor 0.5. */
  lemma Lowered(cutoff: real, a: nat, b: nat)
    ensures Scaled(cutoff - cutoff * 0.5, a, b) == Scaled(cutoff, a, b + 1)
  {
    var x, y := Pow(1.5, a), Pow(0.5, b);
    assert Pow(0.5, b + 1) == 0.5 * y;
    assert (cutoff - cutoff * 0.5) * x * y == cutoff * x * (0.5 * y);
  }

  /**
   * The cutoff the loop ends on is the starting one multiplied by 1.5 a
   * times and by 0.5 b times, with no more changes than rounds allowed.
   */
  lemma {:induction false} AdaptCutoff(dist: Matrix, target: int, cutoff: real, rounds: nat)
    returns (a: nat, b: nat)
    requires Square(dist)
    ensures a + b <= rounds
    ensures Adapt(dist, target, cutoff, rounds).cutoff == Scaled(cutoff, a, b)
    decreases rounds
  {
    var count := |Greedy(dist, cutoff)|;
    if count == target || rounds == 0 {
      a, b := 0, 0;
      assert Scaled(cutoff, 0, 0) == cutoff;
    } else if count > target {
      a, b := AdaptCutoff(dist, target, cutoff + cutoff * 0.5, rounds - 1);
      Raised(cutoff, a, b);
      a := a + 1;
    } else {
      a, b := AdaptCutoff(dist, target, cutoff - cutoff * 0.5, rounds - 1);
      Lowered(cutoff, a, b);
      b := b + 1;
    }
  }

  /** A positive factor keeps a strict order. */
  lemma ScaleStrict(k: real, u: real, v: real)
    requires k > 0.0 && u > v
    ensures k * u > k * v
  {
    assert k * u - k * v == k * (u - v);
  }

  lemma {:induction false} PowTwoGrows(k: nat)
    ensures Pow(2.0, k) >= (k + 1) as real
  {
    if k > 0 { PowTwoGrows(k - 1); }
  }

  lemma {:induction false} PowThreeHalvesGrows(k: nat)
    ensures Pow(1.5, k) >= 1.0 + (k as real) * 0.5
  {
    if k > 0 { PowThreeHalvesGrows(k - 1); }
  }

  /** The smallest entry below the diagonal in rows `0 .. i-1`, or 1.0 when there is none. */
  ghost function LeastBelowDiagonal(dist: Matrix, i: nat): (m: real)
    requires Square(dist) && i <= |dist|
    ensures forall r, j :: 0 <= j < r < i ==> m <= dist[r][j]
    ensures (forall r, j :: 0 <= j < r < i ==> dist[r][j] > 0.0) ==> m > 0.0
  {
    if i == 0 then 1.0
    else
      var prev, row := LeastBelowDiagonal(dist, i - 1), LeastOf(dist[i - 1][..i - 1]);
      if prev <= row then prev else row
  }

  /** The smallest element of `s`, or 1.0 when `s` is empty. */
  ghost function LeastOf(s: seq<real>): (m: real)
    ensures forall k :: 0 <= k < |s| ==> m <= s[k]
    ensures (forall k :: 0 <= k < |s| ==> s[k] > 0.0) ==> m > 0.0
  {
    if s == [] then 1.0
    else
      var rest := LeastOf(s[1..]);
      if s[0] <= rest then s[0] else rest
  }

  /** The largest entry below the diagonal in rows `0 .. i-1`, or 0.0 when there is none. */
  ghost function GreatestBelowDiagonal(dist: Matrix, i: nat): (m: real)
    requires Square(dist) && i <= |dist|
    ensures forall r, j :: 0 <= j < r < i ==> dist[r][j] <= m
  {
    if i == 0 then 0.0
    else
      var prev, row := GreatestBelowDiagonal(dist, i - 1), GreatestOf(dist[i - 1][..i - 1]);
      if prev >= row then prev else row
  }

  /** The largest element of `s`, or 0.0 when `s` is empty. */
  ghost function GreatestOf(s: seq<real>): (m: real)
    ensures forall k :: 0 <= k < |s| ==> s[k] <= m
  {
    if s == [] then 0.0
    else
      var rest := GreatestOf(s[1..]);
      if s[0] >= rest then s[0] else rest
  }

  /**
   * Asking for one group per molecule: while there are fewer groups, the
   * cutoff halves; once it is at most the smallest distance `least`, every
   * molecule is alone and the loop stops.
   */
  lemma {:induction false} HalvingReachesSingletons(dist: Matrix, cutoff: real, rounds: nat, least: real)
    requires Square(dist) && least > 0.0
    requires forall i, j :: 0 <= j < i < |dist| ==> dist[i][j] >= least
    requires 0.0 < cutoff <= least * Pow(2.0, rounds)
    ensures Adapt(dist, |dist|, cutoff, rounds).Converged?
    decreases rounds
  {
    if rounds == 0 {
      GreedyExtremes(dist, cutoff);
    } else if |Greedy(dist, cutoff)| != |dist| {
      var next := cutoff - cutoff * 0.5;
      assert next <= least * Pow(2.0, rounds - 1);
      HalvingReachesSingletons(dist, next, rounds - 1, least);
    }
  }

  /**
   * On a matrix whose entries below the diagonal are all positive, asking
   * for as many groups as molecules from a positive cutoff ends (and then,
   * by `SearchCount`, with a partition into that many groups).
   */
  lemma SingletonTargetConverges(dist: Matrix, cutoff: real)
    requires Square(dist) && cutoff > 0.0
    requires forall i, j :: 0 <= j < i < |dist| ==> dist[i][j] > 0.0
    ensures exists rounds: nat :: SearchCount(dist, |dist|, cutoff, rounds).Converged?
  {
    var least := LeastBelowDiagonal(dist, |dist|);
    var x := cutoff / least;
    var rounds: nat := x.Floor + 1;
    assert cutoff <= least * Pow(2.0, rounds) by {
      PowTwoGrows(rounds);
      ScaleStrict(least, Pow(2.0, rounds), x);
      assert least * x == cutoff;
    }
    HalvingReachesSingletons(dist, cutoff, rounds, least);
    assert SearchCount(dist, |dist|, cutoff, rounds).Converged?;
  }


  /**
   * Asking for one group: while there are more groups, the cutoff grows by
   * half; once it exceeds the largest distance `greatest`, all molecules
   * share one group and the loop stops.
   */
  lemma {:induction false} GrowingReachesOneGroup(dist: Matrix, cutoff: real, rounds: nat, greatest: real)
    requires Square(dist) && |dist| > 0
    requires forall i, j :: 0 <= j < i < |dist| ==> dist[i][j] <= greatest
    requires cutoff > 0.0 && greatest < cutoff * Pow(1.5, rounds)
    ensures Adapt(dist, 1, cutoff, rounds).Converged?
    decreases rounds
  {
    if rounds == 0 {
      GreedyExtremes(dist, cutoff);
    } else if |Greedy(dist, cutoff)| != 1 {
      var next := cutoff + cutoff * 0.5;
      assert next * Pow(1.5, rounds - 1) == cutoff * Pow(1.5, rounds);
      GrowingReachesOneGroup(dist, next, rounds - 1, greatest);
    }
  }

  /** Asking for a single group from a positive cutoff always ends, with all molecules in it. */
  lemma OneGroupTargetConverges(dist: Matrix, cutoff: real)
    requires Square(dist) && |dist| > 0 && cutoff > 0.0
    ensures exists rounds: nat :: SearchCount(dist, 1, cutoff, rounds).Converged?
  {
    var greatest := GreatestBelowDiagonal(dist, |dist|);
    var x := greatest / cutoff;
    var rounds: nat := if x < 0.0 then 0 else (2.0 * x).Floor + 1;
    assert greatest < cutoff * Pow(1.5, rounds) by {
      PowThreeHalvesGrows(rounds);
      ScaleStrict(cutoff, Pow(1.5, rounds), x);
      assert cutoff * x == greatest;
    }
    GrowingReachesOneGroup(dist, cutoff, rounds, greatest);
    assert SearchCount(dist, 1, cutoff, rounds).Converged?;
  }

}
