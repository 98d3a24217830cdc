/**
 * The grouping rule of `Cluster.cluster`, as a function of the distance
 * matrix and the cutoff, and what it guarantees: the groups partition the
 * indices, every member of a group is within the cutoff of every earlier
 * member, an index joins the first group that admits it, and the groups
 * keep the order in which they were opened.
 */
module Grouping {
  import opened Matrices

  /** Groups of molecule indices, in the order they were opened. */
  type Clusters = seq<seq<nat>>

  /** Every member of every group is below `n`. */
  ghost predicate Below(cls: Clusters, n: nat) {
    forall c, p :: 0 <= c < |cls| && 0 <= p < |cls[c]| ==> cls[c][p] < n
  }

  /**
   * `all(rmsd_matrix[i,j] < cutoff for j in cluster)`: index `i` is within
   * the cutoff of every member of the group.
   */
  predicate Admits(dist: Matrix, cutoff: real, members: seq<nat>, i: nat)
    requires Square(dist) && i < |dist|
    requires forall p :: 0 <= p < |members| ==> members[p] < |dist|
  {
    forall p :: 0 <= p < |members| ==> dist[i][members[p]] < cutoff
  }

  /**
   * The first group, from position `from` on, that admits `i`; `|cls|`
   * when none does (the `else` of the `for` loop).
   */
  function FirstAdmitting(dist: Matrix, cutoff: real, cls: Clusters, i: nat, from: nat): (c: nat)
    requires Square(dist) && i < |dist| && Below(cls, |dist|) && from <= |cls|
    ensures from <= c <= |cls|
    ensures c < |cls| ==> Admits(dist, cutoff, cls[c], i)
    ensures forall d :: from <= d < c ==> !Admits(dist, cutoff, cls[d], i)
    decreases |cls| - from
  {
    if from == |cls| then from
    else if Admits(dist, cutoff, cls[from], i) then from
    else FirstAdmitting(dist, cutoff, cls, i, from + 1)
  }

  /** `Admits` is the test over the members themselves, as `for j in cluster` reads them. */
  lemma AdmitsEveryMember(dist: Matrix, cutoff: real, members: seq<nat>, i: nat)
    requires Square(dist) && i < |dist|
    requires forall p :: 0 <= p < |members| ==> members[p] < |dist|
    ensures Admits(dist, cutoff, members, i) <==> forall j :: j in members ==> j < |dist| && dist[i][j] < cutoff
  {
  }

  /** No group is empty. */
  ghost predicate NonEmpty(cls: Clusters) {
    forall c :: 0 <= c < |cls| ==> |cls[c]| > 0
  }

  /** One turn of the outer loop: `i` joins the first admitting group, or opens a new one. */
  function Place(dist: Matrix, cutoff: real, cls: Clusters, i: nat): (r: Clusters)
    requires Square(dist) && i < |dist| && Below(cls, i) && NonEmpty(cls)
    ensures Below(r, i + 1) && NonEmpty(r)
    ensures |cls| <= |r| <= |cls| + 1
  {
    var c := FirstAdmitting(dist, cutoff, cls, i, 0);
    if c < |cls| then cls[c := cls[c] + [i]] else cls + [[i]]
  }

  /** The groups after indices `0 .. k-1` have been placed. */
  function Group(dist: Matrix, cutoff: real, k: nat): (r: Clusters)
    requires Square(dist) && k <= |dist|
    ensures Below(r, k) && NonEmpty(r)
    ensures |r| <= k
    ensures k > 0 ==> |r| > 0
  {
    if k == 0 then [] else Place(dist, cutoff, Group(dist, cutoff, k - 1), k - 1)
  }

  /** The result of clustering all `|dist|` molecules. */
  function Greedy(dist: Matrix, cutoff: real): (r: Clusters)
    requires Square(dist)
    ensures |r| <= |dist|
    ensures |dist| > 0 ==> |r| > 0
  {
    Group(dist, cutoff, |dist|)
  }

  // ------------------------------------------------------- entries read

  /** Two matrices of one size agree below the diagonal, the only entries `cluster` reads. */
  ghost predicate AgreeBelow(d1: Matrix, d2: Matrix) {
    && Square(d1) && Square(d2) && |d1| == |d2|
    && forall i, j :: 0 <= j < i < |d1| ==> d1[i][j] == d2[i][j]
  }

  /** Testing `i` against groups of earlier indices reads only row `i` left of the diagonal. */
  lemma {:induction false} FirstAdmittingReadsBelow(d1: Matrix, d2: Matrix, cutoff: real, cls: Clusters, i: nat, from: nat)
    requires AgreeBelow(d1, d2) && i < |d1| && Below(cls, i) && from <= |cls|
    ensures FirstAdmitting(d1, cutoff, cls, i, from) == FirstAdmitting(d2, cutoff, cls, i, from)
    decreases |cls| - from
  {
    if from < |cls| {
      assert Admits(d1, cutoff, cls[from], i) == Admits(d2, cutoff, cls[from], i);
      FirstAdmittingReadsBelow(d1, d2, cutoff, cls, i, from + 1);
    }
  }

  /** One turn places `i` alike on two matrices that agree below the diagonal. */
  lemma PlaceReadsBelow(d1: Matrix, d2: Matrix, cutoff: real, cls: Clusters, i: nat, r1: Clusters, r2: Clusters)
    requires AgreeBelow(d1, d2) && i < |d1| && Below(cls, i) && NonEmpty(cls)
    requires r1 == Place(d1, cutoff, cls, i) && r2 == Place(d2, cutoff, cls, i)
    ensures r1 == r2
  {
    FirstAdmittingReadsBelow(d1, d2, cutoff, cls, i, 0);
  }

  /**
   * The grouping depends only on the entries below the diagonal: a matrix
   * that is not symmetric is grouped by its lower triangle.
   */
  lemma {:induction false} GroupReadsBelow(d1: Matrix, d2: Matrix, cutoff: real, k: nat)
    requires AgreeBelow(d1, d2) && k <= |d1|
    ensures Group(d1, cutoff, k) == Group(d2, cutoff, k)
  {
    if k > 0 {
      var prev := Group(d1, cutoff, k - 1);
      GroupReadsBelow(d1, d2, cutoff, k - 1);
      PlaceReadsBelow(d1, d2, cutoff, prev, k - 1, Group(d1, cutoff, k), Group(d2, cutoff, k));
    }
  }

  // ---------------------------------------------------------------- partition

  /** Index `i` is a member of some group. */
  ghost predicate Occurs(cls: Clusters, i: nat) {
    exists c, p :: 0 <= c < |cls| && 0 <= p < |cls[c]| && cls[c][p] == i
  }

  /** No index occurs at two positions. */
  ghost predicate Disjoint(cls: Clusters) {
    forall c, p, d, q ::
      0 <= c < |cls| && 0 <= p < |cls[c]| && 0 <= d < |cls| && 0 <= q < |cls[d]| && cls[c][p] == cls[d][q]
      ==> c == d && p == q
  }

  /** Every index below `n` occurs exactly once, and no group is empty. */
  ghost predicate IsPartition(cls: Clusters, n: nat) {
    && Below(cls, n)
    && NonEmpty(cls)
    && (forall i :: 0 <= i < n ==> Occurs(cls, i))
    && Disjoint(cls)
  }

  /** Placing `i` moves no earlier member and adds `i` at one new position. */
  lemma PlaceExtends(dist: Matrix, cutoff: real, cls: Clusters, i: nat)
    requires Square(dist) && i < |dist| && Below(cls, i) && NonEmpty(cls)
    ensures var r := Place(dist, cutoff, cls, i);
      && (forall d, p :: 0 <= d < |cls| && 0 <= p < |cls[d]| ==> p < |r[d]| && r[d][p] == cls[d][p])
      && (forall d, p :: 0 <= d < |r| && 0 <= p < |r[d]| && (d >= |cls| || p >= |cls[d]|) ==> r[d][p] == i)
      && Occurs(r, i)
  {
    var c := FirstAdmitting(dist, cutoff, cls, i, 0);
    var r := Place(dist, cutoff, cls, i);
    if c < |cls| {
      assert r[c][|cls[c]|] == i;
    } else {
      assert r[|cls|][0] == i;
    }
  }

  lemma PlaceKeepsPartition(dist: Matrix, cutoff: real, cls: Clusters, i: nat, r: Clusters)
    requires Square(dist) && i < |dist| && Below(cls, i) && NonEmpty(cls)
    requires r == Place(dist, cutoff, cls, i)
    ensures IsPartition(cls, i) ==> IsPartition(r, i + 1)
  {
    if !IsPartition(cls, i) {
      return;
    }
    PlaceExtends(dist, cutoff, cls, i);
    forall j | 0 <= j < i + 1 ensures Occurs(r, j) {
      if j < i {
        assert Occurs(cls, j);
        var d, p :| 0 <= d < |cls| && 0 <= p < |cls[d]| && cls[d][p] == j;
        assert r[d][p] == j;
      }
    }
    forall c, p, d, q |
      0 <= c < |r| && 0 <= p < |r[c]| && 0 <= d < |r| && 0 <= q < |r[d]| && r[c][p] == r[d][q]
      ensures c == d && p == q
    {
      if c < |cls| && p < |cls[c]| && d < |cls| && q < |cls[d]| {
        assert cls[c][p] == cls[d][q];
      }
    }
  }

  lemma {:induction false} GroupIsPartition(dist: Matrix, cutoff: real, k: nat, cls: Clusters)
    requires Square(dist) && k <= |dist| && cls == Group(dist, cutoff, k)
    ensures IsPartition(cls, k)
  {
    if k > 0 {
      var prev := Group(dist, cutoff, k - 1);
      PlaceKeepsPartition(dist, cutoff, prev, k - 1, cls);
      GroupIsPartition(dist, cutoff, k - 1, prev);
    }
  }

  /**
   * `cluster` returns a partition of `0 .. n-1`: every index is in exactly
   * one group, at one position, and no group is empty.
   */
  lemma GreedyIsPartition(dist: Matrix, cutoff: real)
    requires Square(dist)
    ensures IsPartition(Greedy(dist, cutoff), |dist|)
  {
    GroupIsPartition(dist, cutoff, |dist|, Greedy(dist, cutoff));
  }

  // ------------------------------------------------------- admission and order

  /** Within each group, the members increase and each is within the cutoff of all earlier ones. */
  ghost predicate Admitted(dist: Matrix, cutoff: real, cls: Clusters)
    requires Square(dist) && Below(cls, |dist|)
  {
    forall c, p, q :: 0 <= c < |cls| && 0 <= p < q < |cls[c]| ==>
      cls[c][p] < cls[c][q] && dist[cls[c][q]][cls[c][p]] < cutoff
  }

  /** The groups are ordered by their first members. */
  ghost predicate HeadsIncrease(cls: Clusters) {
    forall c, d :: 0 <= c < d < |cls| && |cls[c]| > 0 && |cls[d]| > 0 ==> cls[c][0] < cls[d][0]
  }

  lemma PlaceKeepsOrder(dist: Matrix, cutoff: real, cls: Clusters, i: nat, r: Clusters)
    requires Square(dist) && i < |dist| && Below(cls, i) && NonEmpty(cls)
    requires r == Place(dist, cutoff, cls, i)
    ensures Admitted(dist, cutoff, cls) && HeadsIncrease(cls) ==> Admitted(dist, cutoff, r) && HeadsIncrease(r)
  {
    if !(Admitted(dist, cutoff, cls) && HeadsIncrease(cls)) {
      return;
    }
    var c := FirstAdmitting(dist, cutoff, cls, i, 0);
    if c < |cls| {
      forall d, p, q | 0 <= d < |r| && 0 <= p < q < |r[d]|
        ensures r[d][p] < r[d][q] && dist[r[d][q]][r[d][p]] < cutoff
      {
        if d == c && q == |cls[c]| {
          assert r[d][q] == i && r[d][p] == cls[c][p];
        }
      }
      assert forall d :: 0 <= d < |r| ==> r[d][0] == cls[d][0];
    } else {
      assert forall d :: 0 <= d < |cls| ==> r[d][0] == cls[d][0];
    }
  }

  lemma {:induction false} GroupIsOrdered(dist: Matrix, cutoff: real, k: nat, cls: Clusters)
    requires Square(dist) && k <= |dist| && cls == Group(dist, cutoff, k)
    ensures Admitted(dist, cutoff, cls) && HeadsIncrease(cls)
  {
    if k > 0 {
      var prev := Group(dist, cutoff, k - 1);
      PlaceKeepsOrder(dist, cutoff, prev, k - 1, cls);
      GroupIsOrdered(dist, cutoff, k - 1, prev);
    }
  }

  /**
   * Admission: within a group the members are increasing, and every later
   * member is strictly within the cutoff of every earlier member (the entry
   * read is `[later, earlier]`). The groups are ordered by their smallest
   * member, which is their first.
   */
  lemma GreedyIsOrdered(dist: Matrix, cutoff: real)
    requires Square(dist)
    ensures Admitted(dist, cutoff, Greedy(dist, cutoff))
    ensures HeadsIncrease(Greedy(dist, cutoff))
  {
    GroupIsOrdered(dist, cutoff, |dist|, Greedy(dist, cutoff));
  }

  // ---------------------------------------------------------------- first fit

  /**
   * Group `members` refuses `j`: it holds an index smaller than `j` whose
   * distance to `j` is not below the cutoff.
   */
  ghost predicate RefusedBy(dist: Matrix, cutoff: real, members: seq<nat>, j: nat)
    requires Square(dist) && j < |dist|
    requires forall p :: 0 <= p < |members| ==> members[p] < |dist|
  {
    exists p :: 0 <= p < |members| && members[p] < j && dist[j][members[p]] >= cutoff
  }

  /** Every member of a group was refused by each group opened before it. */
  ghost predicate FirstFit(dist: Matrix, cutoff: real, cls: Clusters)
    requires Square(dist) && Below(cls, |dist|)
  {
    forall c, q, d :: 0 <= d < c < |cls| && 0 <= q < |cls[c]| ==> RefusedBy(dist, cutoff, cls[d], cls[c][q])
  }

  /** A group that does not admit `i`, all of whose members are below `i`, refuses `i`. */
  lemma NotAdmittedIsRefused(dist: Matrix, cutoff: real, members: seq<nat>, i: nat)
    requires Square(dist) && i < |dist|
    requires forall p :: 0 <= p < |members| ==> members[p] < i
    requires !Admits(dist, cutoff, members, i)
    ensures RefusedBy(dist, cutoff, members, i)
  {
    var p :| 0 <= p < |members| && !(dist[i][members[p]] < cutoff);
  }

  /** Appending to a group keeps every refusal it made. */
  lemma RefusalSurvivesAppend(dist: Matrix, cutoff: real, members: seq<nat>, i: nat, j: nat)
    requires Square(dist) && j < |dist| && i < |dist|
    requires forall p :: 0 <= p < |members| ==> members[p] < |dist|
    requires RefusedBy(dist, cutoff, members, j)
    ensures RefusedBy(dist, cutoff, members + [i], j)
  {
    var p :| 0 <= p < |members| && members[p] < j && dist[j][members[p]] >= cutoff;
    assert (members + [i])[p] == members[p];
  }

  lemma PlaceKeepsFirstFit(dist: Matrix, cutoff: real, cls: Clusters, i: nat, r: Clusters)
    requires Square(dist) && i < |dist| && Below(cls, i) && NonEmpty(cls)
    requires r == Place(dist, cutoff, cls, i)
    ensures FirstFit(dist, cutoff, cls) ==> FirstFit(dist, cutoff, r)
  {
    if !FirstFit(dist, cutoff, cls) {
      return;
    }
    var c0 := FirstAdmitting(dist, cutoff, cls, i, 0);
    forall c, q, d | 0 <= d < c < |r| && 0 <= q < |r[c]|
      ensures RefusedBy(dist, cutoff, r[d], r[c][q])
    {
      var j := r[c][q];
      if c < |cls| && q < |cls[c]| {
        // an earlier member: group d already refused it
        assert j == cls[c][q];
        assert RefusedBy(dist, cutoff, cls[d], j);
        if d == c0 {
          RefusalSurvivesAppend(dist, cutoff, cls[d], i, j);
        }
      } else {
        // the new member i: group d came before the first admitting group
        assert j == i && d < c0;
        NotAdmittedIsRefused(dist, cutoff, cls[d], i);
      }
    }
  }

  lemma {:induction false} GroupIsFirstFit(dist: Matrix, cutoff: real, k: nat, cls: Clusters)
    requires Square(dist) && k <= |dist| && cls == Group(dist, cutoff, k)
    ensures FirstFit(dist, cutoff, cls)
  {
    if k > 0 {
      var prev := Group(dist, cutoff, k - 1);
      PlaceKeepsFirstFit(dist, cutoff, prev, k - 1, cls);
      GroupIsFirstFit(dist, cutoff, k - 1, prev);
    }
  }

  /**
   * First fit: an index sits in the first group, in opening order, that
   * admitted it; each earlier group holds a smaller index at a distance not
   * below the cutoff.
   */
  lemma GreedyIsFirstFit(dist: Matrix, cutoff: real)
    requires Square(dist)
    ensures FirstFit(dist, cutoff, Greedy(dist, cutoff))
  {
    GroupIsFirstFit(dist, cutoff, |dist|, Greedy(dist, cutoff));
  }

  // ---------------------------------------------------------------- extremes

  /** The singletons `[0], [1], ..., [k-1]`. */
  function Singletons(k: nat): (r: Clusters)
    ensures |r| == k && forall i :: 0 <= i < k ==> r[i] == [i]
  {
    seq(k, i => [i])
  }

  /** The single group `[0, 1, ..., k-1]`. */
  function Range(k: nat): (r: seq<nat>)
    ensures |r| == k && forall i :: 0 <= i < k ==> r[i] == i
  {
    seq(k, i => i)
  }

  /**
   * When no entry below the diagonal is under the cutoff, every molecule
   * is its own group.
   */
  lemma {:induction false} GroupAllApart(dist: Matrix, cutoff: real, k: nat)
    requires Square(dist) && k <= |dist|
    requires forall i, j :: 0 <= j < i < |dist| ==> dist[i][j] >= cutoff
    ensures Group(dist, cutoff, k) == Singletons(k)
  {
    if k > 0 {
      GroupAllApart(dist, cutoff, k - 1);
      var prev := Singletons(k - 1);
      forall d | 0 <= d < |prev| ensures !Admits(dist, cutoff, prev[d], k - 1) {
        assert prev[d][0] == d && dist[k - 1][d] >= cutoff;
      }
      assert Group(dist, cutoff, k) == prev + [[k - 1]];
    }
  }

  /**
   * When every entry below the diagonal is under the cutoff, all molecules
   * form one group.
   */
  lemma {:induction false} GroupAllClose(dist: Matrix, cutoff: real, k: nat)
    requires Square(dist) && 0 < k <= |dist|
    requires forall i, j :: 0 <= j < i < |dist| ==> dist[i][j] < cutoff
    ensures Group(dist, cutoff, k) == [Range(k)]
  {
    if k > 1 {
      GroupAllClose(dist, cutoff, k - 1);
      var prev := [Range(k - 1)];
      assert Admits(dist, cutoff, prev[0], k - 1);
      assert FirstAdmitting(dist, cutoff, prev, k - 1, 0) == 0;
      assert Place(dist, cutoff, prev, k - 1) == [Range(k - 1) + [k - 1]];
      assert Group(dist, cutoff, k) == [Range(k - 1) + [k - 1]];
      assert Range(k - 1) + [k - 1] == Range(k);
    } else {
      assert Group(dist, cutoff, 1) == [[0]];
      assert Range(1) == [0];
    }
  }

  /** The two extreme outcomes of `cluster` on a whole matrix. */
  lemma GreedyExtremes(dist: Matrix, cutoff: real)
    requires Square(dist)
    ensures (forall i, j :: 0 <= j < i < |dist| ==> dist[i][j] >= cutoff) ==>
      Greedy(dist, cutoff) == Singletons(|dist|)
    ensures |dist| > 0 && (forall i, j :: 0 <= j < i < |dist| ==> dist[i][j] < cutoff) ==>
      Greedy(dist, cutoff) == [Range(|dist|)]
  {
    if forall i, j :: 0 <= j < i < |dist| ==> dist[i][j] >= cutoff {
      GroupAllApart(dist, cutoff, |dist|);
    }
    if |dist| > 0 && forall i, j :: 0 <= j < i < |dist| ==> dist[i][j] < cutoff {
      GroupAllClose(dist, cutoff, |dist|);
    }
  }
}
