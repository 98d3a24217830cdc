/**
 * Square distance matrices, the list of unordered index pairs
 * (`itertools.combinations(range(n), 2)`), the strict upper triangle
 * (`matrix[np.triu_indices(n, k=1)]`) and `Cluster.matrix_stat`.
 */
module Matrices {

  /** A matrix as a list of rows. */
  type Matrix = seq<seq<real>>

  /** An `n x n` matrix. */
  predicate Square(m: Matrix) {
    forall i :: 0 <= i < |m| ==> |m[i]| == |m|
  }

  /** Lexicographic order on index pairs. */
  predicate Before(p: (nat, nat), q: (nat, nat)) {
    p.0 < q.0 || (p.0 == q.0 && p.1 < q.1)
  }

  /** The pairs `(i, j), (i, j + 1), ..., (i, n - 1)`. */
  function Row(i: nat, j: nat, n: nat): (r: seq<(nat, nat)>)
    requires j <= n
    ensures |r| == n - j
    ensures forall k :: 0 <= k < |r| ==> r[k] == (i, j + k)
    decreases n - j
  {
    if j == n then [] else [(i, j)] + Row(i, j + 1, n)
  }

  /**
   * The pairs `(a, b)` with `i <= a < b < n`, row after row: the order in
   * which `itertools.combinations` yields them.
   */
  function PairsFrom(i: nat, n: nat): (r: seq<(nat, nat)>)
    requires i <= n
    ensures 2 * |r| == (n - i) * (n - i - 1)
    ensures forall k :: 0 <= k < |r| ==> i <= r[k].0 < r[k].1 < n
    decreases n - i
  {
    if i == n then [] else Row(i, i + 1, n) + PairsFrom(i + 1, n)
  }

  /** All unordered pairs of `0 .. n-1`. */
  function Pairs(n: nat): (r: seq<(nat, nat)>)
    ensures |r| == n * (n - 1) / 2
    ensures forall k :: 0 <= k < |r| ==> r[k].0 < r[k].1 < n
  {
    PairsFrom(0, n)
  }

  lemma {:induction false} PairsFromOrdered(i: nat, n: nat)
    requires i <= n
    ensures forall k, l :: 0 <= k < l < |PairsFrom(i, n)| ==> Before(PairsFrom(i, n)[k], PairsFrom(i, n)[l])
    decreases n - i
  {
    if i < n {
      var row, rest := Row(i, i + 1, n), PairsFrom(i + 1, n);
      var ps := PairsFrom(i, n);
      assert ps == row + rest;
      PairsFromOrdered(i + 1, n);
      forall k, l | 0 <= k < l < |ps| ensures Before(ps[k], ps[l]) {
        if l < |row| {
          assert ps[k] == row[k] && ps[l] == row[l];
        } else if k < |row| {
          assert ps[k] == row[k] && ps[l] == rest[l - |row|];
        } else {
          assert ps[k] == rest[k - |row|] && ps[l] == rest[l - |row|];
        }
      }
    }
  }

  /** The pairs come in lexicographic order, so none is listed twice. */
  lemma PairsOrdered(n: nat)
    ensures forall k, l :: 0 <= k < l < |Pairs(n)| ==> Before(Pairs(n)[k], Pairs(n)[l])
    ensures forall k, l :: 0 <= k < |Pairs(n)| && 0 <= l < |Pairs(n)| && k != l ==> Pairs(n)[k] != Pairs(n)[l]
  {
    PairsFromOrdered(0, n);
    var ps := Pairs(n);
    forall k, l | 0 <= k < |ps| && 0 <= l < |ps| && k != l ensures ps[k] != ps[l] {
      if k < l { assert Before(ps[k], ps[l]); } else { assert Before(ps[l], ps[k]); }
    }
  }

  /** Every pair `a < b` below `n` from row `i` on is enumerated, at position `k`. */
  lemma {:induction false} PairsFromIndex(i: nat, n: nat, a: nat, b: nat) returns (k: nat)
    requires i <= a < b < n
    ensures k < |PairsFrom(i, n)| && PairsFrom(i, n)[k] == (a, b)
    decreases n - i
  {
    var row, rest := Row(i, i + 1, n), PairsFrom(i + 1, n);
    assert PairsFrom(i, n) == row + rest;
    if a == i {
      k := b - i - 1;
      assert row[k] == (a, b);
    } else {
      var k' := PairsFromIndex(i + 1, n, a, b);
      k := |row| + k';
      assert (row + rest)[k] == rest[k'];
    }
  }

  /** Every pair `i < j` below `n` is enumerated, at position `k`. */
  lemma PairIndex(n: nat, i: nat, j: nat) returns (k: nat)
    requires i < j < n
    ensures k < |Pairs(n)| && Pairs(n)[k] == (i, j)
  {
    k := PairsFromIndex(0, n, i, j);
  }

  /** The pair list holds exactly the pairs `i < j < n`, with no repetition. */
  lemma PairsExactly(n: nat)
    ensures forall i, j :: 0 <= i < j < n ==> (i, j) in Pairs(n)
    ensures forall k, l :: 0 <= k < |Pairs(n)| && 0 <= l < |Pairs(n)| && k != l ==> Pairs(n)[k] != Pairs(n)[l]
  {
    forall i, j | 0 <= i < j < n ensures (i, j) in Pairs(n) {
      var k := PairIndex(n, i, j);
    }
    PairsOrdered(n);
  }

  /** The strict upper triangle of rows `i ..` of `m`, read row by row. */
  function UpperFrom(m: Matrix, i: nat): (r: seq<real>)
    requires Square(m) && i <= |m|
    ensures |r| == |PairsFrom(i, |m|)|
    decreases |m| - i
  {
    if i == |m| then [] else m[i][i + 1..] + UpperFrom(m, i + 1)
  }

  /** `matrix[np.triu_indices(n, k=1)]`. */
  function UpperTriangle(m: Matrix): (r: seq<real>)
    requires Square(m)
    ensures |r| == |m| * (|m| - 1) / 2
  {
    UpperFrom(m, 0)
  }

  /**
   * numpy's upper-triangle order is the order of the pair list: the k-th
   * value read is the entry at the k-th pair.
   */
  lemma {:induction false} UpperFromFollowsPairs(m: Matrix, i: nat)
    requires Square(m) && i <= |m|
    ensures forall k :: 0 <= k < |UpperFrom(m, i)| ==>
      UpperFrom(m, i)[k] == m[PairsFrom(i, |m|)[k].0][PairsFrom(i, |m|)[k].1]
    decreases |m| - i
  {
    if i < |m| {
      UpperFromFollowsPairs(m, i + 1);
      var row, rest := Row(i, i + 1, |m|), PairsFrom(i + 1, |m|);
      var ps := PairsFrom(i, |m|);
      var u := UpperFrom(m, i);
      assert u == m[i][i + 1..] + UpperFrom(m, i + 1);
      assert ps == row + rest;
      forall k | 0 <= k < |u|
        ensures u[k] == m[ps[k].0][ps[k].1]
      {
        if k >= |row| {
          assert u[k] == UpperFrom(m, i + 1)[k - |row|];
        }
      }
    }
  }

  /** The upper triangle holds the entries at the pairs of `Pairs`, in that order. */
  lemma UpperTriangleFollowsPairs(m: Matrix)
    requires Square(m)
    ensures |UpperTriangle(m)| == |Pairs(|m|)|
    ensures forall k :: 0 <= k < |Pairs(|m|)| ==>
      UpperTriangle(m)[k] == m[Pairs(|m|)[k].0][Pairs(|m|)[k].1]
  {
    UpperFromFollowsPairs(m, 0);
  }

  /**
   * Entry `[i, j]` of a zero matrix after `vals[k]` has been written at
   * `pairs[k]` for each `k` in order: the last write to `[i, j]` wins.
   */
  function Written(pairs: seq<(nat, nat)>, vals: seq<real>, i: int, j: int): real
    requires |pairs| == |vals|
  {
    if pairs == [] then 0.0
    else if pairs[|pairs| - 1] == (i, j) then vals[|vals| - 1]
    else Written(pairs[..|pairs| - 1], vals[..|vals| - 1], i, j)
  }

  /** `m = np.zeros((n, n))`, `m[pair] = val` for each pair, then `m += m.T`. */
  function Assemble(n: nat, pairs: seq<(nat, nat)>, vals: seq<real>): (m: Matrix)
    requires |pairs| == |vals|
    ensures Square(m) && |m| == n
  {
    seq(n, i => seq(n, j => Written(pairs, vals, i, j) + Written(pairs, vals, j, i)))
  }

  /**
   * The numpy steps themselves: a zero `n x n` array, one write per pair,
   * then the array plus its transpose. The in-place `m += m.T` reads its
   * transposed operand before any entry is overwritten, as numpy does from
   * version 1.13 on, when it detects that the operand overlaps the target.
   */
  method AssembleMatrix(n: nat, pairs: seq<(nat, nat)>, vals: seq<real>) returns (r: Matrix)
    requires |pairs| == |vals|
    requires forall k :: 0 <= k < |pairs| ==> pairs[k].0 < n && pairs[k].1 < n
    ensures r == Assemble(n, pairs, vals)
  {
    var m := new real[n, n]((i, j) => 0.0);
    for k := 0 to |pairs|
      invariant forall i, j :: 0 <= i < n && 0 <= j < n ==> m[i, j] == Written(pairs[..k], vals[..k], i, j)
    {
      m[pairs[k].0, pairs[k].1] := vals[k];
      assert pairs[..k + 1][..k] == pairs[..k] && vals[..k + 1][..k] == vals[..k];
    }
    assert pairs[..|pairs|] == pairs && vals[..|vals|] == vals;
    r := seq(n, i requires 0 <= i < n reads m => seq(n, j requires 0 <= j < n reads m => m[i, j] + m[j, i]));
    ghost var spec := Assemble(n, pairs, vals);
    forall i | 0 <= i < n ensures r[i] == spec[i] {
      assert forall j :: 0 <= j < n ==> r[i][j] == spec[i][j];
    }
  }

  /**
   * With no pair listed twice, each listed pair holds its own value and
   * every other entry keeps its zero.
   */
  lemma {:induction false} WrittenOnce(pairs: seq<(nat, nat)>, vals: seq<real>)
    requires |pairs| == |vals|
    requires forall k, l :: 0 <= k < l < |pairs| ==> pairs[k] != pairs[l]
    ensures forall k :: 0 <= k < |pairs| ==> Written(pairs, vals, pairs[k].0, pairs[k].1) == vals[k]
    ensures forall i, j :: (i, j) !in pairs ==> Written(pairs, vals, i, j) == 0.0
  {
    if pairs != [] {
      var last := |pairs| - 1;
      var ps, vs := pairs[..last], vals[..last];
      WrittenOnce(ps, vs);
      forall k | 0 <= k < |pairs| ensures Written(pairs, vals, pairs[k].0, pairs[k].1) == vals[k] {
        if k < last {
          assert pairs[k] == ps[k] && vals[k] == vs[k];
        }
      }
      forall i, j | (i, j) !in pairs ensures Written(pairs, vals, i, j) == 0.0 {
        assert (i, j) !in ps;
      }
    }
  }

  /**
   * The assembled matrix is exactly symmetric with a zero diagonal, and
   * holds each pair's value at `[i, j]` and at `[j, i]`.
   */
  lemma AssembleShape(n: nat, vals: seq<real>)
    requires |vals| == |Pairs(n)|
    ensures var m := Assemble(n, Pairs(n), vals);
      && (forall i :: 0 <= i < n ==> m[i][i] == 0.0)
      && (forall i, j :: 0 <= i < n && 0 <= j < n ==> m[i][j] == m[j][i])
      && (forall k :: 0 <= k < |vals| ==>
            m[Pairs(n)[k].0][Pairs(n)[k].1] == vals[k] && m[Pairs(n)[k].1][Pairs(n)[k].0] == vals[k])
  {
    var ps := Pairs(n);
    var m := Assemble(n, ps, vals);
    PairsExactly(n);
    WrittenOnce(ps, vals);
    forall i, j | 0 <= i <= j < n ensures Written(ps, vals, j, i) == 0.0 {
      assert (j, i) !in ps;
    }
    forall k | 0 <= k < |vals|
      ensures m[ps[k].0][ps[k].1] == vals[k] && m[ps[k].1][ps[k].0] == vals[k]
    {
      var (i, j) := ps[k];
      assert Written(ps, vals, j, i) == 0.0;
    }
  }

  /** Above the diagonal, entry `[i, j]` is the value of the pair `(i, j)`, found at position `k` of the pair list. */
  lemma AssembleAbove(n: nat, vals: seq<real>, i: nat, j: nat) returns (k: nat)
    requires |vals| == |Pairs(n)| && i < j < n
    ensures k < |vals| && Pairs(n)[k] == (i, j)
    ensures Assemble(n, Pairs(n), vals)[i][j] == vals[k]
  {
    k := PairIndex(n, i, j);
    AssembleShape(n, vals);
  }

  /**
   * `Cluster.matrix_stat`: `(0.0, 0.0)` for a matrix of size 1; otherwise
   * the mean and the standard deviation that `stats` (numpy's `mean` and
   * `std`) compute over the strict upper triangle.
   */
  function MatrixStat(m: Matrix, stats: seq<real> -> (real, real)): (r: (real, real))
    requires Square(m)
    ensures |m| == 1 ==> r == (0.0, 0.0)
    ensures |m| != 1 ==>
      exists u ::
        && |u| == |m| * (|m| - 1) / 2
        && r == stats(u)
        && forall k :: 0 <= k < |u| ==> u[k] == m[Pairs(|m|)[k].0][Pairs(|m|)[k].1]
  {
    if |m| * |m| == 1 then (0.0, 0.0)
    else
      UpperTriangleFollowsPairs(m);
      stats(UpperTriangle(m))
  }
}
