/**
 * The `Cluster` class of rmsd_clustering.py: two parallel lists, one
 * molecule and one title per entry, the distance matrix over the
 * molecules, the greedy grouping, sub-collections, reading an xyz file,
 * and the loop of `main` that searches for a cutoff giving a requested
 * number of groups.
 */
module Clustering {
  import opened Structures
  import opened Alignment
  import opened Matrices
  import opened Grouping
  import opened XyzFormat
  import opened CutoffSearch

  class Cluster {
    /** One `(atoms, coordinates)` pair per molecule. */
    var molecs: seq<Molecule>
    /** One title per molecule. */
    var titles: seq<string>

    /** The two lists describe the same molecules. */
    predicate Lockstep()
      reads this
    {
      |molecs| == |titles|
    }

    constructor ()
      ensures molecs == [] && titles == []
    {
      molecs := [];
      titles := [];
    }

    // ------------------------------------------------------------ properties

    /** `n_molecs`: the number of molecules, which is also the length of `atoms`, of `coords` and of the titles. */
    function NMolecs(): (r: nat)
      reads this
      ensures r == |Atoms()| && r == |Coords()|
      ensures Lockstep() ==> r == |titles|
    {
      |molecs|
    }

    /** `atoms`: the atom list of every molecule. */
    function Atoms(): (r: seq<seq<Atom>>)
      reads this
      ensures |r| == |molecs|
      ensures forall k :: 0 <= k < |r| ==> r[k] == molecs[k].atoms
    {
      var ms := molecs;
      seq(|ms|, k requires 0 <= k < |ms| => ms[k].atoms)
    }

    /** `coords`: the coordinate list of every molecule. */
    function Coords(): (r: seq<seq<Vec3>>)
      reads this
      ensures |r| == |molecs|
      ensures forall k :: 0 <= k < |r| ==> r[k] == molecs[k].coords
    {
      var ms := molecs;
      seq(|ms|, k requires 0 <= k < |ms| => ms[k].coords)
    }

    /** `n_atoms`: the atom count of the first molecule, an IndexError when there is none. */
    function NAtoms(): (r: Result<nat>)
      reads this
      ensures r.Ok? <==> NMolecs() > 0
      ensures r.Ok? ==> r.value == |Atoms()[0]|
      ensures r.Err? ==> r.error == IndexError
    {
      if |molecs| == 0 then Err(IndexError) else Ok(|molecs[0].atoms|)
    }

    /** `atoms` and `coords` split the molecules into two parallel lists that rebuild them. */
    lemma AtomsCoordsRebuild()
      ensures |Atoms()| == |Coords()| == NMolecs()
      ensures forall k :: 0 <= k < NMolecs() ==> molecs[k] == Molecule(Atoms()[k], Coords()[k])
    {
    }

    // ------------------------------------------------------- pairwise distance

    /**
     * `rmsd_ndx`: the RMSD between the entries at two list indices, read
     * with Python's indexing (negative indices count from the end). It is a
     * function of the state: computing a distance never changes the
     * molecules, which the source ensures by working on deep copies.
     */
    function RmsdNdx(ndx1: int, ndx2: int, reorderMethod: Option<string>, lib: RmsdLib): (r: Result<real>)
      reads this
      ensures !(-|molecs| <= ndx1 < |molecs| && -|molecs| <= ndx2 < |molecs|) ==> r == Err(IndexError)
      ensures 0 <= ndx1 < |molecs| && 0 <= ndx2 < |molecs| ==>
        r == Rmsd(molecs[ndx1], molecs[ndx2], reorderMethod, lib)
    {
      match (Wrap(ndx1, |molecs|), Wrap(ndx2, |molecs|))
      case (Some(p), Some(q)) => Rmsd(molecs[p], molecs[q], reorderMethod, lib)
      case _ => Err(IndexError)
    }

    /** Index `k - n` names the same molecule as index `k`, in either position. */
    lemma RmsdNdxFromEnd(i: nat, j: nat, reorderMethod: Option<string>, lib: RmsdLib)
      requires i < |molecs| && j < |molecs|
      ensures RmsdNdx(i - |molecs|, j, reorderMethod, lib) == RmsdNdx(i, j, reorderMethod, lib)
      ensures RmsdNdx(i, j - |molecs|, reorderMethod, lib) == RmsdNdx(i, j, reorderMethod, lib)
    {
    }

    /**
     * `pool.starmap(self.rmsd_ndx, ...)` over a list of pairs, taken in
     * order: one distance per pair, or the error of the first pair that
     * fails.
     */
    function PairDistances(pairs: seq<(nat, nat)>, reorderMethod: Option<string>, lib: RmsdLib): (r: Result<seq<real>>)
      reads this
      ensures r.Ok? <==> forall k :: 0 <= k < |pairs| ==> RmsdNdx(pairs[k].0, pairs[k].1, reorderMethod, lib).Ok?
      ensures r.Ok? ==> |r.value| == |pairs|
      ensures r.Ok? ==> forall k :: 0 <= k < |pairs| ==> RmsdNdx(pairs[k].0, pairs[k].1, reorderMethod, lib) == Ok(r.value[k])
      ensures r.Err? ==> exists k :: 0 <= k < |pairs| && RmsdNdx(pairs[k].0, pairs[k].1, reorderMethod, lib) == Err(r.error)
    {
      if pairs == [] then Ok([])
      else
        match RmsdNdx(pairs[0].0, pairs[0].1, reorderMethod, lib)
        case Err(e) => Err(e)
        case Ok(v) =>
          match PairDistances(pairs[1..], reorderMethod, lib)
          case Err(e) => Err(e)
          case Ok(vs) => Ok([v] + vs)
    }

    /**
     * What `rmsd_matrix` returns: the error of the first failing pair, or
     * the pair distances assembled into an `n x n` matrix.
     */
    function DistanceMatrix(reorderMethod: Option<string>, lib: RmsdLib): (r: Result<Matrix>)
      reads this
      ensures r.Ok? ==> Square(r.value) && |r.value| == |molecs|
    {
      var n := |molecs|;
      match PairDistances(Pairs(n), reorderMethod, lib)
      case Err(e) => Err(e)
      case Ok(vals) => Ok(Assemble(n, Pairs(n), vals))
    }

    /**
     * The matrix is exactly symmetric with a zero diagonal, and above the
     * diagonal it holds `rmsd_ndx(i, j)`, computed for `i < j` only.
     */
    lemma DistanceMatrixShape(reorderMethod: Option<string>, lib: RmsdLib)
      ensures DistanceMatrix(reorderMethod, lib).Ok? ==>
        var m := DistanceMatrix(reorderMethod, lib).value;
        && (forall i :: 0 <= i < |m| ==> m[i][i] == 0.0)
        && (forall i, j :: 0 <= i < |m| && 0 <= j < |m| ==> m[i][j] == m[j][i])
        && (forall i, j :: 0 <= i < j < |m| ==> RmsdNdx(i, j, reorderMethod, lib) == Ok(m[i][j]))
    {
      var n := |molecs|;
      var ps := Pairs(n);
      var d := PairDistances(ps, reorderMethod, lib);
      if d.Ok? {
        var m := Assemble(n, ps, d.value);
        assert DistanceMatrix(reorderMethod, lib) == Ok(m);
        AssembleShape(n, d.value);
        forall i, j | 0 <= i < j < n ensures RmsdNdx(i, j, reorderMethod, lib) == Ok(m[i][j]) {
          var k := AssembleAbove(n, d.value, i, j);
        }
      }
    }

    /** The matrix fails exactly when the distance of some pair `i < j` fails. */
    lemma DistanceMatrixFailure(reorderMethod: Option<string>, lib: RmsdLib)
      ensures DistanceMatrix(reorderMethod, lib).Err? <==>
        exists i, j :: 0 <= i < j < |molecs| && RmsdNdx(i, j, reorderMethod, lib).Err?
    {
      var n := |molecs|;
      var ps := Pairs(n);
      var d := PairDistances(ps, reorderMethod, lib);
      assert DistanceMatrix(reorderMethod, lib).Err? == d.Err?;
      if d.Err? {
        var k :| 0 <= k < |ps| && RmsdNdx(ps[k].0, ps[k].1, reorderMethod, lib) == Err(d.error);
        assert 0 <= ps[k].0 < ps[k].1 < n && RmsdNdx(ps[k].0, ps[k].1, reorderMethod, lib).Err?;
      }
      if exists i, j :: 0 <= i < j < n && RmsdNdx(i, j, reorderMethod, lib).Err? {
        var i, j :| 0 <= i < j < n && RmsdNdx(i, j, reorderMethod, lib).Err?;
        var k := PairIndex(n, i, j);
        assert !RmsdNdx(ps[k].0, ps[k].1, reorderMethod, lib).Ok?;
      }
    }

    /** Every two molecules have coordinate arrays of the same length. */
    ghost predicate SameLength()
      reads this
    {
      forall i, j :: 0 <= i < j < |molecs| ==> |molecs[i].coords| == |molecs[j].coords|
    }

    /**
     * The reorder method decides how the matrix can fail: without one it
     * fails exactly when two molecules differ in length, and an unknown
     * name fails with ValueError as soon as there are two molecules.
     */
    lemma DistanceMatrixMethod(reorderMethod: Option<string>, lib: RmsdLib)
      ensures reorderMethod.None? ==> (DistanceMatrix(reorderMethod, lib).Ok? <==> SameLength())
      ensures reorderMethod.Some? && reorderMethod.value !in REORDER_METHODS && |molecs| >= 2 ==>
        DistanceMatrix(reorderMethod, lib) == Err(UnknownReorderMethod)
    {
      var n := |molecs|;
      var ps := Pairs(n);
      var d := PairDistances(ps, reorderMethod, lib);
      DistanceMatrixFailure(reorderMethod, lib);
      if reorderMethod.None? {
        forall i, j | 0 <= i < j < n
          ensures RmsdNdx(i, j, reorderMethod, lib).Ok? <==> |molecs[i].coords| == |molecs[j].coords|
        {
          RmsdFailure(molecs[i], molecs[j], reorderMethod, lib);
        }
      }
      forall k | 0 <= k < |ps|
        ensures reorderMethod.Some? && reorderMethod.value !in REORDER_METHODS ==>
          RmsdNdx(ps[k].0, ps[k].1, reorderMethod, lib) == Err(UnknownReorderMethod)
      {
        RmsdFailure(molecs[ps[k].0], molecs[ps[k].1], reorderMethod, lib);
      }
      if reorderMethod.Some? && reorderMethod.value !in REORDER_METHODS && n >= 2 {
        var k := PairIndex(n, 0, 1);
        assert RmsdNdx(ps[k].0, ps[k].1, reorderMethod, lib).Err?;
        assert d.Err?;
      }
    }

    /**
     * `rmsd_matrix`: the pair distances are written at `[i, j]` of a zero
     * matrix, then the matrix is added to its transpose.
     */
    method RmsdMatrix(reorderMethod: Option<string>, lib: RmsdLib) returns (r: Result<Matrix>)
      ensures r == DistanceMatrix(reorderMethod, lib)
    {
      var n := |molecs|;
      var pairs := Pairs(n);
      var rmsds := PairDistances(pairs, reorderMethod, lib);
      if rmsds.Err? {
        assert DistanceMatrix(reorderMethod, lib) == Err(rmsds.error);
        return Err(rmsds.error);
      }
      var m := AssembleMatrix(n, pairs, rmsds.value);
      r := Ok(m);
    }

    // -------------------------------------------------------------- clustering

    /**
     * The loop of `cluster`: each index in turn joins the first group all of
     * whose members are within the cutoff, or opens a new group.
     */
    method GroupIndices(cutoff: real, dist: Matrix) returns (clusters: Clusters)
      requires Square(dist) && |molecs| <= |dist|
      ensures clusters == Group(dist, cutoff, |molecs|)
    {
      clusters := [];
      for i: nat := 0 to |molecs|
        invariant clusters == Group(dist, cutoff, i)
      {
        var c := 0;
        while c < |clusters|
          invariant c <= |clusters|
          invariant FirstAdmitting(dist, cutoff, clusters, i, c) == FirstAdmitting(dist, cutoff, clusters, i, 0)
        {
          if Admits(dist, cutoff, clusters[c], i) {
            break;
          }
          c := c + 1;
        }
        assert c == FirstAdmitting(dist, cutoff, clusters, i, 0);
        assert Group(dist, cutoff, i + 1) == Place(dist, cutoff, clusters, i);
        if c < |clusters| {
          clusters := clusters[c := clusters[c] + [i]];
        } else {
          clusters := clusters + [[i]];
        }
      }
    }

    /**
     * `cluster`: group over the given matrix, or over the one `rmsd_matrix`
     * computes, whose error is then the error of the call.
     */
    method MakeClusters(cutoff: real, reorderMethod: Option<string>, lib: RmsdLib, given: Option<Matrix>)
      returns (r: Result<Clusters>)
      requires given.Some? ==> Square(given.value) && |molecs| <= |given.value|
      ensures given.Some? ==> r == Ok(Group(given.value, cutoff, |molecs|))
      ensures given.None? ==>
        var d := DistanceMatrix(reorderMethod, lib);
        && (r.Err? <==> d.Err?)
        && (r.Err? ==> r.error == d.error)
        && (r.Ok? ==> r.value == Greedy(d.value, cutoff))
      ensures r.Ok? ==> IsPartition(r.value, |molecs|)
    {
      var dist: Matrix;
      if given.Some? {
        dist := given.value;
      } else {
        var m := RmsdMatrix(reorderMethod, lib);
        if m.Err? {
          return Err(m.error);
        }
        dist := m.value;
      }
      var clusters := GroupIndices(cutoff, dist);
      GroupIsPartition(dist, cutoff, |molecs|, clusters);
      r := Ok(clusters);
    }

    // ------------------------------------------------------ sub-collections

    /** `copy_ndx`: a new collection of the entries at the given indices, titles alongside. */
    method CopyNdx(ndx: seq<int>) returns (r: Result<Cluster>)
      ensures r.Ok? <==> InBounds(ndx, |molecs|) && InBounds(ndx, |titles|)
      ensures r.Err? ==> r.error == IndexError
      ensures r.Ok? ==> fresh(r.value)
      ensures r.Ok? ==> Some(r.value.molecs) == Select(molecs, ndx) && Some(r.value.titles) == Select(titles, ndx)
      ensures r.Ok? ==> |r.value.molecs| == |ndx| && r.value.Lockstep()
    {
      var ms := Select(molecs, ndx);
      if ms.None? {
        return Err(IndexError);
      }
      var ts := Select(titles, ndx);
      if ts.None? {
        return Err(IndexError);
      }
      var c := new Cluster();
      c.molecs := ms.value;
      c.titles := ts.value;
      r := Ok(c);
    }

    // ------------------------------------------------------------- reading

    /**
     * `read_xyz` over the lines of a file: one title and one molecule are
     * appended per record, and a count line with no title line after it
     * ends the loop with an IndexError, the records before it kept.
     */
    method ReadXyz(lines: seq<string>, asInt: bool, lib: XyzLib) returns (r: Result<()>)
      modifies this
      ensures molecs == old(molecs) + Frame(lines, 0, asInt, lib).molecs
      ensures titles == old(titles) + Frame(lines, 0, asInt, lib).titles
      ensures r.Ok? <==> Frame(lines, 0, asInt, lib).complete
      ensures r.Err? ==> r.error == IndexError
      ensures old(Lockstep()) ==> Lockstep()
    {
      var n := 0;
      while n < |lines|
        invariant molecs + Frame(lines, n, asInt, lib).molecs == old(molecs) + Frame(lines, 0, asInt, lib).molecs
        invariant titles + Frame(lines, n, asInt, lib).titles == old(titles) + Frame(lines, 0, asInt, lib).titles
        invariant Frame(lines, n, asInt, lib).complete == Frame(lines, 0, asInt, lib).complete
        decreases |lines| - n
      {
        if n + 1 >= |lines| {
          return Err(IndexError);
        }
        var title := Strip(lines[n + 1]);
        var molec := lib.parse(Block(lines, n, lib), asInt);
        FrameStepAppend(lines, n, asInt, lib, titles, molecs);
        titles := titles + [title];
        molecs := molecs + [molec];
        n := Next(lines, n, lib);
      }
      r := Ok(());
    }
  }

  /**
   * The `--n-clusters` check of `main`, over the matrix already computed:
   * a count above the number of molecules is refused before any
   * clustering; otherwise the cutoff is searched for.
   */
  method ClusterToCount(mol: Cluster, nClusters: int, cutoff: real, dist: Matrix, lib: RmsdLib, maxRounds: nat)
    returns (s: Search)
    requires Square(dist) && |dist| == |mol.molecs|
    ensures s == SearchCount(dist, nClusters, cutoff, maxRounds)
  {
    if nClusters > mol.NMolecs() {
      return TooManyRequested;
    }
    s := AdjustCutoff(mol, nClusters, cutoff, dist, lib, maxRounds);
  }

  /**
   * The loop of `main` after that check: cluster, and move the cutoff
   * until the count matches, for at most `maxRounds` changes.
   */
  method AdjustCutoff(mol: Cluster, nClusters: int, cutoff: real, dist: Matrix, lib: RmsdLib, maxRounds: nat)
    returns (s: Search)
    requires Square(dist) && |dist| == |mol.molecs|
    ensures s == Adapt(dist, nClusters, cutoff, maxRounds)
  {
    var c := cutoff;
    var rounds := maxRounds;
    var res := mol.MakeClusters(c, Some("brute"), lib, Some(dist));
    var clusters := res.value;
    while |clusters| != nClusters
      invariant clusters == Greedy(dist, c)
      invariant Adapt(dist, nClusters, c, rounds) == Adapt(dist, nClusters, cutoff, maxRounds)
      decreases rounds
    {
      if rounds == 0 {
        return GaveUp(clusters, c);
      }
      ghost var before := c;
      if |clusters| > nClusters {
        c := c + c * 0.5;
      } else {
        c := c - c * 0.5;
      }
      rounds := rounds - 1;
      AdaptStep(dist, nClusters, before, rounds + 1, c);
      res := mol.MakeClusters(c, Some("brute"), lib, Some(dist));
      clusters := res.value;
    }
    s := Converged(clusters, c);
  }
}
