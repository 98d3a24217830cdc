/**
 * Reordering the atoms of one molecule to match another, and the RMSD
 * between two molecules (`Cluster.reorder`, `Cluster.rmsd`).
 *
 * The atom-matching strategies and the optimal-superposition distance are
 * routines of the `rmsd` library; they enter the model as the two fields of
 * an `RmsdLib` value. The one failure of the distance that the model keeps
 * is numpy's: `kabsch_rmsd` multiplies the transposed coordinates of one
 * molecule by those of the other, which raises ValueError when the two
 * have different numbers of rows.
 */
module Alignment {
  import opened Structures

  /** The library's reorder routines. */
  datatype Strategy = Hungarian | InertiaHungarian | Brute | Distance

  /**
   * `reorder(strategy, reference, target)` is the index array the library
   * returns for `(reference atoms, target atoms, reference coords, target
   * coords)`; `kabsch(p, q)` is its RMSD after optimal superposition of
   * two coordinate arrays of equal length.
   */
  datatype RmsdLib = RmsdLib(
    reorder: (Strategy, Molecule, Molecule) -> seq<int>,
    kabsch: (seq<Vec3>, seq<Vec3>) -> real)

  /** The class-level name table, spelling of the keys included. */
  const REORDER_METHODS: map<string, Strategy> := map[
    "hungarian" := Hungarian,
    "intertia-hungarian" := InertiaHungarian,
    "brute" := Brute,
    "distance" := Distance]

  /**
   * Molecule 2 with its atoms and its coordinates both indexed by the one
   * index array the named strategy returns; an unknown name raises before
   * any strategy runs.
   */
  function Reorder(m1: Molecule, m2: Molecule, name: string, lib: RmsdLib): (r: Result<Molecule>)
    ensures r == Err(UnknownReorderMethod) <==> name !in REORDER_METHODS
    ensures name in REORDER_METHODS ==>
      var ndx := lib.reorder(REORDER_METHODS[name], m1, m2);
      && (r.Ok? <==> InBounds(ndx, |m2.atoms|) && InBounds(ndx, |m2.coords|))
      && (r.Ok? ==>
            Some(r.value.atoms) == Select(m2.atoms, ndx) && Some(r.value.coords) == Select(m2.coords, ndx))
  {
    if name !in REORDER_METHODS then Err(UnknownReorderMethod)
    else
      var ndx := lib.reorder(REORDER_METHODS[name], m1, m2);
      match (Select(m2.atoms, ndx), Select(m2.coords, ndx))
      case (Some(atoms), Some(coords)) => Ok(Molecule(atoms, coords))
      case _ => Err(IndexError)
  }

  /**
   * A reordered molecule keeps every atom with its own coordinate row: the
   * k-th (atom, coordinate) pair of the result is one pair of molecule 2,
   * and the result is again well formed.
   */
  lemma ReorderKeepsAtomsWithCoords(m1: Molecule, m2: Molecule, name: string, lib: RmsdLib)
    requires m2.WellFormed()
    ensures Reorder(m1, m2, name, lib).Ok? ==>
      var m := Reorder(m1, m2, name, lib).value;
      && m.WellFormed()
      && forall k :: 0 <= k < |m.atoms| ==>
           exists p :: 0 <= p < |m2.atoms| && m.atoms[k] == m2.atoms[p] && m.coords[k] == m2.coords[p]
  {
    var r := Reorder(m1, m2, name, lib);
    if r.Ok? {
      var ndx := lib.reorder(REORDER_METHODS[name], m1, m2);
      var m := r.value;
      forall k | 0 <= k < |m.atoms|
        ensures exists p :: 0 <= p < |m2.atoms| && m.atoms[k] == m2.atoms[p] && m.coords[k] == m2.coords[p]
      {
        var p := Wrap(ndx[k], |m2.atoms|).value;
        assert m.atoms[k] == m2.atoms[p] && m.coords[k] == m2.coords[p];
      }
    }
  }

  /**
   * The table's key is spelled "intertia-hungarian": the name
   * "inertia-hungarian" that the help text of the command line uses is
   * rejected like any other unknown name.
   */
  lemma InertiaSpelling(m1: Molecule, m2: Molecule, lib: RmsdLib)
    ensures Reorder(m1, m2, "intertia-hungarian", lib).Err? ==>
      Reorder(m1, m2, "intertia-hungarian", lib).error == IndexError
    ensures Reorder(m1, m2, "inertia-hungarian", lib) == Err(UnknownReorderMethod)
  {
    assert "inertia-hungarian" !in REORDER_METHODS by {
      assert "inertia-hungarian" != "intertia-hungarian" by {
        assert "inertia-hungarian"[3] != "intertia-hungarian"[3];
      }
    }
  }

  /** `rmsd.kabsch_rmsd(p, q)`: a distance for arrays of equal length, numpy's ValueError otherwise. */
  function KabschRmsd(p: seq<Vec3>, q: seq<Vec3>, lib: RmsdLib): Result<real> {
    if |p| == |q| then Ok(lib.kabsch(p, q)) else Err(ShapeMismatch)
  }

  /**
   * The RMSD between two molecules: with no reorder method the coordinates
   * are compared as they are; otherwise molecule 2 is first reordered, and
   * any error of the reordering is the error of the call. The distance
   * itself fails exactly when the coordinates compared differ in length.
   */
  function Rmsd(m1: Molecule, m2: Molecule, reorderMethod: Option<string>, lib: RmsdLib): (r: Result<real>)
    ensures reorderMethod.None? ==>
      && (r.Ok? <==> |m1.coords| == |m2.coords|)
      && (r.Ok? ==> r.value == lib.kabsch(m1.coords, m2.coords))
    ensures reorderMethod.Some? ==>
      var m := Reorder(m1, m2, reorderMethod.value, lib);
      && (m.Err? ==> r == Err(m.error))
      && (m.Ok? ==> (r.Ok? <==> |m1.coords| == |m.value.coords|))
      && (m.Ok? && r.Ok? ==> r.value == lib.kabsch(m1.coords, m.value.coords))
  {
    match reorderMethod
    case None => KabschRmsd(m1.coords, m2.coords, lib)
    case Some(name) =>
      match Reorder(m1, m2, name, lib)
      case Err(e) => Err(e)
      case Ok(m) => KabschRmsd(m1.coords, m.coords, lib)
  }

  /**
   * What decides whether the call fails: without a reorder method only
   * coordinates of different lengths make it fail, and an unknown name
   * always fails with the reorder's ValueError whatever the molecules are.
   */
  lemma RmsdFailure(m1: Molecule, m2: Molecule, reorderMethod: Option<string>, lib: RmsdLib)
    ensures reorderMethod.None? ==> (Rmsd(m1, m2, reorderMethod, lib).Ok? <==> |m1.coords| == |m2.coords|)
    ensures reorderMethod.Some? && reorderMethod.value !in REORDER_METHODS ==>
      Rmsd(m1, m2, reorderMethod, lib) == Err(UnknownReorderMethod)
    ensures Rmsd(m1, m2, reorderMethod, lib).Err? && Rmsd(m1, m2, reorderMethod, lib).error != ShapeMismatch ==>
      reorderMethod.Some?
  {
  }
}
