/**
 * The values the clustering works on: molecules as parallel lists of atoms
 * and coordinates, the errors the class raises, and Python's rules for
 * reading a list (or a numpy array) at an integer index.
 */
module Structures {

  /** An atom as the structure reader delivers it: its atomic number, or its element symbol. */
  datatype Atom = Number(z: int) | Symbol(name: string)

  /** One row of a coordinate array. */
  datatype Vec3 = Vec3(x: real, y: real, z: real)

  /** The `(atoms, coordinates)` tuple stored for each molecule. */
  datatype Molecule = Molecule(atoms: seq<Atom>, coords: seq<Vec3>)
  {
    /** One coordinate row per atom, as the readers produce them. */
    predicate WellFormed() {
      |atoms| == |coords|
    }
  }

  /** The exceptions the modelled code can raise. */
  datatype Error =
    | UnknownReorderMethod   // ValueError('Unknown reorder method')
    | IndexError             // an index outside a list or array
    | ShapeMismatch          // ValueError from numpy: coordinate arrays of different lengths

  datatype Result<T> = Ok(value: T) | Err(error: Error)

  datatype Option<T> = None | Some(value: T)

  /**
   * The position that Python's `xs[k]` (and numpy's `a[k]`) reads in a
   * sequence of length `n`: negative indices count from the end, and
   * anything outside `-n .. n-1` raises.
   */
  function Wrap(k: int, n: nat): (p: Option<nat>)
    ensures p.Some? <==> -(n as int) <= k < n
    ensures p.Some? ==> p.value < n && (p.value - k) % n == 0
  {
    if 0 <= k < n then Some(k)
    else if -(n as int) <= k < 0 then Some(k + n)
    else None
  }

  /** Every index in `ndx` can be read in a sequence of length `n`. */
  predicate InBounds(ndx: seq<int>, n: nat) {
    forall k :: 0 <= k < |ndx| ==> -(n as int) <= ndx[k] < n
  }

  /**
   * `[xs[i] for i in ndx]`, and equally numpy's `xs[ndx]` for an integer
   * index array: the elements at the given indices, in the order of `ndx`,
   * or `None` (an IndexError) when one of them is out of range.
   */
  function Select<T>(xs: seq<T>, ndx: seq<int>): (r: Option<seq<T>>)
    ensures r.Some? <==> InBounds(ndx, |xs|)
    ensures r.Some? ==> |r.value| == |ndx|
    ensures r.Some? ==> forall k :: 0 <= k < |ndx| ==> r.value[k] == xs[Wrap(ndx[k], |xs|).value]
  {
    if ndx == [] then Some([])
    else
      match Wrap(ndx[0], |xs|)
      case None => None
      case Some(p) =>
        match Select(xs, ndx[1..])
        case None => None
        case Some(rest) => Some([xs[p]] + rest)
  }

  /** Two parallel lists read side by side. */
  function Zip<A, B>(xs: seq<A>, ys: seq<B>): (r: seq<(A, B)>)
    requires |xs| == |ys|
    ensures |r| == |xs|
    ensures forall k :: 0 <= k < |xs| ==> r[k].0 == xs[k] && r[k].1 == ys[k]
  {
    if xs == [] then [] else [(xs[0], ys[0])] + Zip(xs[1..], ys[1..])
  }

  /**
   * Indexing two parallel lists with the same index list keeps them
   * parallel: both succeed or both raise, and the results are exactly the
   * selected pairs.
   */
  lemma SelectLockstep<A, B>(xs: seq<A>, ys: seq<B>, ndx: seq<int>)
    requires |xs| == |ys|
    ensures Select(xs, ndx).Some? <==> Select(ys, ndx).Some?
    ensures Select(xs, ndx).Some? ==>
      Select(Zip(xs, ys), ndx) == Some(Zip(Select(xs, ndx).value, Select(ys, ndx).value))
  {
    var z := Zip(xs, ys);
    if Select(xs, ndx).Some? {
      var a, b, c := Select(xs, ndx).value, Select(ys, ndx).value, Select(z, ndx).value;
      var w := Zip(a, b);
      assert |c| == |w|;
      forall k | 0 <= k < |c| ensures c[k] == w[k] {
        var p := Wrap(ndx[k], |xs|).value;
        assert c[k] == z[p] == (xs[p], ys[p]);
      }
    }
  }
}
