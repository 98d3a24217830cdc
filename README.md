# rmsd_clustering in Dafny

A model of the `Cluster` class of `rmsd_clustering.py`. The class holds
molecules, each an `(atoms, coordinates)` pair, in a list `molecs`, with a
parallel list `titles`. It measures the RMSD between every two molecules,
assembles those distances into a symmetric matrix, and groups the
molecules greedily under a distance cutoff. It can also copy a
sub-collection, read a multi-structure xyz file, and, in `main`, search
for a cutoff that yields a requested number of groups.

The model is split into modules that follow the program's structure:

- `Structures` (structures.dfy) holds molecules, the class's errors, and
  Python's rules for indexing a list or a numpy array (negative indices
  count from the end; anything else out of range raises IndexError).
- `Alignment` (alignment.dfy) covers `reorder` and `rmsd`. The `rmsd`
  library's atom-matching strategies and its Kabsch RMSD are the two fields
  of an `RmsdLib` value. The model keeps one way the distance can fail:
  `kabsch_rmsd` raises numpy's ValueError when the two coordinate arrays
  differ in length. Apart from that failure, the library is modelled as
  never raising; nothing else is assumed of it.
- `Matrices` (matrices.dfy) covers the pair list of
  `itertools.combinations`, the assembly of the matrix as `rmsd_matrix`
  writes it, numpy's strict upper triangle, and `matrix_stat`.
- `Grouping` (grouping.dfy) defines the grouping rule of `cluster` as a
  function and proves what it guarantees:
  - only the entries below the diagonal are read, so a loaded matrix that
    is not symmetric is grouped by its lower triangle;
  - the groups form a partition;
  - admission: each member is within the cutoff of every earlier member;
  - first fit: each index joins the first group that admits it;
  - the groups keep their opening order.
- `CutoffSearch` (cutoff_search.dfy) defines the `--n-clusters` loop of
  `main` as a function and proves:
  - how the cutoff moves;
  - the result is a partition when the loop ends;
  - from a positive cutoff, the loop ends when one group is asked for;
  - from a positive cutoff, the loop ends when one group per molecule is
    asked for and every distance between two molecules is positive.

  Otherwise the loop can run forever. Two molecules at distance 0 are one
  group at every positive cutoff, so asking for two groups never ends. A
  cutoff of 0 never moves.
- `XyzFormat` (xyz_format.dfy) covers Python's `str.strip` and the record
  framing of `read_xyz`.
- `Clustering` (clustering.dfy) holds the class itself, with fields
  `molecs` and `titles`. Its methods are each proved against the functions
  above:
  - `RmsdMatrix` fills an array in place;
  - `GroupIndices` runs the nested loop of `cluster`;
  - `ReadXyz` appends to both lists;
  - `CopyNdx` builds a new object;
  - `AdjustCutoff` is the loop of `main`.

The model follows the code as written:

- The help text of `--reorder-method` (rmsd_clustering.py:364) says
  `inertia-hungarian`. The argument's choices (:363) and the class's method
  table (:56) spell the key `intertia-hungarian`, so `Cluster.reorder`
  rejects the spelling in the help text as unknown (`InertiaSpelling`).
- The choice `none` becomes `None` in `main` (:378), and `rmsd` then
  skips the reorder entirely (:179-180).

## Model

| member | source | states |
|---|---|---|
| Structures.Wrap | rmsd_clustering.py:201-202 | Python's `xs[k]` reads some position exactly when `-n <= k < n`, and that position is congruent to `k` modulo `n` |
| Structures.Select | rmsd_clustering.py:346-347 | `[xs[i] for i in ndx]` succeeds exactly when every index is in range; it then has one element per index, the one Python's indexing reads |
| Structures.SelectLockstep | rmsd_clustering.py:346-347 | indexing two parallel lists with one index list succeeds for both or for neither, and the results are the selected pairs |
| Alignment.Reorder | rmsd_clustering.py:155-158 | an unknown method name raises ValueError, and only then; otherwise atoms and coordinates are both indexed by the one array the strategy returns, failing exactly when that array holds an out-of-range index |
| Alignment.ReorderKeepsAtomsWithCoords | rmsd_clustering.py:158 | a reordered molecule keeps every atom with its own coordinate row and stays well formed |
| Alignment.InertiaSpelling | rmsd_clustering.py:54-58 | `intertia-hungarian` never raises ValueError; `inertia-hungarian` always does |
| Alignment.Rmsd | rmsd_clustering.py:179-181 | with no method, the Kabsch RMSD of the coordinates as given; otherwise the reorder's error, or the Kabsch RMSD against the reordered molecule 2; the Kabsch step fails exactly when the two coordinate arrays differ in length |
| Alignment.RmsdFailure | rmsd_clustering.py:155-181 | with no method the call fails exactly when the coordinate arrays differ in length; an unknown name always fails with the reorder's ValueError; any other failure implies a method was named |
| Matrices.Pairs | rmsd_clustering.py:219 | `n(n-1)/2` pairs, each `(i, j)` with `i < j < n` |
| Matrices.PairsOrdered | rmsd_clustering.py:219 | the pairs come in lexicographic order, so no pair is listed twice |
| Matrices.PairIndex | rmsd_clustering.py:219 | every pair `i < j < n` is listed, at some position |
| Matrices.PairsExactly | rmsd_clustering.py:219 | the list holds exactly the pairs `i < j < n`, each once |
| Matrices.UpperTriangle | rmsd_clustering.py:247 | `matrix[np.triu_indices(n, k=1)]` has `n(n-1)/2` entries |
| Matrices.UpperTriangleFollowsPairs | rmsd_clustering.py:247-248 | `matrix[np.triu_indices(n, k=1)]` lists the entries at the pairs of `combinations`, in the same order |
| Matrices.Assemble | rmsd_clustering.py:222-225 | the assembled matrix is `n x n` |
| Matrices.AssembleMatrix | rmsd_clustering.py:222-225 | a zero array, one write per pair in order, then the array plus its transpose, equals `Assemble` |
| Matrices.WrittenOnce | rmsd_clustering.py:223-224 | with no pair repeated, each written entry holds its own pair's value and every other entry stays zero |
| Matrices.AssembleShape | rmsd_clustering.py:222-225 | the matrix is exactly symmetric with a zero diagonal and holds each pair's value at `[i, j]` and `[j, i]` |
| Matrices.AssembleAbove | rmsd_clustering.py:223-225 | above the diagonal, entry `[i, j]` is the value of the pair `(i, j)` |
| Matrices.MatrixStat | rmsd_clustering.py:243-249 | a 1 x 1 matrix gives `(0.0, 0.0)`; otherwise the statistics of exactly the strict upper triangle, in pair order |
| Grouping.AdmitsEveryMember | rmsd_clustering.py:324 | `all(rmsd_matrix[i,j] < cutoff for j in cluster)`: a group admits `i` exactly when every member `j` has `[i, j]` below the cutoff |
| Grouping.FirstAdmitting | rmsd_clustering.py:323-326 | the first group from a position on whose every member is strictly within the cutoff of `i`; all groups before it refuse `i`; or the number of groups when none admits it |
| Grouping.Place | rmsd_clustering.py:322-328 | one turn of the outer loop keeps every member below the new bound, leaves no group empty, and adds at most one group |
| Grouping.Group | rmsd_clustering.py:321-328 | after `k` turns, the members are below `k`, no group is empty, and there are at most `k` groups, and at least one when `k > 0` |
| Grouping.Greedy | rmsd_clustering.py:321-329 | `cluster` returns at most `n_molecs` groups, and at least one when there is a molecule; `GreedyIsPartition` proves the rest |
| Grouping.FirstAdmittingReadsBelow | rmsd_clustering.py:323-324 | testing `i` against groups of smaller indices gives the same group on two matrices that agree below the diagonal |
| Grouping.PlaceReadsBelow | rmsd_clustering.py:322-328 | one turn of the outer loop gives the same groups on two matrices that agree below the diagonal |
| Grouping.GroupReadsBelow | rmsd_clustering.py:321-328 | `cluster` reads only the entries `[i, j]` with `j < i`: two matrices that agree there give the same groups |
| Grouping.PlaceExtends | rmsd_clustering.py:322-328 | placing `i` moves no earlier member and puts `i` at exactly the new positions |
| Grouping.PlaceKeepsPartition | rmsd_clustering.py:322-328 | one turn turns a partition of `0..i-1` into a partition of `0..i` |
| Grouping.GroupIsPartition | rmsd_clustering.py:321-328 | after `k` turns the groups partition `0..k-1` |
| Grouping.GreedyIsPartition | rmsd_clustering.py:321-329 | `cluster` returns a partition of `0..n-1`: every index once, no group empty |
| Grouping.PlaceKeepsOrder | rmsd_clustering.py:323-328 | one turn keeps admission and the opening order of the groups |
| Grouping.GroupIsOrdered | rmsd_clustering.py:321-328 | after `k` turns admission and opening order hold |
| Grouping.GreedyIsOrdered | rmsd_clustering.py:321-329 | within a group the members increase and each is strictly within the cutoff of every earlier member (entry `[later, earlier]`); groups are ordered by their first member |
| Grouping.NotAdmittedIsRefused | rmsd_clustering.py:324 | a group that does not admit `i` holds a member whose distance to `i` is not below the cutoff |
| Grouping.RefusalSurvivesAppend | rmsd_clustering.py:325 | appending to a group keeps every refusal it made |
| Grouping.PlaceKeepsFirstFit | rmsd_clustering.py:323-328 | one turn keeps first fit |
| Grouping.GroupIsFirstFit | rmsd_clustering.py:321-328 | after `k` turns first fit holds |
| Grouping.GreedyIsFirstFit | rmsd_clustering.py:321-329 | every member of a group was refused by each earlier group: that group holds a smaller index at distance `>= cutoff` |
| Grouping.GroupAllApart | rmsd_clustering.py:321-328 | with no entry below the diagonal under the cutoff, every index is its own group |
| Grouping.GroupAllClose | rmsd_clustering.py:321-328 | with every entry below the diagonal under the cutoff, all indices form one group |
| Grouping.GreedyExtremes | rmsd_clustering.py:321-329 | the two extreme outcomes of `cluster` on a whole matrix |
| CutoffSearch.Adapt | rmsd_clustering.py:422-427 | the loop ends in one of two ways: it stops by itself, or it gives up when its rounds run out (what each means is in `AdaptOutcome`) |
| CutoffSearch.AdaptOutcome | rmsd_clustering.py:422-427 | the result is the clustering at the last cutoff, and the loop stopped by itself exactly when that clustering has the requested count |
| CutoffSearch.AdaptStep | rmsd_clustering.py:423-427 | an unequal count moves the cutoff up by half of itself when there are too many groups, down by half when too few, and uses one round |
| CutoffSearch.SearchCount | rmsd_clustering.py:418-427 | a count above the number of molecules is refused, and only then; a loop that stops yields a partition into exactly the requested number of groups |
| CutoffSearch.Raised | rmsd_clustering.py:424 | raising by half of itself is a factor 1.5 |
| CutoffSearch.Lowered | rmsd_clustering.py:426 | lowering by half of itself is a factor 0.5 |
| CutoffSearch.AdaptCutoff | rmsd_clustering.py:422-427 | the final cutoff is the starting one times `1.5^a * 0.5^b` with `a + b` at most the rounds allowed |
| CutoffSearch.HalvingReachesSingletons | rmsd_clustering.py:422-427 | asking for one group per molecule, halving reaches a cutoff at most the smallest distance within the rounds given, and the loop stops |
| CutoffSearch.SingletonTargetConverges | rmsd_clustering.py:418-427 | with positive distances and a positive cutoff, asking for one group per molecule stops after finitely many rounds |
| CutoffSearch.GrowingReachesOneGroup | rmsd_clustering.py:422-427 | asking for one group, growing the cutoff passes the largest distance within the rounds given, and the loop stops |
| CutoffSearch.OneGroupTargetConverges | rmsd_clustering.py:418-427 | from a positive cutoff, asking for one group stops after finitely many rounds |
| XyzFormat.Strip | rmsd_clustering.py:95 | `str.strip()` is no longer than the line and neither starts nor ends with whitespace |
| XyzFormat.StripIsSlice | rmsd_clustering.py:94-95 | `strip()` keeps one contiguous slice with only whitespace around it and none at its ends |
| XyzFormat.StripIdempotent | rmsd_clustering.py:95 | stripping twice is stripping once |
| XyzFormat.Frame | rmsd_clustering.py:93-98 | the framing yields as many record starts as titles and molecules |
| XyzFormat.FrameStep | rmsd_clustering.py:94-98 | one turn reads the record at `n` and continues at `n + count + 2` |
| XyzFormat.FrameStepAppend | rmsd_clustering.py:95-98 | appending the record at `n` to what was read before, then the rest, is appending the framing from `n` |
| XyzFormat.FrameStarts | rmsd_clustering.py:93-98 | the first record starts at `n`; every record starts inside the file with its title line present |
| XyzFormat.FrameTitles | rmsd_clustering.py:95 | each title is the stripped line after its record's count line |
| XyzFormat.FrameMolecules | rmsd_clustering.py:97 | each molecule is parsed from its own record's lines `n .. n+2+count`, cut at the end of the file |
| XyzFormat.FrameChain | rmsd_clustering.py:93-98 | each record starts `count + 2` lines after the previous one; the walk ends at or past the last line, and fails exactly when it lands on the last line, a count line with no title line |
| Clustering.Cluster.constructor | rmsd_clustering.py:60-62 | a new collection has empty `molecs` and `titles` |
| Clustering.Cluster.NMolecs | rmsd_clustering.py:68-70 | `n_molecs` is the length of `atoms` and of `coords`, and of the titles when the two lists are in lockstep |
| Clustering.Cluster.Atoms | rmsd_clustering.py:72-74 | `atoms` has one entry per molecule, the k-th being molecule k's atoms |
| Clustering.Cluster.Coords | rmsd_clustering.py:76-78 | `coords` has one entry per molecule, the k-th being molecule k's coordinates |
| Clustering.Cluster.NAtoms | rmsd_clustering.py:64-66 | `n_atoms` is defined exactly when there is a molecule, and is the first molecule's atom count; otherwise the IndexError of `self.molecs[0]` |
| Clustering.Cluster.AtomsCoordsRebuild | rmsd_clustering.py:68-78 | `atoms` and `coords` have one entry per molecule and rebuild each molecule |
| Clustering.Cluster.RmsdNdx | rmsd_clustering.py:183-203 | an out-of-range index raises IndexError; in-range indices give the RMSD of those two molecules; the state is only read |
| Clustering.Cluster.RmsdNdxFromEnd | rmsd_clustering.py:201-202 | index `k - n` names the same molecule as `k`, in either position |
| Clustering.Cluster.PairDistances | rmsd_clustering.py:220-221 | one distance per pair, each equal to `rmsd_ndx` of that pair; an error is some pair's error |
| Clustering.Cluster.DistanceMatrix | rmsd_clustering.py:219-226 | a successful matrix is `n_molecs x n_molecs` |
| Clustering.Cluster.DistanceMatrixShape | rmsd_clustering.py:219-226 | the matrix is exactly symmetric with a zero diagonal, and `[i, j] == rmsd_ndx(i, j)` for `i < j` |
| Clustering.Cluster.DistanceMatrixFailure | rmsd_clustering.py:220-221 | the matrix fails exactly when some pair `i < j` fails |
| Clustering.Cluster.DistanceMatrixMethod | rmsd_clustering.py:219-221 | with no reorder method it fails exactly when two molecules have coordinate arrays of different lengths; an unknown name fails with ValueError once there are two molecules |
| Clustering.Cluster.RmsdMatrix | rmsd_clustering.py:219-226 | the in-place assembly returns exactly `DistanceMatrix` |
| Clustering.Cluster.GroupIndices | rmsd_clustering.py:321-329 | the nested loop with its `for ... else` returns exactly `Group` over the molecules |
| Clustering.Cluster.MakeClusters | rmsd_clustering.py:320-329 | a given matrix is grouped as is; otherwise the computed one is grouped, or its error returned; a result is a partition of the molecules |
| Clustering.Cluster.CopyNdx | rmsd_clustering.py:345-348 | succeeds exactly when every index is in range, and fails otherwise with IndexError; the new object has `molecs[ndx[k]]` and `titles[ndx[k]]` at `k`, `len(ndx)` of each |
| Clustering.Cluster.ReadXyz | rmsd_clustering.py:93-98 | appends the framing's titles and molecules; raises IndexError exactly when a count line has no title line after it, keeping the records before it; lists in lockstep stay in lockstep |
| Clustering.ClusterToCount | rmsd_clustering.py:416-427 | a count above the number of molecules is refused before any clustering; otherwise the result is `SearchCount` |
| Clustering.AdjustCutoff | rmsd_clustering.py:421-427 | the loop of `main`, calling `cluster` each turn, returns exactly `Adapt` |

## Left out

- The `rmsd` library's Kabsch RMSD and its reorder strategies are fields of `RmsdLib`. No further property is assumed: the RMSD need not be non-negative, and the index array need not be a permutation or of any particular length.
- The reorder strategies are modelled as never raising. Apart from the length check on the coordinates, `kabsch_rmsd` is modelled as never raising either. If the library raises for some other input, the model does not capture it.
- Alignment.RmsdFailure: "any other failure implies a method was named" holds within the model. It relies on the reorder strategies never raising.
- Clustering.Cluster.DistanceMatrixMethod: without a reorder method, the matrix fails exactly when two coordinate arrays differ in length. This holds within the model, since `kabsch_rmsd` raises only for that mismatch there.
- `rmsd.get_coordinates_xyz_lines` and `int()` on the count line are fields of `XyzLib`. A count line that `int()` rejects, or a negative count, is not modelled: counts are natural numbers.
- Opening and reading the file in `read_xyz`: `ReadXyz` takes the file's lines.
- Clustering.Cluster.ReadXyz: `get_coordinates_xyz_lines` is modelled as never failing. A malformed atom line, or an element symbol it cannot map to a number, makes it raise in the source. That call (rmsd_clustering.py:97) comes after the title is appended (:96), so the source then keeps one title more than molecules, and the error is not IndexError. "IndexError exactly when a count line has no title line after it" and "lists in lockstep stay in lockstep" hold only while the parser does not raise.
- Matrices.AssembleMatrix: `rmsd_matrix += rmsd_matrix.T` (rmsd_clustering.py:225) is read as `m[i, j] + m[j, i]` over the array before the update, which assumes numpy's overlap detection (numpy 1.13 and later).
- The process pool of `rmsd_matrix`: the pairs are mapped in order. When several pairs fail, the model reports the first failing pair's error; the real pool may report another.
- Floating-point rounding and NaN: distances and cutoffs are exact reals.
- The mean and standard deviation that `matrix_stat` computes: a parameter `stats` of `MatrixStat`, applied to the upper triangle.
- `read_openbabel`, `np.loadtxt`/`np.savetxt`, `matrix_heatmap`, `matrix_fmt`, argument parsing and printing in `main`: input/output and foreign libraries.
- Clustering.Cluster.MakeClusters: requires a supplied matrix to be square and at least `n_molecs` wide. `main` checks the shape of a loaded matrix before clustering (rmsd_clustering.py:401), and a smaller matrix, where numpy would raise IndexError on the first out-of-range read, is not modelled.
- Clustering.Cluster.GroupIndices: promises only equality with `Group`. The partition, admission, first-fit and order properties are proved of `Group` and `Greedy` in `Grouping`, and `MakeClusters` restates the partition.
- CutoffSearch.Adapt: the source loop need not terminate. `Adapt` and `AdjustCutoff` take a bound on the number of cutoff changes, and running out is the outcome `GaveUp`. Termination is proved only for the two targets in `SingletonTargetConverges` and `OneGroupTargetConverges`.
- Default argument values (`reorder_method='brute'`, `atoms_as_int=True`) are not modelled: every call passes its arguments.
- New_cartesians.py, files.py and cell_z_fix.py are not part of this model. They are file-conversion scripts dominated by file input/output and float formatting.
