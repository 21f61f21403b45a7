/**
 * `main` of tasks/task01.py once its arguments are parsed and resolved: the
 * guard on the source folder, then one walk of it into the output folder.
 */
module Startup {

  import opened Wrappers
  import opened PathNames
  import opened Buckets
  import opened Walk
  import opened WalkProofs

  /**
   * The copies one run performs. `root` is what the resolved source path
   * names: None when it does not exist. Unless it is a directory the run
   * logs an error and stops without walking or copying anything.
   */
  function SortFiles(source: Path, root: Option<Entry>, output: Path): (ops: seq<CopyOp>)
    ensures root.None? || !root.value.Dir? ==> ops == []
  {
    if root.None? || !root.value.Dir? then [] else FolderPlan(source, root.value, output)
  }

  /** A run copies exactly what the walk of a source directory copies, each copy exactly once. */
  lemma SortFilesCopiesEachFileOnce(source: Path, root: Option<Entry>, output: Path, op: CopyOp)
    requires root.Some? ==> WellFormed(root.value)
    ensures multiset(SortFiles(source, root, output))[op] ==
      if root.Some? && root.value.Dir? && Copies(source, root.value, output, op) then 1 else 0
  {
    if root.Some? && root.value.Dir? {
      PlanCount(source, root.value, output, op);
    }
  }

  /**
   * Depth independence: every copy of a run lands at `output / bucket / name`,
   * where the bucket and the name come from the copied file's own name,
   * whatever folder below the source it was found in.
   */
  lemma SortFilesDestinations(source: Path, root: Option<Entry>, output: Path, op: CopyOp)
    requires root.Some? ==> WellFormed(root.value)
    requires op in SortFiles(source, root, output)
    ensures |op.src| > |source| && op.src[..|source|] == source
    ensures op.dst == output + [Bucket(Last(op.src)), Last(op.src)]
  {
    PlanShape(source, root.value, output, op);
  }

  /**
   * Two copies of one run write to the same destination exactly when the two
   * files share a name; files with one name from different folders collide,
   * and which copy lands last depends on scheduling.
   */
  lemma SortFilesCollisions(source: Path, root: Option<Entry>, output: Path, x: CopyOp, y: CopyOp)
    requires root.Some? ==> WellFormed(root.value)
    requires x in SortFiles(source, root, output) && y in SortFiles(source, root, output)
    ensures |x.src| > 0 && |y.src| > 0
    ensures x.dst == y.dst <==> Last(x.src) == Last(y.src)
  {
    SortFilesDestinations(source, root, output, x);
    SortFilesDestinations(source, root, output, y);
    DestinationsCollideIffSameName(output, Last(x.src), Last(y.src));
  }
}
