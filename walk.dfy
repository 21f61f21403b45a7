/**
 * `read_folder` of tasks/task01.py over an in-memory directory tree.
 *
 * The filesystem is a finite tree of entries. `Visit`, `FolderPlan` and
 * `Gather` give, as a reference definition, the copies a walk performs; the
 * method `ReadFolder` follows the source's own shape (a loop that appends one
 * task per listed entry, then a gather that runs them) and is proved to
 * perform exactly those copies.
 */
module Walk {

  import opened Wrappers
  import opened PathNames
  import opened Buckets

  /**
   * A directory entry as `read_folder` sees it.
   * - File: `is_file()` holds; `fails` says that some step of its copy raises.
   * - Dir: `is_dir()` holds; `listable` is false when `iterdir()` raises.
   * - Other: neither holds (a socket, a device, a dangling link).
   * - Unclassifiable: `is_file()` or `is_dir()` itself raises.
   */
  datatype Entry =
    | File(name: Name, fails: bool)
    | Dir(name: Name, children: seq<Entry>, listable: bool)
    | Other(name: Name)
    | Unclassifiable(name: Name)

  /** No two entries of one listing share a name. */
  predicate DistinctNames(es: seq<Entry>) {
    forall i, j :: 0 <= i < j < |es| ==> es[i].name != es[j].name
  }

  /** A real directory tree: names are distinct within every directory. */
  predicate WellFormed(e: Entry)
    decreases e
  {
    match e
    case Dir(_, children, _) =>
      DistinctNames(children) && forall i :: 0 <= i < |children| ==> WellFormed(children[i])
    case _ => true
  }

  /**
   * The walk of a directory gets past its loop: it can be listed and every
   * entry in it can be classified.
   */
  predicate Listed(e: Entry) {
    e.Dir? && e.listable && forall i :: 0 <= i < |e.children| ==> !e.children[i].Unclassifiable?
  }

  // ---------------------------------------------------------------------
  // Reference definition of the walk

  /** The copies caused by entry `e` listed inside the folder at path `folder`. */
  function Visit(folder: Path, e: Entry, output: Path): seq<CopyOp>
    decreases e, 1
  {
    match e
    case File(n, fails) => CopyFile(folder + [n], fails, output)
    case Dir(n, _, _) => FolderPlan(folder + [n], e, output)
    case _ => []
  }

  /**
   * The copies `read_folder(source, output)` performs for the directory `d`
   * found at path `source`: none when listing or classifying raises (the
   * error is caught and logged), otherwise those of every listed entry.
   */
  function FolderPlan(source: Path, d: Entry, output: Path): seq<CopyOp>
    requires d.Dir?
    decreases d, 0
  {
    if Listed(d) then Gather(source, d.children, output) else []
  }

  /** The copies of the entries `es` of the folder `folder`, in listing order. */
  function Gather(folder: Path, es: seq<Entry>, output: Path): seq<CopyOp>
    decreases es
  {
    if es == [] then [] else Gather(folder, es[..|es| - 1], output) + Visit(folder, es[|es| - 1], output)
  }

  // ---------------------------------------------------------------------
  // Navigating the tree by relative path

  /** The index of the first entry called `n`, or -1 when there is none. */
  function IndexOf(es: seq<Entry>, n: Name): (r: int)
    ensures -1 <= r < |es|
    ensures r >= 0 ==> es[r].name == n
    ensures forall j :: 0 <= j < |es| && (r < 0 || j < r) ==> es[j].name != n
  {
    if es == [] then -1
    else if es[0].name == n then 0
    else
      var k := IndexOf(es[1..], n);
      if k < 0 then -1 else k + 1
  }

  /**
   * The entry reached from `e` by following the names `rel`, provided every
   * directory on the way is one whose walk gets past its loop; None otherwise.
   */
  function At(e: Entry, rel: seq<Name>): Option<Entry>
    decreases |rel|
  {
    if rel == [] then Some(e)
    else if !Listed(e) then None
    else
      var i := IndexOf(e.children, rel[0]);
      if i < 0 then None else At(e.children[i], rel[1..])
  }

  /** The tree `e` with the entry at `rel` replaced by `s` (unchanged when there is none). */
  function Replace(e: Entry, rel: seq<Name>, s: Entry): Entry
    decreases |rel|
  {
    if rel == [] then s
    else if !e.Dir? then e
    else
      var i := IndexOf(e.children, rel[0]);
      if i < 0 then e
      else Dir(e.name, e.children[i := Replace(e.children[i], rel[1..], s)], e.listable)
  }

  /** The walk below `d` reaches a regular file at `rel` and copying it succeeds. */
  predicate Delivered(d: Entry, rel: seq<Name>) {
    var a := At(d, rel);
    a.Some? && a.value.File? && !a.value.fails
  }

  /**
   * `op` is a copy that `read_folder(source, output)` must perform on the tree
   * `d`: it copies a reachable, non-failing file below `source` to
   * `output / bucket / name`.
   */
  predicate Copies(source: Path, d: Entry, output: Path, op: CopyOp) {
    && |op.src| > |source|
    && op.src[..|source|] == source
    && Delivered(d, op.src[|source|..])
    && op.dst == Destination(output, Last(op.src))
  }

  // ---------------------------------------------------------------------
  // The source's own shape: build a task list, then gather it

  /** A coroutine that read_folder appends to `tasks` (lines 17 and 19). */
  datatype Task =
    | CopyTask(file: Path, fails: bool)
    | FolderTask(folder: Path, dir: Entry)

  /**
   * The `tasks` list built by the loop over `es` in the folder `source`:
   * one copy task per file, one folder task per directory, nothing for any
   * other entry; None when classifying an entry raises, which leaves the loop.
   */
  function Classify(source: Path, es: seq<Entry>): (r: Option<seq<Task>>)
    ensures r.None? <==> exists i :: 0 <= i < |es| && es[i].Unclassifiable?
    decreases |es|
  {
    if es == [] then Some([])
    else
      var init, e := es[..|es| - 1], es[|es| - 1];
      match Classify(source, init)
      case None => None
      case Some(ts) =>
        match e
        case File(n, fails) => Some(ts + [CopyTask(source + [n], fails)])
        case Dir(n, _, _) => Some(ts + [FolderTask(source + [n], e)])
        case Other(_) => Some(ts)
        case Unclassifiable(_) => None
  }

  /**
   * Every file and every directory among `es` has its task in the list, and
   * every task comes from one of them (how often: ClassifyCopyCount and
   * ClassifyFolderCount).
   */
  lemma ClassifyTasks(source: Path, es: seq<Entry>)
    requires Classify(source, es).Some?
    ensures forall t :: t in Classify(source, es).value && t.FolderTask? ==>
      t.dir in es && t.dir.Dir? && t.folder == source + [t.dir.name]
    ensures forall t :: t in Classify(source, es).value && t.CopyTask? ==>
      exists n :: File(n, t.fails) in es && t.file == source + [n]
    ensures forall e :: e in es && e.File? ==> CopyTask(source + [e.name], e.fails) in Classify(source, es).value
    ensures forall e :: e in es && e.Dir? ==> FolderTask(source + [e.name], e) in Classify(source, es).value
  {
    ClassifySound(source, es);
    ClassifyComplete(source, es);
  }

  /** Every task of the list comes from a file or a directory among `es`. */
  lemma {:induction false} ClassifySound(source: Path, es: seq<Entry>)
    requires Classify(source, es).Some?
    ensures forall t :: t in Classify(source, es).value && t.FolderTask? ==>
      t.dir in es && t.dir.Dir? && t.folder == source + [t.dir.name]
    ensures forall t :: t in Classify(source, es).value && t.CopyTask? ==>
      exists n :: File(n, t.fails) in es && t.file == source + [n]
    decreases |es|
  {
    if es != [] {
      var init, e := es[..|es| - 1], es[|es| - 1];
      ClassifySound(source, init);
      assert es == init + [e];
      assert forall x :: x in init ==> x in es;
    }
  }

  /** Every file and every directory among `es` has its task in the list. */
  lemma {:induction false} ClassifyComplete(source: Path, es: seq<Entry>)
    requires Classify(source, es).Some?
    ensures forall e :: e in es && e.File? ==> CopyTask(source + [e.name], e.fails) in Classify(source, es).value
    ensures forall e :: e in es && e.Dir? ==> FolderTask(source + [e.name], e) in Classify(source, es).value
    decreases |es|
  {
    if es != [] {
      var init, e := es[..|es| - 1], es[|es| - 1];
      ClassifyComplete(source, init);
      assert es == init + [e];
      assert forall x :: x in es ==> x in init || x == e;
    }
  }

  /**
   * One task per entry: a copy task for `source / n` occurs in the list
   * exactly as often as the file `n` occurs among the entries.
   */
  lemma {:induction false} ClassifyCopyCount(source: Path, es: seq<Entry>, n: Name, fails: bool)
    requires Classify(source, es).Some?
    ensures multiset(Classify(source, es).value)[CopyTask(source + [n], fails)] == multiset(es)[File(n, fails)]
    decreases |es|
  {
    if es != [] {
      var init, e := es[..|es| - 1], es[|es| - 1];
      var ts, t := Classify(source, init).value, CopyTask(source + [n], fails);
      ClassifyCopyCount(source, init, n, fails);
      CountAppend(init, e, File(n, fails));
      assert init + [e] == es;
      match e
      case File(m, f) =>
        CountAppend(ts, CopyTask(source + [m], f), t);
        PathStep(source, m, n);
      case Dir(m, _, _) =>
        CountAppend(ts, FolderTask(source + [m], e), t);
      case Other(_) =>
    }
  }

  /** A folder task for the directory `d` occurs exactly as often as `d` among the entries. */
  lemma {:induction false} ClassifyFolderCount(source: Path, es: seq<Entry>, d: Entry)
    requires Classify(source, es).Some? && d.Dir?
    ensures multiset(Classify(source, es).value)[FolderTask(source + [d.name], d)] == multiset(es)[d]
    decreases |es|
  {
    if es != [] {
      var init, e := es[..|es| - 1], es[|es| - 1];
      var ts, t := Classify(source, init).value, FolderTask(source + [d.name], d);
      ClassifyFolderCount(source, init, d);
      CountAppend(init, e, d);
      assert init + [e] == es;
      match e
      case File(m, f) =>
        CountAppend(ts, CopyTask(source + [m], f), t);
      case Dir(m, _, _) =>
        CountAppend(ts, FolderTask(source + [m], e), t);
      case Other(_) =>
    }
  }

  /** Appending `x` adds one occurrence of `x` and none of anything else. */
  lemma CountAppend<T>(xs: seq<T>, x: T, y: T)
    ensures multiset(xs + [x])[y] == multiset(xs)[y] + if x == y then 1 else 0
  {
  }

  /** Paths one name below the same folder are equal iff the names are. */
  lemma PathStep(source: Path, m: Name, n: Name)
    ensures source + [m] == source + [n] <==> m == n
  {
    if source + [m] == source + [n] {
      assert (source + [m])[|source|] == m;
    }
  }

  /** What awaiting one task does. */
  function RunTask(t: Task, output: Path): seq<CopyOp> {
    match t
    case CopyTask(file, fails) => if |file| > 0 then CopyFile(file, fails, output) else []
    case FolderTask(folder, dir) => if dir.Dir? then FolderPlan(folder, dir, output) else []
  }

  /** What `asyncio.gather(*tasks)` does, in task order. */
  function RunAll(ts: seq<Task>, output: Path): seq<CopyOp>
    decreases |ts|
  {
    if ts == [] then [] else RunAll(ts[..|ts| - 1], output) + RunTask(ts[|ts| - 1], output)
  }

  /** Building the task list and gathering it performs the copies of the reference walk. */
  lemma {:induction false} ClassifyThenGather(source: Path, es: seq<Entry>, output: Path)
    requires Classify(source, es).Some?
    ensures RunAll(Classify(source, es).value, output) == Gather(source, es, output)
    decreases |es|
  {
    if es != [] {
      var init, e := es[..|es| - 1], es[|es| - 1];
      ClassifyThenGather(source, init, output);
      var ts := Classify(source, init).value;
      match e
      case File(n, fails) =>
        assert (ts + [CopyTask(source + [n], fails)])[..|ts|] == ts;
      case Dir(n, _, _) =>
        assert (ts + [FolderTask(source + [n], e)])[..|ts|] == ts;
      case Other(_) =>
    }
  }

  /**
   * `read_folder(source, output)` on the directory `dir`: list it, append one
   * task per file or directory, then run every task. A listing or
   * classification error ends the call with no copies and no error.
   */
  method ReadFolder(source: Path, dir: Entry, output: Path) returns (ops: seq<CopyOp>)
    requires dir.Dir?
    ensures ops == FolderPlan(source, dir, output)
    decreases dir
  {
    ops := [];
    if !dir.listable {
      return;
    }
    var entries := dir.children;
    var tasks: seq<Task> := [];
    for i := 0 to |entries|
      invariant Classify(source, entries[..i]) == Some(tasks)
    {
      var entry := entries[i];
      ClassifyStep(source, entries, i);
      match entry {
        case File(n, fails) =>
          tasks := tasks + [CopyTask(source + [n], fails)];
        case Dir(n, _, _) =>
          tasks := tasks + [FolderTask(source + [n], entry)];
        case Other(_) =>
        case Unclassifiable(_) =>
          assert !Listed(dir) by {
            assert entries[i] in dir.children;
          }
          return;
      }
    }
    assert entries[..|entries|] == entries;
    ClassifyThenGather(source, entries, output);
    for j := 0 to |tasks|
      invariant ops == RunAll(tasks[..j], output)
    {
      RunAllStep(tasks, j, output);
      TaskOf(source, entries, tasks, j);
      match tasks[j] {
        case CopyTask(file, fails) =>
          ops := ops + CopyFile(file, fails, output);
        case FolderTask(folder, sub) =>
          var subOps := ReadFolder(folder, sub, output);
          ops := ops + subOps;
      }
    }
    assert tasks[..|tasks|] == tasks;
  }

  /** Classifying one more entry extends the task list built so far. */
  lemma ClassifyStep(source: Path, es: seq<Entry>, i: nat)
    requires i < |es|
    ensures Classify(source, es[..i]).None? || es[i].Unclassifiable? ==> Classify(source, es[..i + 1]).None?
    ensures Classify(source, es[..i]).Some? ==>
      var ts := Classify(source, es[..i]).value;
      && (es[i].File? ==> Classify(source, es[..i + 1]) == Some(ts + [CopyTask(source + [es[i].name], es[i].fails)]))
      && (es[i].Dir? ==> Classify(source, es[..i + 1]) == Some(ts + [FolderTask(source + [es[i].name], es[i])]))
      && (es[i].Other? ==> Classify(source, es[..i + 1]) == Some(ts))
  {
    assert es[..i + 1][..i] == es[..i];
  }

  /** Running one more task appends what that task does. */
  lemma RunAllStep(ts: seq<Task>, j: nat, output: Path)
    requires j < |ts|
    ensures RunAll(ts[..j + 1], output) == RunAll(ts[..j], output) + RunTask(ts[j], output)
  {
    assert ts[..j + 1][..j] == ts[..j];
  }

  /** A task of the list names a file below `source` or one of the listed directories. */
  lemma TaskOf(source: Path, es: seq<Entry>, ts: seq<Task>, j: nat)
    requires Classify(source, es) == Some(ts) && j < |ts|
    ensures ts[j].CopyTask? ==> |ts[j].file| > 0
    ensures ts[j].FolderTask? ==> ts[j].dir in es && ts[j].dir.Dir?
  {
    ClassifyTasks(source, es);
    assert ts[j] in ts;
  }
}
