/**
 * What the walk of tasks/task01.py guarantees: every reachable file is
 * copied exactly once, to a destination fixed by its name alone. A failing
 * copy or an unlistable folder removes only the copies below it; an entry
 * whose type check raises removes every copy of its containing folder;
 * copies outside that folder are unaffected.
 */
module WalkProofs {

  import opened Wrappers
  import opened PathNames
  import opened Buckets
  import opened Walk

  // ---------------------------------------------------------------------
  // Exactly once

  /** Entry `c` listed in `folder` leads to the copy `op`. */
  predicate VisitCopies(folder: Path, c: Entry, output: Path, op: CopyOp) {
    && |op.src| > |folder|
    && op.src[..|folder|] == folder
    && op.src[|folder|] == c.name
    && Delivered(c, op.src[|folder| + 1..])
    && op.dst == Destination(output, Last(op.src))
  }

  /** Only a listed directory's walk reaches anything below it. */
  lemma AtBelowUnlisted(e: Entry, rel: seq<Name>)
    requires |rel| > 0 && !Listed(e)
    ensures At(e, rel) == None
  {
  }

  lemma {:induction false} VisitCount(folder: Path, c: Entry, output: Path, op: CopyOp)
    requires WellFormed(c)
    ensures multiset(Visit(folder, c, output))[op] == if VisitCopies(folder, c, output, op) then 1 else 0
    decreases c, 1
  {
    match c
    case File(n, fails) => VisitFileCount(folder, n, fails, output, op);
    case Dir(n, _, _) =>
      PlanCount(folder + [n], c, output, op);
      if |op.src| > |folder| {
        PrefixStep(op.src, folder, n);
      }
    case Other(_) => VisitSkippedCount(folder, c, output, op);
    case Unclassifiable(_) => VisitSkippedCount(folder, c, output, op);
  }

  lemma PrefixStep(p: Path, folder: Path, n: Name)
    requires |p| > |folder|
    ensures p[..|folder| + 1] == folder + [n] <==> (p[..|folder|] == folder && p[|folder|] == n)
  {
    assert p[..|folder| + 1] == p[..|folder|] + [p[|folder|]];
  }

  lemma VisitFileCount(folder: Path, n: Name, fails: bool, output: Path, op: CopyOp)
    ensures multiset(Visit(folder, File(n, fails), output))[op] ==
      if VisitCopies(folder, File(n, fails), output, op) then 1 else 0
  {
    var x := CopyOp(folder + [n], Destination(output, n));
    VisitOfFile(folder, n, fails, output);
    FileCopiesIff(folder, n, fails, output, op);
    if !fails {
      assert multiset([x])[op] == if op == x then 1 else 0;
    }
  }

  /** A listed file causes exactly its own copy, and only when that copy succeeds. */
  lemma FileCopiesIff(folder: Path, n: Name, fails: bool, output: Path, op: CopyOp)
    ensures VisitCopies(folder, File(n, fails), output, op) <==>
      !fails && op == CopyOp(folder + [n], Destination(output, n))
  {
    var c := File(n, fails);
    if |op.src| > |folder| + 1 {
      AtBelowUnlisted(c, op.src[|folder| + 1..]);
    } else if |op.src| == |folder| + 1 {
      assert op.src[|folder| + 1..] == [];
      assert op.src == op.src[..|folder|] + [op.src[|folder|]];
    }
    if op.src == folder + [n] {
      assert op.src[..|folder|] == folder && op.src[|folder| + 1..] == [];
      assert Last(op.src) == n;
    }
  }

  lemma VisitSkippedCount(folder: Path, c: Entry, output: Path, op: CopyOp)
    requires c.Other? || c.Unclassifiable?
    ensures multiset(Visit(folder, c, output))[op] == if VisitCopies(folder, c, output, op) then 1 else 0
  {
    if |op.src| > |folder| + 1 {
      AtBelowUnlisted(c, op.src[|folder| + 1..]);
    }
  }

  lemma {:induction false} GatherCount(folder: Path, es: seq<Entry>, output: Path, op: CopyOp)
    requires DistinctNames(es) && forall i :: 0 <= i < |es| ==> WellFormed(es[i])
    ensures multiset(Gather(folder, es, output))[op] ==
      if exists i :: 0 <= i < |es| && VisitCopies(folder, es[i], output, op) then 1 else 0
    decreases es
  {
    if es != [] {
      var init, e := es[..|es| - 1], es[|es| - 1];
      GatherCount(folder, init, output, op);
      VisitCount(folder, e, output, op);
      GatherStepCount(folder, es, output, op);
      SomeEntryStep(folder, es, output, op);
      LastEntryOnly(folder, es, output, op);
    }
  }

  /** The count of a copy in a walk of entries adds the last entry's count to the rest's. */
  lemma GatherStepCount(folder: Path, es: seq<Entry>, output: Path, op: CopyOp)
    requires es != []
    ensures multiset(Gather(folder, es, output))[op] ==
      multiset(Gather(folder, es[..|es| - 1], output))[op] + multiset(Visit(folder, es[|es| - 1], output))[op]
  {
  }

  /** Some entry causes a copy iff the last one does or one of the others does. */
  lemma SomeEntryStep(folder: Path, es: seq<Entry>, output: Path, op: CopyOp)
    requires es != []
    ensures var init := es[..|es| - 1];
      (exists i :: 0 <= i < |es| && VisitCopies(folder, es[i], output, op)) <==>
      (exists i :: 0 <= i < |init| && VisitCopies(folder, init[i], output, op)) ||
      VisitCopies(folder, es[|es| - 1], output, op)
  {
    var causes := c => VisitCopies(folder, c, output, op);
    ExistsLast(es, causes);
  }

  lemma ExistsLast<T>(xs: seq<T>, p: T -> bool)
    requires xs != []
    ensures var init := xs[..|xs| - 1];
      (exists i :: 0 <= i < |xs| && p(xs[i])) <==> (exists i :: 0 <= i < |init| && p(init[i])) || p(xs[|xs| - 1])
  {
    var init := xs[..|xs| - 1];
    if exists i :: 0 <= i < |xs| && p(xs[i]) {
      var i :| 0 <= i < |xs| && p(xs[i]);
      if i < |init| {
        assert init[i] == xs[i];
      }
    }
    if exists i :: 0 <= i < |init| && p(init[i]) {
      var i :| 0 <= i < |init| && p(init[i]);
      assert init[i] == xs[i];
    }
  }

  /** Among entries with distinct names, a copy the last one causes is caused by no other. */
  lemma LastEntryOnly(folder: Path, es: seq<Entry>, output: Path, op: CopyOp)
    requires es != [] && DistinctNames(es)
    ensures var init := es[..|es| - 1];
      VisitCopies(folder, es[|es| - 1], output, op) ==>
      !exists i :: 0 <= i < |init| && VisitCopies(folder, init[i], output, op)
  {
    var init := es[..|es| - 1];
    if VisitCopies(folder, es[|es| - 1], output, op) {
      forall i | 0 <= i < |init|
        ensures !VisitCopies(folder, init[i], output, op)
      {
        assert init[i] == es[i];
      }
    }
  }

  /**
   * Exactly once: on a real directory tree, `read_folder(source, output)`
   * performs a copy once if it is the copy of a file the walk reaches and
   * whose copy succeeds, to `output / bucket / name`, and never otherwise.
   */
  lemma {:induction false} PlanCount(source: Path, d: Entry, output: Path, op: CopyOp)
    requires d.Dir? && WellFormed(d)
    ensures multiset(FolderPlan(source, d, output))[op] == if Copies(source, d, output, op) then 1 else 0
    decreases d, 0
  {
    if !Listed(d) {
      if |op.src| > |source| {
        AtBelowUnlisted(d, op.src[|source|..]);
      }
    } else {
      GatherCount(source, d.children, output, op);
      if |op.src| > |source| {
        CopiesIffSomeChild(source, d, output, op);
      }
    }
  }

  /** In a listed directory, a copy is the walk's exactly when it is the copy of one of its entries. */
  lemma CopiesIffSomeChild(source: Path, d: Entry, output: Path, op: CopyOp)
    requires Listed(d) && WellFormed(d) && |op.src| > |source|
    ensures Copies(source, d, output, op) <==>
      exists i :: 0 <= i < |d.children| && VisitCopies(source, d.children[i], output, op)
  {
    var ch := d.children;
    var rel := op.src[|source|..];
    assert rel[0] == op.src[|source|];
    assert rel[1..] == op.src[|source| + 1..];
    var k := IndexOf(ch, rel[0]);
    assert At(d, rel) == if k < 0 then None else At(ch[k], rel[1..]);
    if Copies(source, d, output, op) {
      assert VisitCopies(source, ch[k], output, op);
    }
    if exists i :: 0 <= i < |ch| && VisitCopies(source, ch[i], output, op) {
      var i :| 0 <= i < |ch| && VisitCopies(source, ch[i], output, op);
      assert k == i;
    }
  }

  /** Every copy of the walk starts below `source` and ends at the destination its file name alone fixes. */
  lemma PlanShape(source: Path, d: Entry, output: Path, op: CopyOp)
    requires d.Dir? && WellFormed(d) && op in FolderPlan(source, d, output)
    ensures |op.src| > |source| && op.src[..|source|] == source
    ensures op.dst == output + [Bucket(Last(op.src)), Last(op.src)]
  {
    PlanCount(source, d, output, op);
  }

  // ---------------------------------------------------------------------
  // Locality and failure isolation

  lemma {:induction false} GatherAppend(folder: Path, a: seq<Entry>, b: seq<Entry>, output: Path)
    ensures Gather(folder, a + b, output) == Gather(folder, a, output) + Gather(folder, b, output)
    decreases |b|
  {
    if b == [] {
      assert a + b == a;
    } else {
      var b0, x := b[..|b| - 1], b[|b| - 1];
      var ab := a + b;
      assert ab[..|ab| - 1] == a + b0 && ab[|ab| - 1] == x;
      GatherLast(folder, ab, output);
      GatherLast(folder, b, output);
      GatherAppend(folder, a, b0, output);
      Reassociate(Gather(folder, a, output), Gather(folder, b0, output), Visit(folder, x, output));
    }
  }

  /** The walk of non-empty entries is the walk of all but the last, then the last one's. */
  lemma GatherLast(folder: Path, es: seq<Entry>, output: Path)
    requires es != []
    ensures Gather(folder, es, output) == Gather(folder, es[..|es| - 1], output) + Visit(folder, es[|es| - 1], output)
  {
  }

  lemma Reassociate(p: seq<CopyOp>, q: seq<CopyOp>, r: seq<CopyOp>)
    ensures (p + q) + r == p + (q + r)
  {
  }

  /** The walk of entries split around position `i`. */
  lemma GatherSplit(folder: Path, es: seq<Entry>, i: nat, output: Path)
    requires i < |es|
    ensures Gather(folder, es, output) ==
      Gather(folder, es[..i], output) + Visit(folder, es[i], output) + Gather(folder, es[i + 1..], output)
  {
    var left := es[..i] + [es[i]];
    assert es == left + es[i + 1..];
    GatherAppend(folder, left, es[i + 1..], output);
    assert left[..|left| - 1] == es[..i];
    assert Gather(folder, left, output) == Gather(folder, es[..i], output) + Visit(folder, es[i], output);
  }

  /** The entry that `At` reaches through a non-empty path carries the last name of that path. */
  lemma {:induction false} AtName(e: Entry, rel: seq<Name>)
    requires |rel| > 0 && At(e, rel).Some?
    ensures At(e, rel).value.name == rel[|rel| - 1]
    decreases |rel|
  {
    var i := IndexOf(e.children, rel[0]);
    if |rel| > 1 {
      AtName(e.children[i], rel[1..]);
    }
  }

  /** One step of `At` through a directory whose walk gets past its loop. */
  lemma AtStep(d: Entry, rel: seq<Name>)
    requires |rel| > 0 && At(d, rel).Some?
    ensures Listed(d) && IndexOf(d.children, rel[0]) >= 0
    ensures At(d, rel) == At(d.children[IndexOf(d.children, rel[0])], rel[1..])
    ensures |rel| > 1 ==> Listed(d.children[IndexOf(d.children, rel[0])])
  {
  }

  /** The copies the walk of `d` at `source` makes before it reaches the entry at `rel`. */
  function Before(source: Path, d: Entry, rel: seq<Name>, output: Path): seq<CopyOp>
    requires |rel| > 0 && At(d, rel).Some?
    decreases |rel|
  {
    AtStep(d, rel);
    var i := IndexOf(d.children, rel[0]);
    Gather(source, d.children[..i], output) +
      (if |rel| == 1 then [] else Before(source + [rel[0]], d.children[i], rel[1..], output))
  }

  /** The copies the walk of `d` at `source` makes after it leaves the entry at `rel`. */
  function After(source: Path, d: Entry, rel: seq<Name>, output: Path): seq<CopyOp>
    requires |rel| > 0 && At(d, rel).Some?
    decreases |rel|
  {
    AtStep(d, rel);
    var i := IndexOf(d.children, rel[0]);
    (if |rel| == 1 then [] else After(source + [rel[0]], d.children[i], rel[1..], output)) +
      Gather(source, d.children[i + 1..], output)
  }

  /** The parent folder of `rel` below `source`, reached one name at a time. */
  lemma ParentStep(source: Path, rel: seq<Name>)
    requires |rel| > 1
    ensures source + [rel[0]] + rel[1..][..|rel| - 2] == source + rel[..|rel| - 1]
  {
    assert [rel[0]] + rel[1..][..|rel| - 2] == rel[..|rel| - 1];
  }

  /** A path below `source` is its parent folder followed by its last name. */
  lemma LastStep(source: Path, rel: seq<Name>)
    requires |rel| > 0
    ensures source + rel[..|rel| - 1] + [rel[|rel| - 1]] == source + rel
  {
    assert rel[..|rel| - 1] + [rel[|rel| - 1]] == rel;
  }

  /** The copies caused by one listed file. */
  lemma VisitOfFile(folder: Path, n: Name, fails: bool, output: Path)
    ensures Visit(folder, File(n, fails), output) ==
      if fails then [] else [CopyOp(folder + [n], Destination(output, n))]
  {
    assert Last(folder + [n]) == n;
  }

  lemma DropEmpty(p: seq<CopyOp>, q: seq<CopyOp>)
    ensures p + [] + q == p + q
  {
  }

  lemma Regroup(p: seq<CopyOp>, b: seq<CopyOp>, v: seq<CopyOp>, a: seq<CopyOp>, q: seq<CopyOp>)
    ensures p + (b + v + a) + q == (p + b) + v + (a + q)
  {
  }

  /**
   * Locality: the walk of a tree is the copies before the entry at `rel`,
   * then that entry's own copies, then the copies after it; replacing that
   * one entry changes only the middle part. Siblings and ancestors, and
   * the order of their copies, stay as they were.
   */
  lemma {:induction false} PlanLocality(source: Path, d: Entry, rel: seq<Name>, s: Entry, output: Path)
    requires d.Dir? && |rel| > 0 && At(d, rel).Some?
    requires s.name == At(d, rel).value.name && !s.Unclassifiable?
    ensures Replace(d, rel, s).Dir?
    ensures FolderPlan(source, d, output) ==
      Before(source, d, rel, output) + Visit(source + rel[..|rel| - 1], At(d, rel).value, output) + After(source, d, rel, output)
    ensures FolderPlan(source, Replace(d, rel, s), output) ==
      Before(source, d, rel, output) + Visit(source + rel[..|rel| - 1], s, output) + After(source, d, rel, output)
    decreases |rel|, 1
  {
    if |rel| == 1 {
      LocalityAtChild(source, d, rel, s, output);
    } else {
      LocalityBelowChild(source, d, rel, s, output);
    }
  }

  /** The walk of a listed directory, split around its child `i`, before and after that child is replaced. */
  lemma ChildSplit(source: Path, d: Entry, i: nat, c': Entry, output: Path)
    requires Listed(d) && i < |d.children| && !c'.Unclassifiable?
    ensures Listed(Dir(d.name, d.children[i := c'], d.listable))
    ensures FolderPlan(source, d, output) ==
      Gather(source, d.children[..i], output) + Visit(source, d.children[i], output) + Gather(source, d.children[i + 1..], output)
    ensures FolderPlan(source, Dir(d.name, d.children[i := c'], d.listable), output) ==
      Gather(source, d.children[..i], output) + Visit(source, c', output) + Gather(source, d.children[i + 1..], output)
  {
    var ch := d.children;
    GatherSplit(source, ch, i, output);
    GatherSplit(source, ch[i := c'], i, output);
    assert ch[i := c'][..i] == ch[..i] && ch[i := c'][i + 1..] == ch[i + 1..];
  }

  lemma LocalityAtChild(source: Path, d: Entry, rel: seq<Name>, s: Entry, output: Path)
    requires d.Dir? && |rel| == 1 && At(d, rel).Some?
    requires s.name == At(d, rel).value.name && !s.Unclassifiable?
    ensures Replace(d, rel, s).Dir?
    ensures FolderPlan(source, d, output) ==
      Before(source, d, rel, output) + Visit(source + rel[..|rel| - 1], At(d, rel).value, output) + After(source, d, rel, output)
    ensures FolderPlan(source, Replace(d, rel, s), output) ==
      Before(source, d, rel, output) + Visit(source + rel[..|rel| - 1], s, output) + After(source, d, rel, output)
  {
    AtStep(d, rel);
    var i := IndexOf(d.children, rel[0]);
    assert Replace(d, rel, s) == Dir(d.name, d.children[i := s], d.listable);
    ChildSplit(source, d, i, s, output);
    var here := source + rel[..|rel| - 1];
    assert here == source by {
      assert rel[..|rel| - 1] == [];
    }
    assert At(d, rel).value == d.children[i] by {
      assert rel[1..] == [];
    }
    var before, after := Gather(source, d.children[..i], output), Gather(source, d.children[i + 1..], output);
    assert Before(source, d, rel, output) == before by {
      assert before + [] == before;
    }
    assert After(source, d, rel, output) == after by {
      assert [] + after == after;
    }
  }

  lemma {:induction false} LocalityBelowChild(source: Path, d: Entry, rel: seq<Name>, s: Entry, output: Path)
    requires d.Dir? && |rel| > 1 && At(d, rel).Some?
    requires s.name == At(d, rel).value.name && !s.Unclassifiable?
    ensures Replace(d, rel, s).Dir?
    ensures FolderPlan(source, d, output) ==
      Before(source, d, rel, output) + Visit(source + rel[..|rel| - 1], At(d, rel).value, output) + After(source, d, rel, output)
    ensures FolderPlan(source, Replace(d, rel, s), output) ==
      Before(source, d, rel, output) + Visit(source + rel[..|rel| - 1], s, output) + After(source, d, rel, output)
    decreases |rel|, 0
  {
    var i := DescendStep(source, d, rel, output);
    var c, rest, inner := d.children[i], rel[1..], source + [rel[0]];
    var c' := Replace(c, rest, s);
    PlanLocality(inner, c, rest, s, output);
    ReplaceStep(d, rel, s, i);
    ChildSplit(source, d, i, c', output);
    VisitOfDir(source, c, output);
    VisitOfDir(source, c', output);
    var before, after := Gather(source, d.children[..i], output), Gather(source, d.children[i + 1..], output);
    var b, a := Before(inner, c, rest, output), After(inner, c, rest, output);
    Regroup(before, b, Visit(source + rel[..|rel| - 1], At(d, rel).value, output), a, after);
    Regroup(before, b, Visit(source + rel[..|rel| - 1], s, output), a, after);
  }

  /** One step down the path `rel`: the child it enters, and how the surrounding copies split there. */
  lemma DescendStep(source: Path, d: Entry, rel: seq<Name>, output: Path) returns (i: nat)
    requires |rel| > 1 && At(d, rel).Some?
    ensures Listed(d) && i < |d.children| && IndexOf(d.children, rel[0]) == i
    ensures d.children[i].Dir? && d.children[i].name == rel[0]
    ensures At(d.children[i], rel[1..]) == At(d, rel)
    ensures Before(source, d, rel, output) ==
      Gather(source, d.children[..i], output) + Before(source + [rel[0]], d.children[i], rel[1..], output)
    ensures After(source, d, rel, output) ==
      After(source + [rel[0]], d.children[i], rel[1..], output) + Gather(source, d.children[i + 1..], output)
    ensures source + [rel[0]] + rel[1..][..|rel[1..]| - 1] == source + rel[..|rel| - 1]
  {
    AtStep(d, rel);
    i := IndexOf(d.children, rel[0]);
    assert At(d.children[i], rel[1..]).Some?;
    ParentStep(source, rel);
  }

  /** Replacing below child `i` rebuilds `d` with only that child changed, under its old name. */
  lemma ReplaceStep(d: Entry, rel: seq<Name>, s: Entry, i: nat)
    requires d.Dir? && |rel| > 1 && i < |d.children| && IndexOf(d.children, rel[0]) == i && d.children[i].Dir?
    ensures Replace(d, rel, s) == Dir(d.name, d.children[i := Replace(d.children[i], rel[1..], s)], d.listable)
    ensures Replace(d.children[i], rel[1..], s).Dir? && Replace(d.children[i], rel[1..], s).name == d.children[i].name
  {
  }

  /** A listed directory entry is visited by walking it one level down. */
  lemma VisitOfDir(folder: Path, c: Entry, output: Path)
    requires c.Dir?
    ensures Visit(folder, c, output) == FolderPlan(folder + [c.name], c, output)
  {
  }

  /**
   * A failing copy removes only its own operation: if the file at `rel`
   * would be copied, making its copy raise drops exactly that one copy and
   * leaves every other copy, and their order, unchanged.
   */
  lemma FileFailureIsolated(source: Path, d: Entry, rel: seq<Name>, n: Name, output: Path)
    requires d.Dir? && |rel| > 0 && At(d, rel) == Some(File(n, false))
    ensures FolderPlan(source, d, output) ==
      Before(source, d, rel, output) + [CopyOp(source + rel, Destination(output, n))] + After(source, d, rel, output)
    ensures FolderPlan(source, Replace(d, rel, File(n, true)), output) ==
      Before(source, d, rel, output) + After(source, d, rel, output)
  {
    var b, a := Before(source, d, rel, output), After(source, d, rel, output);
    var here := source + rel[..|rel| - 1];
    assert FolderPlan(source, d, output) == b + [CopyOp(source + rel, Destination(output, n))] + a by {
      AtName(d, rel);
      LastStep(source, rel);
      PlanLocality(source, d, rel, File(n, true), output);
      VisitOfFile(here, n, false, output);
    }
    assert FolderPlan(source, Replace(d, rel, File(n, true)), output) == b + a by {
      PlanLocality(source, d, rel, File(n, true), output);
      VisitOfFile(here, n, true, output);
      DropEmpty(b, a);
    }
  }

  /**
   * A directory that cannot be listed loses only its own subtree: the walk
   * still returns normally and every copy outside that subtree is kept, in
   * order.
   */
  lemma UnlistableFolderIsolated(source: Path, d: Entry, rel: seq<Name>, output: Path)
    requires d.Dir? && |rel| > 0 && At(d, rel).Some? && At(d, rel).value.Dir?
    ensures FolderPlan(source, d, output) ==
      Before(source, d, rel, output) + FolderPlan(source + rel, At(d, rel).value, output) + After(source, d, rel, output)
    ensures FolderPlan(source, Replace(d, rel, At(d, rel).value.(listable := false)), output) ==
      Before(source, d, rel, output) + After(source, d, rel, output)
  {
    var sub := At(d, rel).value;
    AtName(d, rel);
    PlanLocality(source, d, rel, sub.(listable := false), output);
    LastStep(source, rel);
    var b, a := Before(source, d, rel, output), After(source, d, rel, output);
    DropEmpty(b, a);
  }

  /**
   * An entry that cannot be classified costs its whole directory, not just
   * itself: the raise leaves the loop before `gather`, so the directory's
   * other tasks never run. Everything outside that directory is kept.
   */
  lemma UnclassifiableEntryDropsFolder(source: Path, d: Entry, rel: seq<Name>, i: nat, output: Path)
    requires d.Dir? && |rel| > 0 && At(d, rel).Some? && At(d, rel).value.Dir?
    requires i < |At(d, rel).value.children|
    ensures FolderPlan(source, d, output) ==
      Before(source, d, rel, output) + FolderPlan(source + rel, At(d, rel).value, output) + After(source, d, rel, output)
    ensures var name := At(d, rel).value.children[i].name;
      FolderPlan(source, Replace(d, rel + [name], Unclassifiable(name)), output) ==
      Before(source, d, rel, output) + After(source, d, rel, output)
  {
    var sub := At(d, rel).value;
    var name := sub.children[i].name;
    var k := IndexOf(sub.children, name);
    var sub' := sub.(children := sub.children[k := Unclassifiable(name)]);
    ReplaceExtends(d, rel, name, Unclassifiable(name));
    assert k >= 0 && sub'.children[k].Unclassifiable?;
    assert !Listed(sub');
    AtName(d, rel);
    PlanLocality(source, d, rel, sub', output);
    LastStep(source, rel);
    var b, a := Before(source, d, rel, output), After(source, d, rel, output);
    DropEmpty(b, a);
  }

  /** Replacing a child of the directory at `rel` is replacing that directory by its edited copy. */
  lemma {:induction false} ReplaceExtends(d: Entry, rel: seq<Name>, n: Name, s: Entry)
    requires At(d, rel).Some? && At(d, rel).value.Dir? && IndexOf(At(d, rel).value.children, n) >= 0
    ensures var sub := At(d, rel).value;
      Replace(d, rel + [n], s) ==
      Replace(d, rel, sub.(children := sub.children[IndexOf(sub.children, n) := s]))
    decreases |rel|
  {
    if rel != [] {
      var i := IndexOf(d.children, rel[0]);
      assert (rel + [n])[0] == rel[0] && (rel + [n])[1..] == rel[1..] + [n];
      ReplaceExtends(d.children[i], rel[1..], n, s);
    }
  }
}
