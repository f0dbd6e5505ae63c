/** Two concrete runs of the tree and of the branch manager, worked out
    from the general contracts. Each run is first proved for any state with
    the observable properties of a fresh one, then for the fresh state
    itself. */
module Scenarios {
  import opened Wrappers
  import opened SegmentNode
  import opened PersistentTree
  import opened BranchManager

  /** What the four-slot run observes. */
  ghost predicate FourSlotRun(t0: Tree, a: Value, b: Value)
    requires Valid(t0) && t0.size == 4 && |t0.versions| == 1
  {
    var u1 := Update(t0, 0, 0, Some(a));
    var u2 := Update(u1.tree, u1.version, 2, Some(b));
    && u1.version == 1 && u2.version == 2
    && Query(u2.tree, 0, 0, 3) == [None, None, None, None]
    && Query(u2.tree, 1, 0, 3) == [Some(a), None, None, None]
    && Query(u2.tree, 2, 0, 3) == [Some(a), None, Some(b), None]
  }

  lemma FourSlotRunFrom(t0: Tree, a: Value, b: Value)
    requires Valid(t0) && t0.size == 4 && |t0.versions| == 1
    requires Snapshot(t0, 0) == Unset(4)
    ensures FourSlotRun(t0, a, b)
  {
    var u1 := Update(t0, 0, 0, Some(a));
    var u2 := Update(u1.tree, u1.version, 2, Some(b));
    assert Snapshot(u1.tree, 1) == [Some(a), None, None, None];
    assert Snapshot(u2.tree, 2) == [Some(a), None, Some(b), None];
    assert u2.tree.versions[0] == u2.tree.versions[..2][0] == t0.versions[0];
    assert u2.tree.versions[1] == u2.tree.versions[..2][1];
    WholeRange(u2.tree, 0);
    WholeRange(u2.tree, 1);
    WholeRange(u2.tree, 2);
  }

  /** A four-slot tree: version 1 sets slot 0 to `a` on version 0, version 2
      sets slot 2 to `b` on version 1. Each version keeps its own values. */
  lemma FourSlotTree(a: Value, b: Value)
    ensures FourSlotRun(New(4), a, b)
  {
    FourSlotRunFrom(New(4), a, b);
  }

  /** What the two-slot run observes: the first branch takes slot 0 in
      version 1; the second, forked from version 0, takes slot 1 (the next
      free slot, not slot 0) in version 2, where slot 0 is still unset;
      version 1 is unchanged; a third branch finds no free slot. */
  ghost predicate TwoSlotRun(m0: Manager, p1: Params, x1: Value, p2: Params, x2: Value, p3: Params, x3: Value)
    requires Invariant(m0) && m0.maxBranches == 2 && m0.nextIdx == 0
  {
    var a1 := AddBranch(m0, p1, Some(x1), None);
    && a1.Success? && a1.value.version == 1
    && var m1 := a1.value.manager;
    var a2 := AddBranch(m1, p2, Some(x2), Some(0));
    && a2.Success? && a2.value.version == 2
    && var m2 := a2.value.manager;
    && GetBranchResult(m2, 1, 0) == Success(Some(x1))
    && GetBranchResult(m2, 2, 0) == Success(None)
    && GetBranchResult(m2, 2, 1) == Success(Some(x2))
    && GetAllResults(m2, 1) == [Some(x1), None]
    && GetAllResults(m2, 2) == [None, Some(x2)]
    && AddBranch(m2, p3, Some(x3), None) == Failure(IndexError)
  }

  lemma TwoSlotRunFrom(m0: Manager, p1: Params, x1: Value, p2: Params, x2: Value, p3: Params, x3: Value)
    requires Invariant(m0) && m0.maxBranches == 2 && m0.nextIdx == 0
    ensures TwoSlotRun(m0, p1, x1, p2, x2, p3, x3)
  {
    var a1 := AddBranch(m0, p1, Some(x1), None);
    FirstBranch(m0, p1, x1);
    var m1 := a1.value.manager;
    var a2 := AddBranch(m1, p2, Some(x2), Some(0));
    ForkFromZero(m1, p2, x2, x1);
    var m2 := a2.value.manager;
    ReadTwoSlots(m2, 1, x1);
    ReadTwoSlots(m2, 2, x2);
  }

  /** The first branch of a fresh two-slot manager fills slot 0 in
      version 1 and leaves version 0 unset. */
  lemma FirstBranch(m0: Manager, p1: Params, x1: Value)
    requires Invariant(m0) && m0.maxBranches == 2 && m0.nextIdx == 0
    ensures var a1 := AddBranch(m0, p1, Some(x1), None);
      && a1.Success? && a1.value.version == 1
      && var m1 := a1.value.manager;
      && Invariant(m1) && m1.maxBranches == 2 && m1.nextIdx == 1
      && Snapshot(m1.tree, 0) == [None, None]
      && Snapshot(m1.tree, 1) == [Some(x1), None]
  {
    var a1 := AddBranch(m0, p1, Some(x1), None);
    var m1 := a1.value.manager;
    assert UnsetFrom(m0.tree, 0);
    assert Snapshot(m0.tree, 0) == [None, None];
    assert m1.tree.versions[0] == m1.tree.versions[..1][0];
  }

  /** A second branch forked from version 0 takes slot 1, not slot 0, and
      leaves version 1 as it was. */
  lemma ForkFromZero(m1: Manager, p2: Params, x2: Value, x1: Value)
    requires Invariant(m1) && m1.maxBranches == 2 && m1.nextIdx == 1
    requires Snapshot(m1.tree, 0) == [None, None]
    requires Snapshot(m1.tree, 1) == [Some(x1), None]
    ensures var a2 := AddBranch(m1, p2, Some(x2), Some(0));
      && a2.Success? && a2.value.version == 2
      && var m2 := a2.value.manager;
      && Invariant(m2) && m2.maxBranches == 2 && m2.nextIdx == 2
      && Snapshot(m2.tree, 1) == [Some(x1), None]
      && Snapshot(m2.tree, 2) == [None, Some(x2)]
  {
    var a2 := AddBranch(m1, p2, Some(x2), Some(0));
    var m2 := a2.value.manager;
    assert m2.tree.versions[1] == m2.tree.versions[..2][1];
  }

  /** Reading a full two-slot manager: each slot and the whole list. */
  lemma ReadTwoSlots(m: Manager, v: int, x: Value)
    requires Invariant(m) && m.maxBranches == 2 && m.nextIdx == 2 && IsVersion(m.tree, v)
    requires Snapshot(m.tree, v) == [Some(x), None] || Snapshot(m.tree, v) == [None, Some(x)]
    ensures GetBranchResult(m, v, 0) == Success(Snapshot(m.tree, v)[0])
    ensures GetBranchResult(m, v, 1) == Success(Snapshot(m.tree, v)[1])
    ensures GetAllResults(m, v) == Snapshot(m.tree, v)
  {
    var r := GetAllResults(m, v);
    assert GetBranchResult(m, v, 0) == Success(r[0]);
    assert GetBranchResult(m, v, 1) == Success(r[1]);
  }

  /** The run on a freshly constructed two-slot manager. */
  lemma TwoSlotManager(p1: Params, x1: Value, p2: Params, x2: Value, p3: Params, x3: Value)
    ensures TwoSlotRun(NewManager(2), p1, x1, p2, x2, p3, x3)
  {
    TwoSlotRunFrom(NewManager(2), p1, x1, p2, x2, p3, x3);
  }
}
