/** `FlightSearchBranchManager` of persistent.py: a fixed number of slots,
    one per recorded branch (a search's parameters and its result), kept in
    a persistent segment tree so that every earlier version of the results
    stays readable. Python's in-place updates become functions that return
    the new manager. */
module BranchManager {
  import opened Wrappers
  import opened SegmentNode
  import opened PersistentTree

  /** The search parameters of a branch (Python's `Dict[str, Any]`); the
      manager only stores them. */
  type Params

  /** The record `{'params': params, 'result': result}`. */
  datatype Branch = Branch(params: Params, result: Option<Value>)

  datatype Manager = Manager(
    maxBranches: int,
    tree: Tree,
    branchParams: seq<Option<Branch>>,
    currentVersion: int,
    nextIdx: int)

  /** The result of `add_branch`: the manager after the call and the id of
      the version it created. */
  datatype Added = Added(manager: Manager, version: int)

  /** Version `v` has every slot from `v` on unset. */
  predicate UnsetFrom(t: Tree, v: int)
    requires Valid(t) && IsVersion(t, v)
  {
    forall i :: v <= i < t.size ==> Snapshot(t, v)[i] == None
  }

  /** What `__init__` establishes and `add_branch` keeps. Besides the sizes
      of the tree and of `branch_params`, the counters move in lockstep:
      version `v` is the one made by the `v`-th `add_branch`, so there are
      `next_idx + 1` versions, `current_version` is `next_idx`, exactly the
      first `next_idx` records are filled, and version `v` has written no
      slot numbered `v` or above. */
  predicate Invariant(m: Manager)
  {
    && m.maxBranches >= 1
    && Valid(m.tree) && m.tree.size == m.maxBranches
    && |m.branchParams| == m.maxBranches
    && 0 <= m.nextIdx <= m.maxBranches
    && |m.tree.versions| == m.nextIdx + 1
    && m.currentVersion == m.nextIdx
    && (forall i :: 0 <= i < |m.branchParams| ==> (m.branchParams[i].Some? <==> i < m.nextIdx))
    && (forall v :: 0 <= v < |m.tree.versions| ==> UnsetFrom(m.tree, v))
  }

  /** `FlightSearchBranchManager(max_branches)`; Python's default argument
      is `max_branches=100`. A capacity below one makes
      the tree's `_build` recurse without end, hence the precondition. */
  function NewManager(maxBranches: int): (m: Manager)
    requires maxBranches >= 1
    ensures Invariant(m) && m.maxBranches == maxBranches
    ensures m.nextIdx == 0 && m.currentVersion == 0
    ensures |m.tree.versions| == 1 && Snapshot(m.tree, 0) == Unset(maxBranches)
  {
    var t := New(maxBranches);
    Manager(maxBranches, t, seq(maxBranches, _ => None), 0, 0)
  }

  /** `add_branch(params, result, from_version)`. `fromVersion == None`
      stands for omitting the argument (or passing `None`), which means
      `current_version`. When every slot is taken, `branch_params[idx]`
      raises `IndexError` before anything is changed and before
      `from_version` is looked at, so any `fromVersion` is accepted then. Otherwise slot
      `next_idx` gets the record and, in a new version made from
      `fromVersion`, the result; `next_idx` grows by one and
      `current_version` becomes the new version. */
  function AddBranch(m: Manager, params: Params, result: Option<Value>, fromVersion: Option<int>)
    : (res: Result<Added, Error>)
    requires Invariant(m)
    requires m.nextIdx < m.maxBranches && fromVersion.Some? ==> IsVersion(m.tree, fromVersion.value)
    ensures res.Failure? <==> m.nextIdx == m.maxBranches
    ensures res.Success? ==>
      var m', v, from := res.value.manager, res.value.version, fromVersion.GetOr(m.currentVersion);
      && Invariant(m')
      && m'.maxBranches == m.maxBranches
      && m'.nextIdx == m.nextIdx + 1
      && v == |m.tree.versions| && m'.currentVersion == v
      && m'.branchParams == m.branchParams[m.nextIdx := Some(Branch(params, result))]
      && m'.tree.size == m.tree.size
      && m'.tree.versions[..|m.tree.versions|] == m.tree.versions
      && Snapshot(m'.tree, v) == Snapshot(m.tree, from)[m.nextIdx := result]
  {
    var idx := m.nextIdx;
    if idx >= |m.branchParams| then
      Failure(IndexError)
    else
      var branchParams := m.branchParams[idx := Some(Branch(params, result))];
      var from := fromVersion.GetOr(m.currentVersion);
      var u := Update(m.tree, from, idx, result);
      var m' := Manager(m.maxBranches, u.tree, branchParams, u.version, idx + 1);
      AddBranchKeepsUnsetFrom(m, from, idx, result, u);
      Success(Added(m', u.version))
  }

  /** The new version writes slot `next_idx` onto a version that has every
      slot from its own id on unset, so it leaves every slot above
      `next_idx` unset; the older versions are untouched. */
  lemma AddBranchKeepsUnsetFrom(m: Manager, from: int, idx: int, x: Option<Value>, u: Updated)
    requires Invariant(m) && IsVersion(m.tree, from)
    requires idx == m.nextIdx < m.maxBranches
    requires u == Update(m.tree, from, idx, x)
    ensures forall v :: 0 <= v < |u.tree.versions| ==> UnsetFrom(u.tree, v)
  {
    forall v | 0 <= v < |u.tree.versions|
      ensures UnsetFrom(u.tree, v)
    {
      if v < |m.tree.versions| {
        assert u.tree.versions[v] == u.tree.versions[..|m.tree.versions|][v];
        assert Snapshot(u.tree, v) == Snapshot(m.tree, v);
        assert UnsetFrom(m.tree, v);
      } else {
        assert UnsetFrom(m.tree, from);
      }
    }
  }

  /** `get_branch_result(version, idx)`: the single element of
      `query(version, idx, idx)`. For a slot outside `[0, max_branches - 1]`
      the query is empty and taking its first element raises `IndexError`.
      A slot that no branch has taken reads as unset, not as an error. */
  function GetBranchResult(m: Manager, version: int, idx: int): (r: Result<Option<Value>, Error>)
    requires Invariant(m) && IsVersion(m.tree, version)
    ensures r.Failure? <==> !(0 <= idx < m.maxBranches)
    ensures r.Success? ==> r.value == Snapshot(m.tree, version)[idx]
  {
    var q := Query(m.tree, version, idx, idx);
    QueryIsSlice(m.tree, version, idx, idx);
    if |q| == 0 then Failure(IndexError) else Success(q[0])
  }

  /** `get_all_results(version)`: `query(version, 0, next_idx - 1)` with
      the manager's current `next_idx`, so one entry per slot taken so far,
      whatever version is asked for; empty when no branch exists. */
  function GetAllResults(m: Manager, version: int): (r: seq<Option<Value>>)
    requires Invariant(m) && IsVersion(m.tree, version)
    ensures |r| == m.nextIdx
    ensures forall i :: 0 <= i < |r| ==> GetBranchResult(m, version, i) == Success(r[i])
  {
    var q := Query(m.tree, version, 0, m.nextIdx - 1);
    QueryIsSlice(m.tree, version, 0, m.nextIdx - 1);
    q
  }

  /** Because `get_all_results` reads the current `next_idx`, asking for an
      old version `v` returns that version's first `v` slots (the slots
      taken when it was made) followed by one unset value for every slot
      taken since. */
  lemma GetAllResultsOfOldVersion(m: Manager, v: int)
    requires Invariant(m) && IsVersion(m.tree, v)
    ensures GetAllResults(m, v) == Snapshot(m.tree, v)[..v] + Unset(m.nextIdx - v)
  {
    var r := GetAllResults(m, v);
    var s := Snapshot(m.tree, v)[..v] + Unset(m.nextIdx - v);
    assert UnsetFrom(m.tree, v);
    forall i | 0 <= i < |r|
      ensures r[i] == s[i]
    {
      assert GetBranchResult(m, v, i) == Success(r[i]);
    }
  }

  /** The branch just added reads back from the new version. */
  lemma AddBranchThenGet(m: Manager, params: Params, result: Option<Value>, fromVersion: Option<int>)
    requires Invariant(m) && m.nextIdx < m.maxBranches
    requires fromVersion.Some? ==> IsVersion(m.tree, fromVersion.value)
    ensures var a := AddBranch(m, params, result, fromVersion).value;
      GetBranchResult(a.manager, a.version, m.nextIdx) == Success(result)
  {
  }

  /** Every other slot of the new version reads as in the version it was
      forked from. */
  lemma AddBranchFrame(m: Manager, params: Params, result: Option<Value>, fromVersion: Option<int>, j: int)
    requires Invariant(m) && m.nextIdx < m.maxBranches
    requires fromVersion.Some? ==> IsVersion(m.tree, fromVersion.value)
    requires j != m.nextIdx
    ensures var a := AddBranch(m, params, result, fromVersion).value;
      GetBranchResult(a.manager, a.version, j)
        == GetBranchResult(m, fromVersion.GetOr(m.currentVersion), j)
  {
  }

  /** Adding a branch, from whichever version, leaves every existing
      version reading exactly as before, slot by slot. */
  lemma AddBranchPreservesVersions(m: Manager, params: Params, result: Option<Value>, fromVersion: Option<int>, w: int, j: int)
    requires Invariant(m) && m.nextIdx < m.maxBranches
    requires fromVersion.Some? ==> IsVersion(m.tree, fromVersion.value)
    requires IsVersion(m.tree, w)
    ensures var a := AddBranch(m, params, result, fromVersion).value;
      && IsVersion(a.manager.tree, w)
      && GetBranchResult(a.manager, w, j) == GetBranchResult(m, w, j)
  {
    var a := AddBranch(m, params, result, fromVersion).value;
    assert a.manager.tree.versions[w] == a.manager.tree.versions[..|m.tree.versions|][w];
  }
}
