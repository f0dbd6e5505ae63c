/** `PersistentSegmentTree` of persistent.py: a fixed partition of the slots
    `[0, size - 1]` and an append-only list of root nodes, one per
    version. Version `v` is `versions[v]`. */
module PersistentTree {
  import opened Wrappers
  import opened SegmentNode

  datatype Tree = Tree(size: int, versions: seq<Node>)

  /** The result of `update`: the tree with the new root appended, and the
      id of the new version. */
  datatype Updated = Updated(tree: Tree, version: int)

  /** `n` is a root over all slots of a tree of `size` slots. */
  predicate IsRoot(n: Node, size: int)
  {
    WellFormed(n) && n.lo == 0 && n.hi == size - 1
  }

  /** What every tree built by `__init__` and grown by `update` satisfies:
      at least one slot, at least one version, every root over all slots. */
  predicate Valid(t: Tree)
  {
    && t.size >= 1
    && |t.versions| >= 1
    && forall v :: 0 <= v < |t.versions| ==> IsRoot(t.versions[v], t.size)
  }

  /** `v` names an existing version. Python would also accept a negative
      `v` and wrap it around the list; the model does not. */
  predicate IsVersion(t: Tree, v: int)
  {
    0 <= v < |t.versions|
  }

  /** The slot values of version `v`, slot `i` at position `i`. */
  function Snapshot(t: Tree, v: int): (s: seq<Option<Value>>)
    requires Valid(t) && IsVersion(t, v)
    ensures |s| == t.size
  {
    Contents(t.versions[v])
  }

  /** `PersistentSegmentTree(size)`: one version, `0`, with every slot
      unset. `size < 1` makes `_build` recurse without end, hence the
      precondition. */
  function New(size: int): (t: Tree)
    requires size >= 1
    ensures Valid(t) && t.size == size
    ensures |t.versions| == 1
    ensures Snapshot(t, 0) == Unset(size)
  {
    Tree(size, [Build(0, size - 1)])
  }

  /** `update(version, idx, value)`: appends one new root, whose slots are
      those of `version` with slot `idx` set to `x`, and returns its id,
      the old number of versions. Every earlier root stays as it was. */
  function Update(t: Tree, version: int, idx: int, x: Option<Value>): (u: Updated)
    requires Valid(t) && IsVersion(t, version)
    requires 0 <= idx < t.size
    ensures Valid(u.tree) && u.tree.size == t.size
    ensures |u.tree.versions| == |t.versions| + 1
    ensures u.version == |t.versions|
    ensures u.tree.versions[..|t.versions|] == t.versions
    ensures Snapshot(u.tree, u.version) == Snapshot(t, version)[idx := x]
    ensures Shape(u.tree.versions[u.version]) == Shape(t.versions[version])
  {
    var root := UpdateNode(t.versions[version], idx, x);
    var t' := Tree(t.size, t.versions + [root]);
    assert t'.versions[..|t.versions|] == t.versions;
    Updated(t', |t'.versions| - 1)
  }

  /** `query(version, l, r)`: the values of the slots of `version` whose
      index lies in `[l, r]`, in ascending slot order. */
  function Query(t: Tree, version: int, l: int, r: int): (q: seq<Option<Value>>)
    requires Valid(t) && IsVersion(t, version)
    ensures q == Select(Snapshot(t, version), 0, l, r)
  {
    QueryNodeIsSelect(t.versions[version], l, r);
    QueryNode(t.versions[version], l, r)
  }

  /** The answer is the slice of slots `max(l, 0)` to `min(r, size - 1)`:
      bounds outside the tree are clipped, and `l > r` or a range that
      misses every slot gives the empty list. */
  lemma QueryIsSlice(t: Tree, version: int, l: int, r: int)
    requires Valid(t) && IsVersion(t, version)
    ensures var a, b := Max(l, 0), Min(r, t.size - 1);
      && (a <= b ==> Query(t, version, l, r) == Snapshot(t, version)[a..b + 1])
      && (a > b ==> Query(t, version, l, r) == [])
  {
    SelectIsClip(Snapshot(t, version), 0, l, r);
  }

  /** Persistence: an update leaves every existing version answering every
      query exactly as before. */
  lemma UpdatePreservesVersions(t: Tree, version: int, idx: int, x: Option<Value>, w: int, l: int, r: int)
    requires Valid(t) && IsVersion(t, version) && 0 <= idx < t.size
    requires IsVersion(t, w)
    ensures IsVersion(Update(t, version, idx, x).tree, w)
    ensures Query(Update(t, version, idx, x).tree, w, l, r) == Query(t, w, l, r)
  {
    var u := Update(t, version, idx, x);
    assert u.tree.versions[w] == u.tree.versions[..|t.versions|][w];
  }

  /** Point round trip: the new version holds `x` at slot `idx`. */
  lemma UpdateThenQuery(t: Tree, version: int, idx: int, x: Option<Value>)
    requires Valid(t) && IsVersion(t, version) && 0 <= idx < t.size
    ensures var u := Update(t, version, idx, x);
      Query(u.tree, u.version, idx, idx) == [x]
  {
    var u := Update(t, version, idx, x);
    QueryIsSlice(u.tree, u.version, idx, idx);
    assert Snapshot(u.tree, u.version)[idx..idx + 1] == [x];
  }

  /** Frame: every other slot of the new version reads as in the version
      it was made from. */
  lemma UpdateFrame(t: Tree, version: int, idx: int, x: Option<Value>, j: int)
    requires Valid(t) && IsVersion(t, version) && 0 <= idx < t.size
    requires 0 <= j < t.size && j != idx
    ensures var u := Update(t, version, idx, x);
      Query(u.tree, u.version, j, j) == Query(t, version, j, j)
  {
    var u := Update(t, version, idx, x);
    QueryIsSlice(u.tree, u.version, j, j);
    QueryIsSlice(t, version, j, j);
    assert Snapshot(u.tree, u.version)[j..j + 1] == [Snapshot(t, version)[j]];
    assert Snapshot(t, version)[j..j + 1] == [Snapshot(t, version)[j]];
  }

  /** The partition never changes: all versions of a valid tree have the
      same shape. */
  lemma AllVersionsShareShape(t: Tree, v: int, w: int)
    requires Valid(t) && IsVersion(t, v) && IsVersion(t, w)
    ensures Shape(t.versions[v]) == Shape(t.versions[w])
  {
    SameRangeSameShape(t.versions[v], t.versions[w]);
  }

  /** A query with `l > r` returns nothing, whatever the version. */
  lemma EmptyRange(t: Tree, version: int, l: int, r: int)
    requires Valid(t) && IsVersion(t, version) && l > r
    ensures Query(t, version, l, r) == []
  {
    QueryIsSlice(t, version, l, r);
  }

  /** The whole-range query of a fresh tree is `size` unset values. */
  lemma NewQueryAll(size: int)
    requires size >= 1
    ensures Query(New(size), 0, 0, size - 1) == Unset(size)
  {
    var t := New(size);
    assert Snapshot(t, 0) == Unset(size);
    WholeRange(t, 0);
  }

  /** Querying the whole slot range returns the full snapshot. */
  lemma WholeRange(t: Tree, version: int)
    requires Valid(t) && IsVersion(t, version)
    ensures Query(t, version, 0, t.size - 1) == Snapshot(t, version)
  {
    QueryIsSlice(t, version, 0, t.size - 1);
    assert Snapshot(t, version)[0..t.size] == Snapshot(t, version);
  }
}
