# Persistent segment tree and flight-search branch manager

This project models the data-structure core of `persistent.py`:

- `PersistentSegmentTree` is a fully persistent segment tree over the slots `[0, size - 1]`.
  - `_build` splits each range at `(l + r) // 2` until every leaf covers one slot. Every leaf starts as `None`.
  - `update(version, idx, value)` copies only the root-to-leaf path towards `idx`. It reuses every other subtree of the parent version, appends the new root to `versions`, and returns the new version id.
  - `query(version, l, r)` prunes subtrees disjoint from `[l, r]`. It returns the values of the remaining leaves in ascending slot order. Internal nodes hold no aggregate.
- `FlightSearchBranchManager` is a fixed-capacity registry on top of the tree. Each `add_branch` takes the next free slot, records `{params, result}` there, writes `result` into a new version of the tree made from `from_version` (by default `current_version`), and advances the counters. `get_branch_result` and `get_all_results` are range queries on the tree.

The model is functional. Nodes are an immutable `Node` datatype. A tree is a value holding its size and its list of roots. The manager is a record, and each operation returns a new state. Stored values and branch parameters are abstract types, `Value` and `Params`, because the code never inspects them. A slot holds an `Option<Value>`, where `None` is Python's `None`. An unset leaf holds `None`, and a caller may also store `None`.

Files:

- `wrappers.dfy`: `Option`, `Result`, and the `IndexError` the code can raise.
- `segment_node.dfy` (module `SegmentNode`): nodes, `_build`, `_update` and `_query`. It also holds the reference meanings used to state their contracts:
  - `Contents`: the leaf values, left to right.
  - `Shape`: the partition, with values erased.
  - `Select` and `Clip`: the slots a range query should return.
- `persistent_tree.dfy` (module `PersistentTree`): the versioned tree, with `New`, `Update` and `Query`.
- `branch_manager.dfy` (module `BranchManager`): the manager, with `NewManager`, `AddBranch`, `GetBranchResult` and `GetAllResults`.
- `scenarios.dfy` (module `Scenarios`): two worked runs, proved from the contracts.

## Behaviour of the code

These behaviours of the code are easy to miss. The model states each one:

- `get_all_results(version)` queries `[0, next_idx - 1]` using the manager's current `next_idx`, whichever version is asked for. `BranchManager.GetAllResultsOfOldVersion` proves what this returns for an old version `v`: the first `v` slots of `v`, then one `None` for every slot taken since.
- `get_branch_result` does not distinguish slots. A slot in range that no branch has taken reads as `None`. A slot outside `[0, max_branches - 1]` makes `query` return `[]`, and `[0]` at line 99 then raises `IndexError`.
- With every slot taken, `add_branch` raises `IndexError` at line 90, in `branch_params[idx] = ...`. At that point nothing has changed and `from_version` has not been read.
- A fork does not reuse a slot. In the two-slot run the second branch is forked from version 0, but it still takes slot 1, the current `next_idx`. Slot 0 of the new version is therefore `None`. `Scenarios.TwoSlotManager` proves this.

## Model

| member | source | states |
|---|---|---|
| `SegmentNode.Build` | persistent.py:43-49 | `_build(lo, hi)` returns a well-formed node over exactly `[lo, hi]`. Each node is a leaf exactly when its range is one slot, and otherwise splits at `(lo + hi) // 2` into `[lo, m]` and `[m + 1, hi]`. All its `hi - lo + 1` leaves are `None`. |
| `SegmentNode.LeafIffSingleIndex` | persistent.py:44-45 | In a well-formed node, being a leaf is the same as `left == right`. |
| `SegmentNode.ShapeIsBuild` | persistent.py:43-49 | Every well-formed node over `[lo, hi]` has exactly the partition `_build(lo, hi)` creates, whatever its leaf values. |
| `SegmentNode.SameRangeSameShape` | persistent.py:43-49 | Two well-formed nodes over the same range have the same partition. |
| `SegmentNode.UpdateNode` | persistent.py:56-65 | `_update` keeps the node's range and its whole shape. Its leaves are the old leaves with exactly the one at `idx` replaced by the new value. |
| `SegmentNode.UpdateKeepsSibling` | persistent.py:59-65 | The one-level case of `UpdateSharesOffPath`. At a node on the path, the child the update does not descend into is the parent version's child, unchanged. `UpdateSharesOffPath` carries the sharing property for whole subtrees. |
| `SegmentNode.UpdateSharesOffPath` | persistent.py:56-65 | The old and the new root contain exactly the same subtrees among those whose range does not contain `idx`. Only the path to `idx` is new. |
| `SegmentNode.QueryNodeIsSelect` | persistent.py:70-78 | `_query(node, l, r)` returns the value of every leaf whose slot lies in `[l, r]`, once each, in ascending slot order, and nothing else. |
| `SegmentNode.SelectIsClip` | persistent.py:70-78 | The leaves a range query selects are the contiguous run from slot `max(l, lo)` to slot `min(r, hi)`. The run is empty when that range is empty. |
| `PersistentTree.New` | persistent.py:38-41 | A new tree of `size >= 1` slots has exactly one version, `0`. Its root covers `[0, size - 1]`, and all its slots are `None`. |
| `PersistentTree.Update` | persistent.py:51-54 | `update` appends exactly one root and returns the old number of versions, which is the new last id. Every earlier root is unchanged. The new version holds the parent's slots with slot `idx` set to the value, and it has the parent's shape. |
| `PersistentTree.Query` | persistent.py:67-68 | `query(version, l, r)` returns the values of that version's slots whose index lies in `[l, r]`, in ascending order. |
| `PersistentTree.QueryIsSlice` | persistent.py:67-78 | The answer is the slice of slots `max(l, 0)` to `min(r, size - 1)`. It is `[]` when `l > r` or when the range misses `[0, size - 1]`. |
| `PersistentTree.EmptyRange` | persistent.py:70-72 | `query` with `l > r` returns `[]` for every version. |
| `PersistentTree.NewQueryAll` | persistent.py:38-49 | On a new tree, `query(0, 0, size - 1)` is `size` copies of `None`. |
| `PersistentTree.WholeRange` | persistent.py:67-78 | Querying `[0, size - 1]` returns every slot of the version, in order. |
| `PersistentTree.UpdatePreservesVersions` | persistent.py:51-54 | After an update, every version that already existed answers every query exactly as before. |
| `PersistentTree.UpdateThenQuery` | persistent.py:51-78 | If `v'` is `update(v, idx, x)`, then `query(v', idx, idx) == [x]`. |
| `PersistentTree.UpdateFrame` | persistent.py:56-65 | For every other slot `j`, `query(v', j, j)` equals `query(v, j, j)`. |
| `PersistentTree.AllVersionsShareShape` | persistent.py:56-65 | All versions of a tree have the same partition into ranges. Only leaf values differ. |
| `BranchManager.NewManager` | persistent.py:82-86 | A new manager has `next_idx == 0`, `current_version == 0` and one version. All slots are `None`, and so is every record. |
| `BranchManager.AddBranch` | persistent.py:88-96 | `add_branch` raises `IndexError`, changing nothing, exactly when every slot is taken. Otherwise it makes exactly these changes: record `next_idx` is set to `{params, result}`; one version is appended, holding the slots of `from_version` (default `current_version`) with slot `next_idx` set to `result`; `next_idx` grows by 1; `current_version` becomes the new id. Earlier versions and the capacity are unchanged, and the manager invariant is kept. |
| `BranchManager.AddBranchThenGet` | persistent.py:88-99 | The new version reads back `result` at the slot `add_branch` just took. |
| `BranchManager.AddBranchFrame` | persistent.py:88-96 | Every other slot of the new version reads as in the version it was forked from. |
| `BranchManager.AddBranchPreservesVersions` | persistent.py:88-96 | Adding a branch from any version leaves every existing version reading the same, slot by slot. |
| `BranchManager.GetBranchResult` | persistent.py:98-99 | `get_branch_result(v, idx)` is slot `idx` of version `v` when `0 <= idx < max_branches`. Otherwise it raises `IndexError`. |
| `BranchManager.GetAllResults` | persistent.py:101-102 | `get_all_results(v)` has as many entries as the manager's current `next_idx`. Entry `i` is `get_branch_result(v, i)`. |
| `BranchManager.GetAllResultsOfOldVersion` | persistent.py:101-102 | For version `v`, the result is the first `v` slots of `v` followed by `next_idx - v` copies of `None`, because version `v` has written no slot numbered `v` or above. |
| `Scenarios.FourSlotTree` | persistent.py:38-78 | Start with 4 slots. Set slot 0 to `a` (version 1), then slot 2 to `b` on version 1 (version 2). The whole-range queries of versions 0, 1 and 2 are then `[None]*4`, `[a, None, None, None]` and `[a, None, b, None]`. |
| `Scenarios.TwoSlotManager` | persistent.py:82-102 | Start with 2 slots. The first branch gives version 1, with slot 0 set. A second branch forked from version 0 gives version 2, whose slot 1 holds its result and whose slot 0 is `None`. Version 1 is unchanged, and a third branch raises `IndexError`. |

## Left out

- The rest of persistent.py is left out: `main`, `wrap_flight_tool` and the loop that patches the tools. They are asynchronous glue over an agent framework and an MCP client.
- The module-level singleton `flight_branch_manager` is left out. The model constructs managers explicitly with `NewManager`, whose capacity argument replaces Python's default of 100.
- server.py and cerebras.py are not part of this model. They cover network calls, token fetches, tool registration and language-model setup.
- Object identity and allocation counts are left out. Structural sharing is stated as equality of the subtrees off the updated path, not as pointer identity.
- Internal nodes carry no value. The Python code gives them `value=None` and copies it unchanged, so it is never observable.
- PersistentTree.Update: requires `0 <= idx < size`. For an out-of-range `idx`, Python's `_update` silently writes the nearest end leaf; the model does not describe that.
- PersistentTree.Update: requires `0 <= version < len(versions)`. `Query`, `GetBranchResult`, `GetAllResults` and the `from_version` of `AddBranch` have the same requirement. Python would wrap a negative id around the list and raise `IndexError` on a too-large one.
- PersistentTree.New: requires `size >= 1`. `NewManager` requires `max_branches >= 1`. A smaller size makes `_build` recurse until Python's stack overflows.
- BranchManager.AddBranch: requires a valid `from_version` when a slot is free. (A full manager raises `IndexError` first, whatever `from_version` is, and the model covers that case.) With a free slot, an invalid `from_version` would fail in Python inside `tree.update`, after `branch_params[idx]` has already been written. The model does not describe that half-done state.
