/** The nodes of the persistent segment tree (`PersistentSegmentTreeNode` and
    the recursive helpers `_build`, `_update` and `_query` of
    `PersistentSegmentTree` in persistent.py).

    A node covers the index range `[lo, hi]`. Leaves cover one index and
    hold a value; internal nodes hold no value and split their range at
    `Mid(lo, hi)`. Nodes are values: "sharing" a subtree between two
    versions is stated as the subtree being equal in both. */
module SegmentNode {
  import opened Wrappers

  /** Whatever a caller stores in a slot (Python's `Any`). The tree never
      inspects it, so the model leaves it abstract. */
  type Value

  datatype Node =
    | Leaf(lo: int, hi: int, value: Option<Value>)
    | Internal(lo: int, hi: int, left: Node, right: Node)

  /** The split point `(l + r) // 2`. Python's `//` rounds toward minus
      infinity; Dafny's `/` is Euclidean, and the two agree for every
      dividend when the divisor is positive. */
  function Mid(lo: int, hi: int): int
  {
    (lo + hi) / 2
  }

  /** The shape every node built by `_build` has: a leaf exactly when the
      range is a single index, otherwise two children covering
      `[lo, Mid]` and `[Mid + 1, hi]`. */
  predicate WellFormed(n: Node)
  {
    match n
    case Leaf(lo, hi, _) => lo == hi
    case Internal(lo, hi, a, b) =>
      && lo < hi
      && a.lo == lo && a.hi == Mid(lo, hi)
      && b.lo == Mid(lo, hi) + 1 && b.hi == hi
      && WellFormed(a) && WellFormed(b)
  }

  /** A well-formed node is a leaf exactly when its range is one index,
      so the test `node.left == node.right` in `_build` and `_update` tells
      the two kinds apart. */
  lemma LeafIffSingleIndex(n: Node)
    requires WellFormed(n)
    ensures n.Leaf? <==> n.lo == n.hi
  {
  }

  /** `k` unset slots. */
  function Unset(k: nat): seq<Option<Value>>
  {
    seq(k, _ => None)
  }

  /** Reference meaning of a node: the values of its leaves, left to right.
      For a well-formed node, element `i - lo` is the value at index `i`. */
  function Contents(n: Node): (s: seq<Option<Value>>)
    ensures WellFormed(n) ==> |s| == n.hi - n.lo + 1
  {
    match n
    case Leaf(_, _, x) => [x]
    case Internal(_, _, a, b) => Contents(a) + Contents(b)
  }

  /** `_build(l, r)`: the tree over `[lo, hi]` with every leaf unset. */
  function Build(lo: int, hi: int): (n: Node)
    requires lo <= hi
    ensures WellFormed(n) && n.lo == lo && n.hi == hi
    ensures Contents(n) == Unset(hi - lo + 1)
    decreases hi - lo
  {
    if lo == hi then
      Leaf(lo, hi, None)
    else
      var m := Mid(lo, hi);
      var a: Node := Build(lo, m);
      var b: Node := Build(m + 1, hi);
      assert Contents(a) + Contents(b) == Unset(hi - lo + 1);
      Internal(lo, hi, a, b)
  }

  /** The same node with every leaf value erased: what remains is the
      partition of the range, which no update may change. */
  function Shape(n: Node): Node
  {
    match n
    case Leaf(lo, hi, _) => Leaf(lo, hi, None)
    case Internal(lo, hi, a, b) => Internal(lo, hi, Shape(a), Shape(b))
  }

  /** The partition is static: a well-formed node over `[lo, hi]` has
      exactly the shape that `_build(lo, hi)` produces. */
  lemma {:induction false} ShapeIsBuild(n: Node)
    requires WellFormed(n)
    ensures Shape(n) == Build(n.lo, n.hi)
  {
    match n
    case Leaf(_, _, _) =>
    case Internal(lo, hi, a, b) =>
      ShapeIsBuild(a);
      ShapeIsBuild(b);
  }

  /** Two well-formed nodes over the same range have the same shape. */
  lemma {:induction false} SameRangeSameShape(n: Node, n': Node)
    requires WellFormed(n) && WellFormed(n')
    requires n.lo == n'.lo && n.hi == n'.hi
    ensures Shape(n) == Shape(n')
  {
    match n
    case Leaf(_, _, _) =>
    case Internal(_, _, a, b) =>
      SameRangeSameShape(a, n'.left);
      SameRangeSameShape(b, n'.right);
  }

  /** `_update(node, idx, value)`: a copy of the root-to-leaf path towards
      `idx`, with the leaf replaced by one holding `x` and every sibling off
      the path taken over unchanged from `n`. */
  function UpdateNode(n: Node, idx: int, x: Option<Value>): (r: Node)
    requires WellFormed(n) && n.lo <= idx <= n.hi
    ensures WellFormed(r) && r.lo == n.lo && r.hi == n.hi
    ensures Shape(r) == Shape(n)
    ensures Contents(r) == Contents(n)[idx - n.lo := x]
  {
    match n
    case Leaf(lo, hi, _) =>
      Leaf(lo, hi, x)
    case Internal(lo, hi, a, b) =>
      if idx <= Mid(lo, hi) then
        var a' := UpdateNode(a, idx, x);
        UpdateConcat(Contents(a), Contents(b), idx - lo, x);
        Internal(lo, hi, a', b)
      else
        var b' := UpdateNode(b, idx, x);
        UpdateConcat(Contents(a), Contents(b), idx - lo, x);
        Internal(lo, hi, a, b')
  }

  /** Updating one element of a concatenation updates the half it falls in. */
  lemma UpdateConcat<T>(s: seq<T>, t: seq<T>, i: int, x: T)
    requires 0 <= i < |s| + |t|
    ensures i < |s| ==> (s + t)[i := x] == s[i := x] + t
    ensures i >= |s| ==> (s + t)[i := x] == s + t[i - |s| := x]
  {
    if i < |s| {
      assert (s + t)[i := x] == s[i := x] + t;
    } else {
      assert (s + t)[i := x] == s + t[i - |s| := x];
    }
  }

  /** `s` occurs somewhere in `n` (possibly as `n` itself). */
  ghost predicate Subtree(s: Node, n: Node)
  {
    s == n ||
    match n
    case Leaf(_, _, _) => false
    case Internal(_, _, a, b) => Subtree(s, a) || Subtree(s, b)
  }

  /** Structural sharing: the old and the new root have exactly the same
      subtrees among those whose range does not contain `idx`. Only the
      nodes on the path to `idx` are new. */
  lemma {:induction false} UpdateSharesOffPath(n: Node, idx: int, x: Option<Value>, s: Node)
    requires WellFormed(n) && n.lo <= idx <= n.hi
    requires !(s.lo <= idx <= s.hi)
    ensures Subtree(s, n) <==> Subtree(s, UpdateNode(n, idx, x))
  {
    match n
    case Leaf(_, _, _) =>
    case Internal(lo, hi, a, b) =>
      if idx <= Mid(lo, hi) {
        UpdateSharesOffPath(a, idx, x, s);
      } else {
        UpdateSharesOffPath(b, idx, x, s);
      }
  }

  /** The child of each path node that the update does not descend into is
      the very subtree of the parent version. */
  lemma UpdateKeepsSibling(n: Node, idx: int, x: Option<Value>)
    requires WellFormed(n) && n.lo <= idx <= n.hi && n.Internal?
    ensures idx <= Mid(n.lo, n.hi) ==> UpdateNode(n, idx, x).right == n.right
    ensures idx > Mid(n.lo, n.hi) ==> UpdateNode(n, idx, x).left == n.left
  {
  }

  /** `_query(node, l, r)`. A subtree disjoint from `[l, r]` contributes
      nothing; otherwise a leaf (which is then inside `[l, r]`) contributes
      its value and an internal node the answers of both children, whether
      or not it lies wholly inside `[l, r]`, since internal nodes hold no
      aggregate. */
  function QueryNode(n: Node, l: int, r: int): seq<Option<Value>>
    requires WellFormed(n)
  {
    if n.hi < l || n.lo > r then
      []
    else
      match n
      case Leaf(_, _, x) => [x]
      case Internal(_, _, a, b) => QueryNode(a, l, r) + QueryNode(b, l, r)
  }

  /** Reference meaning of a range query over the values `s`, whose first
      element sits at index `lo`: the elements whose index lies in
      `[l, r]`, in ascending index order. */
  function Select(s: seq<Option<Value>>, lo: int, l: int, r: int): seq<Option<Value>>
    decreases |s|
  {
    if |s| == 0 then []
    else if l <= lo <= r then [s[0]] + Select(s[1..], lo + 1, l, r)
    else Select(s[1..], lo + 1, l, r)
  }

  /** Selecting from a concatenation is concatenating the selections. */
  lemma {:induction false} SelectConcat(s: seq<Option<Value>>, t: seq<Option<Value>>, lo: int, l: int, r: int)
    ensures Select(s + t, lo, l, r) == Select(s, lo, l, r) + Select(t, lo + |s|, l, r)
    decreases |s|
  {
    if |s| > 0 {
      assert (s + t)[1..] == s[1..] + t;
      SelectConcat(s[1..], t, lo + 1, l, r);
    } else {
      assert s + t == t;
    }
  }

  /** Nothing is selected when no index of `s` lies in `[l, r]`. */
  lemma {:induction false} SelectDisjoint(s: seq<Option<Value>>, lo: int, l: int, r: int)
    requires lo + |s| - 1 < l || lo > r
    ensures Select(s, lo, l, r) == []
    decreases |s|
  {
    if |s| > 0 {
      SelectDisjoint(s[1..], lo + 1, l, r);
    }
  }

  /** `_query` returns, in ascending index order, the value of every leaf
      of `n` whose index lies in `[l, r]`, and nothing else. */
  lemma {:induction false} QueryNodeIsSelect(n: Node, l: int, r: int)
    requires WellFormed(n)
    ensures QueryNode(n, l, r) == Select(Contents(n), n.lo, l, r)
  {
    match n
    case Leaf(lo, hi, x) =>
      if hi < l || lo > r {
        SelectDisjoint(Contents(n), lo, l, r);
      } else {
        assert Contents(n)[1..] == [];
      }
    case Internal(lo, hi, a, b) =>
      if hi < l || lo > r {
        SelectDisjoint(Contents(n), lo, l, r);
      } else {
        QueryNodeIsSelect(a, l, r);
        QueryNodeIsSelect(b, l, r);
        SelectConcat(Contents(a), Contents(b), lo, l, r);
      }
  }

  function Max(a: int, b: int): int { if a < b then b else a }
  function Min(a: int, b: int): int { if a < b then a else b }

  /** The slice of `s`, whose first element sits at index `lo`, from
      index `max(l, lo)` to index `min(r, hi)`, where `hi` is the index of
      the last element; empty when that range is. */
  function Clip(s: seq<Option<Value>>, lo: int, l: int, r: int): seq<Option<Value>>
  {
    var a, b := Max(l, lo), Min(r, lo + |s| - 1);
    if a <= b then s[a - lo..b - lo + 1] else []
  }

  /** A range query selects exactly one contiguous slice. */
  lemma {:induction false} SelectIsClip(s: seq<Option<Value>>, lo: int, l: int, r: int)
    ensures Select(s, lo, l, r) == Clip(s, lo, l, r)
    decreases |s|
  {
    if |s| == 0 {
    } else if lo > r {
      SelectDisjoint(s, lo, l, r);
    } else if lo < l {
      SelectIsClip(s[1..], lo + 1, l, r);
      ClipSkip(s, lo, l, r);
    } else {
      SelectIsClip(s[1..], lo + 1, l, r);
      ClipTake(s, lo, l, r);
    }
  }

  lemma ClipSkip(s: seq<Option<Value>>, lo: int, l: int, r: int)
    requires |s| > 0 && lo < l
    ensures Clip(s, lo, l, r) == Clip(s[1..], lo + 1, l, r)
  {
    var a, b := Max(l, lo), Min(r, lo + |s| - 1);
    assert a == Max(l, lo + 1) && |s[1..]| == |s| - 1;
    if a <= b {
      assert Clip(s, lo, l, r) == s[a - lo..b - lo + 1];
      assert Clip(s[1..], lo + 1, l, r) == s[1..][a - lo - 1..b - lo];
      assert s[1..][a - lo - 1..b - lo] == s[a - lo..b - lo + 1];
    }
  }

  lemma ClipTake(s: seq<Option<Value>>, lo: int, l: int, r: int)
    requires |s| > 0 && l <= lo <= r
    ensures Clip(s, lo, l, r) == [s[0]] + Clip(s[1..], lo + 1, l, r)
  {
    var b := Min(r, lo + |s| - 1);
    assert Clip(s, lo, l, r) == s[0..b - lo + 1];
    if lo < b {
      assert Clip(s[1..], lo + 1, l, r) == s[1..][0..b - lo];
      assert [s[0]] + s[1..][0..b - lo] == s[0..b - lo + 1];
    } else {
      assert Clip(s[1..], lo + 1, l, r) == [];
    }
  }
}
