/** The directory tree of the cleaner, held in an arena.

    Each `TreeNode` of the source is a record here, and a pointer to a node is
    its index (its id) in a sequence of records. The virtual root is id 0. A
    node is always created after its parent, so every child id is larger than
    its parent's id; every walk down the tree or up the parent links therefore
    terminates. */
module Tree {

  datatype Option<T> = None | Some(value: T)

  /** Id of the virtual root, the node holding every top-level path segment. */
  const Root: nat := 0

  /** The directory name the scanner looks for. */
  const TargetName: string := "node_modules"

  /** One path segment of the hierarchy. `path` is the sequence of segments
      from the scan root (the source keeps the joined absolute path). */
  datatype TreeNode = TreeNode(
    path: seq<string>,
    name: string,
    size: int,
    selected: bool,
    deleted: bool,
    expanded: bool,
    children: seq<nat>,
    parent: Option<nat>,
    isLast: bool)

  type Arena = seq<TreeNode>

  /** Every id of `s` is a node of `a`. */
  ghost predicate InArena(a: Arena, s: seq<nat>)
  {
    forall k :: 0 <= k < |s| ==> s[k] < |a|
  }

  /** A fresh node: expanded, no children, unselected, not deleted, no parent. */
  function NewTreeNode(path: seq<string>, name: string, size: int): TreeNode
  {
    TreeNode(path, name, size, false, false, true, [], None, false)
  }

  /** Every child id lies after its parent's id and inside the arena. */
  ghost predicate ChildrenAfter(a: Arena)
  {
    forall i, k :: 0 <= i < |a| && 0 <= k < |a[i].children| ==> i < a[i].children[k] < |a|
  }

  /** The arena is a tree rooted at `Root`:
      - the root has no parent and the empty path;
      - every other node has an earlier parent, is listed among that parent's
        children, and its path is its parent's path extended by its name;
      - every listed child names its parent back;
      - siblings have pairwise different names (so no child is listed twice). */
  ghost predicate Valid(a: Arena)
  {
    && |a| > 0
    && a[Root].parent == None
    && a[Root].path == []
    && ChildrenAfter(a)
    && (forall i :: 0 < i < |a| ==>
          && a[i].parent.Some?
          && a[i].parent.value < i
          && a[i].path == a[a[i].parent.value].path + [a[i].name]
          && i in a[a[i].parent.value].children)
    && (forall i, k :: 0 <= i < |a| && 0 <= k < |a[i].children| ==> a[a[i].children[k]].parent == Some(i))
    && (forall i, k, l :: 0 <= i < |a| && 0 <= k < l < |a[i].children| ==>
          a[a[i].children[k]].name != a[a[i].children[l]].name)
  }

  /** Two arenas with the same nodes, links, names and paths; only the flags
      (selected, deleted, expanded, isLast) and the sizes may differ. */
  ghost predicate SameShape(a: Arena, b: Arena)
  {
    && |a| == |b|
    && forall i :: 0 <= i < |a| ==>
         && a[i].parent == b[i].parent
         && a[i].children == b[i].children
         && a[i].name == b[i].name
         && a[i].path == b[i].path
  }

  lemma ValidSameShape(a: Arena, b: Arena)
    requires Valid(a) && SameShape(a, b)
    ensures Valid(b)
  {
    forall i, k | 0 <= i < |b| && 0 <= k < |b[i].children|
      ensures b[b[i].children[k]].parent == Some(i)
    {
      assert a[i].children[k] == b[i].children[k];
    }
    forall i, k, l | 0 <= i < |b| && 0 <= k < l < |b[i].children|
      ensures b[b[i].children[k]].name != b[b[i].children[l]].name
    {
      assert a[a[i].children[k]].name != a[a[i].children[l]].name;
    }
  }

  /** Membership in a growing prefix. */
  lemma PrefixSnoc(s: seq<nat>, k: nat)
    requires k < |s|
    ensures forall e :: e in s[..k + 1] <==> e in s[..k] || e == s[k]
  {
    assert s[..k + 1] == s[..k] + [s[k]];
  }

  // ---------------------------------------------------------------------------
  // Ancestry along the parent links
  // ---------------------------------------------------------------------------

  /** `x` is `top` or lies below it. With `live`, every node on the way from `x`
      up to (not including) `top` is not deleted: this is the set of nodes a
      cascade from `top` that skips deleted children reaches. */
  ghost predicate Descends(a: Arena, top: nat, x: nat, live: bool)
    decreases x
  {
    && x < |a|
    && (|| x == top
        || (&& a[x].parent.Some?
            && a[x].parent.value < x
            && (!live || !a[x].deleted)
            && Descends(a, top, a[x].parent.value, live)))
  }

  /** `q` is a proper ancestor of `x`. */
  ghost predicate ProperAncestor(a: Arena, q: nat, x: nat)
  {
    q < x && Descends(a, q, x, false)
  }

  /** The child of `top` on the way down to `x`. */
  ghost function TopBelow(a: Arena, top: nat, x: nat): nat
    decreases x
  {
    if x < |a| && a[x].parent.Some? && a[x].parent.value < x && a[x].parent.value != top
    then TopBelow(a, top, a[x].parent.value)
    else x
  }

  lemma {:induction false} DescendsAbove(a: Arena, top: nat, x: nat, live: bool)
    requires Descends(a, top, x, live)
    ensures top <= x
    decreases x
  {
    if x != top {
      DescendsAbove(a, top, a[x].parent.value, live);
    }
  }

  /** A live descent is a descent. */
  lemma {:induction false} LiveDescends(a: Arena, top: nat, x: nat)
    requires Descends(a, top, x, true)
    ensures Descends(a, top, x, false)
    decreases x
  {
    if x != top {
      LiveDescends(a, top, a[x].parent.value);
    }
  }

  /** Descents compose. */
  lemma {:induction false} DescendsTrans(a: Arena, top: nat, mid: nat, x: nat, live: bool)
    requires Descends(a, top, mid, live) && Descends(a, mid, x, live)
    ensures Descends(a, top, x, live)
    decreases x
  {
    if x != mid {
      DescendsTrans(a, top, mid, a[x].parent.value, live);
    }
  }

  /** Every node of a valid arena lies below the root. */
  lemma {:induction false} BelowRoot(a: Arena, x: nat)
    requires Valid(a) && x < |a|
    ensures Descends(a, Root, x, false)
    decreases x
  {
    if x != Root {
      BelowRoot(a, a[x].parent.value);
    }
  }

  /** Splitting a descent at the first step below `top`. */
  lemma {:induction false} TopBelowChild(a: Arena, top: nat, x: nat, live: bool)
    requires Valid(a) && Descends(a, top, x, live) && x != top
    ensures var c := TopBelow(a, top, x);
      && c < |a| && a[c].parent == Some(top) && c in a[top].children
      && (live ==> !a[c].deleted)
      && Descends(a, c, x, live)
    decreases x
  {
    var p := a[x].parent.value;
    if p != top {
      TopBelowChild(a, top, p, live);
      var c := TopBelow(a, top, p);
      assert TopBelow(a, top, x) == c;
      DescendsAbove(a, c, p, live);
    }
  }

  /** Conversely, a descent from a child `c` of `top` (live when `c` is) is a
      descent from `top` whose first step is `c`. */
  lemma {:induction false} ThroughChild(a: Arena, top: nat, c: nat, x: nat, live: bool)
    requires Valid(a) && c < |a| && a[c].parent == Some(top)
    requires live ==> !a[c].deleted
    requires Descends(a, c, x, live)
    ensures Descends(a, top, x, live) && x != top && TopBelow(a, top, x) == c
    decreases x
  {
    if x != c {
      var p := a[x].parent.value;
      ThroughChild(a, top, c, p, live);
      DescendsAbove(a, c, p, live);
    }
  }

  /** For a child `c` of `top`, the nodes reached through `c` are exactly the
      descendants of `top` whose first step below `top` is `c`. */
  lemma ChildSplit(a: Arena, top: nat, c: nat, x: nat, live: bool)
    requires Valid(a) && c < |a| && a[c].parent == Some(top) && x < |a|
    ensures (x != top && Descends(a, top, x, live) && TopBelow(a, top, x) == c)
        <==> ((live ==> !a[c].deleted) && Descends(a, c, x, live))
  {
    if x != top && Descends(a, top, x, live) && TopBelow(a, top, x) == c {
      TopBelowChild(a, top, x, live);
    }
    if (live ==> !a[c].deleted) && Descends(a, c, x, live) {
      ThroughChild(a, top, c, x, live);
    }
  }

  /** The proper ancestors of a node other than the root are its parent and
      the proper ancestors of its parent. */
  lemma ProperAncestorStep(a: Arena, x: nat, id: nat)
    requires Valid(a) && 0 < id < |a|
    ensures var p := a[id].parent.value;
      ProperAncestor(a, x, id) <==> x == p || ProperAncestor(a, x, p)
  {
    var p := a[id].parent.value;
    if Descends(a, x, p, false) {
      DescendsAbove(a, x, p, false);
    }
  }

  /** Descent only looks at parent links and (when live) deleted flags. */
  lemma {:induction false} DescendsFrame(a: Arena, b: Arena, top: nat, x: nat, live: bool)
    requires |a| == |b|
    requires forall i :: 0 <= i < |a| ==> a[i].parent == b[i].parent
    requires live ==> forall i :: 0 <= i < |a| ==> a[i].deleted == b[i].deleted
    ensures Descends(a, top, x, live) == Descends(b, top, x, live)
    decreases x
  {
    if x < |a| && x != top && a[x].parent.Some? && a[x].parent.value < x {
      DescendsFrame(a, b, top, a[x].parent.value, live);
    }
  }

  lemma TopBelowFrame(a: Arena, b: Arena, top: nat, x: nat)
    requires |a| == |b|
    requires forall i :: 0 <= i < |a| ==> a[i].parent == b[i].parent
    ensures TopBelow(a, top, x) == TopBelow(b, top, x)
    decreases x
  {
    if x < |a| && a[x].parent.Some? && a[x].parent.value < x && a[x].parent.value != top {
      TopBelowFrame(a, b, top, a[x].parent.value);
    }
  }

  // ---------------------------------------------------------------------------
  // Paths and depth
  // ---------------------------------------------------------------------------

  /** Exactly one node exists per relative path. */
  lemma {:induction false} PathUnique(a: Arena, x: nat, y: nat)
    requires Valid(a) && x < |a| && y < |a| && a[x].path == a[y].path
    ensures x == y
    decreases x + y
  {
    if a[x].path != [] {
      var px, py := a[x].parent.value, a[y].parent.value;
      var s := a[x].path;
      assert a[px].path == s[..|s| - 1] == a[py].path;
      PathUnique(a, px, py);
      var k :| 0 <= k < |a[px].children| && a[px].children[k] == x;
      var l :| 0 <= l < |a[px].children| && a[px].children[l] == y;
      assert a[x].name == s[|s| - 1] == a[y].name;
      assert k == l;
    }
  }

  /** Every prefix of a node's path is the path of one of its ancestors. */
  lemma {:induction false} PathPrefix(a: Arena, x: nat, j: nat) returns (y: nat)
    requires Valid(a) && x < |a| && j <= |a[x].path|
    ensures y < |a| && a[y].path == a[x].path[..j] && Descends(a, y, x, false)
    decreases x
  {
    if j == |a[x].path| {
      y := x;
      assert a[x].path[..j] == a[x].path;
    } else {
      var p := a[x].parent.value;
      assert a[x].path[..j] == a[p].path[..j];
      y := PathPrefix(a, p, j);
      DescendsTrans(a, y, p, x, false);
    }
  }

  /** The number of ancestors starting at `p`, the virtual root not counted. */
  ghost function AncestorCount(a: Arena, p: Option<nat>): nat
    decreases if p.Some? then p.value + 1 else 0
  {
    if p.Some? && p.value < |a| && a[p.value].parent.Some? && a[p.value].parent.value < p.value
    then 1 + AncestorCount(a, a[p.value].parent)
    else 0
  }

  /** Rendering depth of a node: its ancestors, the virtual root excluded. */
  ghost function Depth(a: Arena, x: nat): nat
    requires x < |a|
  {
    AncestorCount(a, a[x].parent)
  }

  /** A node's depth is one less than the number of segments of its path; the
      top-level nodes have depth 0. */
  lemma {:induction false} DepthIsPathLength(a: Arena, x: nat)
    requires Valid(a) && 0 < x < |a|
    ensures Depth(a, x) == |a[x].path| - 1
    decreases x
  {
    var p := a[x].parent.value;
    if p != Root {
      DepthIsPathLength(a, p);
    }
  }

  // ---------------------------------------------------------------------------
  // Sizes
  // ---------------------------------------------------------------------------

  /** getTotalSize: the node's own size plus the total sizes of its children. */
  function TotalSize(a: Arena, i: nat): int
    requires ChildrenAfter(a) && i < |a|
    decreases |a| - i, 1
  {
    a[i].size + ChildrenTotal(a, i, a[i].children)
  }

  /** Sum of the total sizes of `kids`, all of them children placed after `lo`. */
  function ChildrenTotal(a: Arena, lo: nat, kids: seq<nat>): int
    requires ChildrenAfter(a)
    requires forall k :: 0 <= k < |kids| ==> lo < kids[k] < |a|
    decreases |a| - lo, 0, |kids|
  {
    if kids == [] then 0
    else ChildrenTotal(a, lo, kids[..|kids| - 1]) + TotalSize(a, kids[|kids| - 1])
  }

  /** Total sizes from `lo` on look only at the sizes and children of the nodes
      from `lo` on. */
  lemma {:induction false} TotalSizeFrame(a: Arena, b: Arena, lo: nat, i: nat)
    requires ChildrenAfter(a) && ChildrenAfter(b) && |a| == |b| && lo <= i < |a|
    requires forall j :: lo <= j < |a| ==> a[j].size == b[j].size && a[j].children == b[j].children
    ensures TotalSize(a, i) == TotalSize(b, i)
    decreases |a| - i, 1
  {
    ChildrenTotalFrame(a, b, lo, i, a[i].children);
  }

  lemma {:induction false} ChildrenTotalFrame(a: Arena, b: Arena, lo: nat, p: nat, kids: seq<nat>)
    requires ChildrenAfter(a) && ChildrenAfter(b) && |a| == |b| && lo <= p
    requires forall j :: lo <= j < |a| ==> a[j].size == b[j].size && a[j].children == b[j].children
    requires forall k :: 0 <= k < |kids| ==> p < kids[k] < |a|
    ensures ChildrenTotal(a, p, kids) == ChildrenTotal(b, p, kids)
    decreases |a| - p, 0, |kids|
  {
    if kids != [] {
      ChildrenTotalFrame(a, b, lo, p, kids[..|kids| - 1]);
      TotalSizeFrame(a, b, lo, kids[|kids| - 1]);
    }
  }
}
