/** The flattened list: the rows the cursor moves over. It is the pre-order
    walk of the tree from the virtual root, the root itself left out, that
    descends into a node's children only while that node is expanded. */
module Flattening {
  import opened Tree

  /** flattenNode: the node (unless it is the virtual root), then, if it is
      expanded, the flattening of each child in order. */
  function Flatten(a: Arena, i: nat): (r: seq<nat>)
    requires ChildrenAfter(a) && i < |a|
    ensures forall k :: 0 <= k < |r| ==> Root < r[k] < |a| && i <= r[k]
    decreases |a| - i, 1
  {
    (if i == Root then [] else [i])
      + (if a[i].expanded then FlattenAll(a, i, a[i].children) else [])
  }

  /** The flattenings of `kids` (children of a node placed before them), one
      after the other. */
  function FlattenAll(a: Arena, lo: nat, kids: seq<nat>): (r: seq<nat>)
    requires ChildrenAfter(a)
    requires forall k :: 0 <= k < |kids| ==> lo < kids[k] < |a|
    ensures forall k :: 0 <= k < |r| ==> lo < r[k] < |a|
    decreases |a| - lo, 0, |kids|
  {
    if kids == [] then []
    else FlattenAll(a, lo, kids[..|kids| - 1]) + Flatten(a, kids[|kids| - 1])
  }

  /** One more child's flattening at the end of the list. */
  lemma FlattenAllSnoc(a: Arena, lo: nat, kids: seq<nat>, k: nat)
    requires ChildrenAfter(a) && k < |kids|
    requires forall j :: 0 <= j < |kids| ==> lo < kids[j] < |a|
    ensures FlattenAll(a, lo, kids[..k + 1]) == FlattenAll(a, lo, kids[..k]) + Flatten(a, kids[k])
  {
    assert kids[..k + 1][..k] == kids[..k];
  }

  /** The whole flattened list of the tree. */
  function FlatList(a: Arena): seq<nat>
    requires ChildrenAfter(a) && |a| > 0
  {
    Flatten(a, Root)
  }

  /** `x` is `top`, or lies below it with every node from `top` down to the
      parent of `x` expanded. */
  ghost predicate Shown(a: Arena, top: nat, x: nat)
    decreases x
  {
    && x < |a|
    && (|| x == top
        || (&& a[x].parent.Some?
            && a[x].parent.value < x
            && a[a[x].parent.value].expanded
            && Shown(a, top, a[x].parent.value)))
  }

  lemma {:induction false} ShownDescends(a: Arena, top: nat, x: nat)
    requires Shown(a, top, x)
    ensures Descends(a, top, x, false)
    decreases x
  {
    if x != top {
      ShownDescends(a, top, a[x].parent.value);
    }
  }

  /** A node shown below `top` is shown below the child of `top` leading to it,
      and `top` is expanded. */
  lemma {:induction false} ShownSplit(a: Arena, top: nat, x: nat)
    requires Valid(a) && Shown(a, top, x) && x != top
    ensures var c := TopBelow(a, top, x);
      && c < |a| && a[c].parent == Some(top) && c in a[top].children
      && a[top].expanded && Shown(a, c, x)
    decreases x
  {
    var p := a[x].parent.value;
    if p != top {
      ShownSplit(a, top, p);
      ShownDescends(a, top, p);
      TopBelowChild(a, top, p, false);
      ShownDescends(a, TopBelow(a, top, p), p);
      DescendsAbove(a, TopBelow(a, top, p), p, false);
    }
  }

  lemma {:induction false} ShownThroughChild(a: Arena, top: nat, c: nat, x: nat)
    requires Valid(a) && c < |a| && a[c].parent == Some(top) && a[top].expanded
    requires Shown(a, c, x)
    ensures Shown(a, top, x)
    decreases x
  {
    if x != c {
      ShownThroughChild(a, top, c, a[x].parent.value);
    }
  }

  lemma {:induction false} FlattenAllHas(a: Arena, lo: nat, kids: seq<nat>, j: nat, x: nat)
    requires ChildrenAfter(a)
    requires forall k :: 0 <= k < |kids| ==> lo < kids[k] < |a|
    requires j < |kids| && x in Flatten(a, kids[j])
    ensures x in FlattenAll(a, lo, kids)
    decreases |kids|
  {
    if j < |kids| - 1 {
      FlattenAllHas(a, lo, kids[..|kids| - 1], j, x);
    }
  }

  lemma {:induction false} FlattenAllFrom(a: Arena, lo: nat, kids: seq<nat>, x: nat) returns (j: nat)
    requires ChildrenAfter(a)
    requires forall k :: 0 <= k < |kids| ==> lo < kids[k] < |a|
    requires x in FlattenAll(a, lo, kids)
    ensures j < |kids| && x in Flatten(a, kids[j])
    decreases |kids|
  {
    if x in Flatten(a, kids[|kids| - 1]) {
      j := |kids| - 1;
    } else {
      j := FlattenAllFrom(a, lo, kids[..|kids| - 1], x);
    }
  }

  /** The flattening from `i` holds exactly the nodes shown below `i`, the
      virtual root excepted. */
  lemma FlattenMembers(a: Arena, i: nat, x: nat)
    requires Valid(a) && i < |a|
    ensures x in Flatten(a, i) <==> x != Root && Shown(a, i, x)
  {
    if x != Root && Shown(a, i, x) {
      ShownInFlatten(a, i, x);
    }
    if x in Flatten(a, i) {
      FlattenShown(a, i, x);
    }
  }

  lemma {:induction false} ShownInFlatten(a: Arena, i: nat, x: nat)
    requires Valid(a) && i < |a| && x != Root && Shown(a, i, x)
    ensures x in Flatten(a, i)
    decreases |a| - i
  {
    if x != i {
      var kids := a[i].children;
      ShownSplit(a, i, x);
      var c := TopBelow(a, i, x);
      var j :| 0 <= j < |kids| && kids[j] == c;
      ShownInFlatten(a, c, x);
      FlattenAllHas(a, i, kids, j, x);
    }
  }

  lemma {:induction false} FlattenShown(a: Arena, i: nat, x: nat)
    requires Valid(a) && i < |a| && x in Flatten(a, i)
    ensures x != Root && Shown(a, i, x)
    decreases |a| - i
  {
    if x != i {
      var kids := a[i].children;
      assert a[i].expanded && x in FlattenAll(a, i, kids);
      var j := FlattenAllFrom(a, i, kids, x);
      FlattenShown(a, kids[j], x);
      ShownThroughChild(a, i, kids[j], x);
    }
  }

  /** Every proper ancestor of a node shown below `top`, down from `top`, is
      expanded. */
  lemma {:induction false} ShownAncestorsExpanded(a: Arena, top: nat, q: nat, x: nat)
    requires Shown(a, top, x) && ProperAncestor(a, q, x) && top <= q
    ensures a[q].expanded
    decreases x
  {
    var p := a[x].parent.value;
    if p != q {
      DescendsAbove(a, q, p, false);
      ShownAncestorsExpanded(a, top, q, p);
    }
  }

  /** The flattened list is exactly the nodes other than the root all of whose
      proper ancestors are expanded: collapsing a node hides all of its
      descendants and nothing else. */
  lemma FlatListMembers(a: Arena, x: nat)
    requires Valid(a) && x < |a|
    ensures x in FlatList(a) <==> x != Root && forall q: nat :: ProperAncestor(a, q, x) ==> a[q].expanded
  {
    FlattenMembers(a, Root, x);
    if x != Root && forall q: nat :: ProperAncestor(a, q, x) ==> a[q].expanded {
      AncestorsExpandedShown(a, x);
    }
    if Shown(a, Root, x) {
      forall q: nat | ProperAncestor(a, q, x) ensures a[q].expanded {
        ShownAncestorsExpanded(a, Root, q, x);
      }
    }
  }

  lemma {:induction false} AncestorsExpandedShown(a: Arena, x: nat)
    requires Valid(a) && x < |a|
    requires forall q: nat :: ProperAncestor(a, q, x) ==> a[q].expanded
    ensures Shown(a, Root, x)
    decreases x
  {
    if x != Root {
      var p := a[x].parent.value;
      assert ProperAncestor(a, p, x);
      forall q: nat | ProperAncestor(a, q, p) ensures a[q].expanded {
        assert ProperAncestor(a, q, x);
      }
      AncestorsExpandedShown(a, p);
    }
  }

  /** A collapsed node hides every node below it. */
  lemma CollapsedHides(a: Arena, q: nat, x: nat)
    requires Valid(a) && ProperAncestor(a, q, x) && !a[q].expanded
    ensures x !in FlatList(a)
  {
    FlatListMembers(a, x);
  }

  /** Flattening looks only at the links and the expanded flags. */
  lemma {:induction false} FlattenFrame(a: Arena, b: Arena, i: nat)
    requires ChildrenAfter(a) && ChildrenAfter(b) && |a| == |b| && i < |a|
    requires forall j :: 0 <= j < |a| ==> a[j].children == b[j].children && a[j].expanded == b[j].expanded
    ensures Flatten(a, i) == Flatten(b, i)
    decreases |a| - i, 1
  {
    FlattenAllFrame(a, b, i, a[i].children);
  }

  lemma {:induction false} FlattenAllFrame(a: Arena, b: Arena, lo: nat, kids: seq<nat>)
    requires ChildrenAfter(a) && ChildrenAfter(b) && |a| == |b|
    requires forall j :: 0 <= j < |a| ==> a[j].children == b[j].children && a[j].expanded == b[j].expanded
    requires forall k :: 0 <= k < |kids| ==> lo < kids[k] < |a|
    ensures FlattenAll(a, lo, kids) == FlattenAll(b, lo, kids)
    decreases |a| - lo, 0, |kids|
  {
    if kids != [] {
      FlattenAllFrame(a, b, lo, kids[..|kids| - 1]);
      FlattenFrame(a, b, kids[|kids| - 1]);
    }
  }

  // ---------------------------------------------------------------------------
  // The "last child" flags used to draw the tree connectors
  // ---------------------------------------------------------------------------

  /** `x` is the last of its parent's children. */
  ghost predicate IsLastChild(a: Arena, x: nat)
    requires x < |a| && a[x].parent.Some? && a[x].parent.value < |a|
  {
    var kids := a[a[x].parent.value].children;
    |kids| > 0 && kids[|kids| - 1] == x
  }

  /** What updateIsLastFlags leaves in `isLast`: nodes below a top-level node
      know whether they are their parent's last child; the root and the
      top-level nodes keep whatever they had. */
  ghost function LastFlag(a: Arena, x: nat): bool
    requires Valid(a) && x < |a|
  {
    if x == Root || a[x].parent.value == Root then a[x].isLast else IsLastChild(a, x)
  }

  /** Every node's `isLast` holds the value updateIsLastFlags gives it. */
  ghost predicate LastFlagsSet(a: Arena)
    requires Valid(a)
  {
    forall x :: 0 <= x < |a| ==> a[x].isLast == LastFlag(a, x)
  }

  /** Sequence concatenation is associative. Dafny knows this unaided; the
      lemma exists so that FlattenNode's loop can name the one instance it
      needs, which keeps that proof several times cheaper than an inline
      assertion of the same equation. */
  lemma AppendAssoc(x: seq<nat>, y: seq<nat>, z: seq<nat>)
    ensures (x + y) + z == x + (y + z)
  {
  }

  // ---------------------------------------------------------------------------
  // Changes that leave the links alone
  // ---------------------------------------------------------------------------

  /** `b` has the links, names, paths and expanded flags of `a`. */
  ghost predicate SameLinks(a: Arena, b: Arena)
  {
    && SameShape(a, b)
    && forall i :: 0 <= i < |a| ==> a[i].expanded == b[i].expanded
  }

  lemma SameLinksFlat(a: Arena, b: Arena)
    requires Valid(a) && SameLinks(a, b)
    ensures Valid(b) && FlatList(b) == FlatList(a)
  {
    ValidSameShape(a, b);
    FlattenFrame(a, b, Root);
  }

  /** `b` differs from `a` at most in the selected and deleted flags. */
  ghost predicate OnlyMarks(a: Arena, b: Arena)
  {
    && |b| == |a|
    && forall x :: 0 <= x < |a| ==> b[x] == a[x].(selected := b[x].selected, deleted := b[x].deleted)
  }

  /** Selecting and deleting change neither the tree, nor the flat list, nor
      the last-child flags. */
  lemma MarksKeep(a: Arena, b: Arena)
    requires Valid(a) && LastFlagsSet(a) && OnlyMarks(a, b)
    ensures Valid(b) && LastFlagsSet(b) && FlatList(b) == FlatList(a)
  {
    assert SameLinks(a, b);
    SameLinksFlat(a, b);
    FlagsCarry(a, b);
  }

  // ---------------------------------------------------------------------------
  // Recomputing the last-child flags
  // ---------------------------------------------------------------------------

  /** `b` is `a` after updateIsLastFlags(id): every node strictly below `id`
      knows whether it is its parent's last child; nothing else changes. */
  ghost predicate LastMarked(a: Arena, b: Arena, id: nat)
    requires Valid(a)
  {
    && |b| == |a|
    && forall x :: 0 <= x < |a| ==>
         b[x] == if ProperAncestor(a, id, x) then a[x].(isLast := IsLastChild(a, x)) else a[x]
  }

  /** Part way through updateIsLastFlags(id): the flags are recomputed below
      the children of `id` listed in `done`. */
  ghost predicate LastMarkedVia(a: Arena, b: Arena, id: nat, done: seq<nat>)
    requires Valid(a)
  {
    && |b| == |a|
    && forall x :: 0 <= x < |a| ==>
         b[x] == if ProperAncestor(a, id, x) && TopBelow(a, id, x) in done
                 then a[x].(isLast := IsLastChild(a, x))
                 else a[x]
  }

  /** The children of `id` up to the `k`-th do not repeat it. */
  lemma ChildNotEarlier(a: Arena, id: nat, k: nat)
    requires Valid(a) && id < |a| && k < |a[id].children|
    ensures a[id].children[k] !in a[id].children[..k]
    ensures IsLastChild(a, a[id].children[k]) <==> k == |a[id].children| - 1
  {
    var kids := a[id].children;
    forall j | 0 <= j < |kids| && j != k ensures kids[j] != kids[k] {
      if j < k {
        assert a[kids[j]].name != a[kids[k]].name;
      } else {
        assert a[kids[k]].name != a[kids[j]].name;
      }
    }
  }

  /** Setting the flag of the `k`-th child of `id` before recursing into it. */
  lemma LastMarkPrep(a: Arena, b: Arena, id: nat, k: nat)
    requires Valid(a) && id < |a| && k < |a[id].children|
    requires LastMarkedVia(a, b, id, a[id].children[..k])
    ensures var c := a[id].children[k];
      var b1 := b[c := b[c].(isLast := k == |a[id].children| - 1)];
      && Valid(b1) && SameShape(a, b1)
      && b1[c] == a[c].(isLast := IsLastChild(a, c))
  {
    var c := a[id].children[k];
    var b1 := b[c := b[c].(isLast := k == |a[id].children| - 1)];
    MarkedViaShape(a, b, id, a[id].children[..k]);
    FlagShape(a, b, c, k == |a[id].children| - 1);
    ValidSameShape(a, b1);
    ChildNotEarlier(a, id, k);
    assert TopBelow(a, id, c) == c;
  }

  lemma MarkedViaShape(a: Arena, b: Arena, id: nat, done: seq<nat>)
    requires Valid(a) && LastMarkedVia(a, b, id, done)
    ensures SameShape(a, b)
  {
  }

  /** Setting one last-child flag keeps the shape. */
  lemma FlagShape(a: Arena, b: Arena, c: nat, v: bool)
    requires SameShape(a, b) && c < |b|
    ensures SameShape(a, b[c := b[c].(isLast := v)])
  {
  }

  /** One round of updateIsLastFlags' loop, at one node `x`: `b1` is the tree
      once the flag of the child `c` is set, `b2x` the node after the
      recursive call on `c`. */
  lemma LastMarkStepAt(a: Arena, b: Arena, b1: Arena, id: nat, k: nat, x: nat, b2x: TreeNode)
    requires Valid(a) && id < |a| && k < |a[id].children| && x < |a|
    requires LastMarkedVia(a, b, id, a[id].children[..k])
    requires var c := a[id].children[k];
      && b1 == b[c := b[c].(isLast := k == |a[id].children| - 1)]
      && SameShape(a, b1) && b1[c] == a[c].(isLast := IsLastChild(a, c))
      && b2x == if ProperAncestor(b1, c, x) then b1[x].(isLast := IsLastChild(b1, x)) else b1[x]
    requires forall e :: e in a[id].children[..k + 1] <==> e in a[id].children[..k] || e == a[id].children[k]
    requires a[id].children[k] !in a[id].children[..k]
    ensures b2x == if ProperAncestor(a, id, x) && TopBelow(a, id, x) in a[id].children[..k + 1]
                   then a[x].(isLast := IsLastChild(a, x))
                   else a[x]
  {
    var c := a[id].children[k];
    DescendsFrame(a, b1, c, x, false);
    ChildSplit(a, id, c, x, false);
    if Descends(a, c, x, false) {
      DescendsAbove(a, c, x, false);
    }
    if Descends(a, id, x, false) {
      DescendsAbove(a, id, x, false);
    }
    if x == c {
      assert ProperAncestor(a, id, x) && TopBelow(a, id, x) == c;
    } else if ProperAncestor(a, c, x) {
      assert b1[x] == b[x];
      assert ProperAncestor(b1, c, x);
      assert IsLastChild(b1, x) == IsLastChild(a, x);
    } else {
      assert b1[x] == b[x];
      assert !ProperAncestor(b1, c, x);
    }
  }

  /** One round of updateIsLastFlags' loop: set the flag of the `k`-th child,
      then recurse into it. */
  lemma LastMarkStep(a: Arena, b: Arena, b2: Arena, id: nat, k: nat)
    requires Valid(a) && id < |a| && k < |a[id].children|
    requires LastMarkedVia(a, b, id, a[id].children[..k])
    requires var kids := a[id].children; var c := kids[k];
      var b1 := b[c := b[c].(isLast := k == |kids| - 1)];
      Valid(b1) && LastMarked(b1, b2, c)
    ensures LastMarkedVia(a, b2, id, a[id].children[..k + 1])
  {
    var kids := a[id].children;
    var c := kids[k];
    var b1 := b[c := b[c].(isLast := k == |kids| - 1)];
    LastMarkPrep(a, b, id, k);
    PrefixSnoc(kids, k);
    ChildNotEarlier(a, id, k);
    forall x | 0 <= x < |a|
      ensures b2[x] == if ProperAncestor(a, id, x) && TopBelow(a, id, x) in kids[..k + 1]
                       then a[x].(isLast := IsLastChild(a, x))
                       else a[x]
    {
      LastMarkStepAt(a, b, b1, id, k, x, b2[x]);
    }
  }

  lemma LastMarkDone(a: Arena, b: Arena, id: nat)
    requires Valid(a) && id < |a|
    requires LastMarkedVia(a, b, id, a[id].children)
    ensures LastMarked(a, b, id)
  {
    forall x | 0 <= x < |a| && ProperAncestor(a, id, x) ensures TopBelow(a, id, x) in a[id].children {
      TopBelowChild(a, id, x, false);
    }
  }

  /** Part way through rebuildFlatList's loop over the top-level nodes: the
      flags are recomputed below the top-level nodes listed in `done`. */
  ghost predicate TopsMarkedVia(a: Arena, b: Arena, done: seq<nat>)
    requires Valid(a)
  {
    && |b| == |a|
    && forall x :: 0 <= x < |a| ==>
         b[x] == if 0 < x && a[x].parent.value != Root && TopBelow(a, Root, x) in done
                 then a[x].(isLast := IsLastChild(a, x))
                 else a[x]
  }

  lemma TopsMarkPrep(a: Arena, b: Arena, done: seq<nat>)
    requires Valid(a) && TopsMarkedVia(a, b, done)
    ensures Valid(b)
  {
    assert SameShape(a, b);
    ValidSameShape(a, b);
  }

  /** One round of rebuildFlatList's loop, at one node `x`: `b2x` is the node
      after updateIsLastFlags ran on the top-level node `c`. */
  lemma TopsMarkStepAt(a: Arena, b: Arena, k: nat, x: nat, b2x: TreeNode)
    requires Valid(a) && k < |a[Root].children| && x < |a|
    requires SameShape(a, b)
    requires b[x] == if 0 < x && a[x].parent.value != Root && TopBelow(a, Root, x) in a[Root].children[..k]
                     then a[x].(isLast := IsLastChild(a, x))
                     else a[x]
    requires var c := a[Root].children[k];
      b2x == if ProperAncestor(b, c, x) then b[x].(isLast := IsLastChild(b, x)) else b[x]
    requires var t := TopBelow(a, Root, x);
      t in a[Root].children[..k + 1] <==> t in a[Root].children[..k] || t == a[Root].children[k]
    ensures b2x == if 0 < x && a[x].parent.value != Root && TopBelow(a, Root, x) in a[Root].children[..k + 1]
                   then a[x].(isLast := IsLastChild(a, x))
                   else a[x]
  {
    var c := a[Root].children[k];
    BelowRoot(a, x);
    DescendsFrame(a, b, c, x, false);
    ChildSplit(a, Root, c, x, false);
    if Descends(a, c, x, false) {
      DescendsAbove(a, c, x, false);
      if x != c {
        DescendsAbove(a, c, a[x].parent.value, false);
        assert ProperAncestor(b, c, x);
        assert IsLastChild(b, x) == IsLastChild(a, x);
      }
    }
  }

  /** One round of rebuildFlatList's loop: updateIsLastFlags on the `k`-th
      top-level node. */
  lemma TopsMarkStep(a: Arena, b: Arena, b2: Arena, k: nat)
    requires Valid(a) && k < |a[Root].children|
    requires TopsMarkedVia(a, b, a[Root].children[..k])
    requires Valid(b) && LastMarked(b, b2, a[Root].children[k])
    ensures TopsMarkedVia(a, b2, a[Root].children[..k + 1])
  {
    var tops := a[Root].children;
    PrefixSnoc(tops, k);
    assert SameShape(a, b);
    forall x | 0 <= x < |a|
      ensures b2[x] == if 0 < x && a[x].parent.value != Root && TopBelow(a, Root, x) in tops[..k + 1]
                       then a[x].(isLast := IsLastChild(a, x))
                       else a[x]
    {
      TopsMarkStepAt(a, b, k, x, b2[x]);
    }
  }

  /** The tree with every last-child flag set to its rebuilt value. */
  ghost function Relabelled(a: Arena): Arena
    requires Valid(a)
  {
    seq(|a|, x requires 0 <= x < |a| => a[x].(isLast := LastFlag(a, x)))
  }

  /** At the end of rebuildFlatList's loop every flag holds its rebuilt value. */
  lemma TopsMarkDone(a: Arena, b: Arena)
    requires Valid(a) && TopsMarkedVia(a, b, a[Root].children)
    ensures b == Relabelled(a)
  {
    forall x | 0 <= x < |a| ensures b[x] == a[x].(isLast := LastFlag(a, x)) {
      if 0 < x && a[x].parent.value != Root {
        BelowRoot(a, x);
        TopBelowChild(a, Root, x, false);
      }
    }
  }

  /** The rebuilt flags are up to date, and the tree and its flat list are
      those of before. */
  lemma RebuiltFlags(a: Arena, b: Arena)
    requires Valid(a) && b == Relabelled(a)
    ensures Valid(b) && LastFlagsSet(b) && FlatList(b) == FlatList(a)
  {
    RelabelledLinks(a, b);
    SameLinksFlat(a, b);
    forall x | 0 <= x < |b| ensures b[x].isLast == LastFlag(b, x) {
      RebuiltFlagAt(a, b, x);
    }
  }

  lemma RelabelledLinks(a: Arena, b: Arena)
    requires Valid(a) && b == Relabelled(a)
    ensures SameLinks(a, b)
  {
  }

  /** A rebuilt flag is the flag of the rebuilt tree: the links are the same. */
  lemma RebuiltFlagAt(a: Arena, b: Arena, x: nat)
    requires Valid(a) && Valid(b) && SameShape(a, b) && x < |a|
    requires b[x] == a[x].(isLast := LastFlag(a, x))
    ensures b[x].isLast == LastFlag(b, x)
  {
    if x != Root && a[x].parent.value != Root {
      var p := a[x].parent.value;
      assert b[x].parent == a[x].parent && b[p].children == a[p].children;
    }
  }

  /** Last-child flags that were up to date stay so when neither the links nor
      the flags change. */
  lemma FlagsCarry(a: Arena, b: Arena)
    requires Valid(a) && SameShape(a, b) && LastFlagsSet(a)
    requires forall x :: 0 <= x < |a| ==> a[x].isLast == b[x].isLast
    ensures Valid(b) && LastFlagsSet(b)
  {
    ValidSameShape(a, b);
    forall x | 0 <= x < |b| ensures b[x].isLast == LastFlag(b, x) {
      assert LastFlag(b, x) == LastFlag(a, x);
    }
  }

  /** Rebuilding a tree whose flags are already up to date changes nothing. */
  lemma RebuildIdle(a: Arena, b: Arena)
    requires Valid(a) && LastFlagsSet(a) && b == Relabelled(a)
    ensures b == a
  {
  }

  /** Toggling the expanded flag of a listed node keeps that node listed: its
      proper ancestors are untouched. */
  lemma ExpandKeepsRow(a: Arena, x: nat)
    requires Valid(a) && x < |a| && x in FlatList(a)
    ensures var b := a[x := a[x].(expanded := !a[x].expanded)];
      Valid(b) && (LastFlagsSet(a) ==> LastFlagsSet(b)) && x in FlatList(b)
  {
    var b := a[x := a[x].(expanded := !a[x].expanded)];
    assert SameShape(a, b);
    ValidSameShape(a, b);
    if LastFlagsSet(a) {
      FlagsCarry(a, b);
    }
    FlatListMembers(a, x);
    FlatListMembers(b, x);
    forall q: nat | ProperAncestor(b, q, x) ensures b[q].expanded {
      DescendsFrame(a, b, q, x, false);
    }
  }
}
