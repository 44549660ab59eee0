/** The tri-state selection of the tree: what a parent's stored `selected`
    should be given its children, and the derived "partially selected" state
    shown for a node whose children are neither all nor none selected. Deleted
    children take no part in either. */
module Selection {
  import opened Tree

  /** The value updateParentSelection gives a parent: it has a child that is
      not deleted, and every child that is not deleted is selected. */
  ghost predicate ChildrenAllSelected(a: Arena, q: nat)
    requires ChildrenAfter(a) && q < |a|
  {
    var kids := a[q].children;
    && (exists k :: 0 <= k < |kids| && !a[kids[k]].deleted)
    && (forall k :: 0 <= k < |kids| && !a[kids[k]].deleted ==> a[kids[k]].selected)
  }

  /** hasPartialSelection: false for a node without children; otherwise the
      number of non-deleted children that are selected or partially selected
      lies strictly between 0 and the number of non-deleted children. */
  predicate HasPartial(a: Arena, i: nat)
    requires ChildrenAfter(a) && i < |a|
    decreases |a| - i, 1
  {
    && |a[i].children| > 0
    && 0 < MarkedCount(a, i, a[i].children) < LiveCount(a, a[i].children)
  }

  /** A child counted by hasPartialSelection's `selectedCount`. */
  predicate Marked(a: Arena, c: nat)
    requires ChildrenAfter(a) && c < |a|
  {
    a[c].selected || HasPartial(a, c)
  }

  /** The number of non-deleted `kids` that are selected or partially selected. */
  function MarkedCount(a: Arena, lo: nat, kids: seq<nat>): nat
    requires ChildrenAfter(a)
    requires forall k :: 0 <= k < |kids| ==> lo < kids[k] < |a|
    decreases |a| - lo, 0, |kids|
  {
    if kids == [] then 0
    else
      var c := kids[|kids| - 1];
      MarkedCount(a, lo, kids[..|kids| - 1])
        + (if !a[c].deleted && (a[c].selected || HasPartial(a, c)) then 1 else 0)
  }

  /** The number of non-deleted `kids`. */
  function LiveCount(a: Arena, kids: seq<nat>): nat
    requires forall k :: 0 <= k < |kids| ==> kids[k] < |a|
  {
    if kids == [] then 0
    else LiveCount(a, kids[..|kids| - 1]) + (if !a[kids[|kids| - 1]].deleted then 1 else 0)
  }

  /** The counts of hasPartialSelection, read as existence statements. */
  lemma {:induction false} CountsMeaning(a: Arena, lo: nat, kids: seq<nat>)
    requires ChildrenAfter(a)
    requires forall k :: 0 <= k < |kids| ==> lo < kids[k] < |a|
    ensures MarkedCount(a, lo, kids) <= LiveCount(a, kids)
    ensures MarkedCount(a, lo, kids) > 0
        <==> exists k :: 0 <= k < |kids| && !a[kids[k]].deleted && Marked(a, kids[k])
    ensures MarkedCount(a, lo, kids) < LiveCount(a, kids)
        <==> exists k :: 0 <= k < |kids| && !a[kids[k]].deleted && !Marked(a, kids[k])
  {
    if kids != [] {
      var init := kids[..|kids| - 1];
      var c := kids[|kids| - 1];
      CountsMeaning(a, lo, init);
      if exists k :: 0 <= k < |init| && !a[init[k]].deleted && Marked(a, init[k]) {
        var k :| 0 <= k < |init| && !a[init[k]].deleted && Marked(a, init[k]);
        assert kids[k] == init[k];
      }
      if exists k :: 0 <= k < |init| && !a[init[k]].deleted && !Marked(a, init[k]) {
        var k :| 0 <= k < |init| && !a[init[k]].deleted && !Marked(a, init[k]);
        assert kids[k] == init[k];
      }
      forall k | 0 <= k < |kids| - 1 ensures kids[k] == init[k] { }
    }
  }

  /** A node shows as partially selected exactly when, among its children that
      are not deleted, one is selected or partially selected and another is
      neither. */
  lemma HasPartialMeaning(a: Arena, i: nat)
    requires ChildrenAfter(a) && i < |a|
    ensures var kids := a[i].children;
      HasPartial(a, i) <==>
        && (exists k :: 0 <= k < |kids| && !a[kids[k]].deleted && Marked(a, kids[k]))
        && (exists k :: 0 <= k < |kids| && !a[kids[k]].deleted && !Marked(a, kids[k]))
  {
    CountsMeaning(a, i, a[i].children);
  }

  /** A node whose children are all deleted (or that has none) never shows as
      partially selected. */
  lemma AllDeletedNotPartial(a: Arena, i: nat)
    requires ChildrenAfter(a) && i < |a|
    requires forall k :: 0 <= k < |a[i].children| ==> a[a[i].children[k]].deleted
    ensures !HasPartial(a, i)
  {
    HasPartialMeaning(a, i);
  }

  /** Every node reached from `i` through non-deleted children (and `i` itself)
      carries the selection `v`. */
  ghost predicate Uniform(a: Arena, i: nat, v: bool)
  {
    forall x: nat :: Descends(a, i, x, true) ==> a[x].selected == v
  }

  /** A uniformly selected or unselected subtree shows no partial selection:
      after a cascade, the toggled node is fully checked or fully unchecked. */
  lemma {:induction false} UniformNotPartial(a: Arena, i: nat, v: bool)
    requires Valid(a) && i < |a| && Uniform(a, i, v)
    ensures !HasPartial(a, i)
    decreases |a| - i
  {
    var kids := a[i].children;
    forall k | 0 <= k < |kids| && !a[kids[k]].deleted
      ensures Marked(a, kids[k]) == v
    {
      var c := kids[k];
      assert Descends(a, i, c, true);
      forall x: nat | Descends(a, c, x, true) ensures a[x].selected == v {
        ThroughChild(a, i, c, x, true);
      }
      UniformNotPartial(a, c, v);
    }
    HasPartialMeaning(a, i);
  }

  /** A parent whose selection follows its children never shows as partially
      selected. */
  lemma SelectedParentNotPartial(a: Arena, q: nat)
    requires Valid(a) && q < |a| && ChildrenAllSelected(a, q)
    ensures !HasPartial(a, q)
  {
    HasPartialMeaning(a, q);
  }

  /** `b` is `a` after toggleSelect on `id`: only `selected` flags change; `id`
      and every node reached from it through non-deleted children take the
      flipped value of `id`; every ancestor of `id` other than the virtual root
      is selected exactly when its children are all selected; nothing else
      changes. */
  ghost predicate Toggled(a: Arena, b: Arena, id: nat)
    requires Valid(a) && id < |a|
  {
    && |b| == |a|
    && (forall x :: 0 <= x < |a| ==> b[x] == a[x].(selected := b[x].selected))
    && ChildrenAfter(b)
    && (forall x: nat :: Descends(a, id, x, true) ==> b[x].selected == !a[id].selected)
    && (forall x :: 0 < x < |a| && ProperAncestor(a, x, id) ==> b[x].selected == ChildrenAllSelected(b, x))
    && (forall x :: 0 <= x < |a| && !Descends(a, id, x, true) && !(x != Root && ProperAncestor(a, x, id)) ==> b[x] == a[x])
  }

  /** After a toggle the toggled node shows no partial state, no ancestor
      shows as both selected and partially selected, and the virtual root is
      untouched. */
  lemma ToggleConsistent(a: Arena, b: Arena, id: nat)
    requires Valid(a) && id < |a| && Toggled(a, b, id)
    ensures Valid(b)
    ensures !HasPartial(b, id)
    ensures forall x :: 0 < x < |b| && ProperAncestor(a, x, id) && b[x].selected ==> !HasPartial(b, x)
    ensures id != Root ==> b[Root] == a[Root]
  {
    if Descends(a, id, Root, true) {
      DescendsAbove(a, id, Root, true);
    }
    assert SameShape(a, b);
    ValidSameShape(a, b);
    forall x: nat | Descends(b, id, x, true) ensures b[x].selected == !a[id].selected {
      DescendsFrame(a, b, id, x, true);
    }
    UniformNotPartial(b, id, !a[id].selected);
    forall x | 0 < x < |b| && ProperAncestor(a, x, id) && b[x].selected ensures !HasPartial(b, x) {
      SelectedParentNotPartial(b, x);
    }
  }

  // ---------------------------------------------------------------------------
  // propagateSelectionDown
  // ---------------------------------------------------------------------------

  /** `b` differs from `a` at most in the selected flags. */
  ghost predicate OnlySelection(a: Arena, b: Arena)
  {
    && |b| == |a|
    && forall x :: 0 <= x < |a| ==> b[x] == a[x].(selected := b[x].selected)
  }

  lemma OnlySelectionShape(a: Arena, b: Arena)
    requires Valid(a) && OnlySelection(a, b)
    ensures SameShape(a, b) && Valid(b)
    ensures forall x :: 0 <= x < |a| ==> b[x].deleted == a[x].deleted
  {
    assert SameShape(a, b);
    ValidSameShape(a, b);
  }

  /** Setting the selection of one node keeps the arena a tree. */
  lemma SelectValid(a: Arena, id: nat, v: bool)
    requires Valid(a) && id < |a|
    ensures Valid(a[id := a[id].(selected := v)])
  {
    OnlySelectionShape(a, a[id := a[id].(selected := v)]);
  }

  /** `b` is `a` after propagateSelectionDown(id, v): `id` and every node
      reached from it through children that are not deleted carry `v`;
      nothing else changes. */
  ghost predicate SelectedBelow(a: Arena, b: Arena, id: nat, v: bool)
  {
    && |b| == |a|
    && forall x :: 0 <= x < |a| ==>
         b[x] == if Descends(a, id, x, true) then a[x].(selected := v) else a[x]
  }

  /** Carrying a selection down keeps the arena a tree. */
  lemma SelectedBelowValid(a: Arena, b: Arena, id: nat, v: bool)
    requires Valid(a) && SelectedBelow(a, b, id, v)
    ensures Valid(b)
  {
    forall x | 0 <= x < |a| ensures b[x] == a[x].(selected := b[x].selected) {
      if Descends(a, id, x, true) {
        assert b[x] == a[x].(selected := v);
      }
    }
    OnlySelectionShape(a, b);
  }

  /** Part way through propagateSelectionDown(id, v): `id` and the subtrees of
      the children in `done` carry `v`. */
  ghost predicate SelectedVia(a: Arena, b: Arena, id: nat, v: bool, done: seq<nat>)
  {
    && |b| == |a|
    && forall x :: 0 <= x < |a| ==>
         b[x] == if x == id || (Descends(a, id, x, true) && TopBelow(a, id, x) in done)
                 then a[x].(selected := v)
                 else a[x]
  }

  lemma SelectStart(a: Arena, id: nat, v: bool)
    requires Valid(a) && id < |a|
    ensures var b := a[id := a[id].(selected := v)];
      SelectedVia(a, b, id, v, []) && OnlySelection(a, b) && Valid(b)
  {
    var b := a[id := a[id].(selected := v)];
    OnlySelectionShape(a, b);
  }

  lemma SelectPrep(a: Arena, b: Arena, id: nat, v: bool, done: seq<nat>)
    requires Valid(a) && SelectedVia(a, b, id, v, done)
    ensures OnlySelection(a, b) && SameShape(a, b) && Valid(b)
    ensures forall x :: 0 <= x < |a| ==> b[x].deleted == a[x].deleted
  {
    assert OnlySelection(a, b);
    OnlySelectionShape(a, b);
  }

  /** One round of propagateSelectionDown's loop on a child `c` that is not
      deleted, at one node `x`: `b2x` is the node after the recursive call. */
  lemma SelectStepAt(a: Arena, b: Arena, id: nat, v: bool, k: nat, x: nat, b2x: TreeNode)
    requires Valid(a) && id < |a| && k < |a[id].children| && x < |a|
    requires !a[a[id].children[k]].deleted
    requires SameShape(a, b) && forall i :: 0 <= i < |a| ==> b[i].deleted == a[i].deleted
    requires b[x] == if x == id || (Descends(a, id, x, true) && TopBelow(a, id, x) in a[id].children[..k])
                     then a[x].(selected := v)
                     else a[x]
    requires b2x == if Descends(b, a[id].children[k], x, true) then b[x].(selected := v) else b[x]
    requires var t := TopBelow(a, id, x);
      t in a[id].children[..k + 1] <==> t in a[id].children[..k] || t == a[id].children[k]
    ensures b2x == if x == id || (Descends(a, id, x, true) && TopBelow(a, id, x) in a[id].children[..k + 1])
                   then a[x].(selected := v)
                   else a[x]
  {
    var c := a[id].children[k];
    DescendsFrame(a, b, c, x, true);
    ChildSplit(a, id, c, x, true);
  }

  lemma SelectStep(a: Arena, b: Arena, b2: Arena, id: nat, v: bool, k: nat)
    requires Valid(a) && id < |a| && k < |a[id].children|
    requires !a[a[id].children[k]].deleted
    requires SelectedVia(a, b, id, v, a[id].children[..k])
    requires Valid(b) && SelectedBelow(b, b2, a[id].children[k], v)
    ensures SelectedVia(a, b2, id, v, a[id].children[..k + 1])
  {
    var kids := a[id].children;
    SelectPrep(a, b, id, v, kids[..k]);
    PrefixSnoc(kids, k);
    forall x | 0 <= x < |a|
      ensures b2[x] == if x == id || (Descends(a, id, x, true) && TopBelow(a, id, x) in kids[..k + 1])
                       then a[x].(selected := v)
                       else a[x]
    {
      SelectStepAt(a, b, id, v, k, x, b2[x]);
    }
  }

  /** A deleted child is skipped: nothing below it is reached. */
  lemma SelectSkip(a: Arena, b: Arena, id: nat, v: bool, k: nat)
    requires Valid(a) && id < |a| && k < |a[id].children|
    requires a[a[id].children[k]].deleted
    requires SelectedVia(a, b, id, v, a[id].children[..k])
    ensures SelectedVia(a, b, id, v, a[id].children[..k + 1])
  {
    var kids := a[id].children;
    PrefixSnoc(kids, k);
    forall x | 0 <= x < |a| && x != id && Descends(a, id, x, true)
      ensures TopBelow(a, id, x) != kids[k]
    {
      ChildSplit(a, id, kids[k], x, true);
    }
  }

  lemma SelectDone(a: Arena, b: Arena, id: nat, v: bool)
    requires Valid(a) && id < |a|
    requires SelectedVia(a, b, id, v, a[id].children)
    ensures SelectedBelow(a, b, id, v)
  {
    forall x | 0 <= x < |a| && x != id && Descends(a, id, x, true)
      ensures TopBelow(a, id, x) in a[id].children
    {
      TopBelowChild(a, id, x, true);
    }
  }

  // ---------------------------------------------------------------------------
  // updateParentSelection
  // ---------------------------------------------------------------------------

  /** `b` is `a` after updateParentSelection(id): every proper ancestor of `id`
      other than the virtual root is selected exactly when its children (as
      they end up) are all selected; nothing else changes. */
  ghost predicate Settled(a: Arena, b: Arena, id: nat)
  {
    && |b| == |a|
    && ChildrenAfter(b)
    && forall x :: 0 <= x < |a| ==>
         b[x] == if x != Root && ProperAncestor(a, x, id)
                 then a[x].(selected := ChildrenAllSelected(b, x))
                 else a[x]
  }

  /** updateParentSelection stops at once on the root and on a top-level node:
      neither has an ancestor other than the virtual root. */
  lemma SettledAtTop(a: Arena, id: nat)
    requires Valid(a) && id < |a|
    requires a[id].parent.None? || a[a[id].parent.value].parent.None?
    ensures Settled(a, a, id)
  {
    forall x | 0 <= x < |a| && x != Root ensures !ProperAncestor(a, x, id) {
      if id != Root {
        ProperAncestorStep(a, x, id);
      }
    }
  }

  /** The value updateParentSelection gives a parent reads only the deleted
      and selected flags of its children. */
  lemma ChildrenAllSelectedFrame(a: Arena, b: Arena, q: nat)
    requires ChildrenAfter(a) && ChildrenAfter(b) && q < |a| && q < |b|
    requires a[q].children == b[q].children
    requires forall k :: 0 <= k < |a[q].children| ==>
      var c := a[q].children[k]; a[c].deleted == b[c].deleted && a[c].selected == b[c].selected
    ensures ChildrenAllSelected(a, q) == ChildrenAllSelected(b, q)
  {
    var kids := a[q].children;
    if ChildrenAllSelected(a, q) {
      var k :| 0 <= k < |kids| && !a[kids[k]].deleted;
      assert !b[kids[k]].deleted;
    }
    if ChildrenAllSelected(b, q) {
      var k :| 0 <= k < |kids| && !b[kids[k]].deleted;
      assert !a[kids[k]].deleted;
    }
  }

  /** One step of updateParentSelection, at one node `x`: `b` is `a` with the
      parent `p` of `id` updated, `b2x` the node after the recursive call. */
  lemma SettleStepAt(a: Arena, b: Arena, b2: Arena, id: nat, x: nat)
    requires Valid(a) && 0 < id < |a| && x < |a|
    requires a[id].parent.value != Root
    requires var p := a[id].parent.value; b == a[p := a[p].(selected := ChildrenAllSelected(a, p))]
    requires |b2| == |a| && ChildrenAfter(b2)
    requires var p := a[id].parent.value;
      b2[x] == if x != Root && ProperAncestor(b, x, p) then b[x].(selected := ChildrenAllSelected(b2, x)) else b[x]
    requires var p := a[id].parent.value;
      x == p ==> ChildrenAllSelected(b2, p) == ChildrenAllSelected(a, p)
    ensures b2[x] == if x != Root && ProperAncestor(a, x, id)
                     then a[x].(selected := ChildrenAllSelected(b2, x))
                     else a[x]
  {
    var p := a[id].parent.value;
    assert forall i :: 0 <= i < |a| ==> a[i].parent == b[i].parent;
    DescendsFrame(a, b, x, p, false);
    ProperAncestorStep(a, x, id);
  }

  lemma SettleStep(a: Arena, b: Arena, b2: Arena, id: nat)
    requires Valid(a) && 0 < id < |a|
    requires a[id].parent.value != Root
    requires var p := a[id].parent.value; b == a[p := a[p].(selected := ChildrenAllSelected(a, p))]
    requires Valid(b) && Settled(b, b2, a[id].parent.value)
    ensures Settled(a, b2, id)
  {
    var p := a[id].parent.value;
    var kids := a[p].children;
    forall k | 0 <= k < |kids| ensures b2[kids[k]] == a[kids[k]] {
      assert b2[kids[k]] == b[kids[k]];
    }
    assert b2[p] == b[p];
    ChildrenAllSelectedFrame(a, b2, p);
    forall x | 0 <= x < |a|
      ensures b2[x] == if x != Root && ProperAncestor(a, x, id)
                       then a[x].(selected := ChildrenAllSelected(b2, x))
                       else a[x]
    {
      SettleStepAt(a, b, b2, id, x);
    }
  }

  // ---------------------------------------------------------------------------
  // toggleSelect
  // ---------------------------------------------------------------------------

  /** toggleSelect at one node `x`: flip `id`, propagate down, settle up. */
  lemma ToggleComposeAt(a: Arena, a1: Arena, a2: Arena, b: Arena, id: nat, x: nat)
    requires Valid(a) && id < |a| && x < |a|
    requires a1 == a[id := a[id].(selected := !a[id].selected)]
    requires SameShape(a, a2) && |b| == |a| && ChildrenAfter(b)
    requires a2[x] == if Descends(a1, id, x, true) then a1[x].(selected := !a[id].selected) else a1[x]
    requires b[x] == if x != Root && ProperAncestor(a2, x, id)
                     then a2[x].(selected := ChildrenAllSelected(b, x))
                     else a2[x]
    ensures b[x] == a[x].(selected := b[x].selected)
    ensures Descends(a, id, x, true) ==> b[x].selected == !a[id].selected
    ensures x != Root && ProperAncestor(a, x, id) ==> b[x].selected == ChildrenAllSelected(b, x)
    ensures !Descends(a, id, x, true) && !(x != Root && ProperAncestor(a, x, id)) ==> b[x] == a[x]
  {
    assert forall i :: 0 <= i < |a| ==> a[i].parent == a1[i].parent && a[i].deleted == a1[i].deleted;
    DescendsFrame(a, a1, id, x, true);
    DescendsFrame(a, a2, x, id, false);
    if Descends(a, id, x, true) {
      DescendsAbove(a, id, x, true);
    }
  }

  /** toggleSelect is the flip of `id`, then propagateSelectionDown, then
      updateParentSelection. */
  lemma ToggleCompose(a: Arena, a2: Arena, b: Arena, id: nat)
    requires Valid(a) && id < |a|
    requires SelectedBelow(a[id := a[id].(selected := !a[id].selected)], a2, id, !a[id].selected)
    requires Settled(a2, b, id)
    ensures Toggled(a, b, id)
  {
    var a1 := a[id := a[id].(selected := !a[id].selected)];
    assert SameShape(a, a2);
    forall x | 0 <= x < |a|
      ensures b[x] == a[x].(selected := b[x].selected)
      ensures Descends(a, id, x, true) ==> b[x].selected == !a[id].selected
      ensures x != Root && ProperAncestor(a, x, id) ==> b[x].selected == ChildrenAllSelected(b, x)
      ensures !Descends(a, id, x, true) && !(x != Root && ProperAncestor(a, x, id)) ==> b[x] == a[x]
    {
      ToggleComposeAt(a, a1, a2, b, id, x);
    }
    forall x: nat | Descends(a, id, x, true) ensures b[x].selected == !a[id].selected {
      assert x < |a|;
    }
  }
}
