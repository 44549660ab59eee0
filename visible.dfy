/** Facts about the visible list that the status line and the delete action
    read: how many selected target directories it holds and their size, the
    size of all target directories not yet deleted, and which nodes a delete
    removes. */
module VisibleList {
  import opened Tree
  import opened Flattening

  /** The filter of deleteSelected and getSelectionStats: selected, not yet
      deleted, and a matched directory with a positive size. Intermediate
      path segments have size 0 and are never removed. */
  predicate Deletable(n: TreeNode)
  {
    n.selected && !n.deleted && n.size > 0
  }

  /** The filter of the model's getTotalSize. */
  predicate Counted(n: TreeNode)
  {
    !n.deleted && n.size > 0
  }

  /** The state deleteSelected leaves a removed node in. */
  function Removed(n: TreeNode): TreeNode
  {
    n.(deleted := true, selected := false)
  }

  function SelectedCount(a: Arena, list: seq<nat>): nat
    requires InArena(a, list)
  {
    if list == [] then 0
    else SelectedCount(a, list[..|list| - 1]) + (if Deletable(a[list[|list| - 1]]) then 1 else 0)
  }

  function SelectedSize(a: Arena, list: seq<nat>): int
    requires InArena(a, list)
  {
    if list == [] then 0
    else SelectedSize(a, list[..|list| - 1]) + (if Deletable(a[list[|list| - 1]]) then a[list[|list| - 1]].size else 0)
  }

  function VisibleTotal(a: Arena, list: seq<nat>): int
    requires InArena(a, list)
  {
    if list == [] then 0
    else VisibleTotal(a, list[..|list| - 1]) + (if Counted(a[list[|list| - 1]]) then a[list[|list| - 1]].size else 0)
  }

  /** The selection shown in the status line is part of the total shown beside
      it, and counts at most every row. */
  lemma {:induction false} SelectionWithinTotal(a: Arena, list: seq<nat>)
    requires InArena(a, list)
    ensures 0 <= SelectedSize(a, list) <= VisibleTotal(a, list)
    ensures SelectedCount(a, list) <= |list|
    ensures SelectedCount(a, list) == 0 <==> SelectedSize(a, list) == 0
  {
    if list != [] {
      SelectionWithinTotal(a, list[..|list| - 1]);
    }
  }

  /** `b` is `a` after deleteSelected ran over `list`: every row that passed the
      filter is removed, every other row is as it was. */
  ghost predicate DeletedFrom(a: Arena, b: Arena, list: seq<nat>)
    requires InArena(a, list) && |b| == |a|
  {
    forall k :: 0 <= k < |list| ==>
      b[list[k]] == if Deletable(a[list[k]]) then Removed(a[list[k]]) else a[list[k]]
  }

  /** After a delete nothing visible is selected any more, and the total drops
      by exactly the size that was selected. */
  lemma {:induction false} DeleteEffect(a: Arena, b: Arena, list: seq<nat>)
    requires InArena(a, list) && |b| == |a| && DeletedFrom(a, b, list)
    ensures SelectedCount(b, list) == 0 && SelectedSize(b, list) == 0
    ensures VisibleTotal(b, list) == VisibleTotal(a, list) - SelectedSize(a, list)
  {
    if list != [] {
      var init := list[..|list| - 1];
      assert DeletedFrom(a, b, init) by {
        forall k | 0 <= k < |init| ensures init[k] == list[k] { }
      }
      DeleteEffect(a, b, init);
    }
  }

  /** Toggle-all's test: every row that is not deleted is selected. */
  ghost predicate AllLiveSelected(a: Arena, list: seq<nat>)
    requires InArena(a, list)
  {
    forall k :: 0 <= k < |list| && !a[list[k]].deleted ==> a[list[k]].selected
  }

  /** `b` is `a` after the second loop of toggle-all, with `v` the value given
      to the rows of `list` that are not deleted. */
  ghost predicate MarkedAll(a: Arena, b: Arena, list: seq<nat>, v: bool)
  {
    && |b| == |a|
    && forall x :: 0 <= x < |a| ==>
         b[x] == if x in list && !a[x].deleted then a[x].(selected := v) else a[x]
  }

  lemma MarkAllStep(a: Arena, b: Arena, list: seq<nat>, v: bool, k: nat)
    requires InArena(a, list) && k < |list| && MarkedAll(a, b, list[..k], v)
    ensures var n := list[k];
      MarkedAll(a, if !b[n].deleted then b[n := b[n].(selected := v)] else b, list[..k + 1], v)
  {
    PrefixSnoc(list, k);
  }

  /** Toggle-all: when some row that is not deleted was unselected, every such
      row ends selected; otherwise every such row ends unselected, and nothing
      is selected for deletion any more. */
  lemma ToggleAllEffect(a: Arena, b: Arena, list: seq<nat>)
    requires InArena(a, list) && MarkedAll(a, b, list, !AllLiveSelected(a, list))
    ensures InArena(b, list)
    ensures !AllLiveSelected(a, list) ==> AllLiveSelected(b, list)
    ensures AllLiveSelected(a, list) ==>
      (forall k :: 0 <= k < |list| && !b[list[k]].deleted ==> !b[list[k]].selected)
    ensures AllLiveSelected(a, list) ==> SelectedCount(b, list) == 0
  {
    forall k | 0 <= k < |list| ensures b[list[k]].deleted == a[list[k]].deleted {
      assert list[k] in list;
    }
    if AllLiveSelected(a, list) {
      NoneSelectedCount(b, list);
    }
  }

  lemma {:induction false} NoneSelectedCount(a: Arena, list: seq<nat>)
    requires InArena(a, list)
    requires forall k :: 0 <= k < |list| && !a[list[k]].deleted ==> !a[list[k]].selected
    ensures SelectedCount(a, list) == 0
  {
    if list != [] {
      var init := list[..|list| - 1];
      forall k | 0 <= k < |init| ensures init[k] == list[k] { }
      NoneSelectedCount(a, init);
    }
  }

  /** `b` is `a` after deleteSelected ran over the rows in `list`: the rows
      that passed the filter are removed, every other node is as it was. */
  ghost predicate RemovedVia(a: Arena, b: Arena, list: seq<nat>)
  {
    && |b| == |a|
    && forall x :: 0 <= x < |a| ==>
         b[x] == if x in list && Deletable(a[x]) then Removed(a[x]) else a[x]
  }

  lemma RemoveStep(a: Arena, b: Arena, list: seq<nat>, k: nat)
    requires InArena(a, list) && k < |list| && RemovedVia(a, b, list[..k])
    ensures var n := list[k];
      RemovedVia(a, if Deletable(b[n]) then b[n := Removed(b[n])] else b, list[..k + 1])
  {
    PrefixSnoc(list, k);
  }

  lemma RemovedIsDeleted(a: Arena, b: Arena, list: seq<nat>)
    requires InArena(a, list) && RemovedVia(a, b, list)
    ensures DeletedFrom(a, b, list)
  {
    forall k | 0 <= k < |list|
      ensures b[list[k]] == if Deletable(a[list[k]]) then Removed(a[list[k]]) else a[list[k]]
    {
      assert list[k] in list;
    }
  }

  // ---------------------------------------------------------------------------
  // The model's total against the nodes' totals
  // ---------------------------------------------------------------------------

  /** A tree before any deletion and fully expanded, with no negative size. */
  ghost predicate Untouched(a: Arena)
  {
    forall x :: 0 <= x < |a| ==> a[x].expanded && !a[x].deleted && a[x].size >= 0
  }

  lemma {:induction false} VisibleTotalAppend(a: Arena, s: seq<nat>, t: seq<nat>)
    requires InArena(a, s) && InArena(a, t)
    ensures InArena(a, s + t) && VisibleTotal(a, s + t) == VisibleTotal(a, s) + VisibleTotal(a, t)
    decreases |t|
  {
    if t == [] {
      assert s + t == s;
    } else {
      var init := t[..|t| - 1];
      assert (s + t)[..|s + t| - 1] == s + init;
      assert (s + t)[|s + t| - 1] == t[|t| - 1];
      VisibleTotalAppend(a, s, init);
    }
  }

  /** The rows of the flattening of `i` add up to the total size of `i`, the
      virtual root's own size left out. */
  lemma {:induction false} FlattenTotal(a: Arena, i: nat)
    requires ChildrenAfter(a) && i < |a| && Untouched(a)
    ensures InArena(a, Flatten(a, i))
    ensures VisibleTotal(a, Flatten(a, i)) == TotalSize(a, i) - (if i == Root then a[Root].size else 0)
    decreases |a| - i, 1
  {
    var head: seq<nat> := if i == Root then [] else [i];
    FlattenAllTotal(a, i, a[i].children);
    VisibleTotalAppend(a, head, FlattenAll(a, i, a[i].children));
    assert Flatten(a, i) == head + FlattenAll(a, i, a[i].children);
    if i != Root {
      assert head[..0] == [];
      assert VisibleTotal(a, head) == a[i].size;
    }
  }

  lemma {:induction false} FlattenAllTotal(a: Arena, lo: nat, kids: seq<nat>)
    requires ChildrenAfter(a) && Untouched(a)
    requires forall k :: 0 <= k < |kids| ==> lo < kids[k] < |a|
    ensures InArena(a, FlattenAll(a, lo, kids))
    ensures VisibleTotal(a, FlattenAll(a, lo, kids)) == ChildrenTotal(a, lo, kids)
    decreases |a| - lo, 0, |kids|
  {
    if kids != [] {
      var init := kids[..|kids| - 1];
      FlattenAllTotal(a, lo, init);
      FlattenTotal(a, kids[|kids| - 1]);
      VisibleTotalAppend(a, FlattenAll(a, lo, init), Flatten(a, kids[|kids| - 1]));
    }
  }

  /** Before any deletion and with every node expanded, the total the model's
      getTotalSize adds up over the rows is the total size of the virtual root
      less its own size: every matched directory is counted once. */
  lemma ExpandedTotal(a: Arena)
    requires Valid(a) && Untouched(a)
    ensures InArena(a, FlatList(a)) && VisibleTotal(a, FlatList(a)) == TotalSize(a, Root) - a[Root].size
  {
    FlattenTotal(a, Root);
  }
}
