/** The cleaner's state and the operations that change it: inserting scanned
    paths, rebuilding the flat list, the selection cascade, and the handlers of
    the update loop. */
module Cleaner {
  import opened Tree
  import opened ChildOrder
  import opened Selection
  import opened Flattening
  import opened VisibleList
  import opened Insertion

  /** The keys the update loop reacts to: `Quit` is "q" or ctrl+c, `Up` is
      "up" or "k", `Down` is "down" or "j", `Space` is " ", `All` is "a",
      `Expand` is "e" or tab, `Enter` is enter; `Other` is any other key. */
  datatype Key = Quit | Up | Down | Space | All | Expand | Enter | Other

  /** What Update hands back to the runtime: nothing, quit, another tick in
      100 ms, or the deleteSelected command over the given rows. */
  datatype Cmd = NoCmd | QuitCmd | TickCmd | DeleteCmd(rows: seq<nat>)

  /** The messages the update loop receives. A found directory arrives as its
      path relative to the scan root, split into segments. */
  datatype Msg =
    | KeyPress(key: Key)
    | Found(segments: seq<string>, size: int)
    | ScanDone
    | DeletionDone
    | Tick
    | Resize(width: int, height: int)

  /** The fields of the model, as one value: the tree, the rows, the cursor,
      the offset of the scrolling text, whether the scan runs, whether the
      program quits, and the terminal size. */
  datatype ModelState = ModelState(
    nodes: Arena, flatList: seq<nat>, cursor: int, scrollOffset: int,
    scanning: bool, quitting: bool, width: int, height: int)

  /** The tree initialModel starts from: the virtual root made by
      newTreeNode, alone, so there are no rows. */
  method NewRootArena() returns (a: Arena)
    ensures |a| == 1 && a[Root] == NewTreeNode([], "", 0)
    ensures Tree.Valid(a) && FlatList(a) == [] && LastFlagsSet(a)
  {
    a := [NewTreeNode([], "", 0)];
    RootOnly(a);
  }

  /** A tree of the virtual root alone is a tree with no rows. */
  lemma RootOnly(a: Arena)
    requires |a| == 1 && a[Root] == NewTreeNode([], "", 0)
    ensures Tree.Valid(a) && FlatList(a) == [] && LastFlagsSet(a)
  {
  }

  /** The rows are nodes of the tree. */
  lemma RowIds(a: Arena)
    requires ChildrenAfter(a) && |a| > 0
    ensures InArena(a, FlatList(a))
  {
  }

  /** A toggle leaves the tree, its rows and its last-child flags alone. */
  lemma ToggleKeeps(a: Arena, b: Arena, id: nat)
    requires Tree.Valid(a) && LastFlagsSet(a) && id < |a| && Toggled(a, b, id)
    ensures Tree.Valid(b) && LastFlagsSet(b) && FlatList(b) == FlatList(a)
  {
    assert OnlyMarks(a, b);
    MarksKeep(a, b);
  }

  /** Marking rows leaves the tree, its rows and its last-child flags alone. */
  lemma MarkedKeeps(a: Arena, b: Arena, rows: seq<nat>, v: bool)
    requires Tree.Valid(a) && LastFlagsSet(a) && MarkedAll(a, b, rows, v)
    ensures Tree.Valid(b) && LastFlagsSet(b) && FlatList(b) == FlatList(a)
  {
    assert OnlyMarks(a, b);
    MarksKeep(a, b);
  }

  /** The rebuild changes the last-child flags and nothing else. */
  lemma RebuiltShape(w: Arena, b: Arena)
    requires Tree.Valid(w) && b == Relabelled(w)
    ensures |b| == |w| && forall x :: 0 <= x < |w| ==> b[x] == w[x].(isLast := b[x].isLast)
  {
  }

  /** The rebuild at the end of insertPath keeps what the walk achieved. */
  lemma RebuiltGrowth(o: Arena, w: Arena, b: Arena, segments: seq<string>, size: int)
    requires Tree.Valid(w) && b == Relabelled(w)
    requires GrownBy(o, w, segments, size, true) && (segments != [] ==> HasPath(w, segments))
    ensures GrownBy(o, b, segments, size, true) && (segments != [] ==> HasPath(b, segments))
  {
    RebuiltShape(w, b);
    InsertOutcome(o, w, b, segments, size);
  }

  class Model {
    /** The tree: node 0 is the virtual root. */
    var nodes: Arena
    /** The rows the cursor moves over. */
    var flatList: seq<nat>
    var cursor: int
    /** Offset of the scrolling text, advanced by every tick. */
    var scrollOffset: int
    var scanning: bool
    var quitting: bool
    var width: int
    var height: int

    /** The tree is well formed, the flat list is the flattening of the tree,
        and the last-child flags are up to date. */
    ghost predicate Consistent()
      reads this`nodes, this`flatList
    {
      && Tree.Valid(nodes)
      && flatList == FlatList(nodes)
      && LastFlagsSet(nodes)
    }

    ghost predicate Valid()
      reads this`nodes, this`flatList, this`cursor
    {
      Consistent() && 0 <= cursor
    }

    /** initialModel: an empty tree under the virtual root, scanning. */
    constructor ()
      ensures Valid()
      ensures |nodes| == 1 && nodes[Root] == NewTreeNode([], "", 0)
      ensures flatList == [] && cursor == 0 && scrollOffset == 0 && scanning && !quitting
    {
      var a := NewRootArena();
      nodes := a;
      flatList := [];
      cursor := 0;
      scrollOffset := 0;
      scanning := true;
      quitting := false;
      width := 0;
      height := 0;
    }

    // -------------------------------------------------------------------------
    // insertPath
    // -------------------------------------------------------------------------

    /** The lookup loop of insertPath: the child of `current` named `part`. */
    method FindChild(current: nat, part: string) returns (child: Option<nat>)
      requires ChildrenAfter(nodes) && current < |nodes|
      ensures child.Some? ==> child.value in nodes[current].children && nodes[child.value].name == part
      ensures child.None? ==> NoChildNamed(nodes, current, part)
    {
      var kids := nodes[current].children;
      var k := 0;
      while k < |kids|
        invariant 0 <= k <= |kids|
        invariant forall j :: 0 <= j < k ==> nodes[kids[j]].name != part
      {
        if nodes[kids[k]].name == part {
          return Some(kids[k]);
        }
        k := k + 1;
      }
      return None;
    }

    /** The creation branch of insertPath: a new node `part` under `current`,
        which has no child of that name, after which the children of `current`
        are sorted by total size, larger first, then by name. */
    method AttachChild(current: nat, part: string, size: int) returns (child: nat)
      requires Tree.Valid(nodes) && current < |nodes| && NoChildNamed(nodes, current, part)
      modifies this`nodes
      ensures child == |old(nodes)|
      ensures AttachedAt(old(nodes), nodes, current, part, size)
      ensures Tree.Valid(nodes)
      ensures InArena(nodes, nodes[current].children) && Sorted(nodes, nodes[current].children)
    {
      ghost var a := nodes;
      child := |nodes|;
      var node := NewTreeNode(nodes[current].path + [part], part, size).(parent := Some(current));
      var grown := nodes + [node];
      var appended := nodes[current].children + [child];
      AppendPrep(a, grown, current, part, size);
      var kids := SortChildren(grown, appended);
      nodes := grown[current := grown[current].(children := kids)];
      AttachOutcome(a, grown, nodes, current, part, size, kids);
    }

    /** insertPath: walks the segments down from the virtual root, creating
        each missing node, gives the node of the full path the reported size
        when the path is a target, then rebuilds the flat list. */
    method InsertPath(segments: seq<string>, size: int)
      requires Valid()
      modifies this`nodes, this`flatList
      ensures Valid()
      ensures GrownBy(old(nodes), nodes, segments, size, true)
      ensures segments != [] ==> HasPath(nodes, segments)
    {
      ghost var o := nodes;
      WalkSegments(o, segments, size);
      RebuildAfterWalk(o, segments, size);
    }

    /** A found directory is inserted; only the tree and the rows change. */
    method OnFound(segments: seq<string>, size: int)
      requires Valid()
      modifies this`nodes, this`flatList
      ensures Valid() && State() == old(State()).(nodes := nodes, flatList := flatList)
      ensures GrownBy(old(nodes), nodes, segments, size, true)
      ensures segments != [] ==> HasPath(nodes, segments)
    {
      InsertPath(segments, size);
    }

    /** The final rebuild of insertPath keeps what the walk achieved. */
    method RebuildAfterWalk(ghost o: Arena, segments: seq<string>, size: int)
      requires Tree.Valid(nodes) && 0 <= cursor
      requires GrownBy(o, nodes, segments, size, true) && (segments != [] ==> HasPath(nodes, segments))
      modifies this`nodes, this`flatList
      ensures Valid()
      ensures GrownBy(o, nodes, segments, size, true) && (segments != [] ==> HasPath(nodes, segments))
    {
      ghost var w := nodes;
      RebuildFlatList();
      RebuiltGrowth(o, w, nodes, segments, size);
    }

    /** The loop of insertPath over the segments. */
    method WalkSegments(ghost o: Arena, segments: seq<string>, size: int)
      requires Tree.Valid(nodes) && o == nodes
      modifies this`nodes
      ensures Tree.Valid(nodes) && GrownBy(o, nodes, segments, size, true)
      ensures segments != [] ==> HasPath(nodes, segments)
    {
      var current := Root;
      WalkStart(o, segments, size);
      for i := 0 to |segments|
        invariant Walking(o, nodes, segments, size, i, current)
      {
        current := WalkSegment(o, segments, size, i, current);
      }
      WalkDone(o, nodes, segments, size, current);
    }

    /** One round of insertPath's loop: finds or creates the child of
        `current` named after segment `i`, and moves to it. */
    method WalkSegment(ghost o: Arena, segments: seq<string>, size: int, i: nat, current: nat)
      returns (next: nat)
      requires Walking(o, nodes, segments, size, i, current) && i < |segments|
      modifies this`nodes
      ensures Walking(o, nodes, segments, size, i + 1, next)
    {
      var part := segments[i];
      var child := FindChild(current, part);
      if child.None? {
        var nodeSize := if i == |segments| - 1 && part == TargetName then size else 0;
        ghost var b := nodes;
        next := AttachChild(current, part, nodeSize);
        CreateStep(o, b, nodes, segments, size, i, current);
      } else {
        next := child.value;
        if i == |segments| - 1 && part == TargetName {
          FoundTarget(o, nodes, segments, size, i, current, next);
          nodes := nodes[next := nodes[next].(size := size)];
        } else {
          FoundStep(o, nodes, segments, size, i, current, next);
        }
      }
    }

    // -------------------------------------------------------------------------
    // rebuildFlatList
    // -------------------------------------------------------------------------

    /** flattenNode: appends the flattening of `id` to the flat list. */
    method FlattenNode(id: nat)
      requires ChildrenAfter(nodes) && id < |nodes|
      modifies this`flatList
      ensures flatList == old(flatList) + Flatten(nodes, id)
      decreases |nodes| - id
    {
      var head: seq<nat> := if id == Root then [] else [id];
      flatList := flatList + head;
      if nodes[id].expanded {
        var kids := nodes[id].children;
        ghost var acc := flatList;
        for k := 0 to |kids|
          invariant flatList == acc + FlattenAll(nodes, id, kids[..k])
        {
          FlattenAllSnoc(nodes, id, kids, k);
          FlattenNode(kids[k]);
          AppendAssoc(acc, FlattenAll(nodes, id, kids[..k]), Flatten(nodes, kids[k]));
        }
        assert kids[..|kids|] == kids;
        AppendAssoc(old(flatList), head, FlattenAll(nodes, id, kids));
      }
    }

    /** updateIsLastFlags: every node strictly below `id` learns whether it is
        the last of its parent's children; nothing else changes. */
    method UpdateIsLastFlags(id: nat)
      requires Tree.Valid(nodes) && id < |nodes|
      modifies this`nodes
      ensures LastMarked(old(nodes), nodes, id)
      decreases |nodes| - id
    {
      ghost var a := nodes;
      var kids := nodes[id].children;
      for k := 0 to |kids|
        invariant LastMarkedVia(a, nodes, id, kids[..k])
      {
        var c := kids[k];
        LastMarkPrep(a, nodes, id, k);
        ghost var b := nodes;
        nodes := nodes[c := nodes[c].(isLast := k == |kids| - 1)];
        UpdateIsLastFlags(c);
        LastMarkStep(a, b, nodes, id, k);
      }
      assert kids[..|kids|] == kids;
      LastMarkDone(a, nodes, id);
    }

    /** rebuildFlatList: the flat list becomes the flattening of the tree, and
        the last-child flags are recomputed below the top-level nodes. */
    method RebuildFlatList()
      requires Tree.Valid(nodes)
      modifies this`nodes, this`flatList
      ensures Consistent()
      ensures |nodes| == |old(nodes)|
      ensures nodes == Relabelled(old(nodes))
    {
      ghost var a := nodes;
      flatList := [];
      FlattenNode(Root);
      var tops := nodes[Root].children;
      for k := 0 to |tops|
        invariant TopsMarkedVia(a, nodes, tops[..k])
        invariant flatList == FlatList(a)
      {
        TopsMarkPrep(a, nodes, tops[..k]);
        ghost var b := nodes;
        UpdateIsLastFlags(tops[k]);
        TopsMarkStep(a, b, nodes, k);
      }
      assert tops[..|tops|] == tops;
      TopsMarkDone(a, nodes);
      RebuiltFlags(a, nodes);
    }

    /** getDepth: the number of ancestors of `id`, the virtual root not
        counted, which is one less than the number of segments of its path. */
    method GetDepth(id: nat) returns (depth: nat)
      requires Tree.Valid(nodes) && id < |nodes|
      ensures depth == Depth(nodes, id)
      ensures id != Root ==> depth == |nodes[id].path| - 1
    {
      depth := 0;
      var p := nodes[id].parent;
      while p.Some? && nodes[p.value].parent.Some?
        invariant p.Some? ==> p.value < |nodes|
        invariant depth + AncestorCount(nodes, p) == Depth(nodes, id)
        decreases if p.Some? then p.value + 1 else 0
      {
        depth := depth + 1;
        p := nodes[p.value].parent;
      }
      if id != Root {
        DepthIsPathLength(nodes, id);
      }
    }

    /** getTotalSize: the node's own size, then the total of each child in
        turn. */
    method NodeTotalSize(id: nat) returns (total: int)
      requires ChildrenAfter(nodes) && id < |nodes|
      ensures total == TotalSize(nodes, id)
      decreases |nodes| - id
    {
      total := nodes[id].size;
      var kids := nodes[id].children;
      for k := 0 to |kids|
        invariant total == nodes[id].size + ChildrenTotal(nodes, id, kids[..k])
      {
        var t := NodeTotalSize(kids[k]);
        assert kids[..k + 1][..k] == kids[..k];
        total := total + t;
      }
      assert kids[..|kids|] == kids;
    }

    /** hasPartialSelection: counts the children that are not deleted and,
        among them, those selected or themselves partially selected. */
    method HasPartialSelection(id: nat) returns (partial: bool)
      requires ChildrenAfter(nodes) && id < |nodes|
      ensures partial == HasPartial(nodes, id)
      decreases |nodes| - id
    {
      var kids := nodes[id].children;
      if |kids| == 0 {
        return false;
      }
      var selectedCount, totalCount := 0, 0;
      for k := 0 to |kids|
        invariant selectedCount == MarkedCount(nodes, id, kids[..k])
        invariant totalCount == LiveCount(nodes, kids[..k])
      {
        var c := kids[k];
        assert kids[..k + 1][..k] == kids[..k];
        if !nodes[c].deleted {
          totalCount := totalCount + 1;
          var marked := nodes[c].selected;
          if !marked {
            marked := HasPartialSelection(c);
          }
          if marked {
            selectedCount := selectedCount + 1;
          }
        }
      }
      assert kids[..|kids|] == kids;
      partial := selectedCount > 0 && selectedCount < totalCount;
    }

    // -------------------------------------------------------------------------
    // The selection cascade
    // -------------------------------------------------------------------------

    /** propagateSelectionDown: `id` and every node reached from it through
        children that are not deleted take `v`. */
    method PropagateSelectionDown(id: nat, v: bool)
      requires Tree.Valid(nodes) && id < |nodes|
      modifies this`nodes
      ensures SelectedBelow(old(nodes), nodes, id, v)
      decreases |nodes| - id
    {
      ghost var a := nodes;
      SelectStart(a, id, v);
      nodes := nodes[id := nodes[id].(selected := v)];
      var kids := nodes[id].children;
      for k := 0 to |kids|
        invariant SelectedVia(a, nodes, id, v, kids[..k])
      {
        SelectPrep(a, nodes, id, v, kids[..k]);
        var c := kids[k];
        if !nodes[c].deleted {
          ghost var b := nodes;
          PropagateSelectionDown(c, v);
          SelectStep(a, b, nodes, id, v, k);
        } else {
          SelectSkip(a, nodes, id, v, k);
        }
      }
      assert kids[..|kids|] == kids;
      SelectDone(a, nodes, id, v);
    }

    /** updateParentSelection: from the parent of `id` up to (not including)
        the virtual root, each ancestor becomes selected exactly when it has a
        child that is not deleted and all such children are selected. */
    method UpdateParentSelection(id: nat)
      requires Tree.Valid(nodes) && id < |nodes|
      modifies this`nodes
      ensures Settled(old(nodes), nodes, id)
      decreases id
    {
      if nodes[id].parent.None? || nodes[nodes[id].parent.value].parent.None? {
        SettledAtTop(nodes, id);
        return;
      }
      var p := nodes[id].parent.value;
      var value := ChildrenValue(p);
      ghost var a := nodes;
      SelectValid(nodes, p, value);
      nodes := nodes[p := nodes[p].(selected := value)];
      ghost var b := nodes;
      UpdateParentSelection(p);
      SettleStep(a, b, nodes, id);
    }

    /** The loop of updateParentSelection over the children of `p`: every
        child that is not deleted is selected, and at least one is. */
    method ChildrenValue(p: nat) returns (value: bool)
      requires ChildrenAfter(nodes) && p < |nodes|
      ensures value == ChildrenAllSelected(nodes, p)
    {
      var allSelected, anySelected := true, false;
      var kids := nodes[p].children;
      for k := 0 to |kids|
        invariant allSelected == forall j :: 0 <= j < k && !nodes[kids[j]].deleted ==> nodes[kids[j]].selected
        invariant anySelected == exists j :: 0 <= j < k && !nodes[kids[j]].deleted && nodes[kids[j]].selected
      {
        var c := nodes[kids[k]];
        if !c.deleted {
          if c.selected {
            anySelected := true;
          } else {
            allSelected := false;
          }
        }
      }
      value := allSelected && anySelected;
    }

    /** toggleSelect: flips `id`, carries the new value down, then settles the
        ancestors. */
    method ToggleSelect(id: nat)
      requires Tree.Valid(nodes) && id < |nodes|
      modifies this`nodes
      ensures Toggled(old(nodes), nodes, id)
    {
      ghost var a := nodes;
      SelectValid(nodes, id, !nodes[id].selected);
      nodes := nodes[id := nodes[id].(selected := !nodes[id].selected)];
      ghost var a1 := nodes;
      PropagateSelectionDown(id, nodes[id].selected);
      SelectedBelowValid(a1, nodes, id, a1[id].selected);
      ghost var a2 := nodes;
      UpdateParentSelection(id);
      ToggleCompose(a, a2, nodes, id);
    }

    // -------------------------------------------------------------------------
    // The key handlers of Update
    // -------------------------------------------------------------------------

    /** The cursor points at a row. */
    ghost predicate CursorOnRow()
      reads this`cursor, this`flatList
    {
      0 <= cursor < |flatList|
    }

    /** "up" / "k": one row up, unless already on the first. */
    method MoveUp()
      requires Valid()
      modifies this`cursor, this`scrollOffset
      ensures Valid()
      ensures cursor == if old(cursor) > 0 then old(cursor) - 1 else old(cursor)
      ensures scrollOffset == if old(cursor) > 0 then 0 else old(scrollOffset)
      ensures old(CursorOnRow()) ==> CursorOnRow()
    {
      if cursor > 0 {
        cursor := cursor - 1;
        scrollOffset := 0;
      }
    }

    /** "down" / "j": one row down, unless already on the last. */
    method MoveDown()
      requires Valid()
      modifies this`cursor, this`scrollOffset
      ensures Valid()
      ensures cursor == if old(cursor) < |flatList| - 1 then old(cursor) + 1 else old(cursor)
      ensures scrollOffset == if old(cursor) < |flatList| - 1 then 0 else old(scrollOffset)
      ensures old(CursorOnRow()) ==> CursorOnRow()
    {
      if cursor < |flatList| - 1 {
        cursor := cursor + 1;
        scrollOffset := 0;
      }
    }

    /** " ": toggles the selection of the row under the cursor, unless that
        row is deleted; the tree and the rows stay as they were. */
    method ToggleAtCursor()
      requires Valid()
      modifies this`nodes
      ensures Valid() && flatList == old(flatList)
      ensures old(CursorOnRow()) && !old(nodes)[old(flatList)[old(cursor)]].deleted
        ==> Toggled(old(nodes), nodes, old(flatList)[old(cursor)])
      ensures !(old(CursorOnRow()) && !old(nodes)[old(flatList)[old(cursor)]].deleted) ==> nodes == old(nodes)
    {
      RowIds(nodes);
      if 0 <= cursor < |flatList| {
        var id := flatList[cursor];
        if !nodes[id].deleted {
          ghost var a := nodes;
          ToggleSelect(id);
          ToggleKeeps(a, nodes, id);
        }
      }
    }

    /** The first loop of "a": every row that is not deleted is selected. */
    method AllRowsSelected() returns (allSelected: bool)
      requires InArena(nodes, flatList)
      ensures allSelected == AllLiveSelected(nodes, flatList)
    {
      allSelected := true;
      for k := 0 to |flatList|
        invariant allSelected == forall j :: 0 <= j < k && !nodes[flatList[j]].deleted ==> nodes[flatList[j]].selected
      {
        var n := nodes[flatList[k]];
        if !n.selected && !n.deleted {
          allSelected := false;
          break;
        }
      }
    }

    /** "a": when every row that is not deleted is selected, they all become
        unselected; otherwise they all become selected. Deleted rows and nodes
        outside the rows keep their selection. */
    method ToggleAll()
      requires Valid()
      modifies this`nodes
      ensures Valid() && flatList == old(flatList)
      ensures MarkedAll(old(nodes), nodes, flatList, !AllLiveSelected(old(nodes), flatList))
    {
      ghost var a := nodes;
      RowIds(nodes);
      var allSelected := AllRowsSelected();
      MarkRows(!allSelected);
      MarkedKeeps(a, nodes, flatList, !allSelected);
    }

    /** The second loop of "a": every row that is not deleted takes `v`. */
    method MarkRows(v: bool)
      requires InArena(nodes, flatList)
      modifies this`nodes
      ensures MarkedAll(old(nodes), nodes, flatList, v)
    {
      ghost var a := nodes;
      for k := 0 to |flatList|
        invariant MarkedAll(a, nodes, flatList[..k], v)
      {
        MarkAllStep(a, nodes, flatList, v, k);
        var id := flatList[k];
        if !nodes[id].deleted {
          nodes := nodes[id := nodes[id].(selected := v)];
        }
      }
      assert flatList[..|flatList|] == flatList;
    }

    /** "e" / tab: a row with children is expanded or collapsed, the rows are
        rebuilt, and the cursor is pulled back onto the last row if it fell
        off the end. A row without children, or no row, changes nothing. */
    method ToggleExpand()
      requires Valid()
      modifies this`nodes, this`flatList, this`cursor
      ensures Valid()
      ensures old(CursorOnRow()) && |old(nodes)[old(flatList)[old(cursor)]].children| > 0 ==>
        var id := old(flatList)[old(cursor)];
        && nodes == old(nodes)[id := old(nodes)[id].(expanded := !old(nodes)[id].expanded)]
        && CursorOnRow()
        && cursor == if old(cursor) < |flatList| then old(cursor) else |flatList| - 1
      ensures !(old(CursorOnRow()) && |old(nodes)[old(flatList)[old(cursor)]].children| > 0) ==>
        nodes == old(nodes) && flatList == old(flatList) && cursor == old(cursor)
    {
      if 0 <= cursor < |flatList| {
        RowIds(nodes);
        var id := flatList[cursor];
        if |nodes[id].children| > 0 {
          ExpandRow(id);
        }
      }
    }

    /** The expanding branch of "e" / tab on the row `id` under the cursor. */
    method ExpandRow(id: nat)
      requires Valid() && CursorOnRow() && id == flatList[cursor] && id < |nodes|
      modifies this`nodes, this`flatList, this`cursor
      ensures Valid() && CursorOnRow()
      ensures nodes == old(nodes)[id := old(nodes)[id].(expanded := !old(nodes)[id].expanded)]
      ensures cursor == if old(cursor) < |flatList| then old(cursor) else |flatList| - 1
    {
      FlipExpanded(id);
      ClampCursor();
    }

    /** The cursor is pulled back onto the last row if it fell off the end. */
    method ClampCursor()
      requires |flatList| > 0 && 0 <= cursor
      modifies this`cursor
      ensures cursor == if old(cursor) < |flatList| then old(cursor) else |flatList| - 1
      ensures CursorOnRow()
    {
      if cursor >= |flatList| {
        cursor := |flatList| - 1;
      }
    }

    /** Expanding or collapsing row `id`, then rebuilding: the row stays. */
    method FlipExpanded(id: nat)
      requires Consistent() && id < |nodes| && id in flatList
      modifies this`nodes, this`flatList
      ensures Consistent() && id in flatList
      ensures nodes == old(nodes)[id := old(nodes)[id].(expanded := !old(nodes)[id].expanded)]
    {
      ExpandKeepsRow(nodes, id);
      nodes := nodes[id := nodes[id].(expanded := !nodes[id].expanded)];
      ghost var b := nodes;
      RebuildFlatList();
      RebuildIdle(b, nodes);
    }

    /** The loop of deleteSelected over the rows, once every removal is done:
        each row that is selected, not deleted and of positive size is marked
        deleted and unselected. The removal itself is not modelled, and its
        outcome is ignored, as in the source. */
    method DeleteSelected(rows: seq<nat>)
      requires Valid() && InArena(nodes, rows)
      modifies this`nodes
      ensures Valid() && flatList == old(flatList)
      ensures RemovedVia(old(nodes), nodes, rows)
    {
      ghost var a := nodes;
      for k := 0 to |rows|
        invariant RemovedVia(a, nodes, rows[..k])
      {
        RemoveStep(a, nodes, rows, k);
        var id := rows[k];
        if Deletable(nodes[id]) {
          nodes := nodes[id := Removed(nodes[id])];
        }
      }
      assert rows[..|rows|] == rows;
      assert OnlyMarks(a, nodes);
      MarksKeep(a, nodes);
    }

    // -------------------------------------------------------------------------
    // The status line
    // -------------------------------------------------------------------------

    /** getSelectionStats: the number and total size of the rows a delete
        would remove. */
    method GetSelectionStats() returns (count: nat, size: int)
      requires InArena(nodes, flatList)
      ensures count == SelectedCount(nodes, flatList)
      ensures size == SelectedSize(nodes, flatList)
    {
      count, size := 0, 0;
      for k := 0 to |flatList|
        invariant count == SelectedCount(nodes, flatList[..k])
        invariant size == SelectedSize(nodes, flatList[..k])
      {
        assert flatList[..k + 1][..k] == flatList[..k];
        var n := nodes[flatList[k]];
        if n.selected && !n.deleted && n.size > 0 {
          count := count + 1;
          size := size + n.size;
        }
      }
      assert flatList[..|flatList|] == flatList;
    }

    /** The model's getTotalSize: the size of the rows that are target
        directories not yet deleted. */
    method GetTotalSize() returns (total: int)
      requires InArena(nodes, flatList)
      ensures total == VisibleTotal(nodes, flatList)
    {
      total := 0;
      for k := 0 to |flatList|
        invariant total == VisibleTotal(nodes, flatList[..k])
      {
        assert flatList[..k + 1][..k] == flatList[..k];
        var n := nodes[flatList[k]];
        if !n.deleted && n.size > 0 {
          total := total + n.size;
        }
      }
      assert flatList[..|flatList|] == flatList;
    }

    // -------------------------------------------------------------------------
    // Update
    // -------------------------------------------------------------------------

    /** The fields of the model, as one value. */
    ghost function State(): ModelState
      reads this
    {
      ModelState(nodes, flatList, cursor, scrollOffset, scanning, quitting, width, height)
    }

    /** "q" / ctrl+c sets `quitting`, asks to quit and changes nothing else. */
    twostate predicate QuitHandled(cmd: Cmd)
      reads this
    {
      cmd == QuitCmd && State() == old(State()).(quitting := true)
    }

    /** "up" / "k" moves the cursor one row up unless it is on the first row,
        resetting the scrolling text when it moves; nothing else changes. */
    twostate predicate UpHandled(cmd: Cmd)
      reads this
    {
      var s0 := old(State());
      && cmd == NoCmd
      && State() == if s0.cursor > 0 then s0.(cursor := s0.cursor - 1, scrollOffset := 0) else s0
    }

    /** "down" / "j" moves the cursor one row down unless it is on the last
        row, resetting the scrolling text when it moves; nothing else changes. */
    twostate predicate DownHandled(cmd: Cmd)
      reads this
    {
      var s0 := old(State());
      && cmd == NoCmd
      && State() == if s0.cursor < |s0.flatList| - 1 then s0.(cursor := s0.cursor + 1, scrollOffset := 0) else s0
    }

    /** " " toggles the row under the cursor unless it is deleted; only the
        tree changes. */
    twostate predicate SpaceHandled(cmd: Cmd)
      requires old(Valid())
      reads this
    {
      && cmd == NoCmd && State() == old(State()).(nodes := nodes)
      && (old(CursorOnRow()) && !old(nodes)[old(flatList)[old(cursor)]].deleted
          ==> Toggled(old(nodes), nodes, old(flatList)[old(cursor)]))
      && (!(old(CursorOnRow()) && !old(nodes)[old(flatList)[old(cursor)]].deleted) ==> nodes == old(nodes))
    }

    /** "a" marks every row that is not deleted: they are all cleared when
        they were all selected, and all selected otherwise; only the tree
        changes. */
    twostate predicate AllHandled(cmd: Cmd)
      requires old(Valid())
      reads this
    {
      var s0 := old(State());
      && cmd == NoCmd && State() == s0.(nodes := nodes)
      && MarkedAll(s0.nodes, nodes, s0.flatList, !AllLiveSelected(s0.nodes, s0.flatList))
    }

    /** "e" / tab flips the row under the cursor when it has children, and
        the cursor is clamped to the rebuilt rows; otherwise nothing changes.
        Only the tree, the rows and the cursor can change. */
    twostate predicate ExpandHandled(cmd: Cmd)
      requires old(Valid())
      reads this
    {
      && cmd == NoCmd && State() == old(State()).(nodes := nodes, flatList := flatList, cursor := cursor)
      && (old(CursorOnRow()) && |old(nodes)[old(flatList)[old(cursor)]].children| > 0 ==>
            var id := old(flatList)[old(cursor)];
            && nodes == old(nodes)[id := old(nodes)[id].(expanded := !old(nodes)[id].expanded)]
            && CursorOnRow()
            && cursor == if old(cursor) < |flatList| then old(cursor) else |flatList| - 1)
      && (!(old(CursorOnRow()) && |old(nodes)[old(flatList)[old(cursor)]].children| > 0) ==>
            nodes == old(nodes) && flatList == old(flatList) && cursor == old(cursor))
    }

    /** What a key does once the scan is over, with `cmd` the command handed
        back: enter hands the rows to deleteSelected and any other key not
        listed does nothing; neither changes the model. */
    twostate predicate KeyHandled(key: Key, cmd: Cmd)
      requires old(Valid())
      reads this
    {
      match key
      case Quit => QuitHandled(cmd)
      case Up => UpHandled(cmd)
      case Down => DownHandled(cmd)
      case Space => SpaceHandled(cmd)
      case All => AllHandled(cmd)
      case Expand => ExpandHandled(cmd)
      case Enter => cmd == DeleteCmd(old(flatList)) && State() == old(State())
      case Other => cmd == NoCmd && State() == old(State())
    }

    /** The key handlers of Update once the scan is over. */
    method HandleKey(key: Key) returns (cmd: Cmd)
      requires Valid()
      modifies this
      ensures Valid() && KeyHandled(key, cmd)
    {
      match key {
        case Quit => cmd := PressQuit();
        case Up => cmd := PressUp();
        case Down => cmd := PressDown();
        case Space => cmd := PressSpace();
        case All => cmd := PressAll();
        case Expand => cmd := PressExpand();
        case Enter => cmd := DeleteCmd(flatList);
        case Other => cmd := NoCmd;
      }
    }

    /** "q" / ctrl+c. */
    method PressQuit() returns (cmd: Cmd)
      requires Valid()
      modifies this`quitting
      ensures Valid() && QuitHandled(cmd)
    {
      quitting := true;
      cmd := QuitCmd;
    }

    /** "up" / "k". */
    method PressUp() returns (cmd: Cmd)
      requires Valid()
      modifies this`cursor, this`scrollOffset
      ensures Valid() && UpHandled(cmd)
    {
      MoveUp();
      cmd := NoCmd;
    }

    /** "down" / "j". */
    method PressDown() returns (cmd: Cmd)
      requires Valid()
      modifies this`cursor, this`scrollOffset
      ensures Valid() && DownHandled(cmd)
    {
      MoveDown();
      cmd := NoCmd;
    }

    /** " ". */
    method PressSpace() returns (cmd: Cmd)
      requires Valid()
      modifies this`nodes
      ensures Valid() && SpaceHandled(cmd)
    {
      ToggleAtCursor();
      cmd := NoCmd;
    }

    /** "a". */
    method PressAll() returns (cmd: Cmd)
      requires Valid()
      modifies this`nodes
      ensures Valid() && AllHandled(cmd)
    {
      ToggleAll();
      cmd := NoCmd;
    }

    /** "e" / tab. */
    method PressExpand() returns (cmd: Cmd)
      requires Valid()
      modifies this`nodes, this`flatList, this`cursor
      ensures Valid() && ExpandHandled(cmd)
    {
      ToggleExpand();
      cmd := NoCmd;
    }

    /** The keys of Update: while scanning only the quit keys are heeded;
        afterwards each key runs its handler. */
    method OnKey(key: Key) returns (cmd: Cmd)
      requires Valid()
      modifies this
      ensures Valid()
      ensures !old(scanning) || key == Quit ==> KeyHandled(key, cmd)
      ensures old(scanning) && key != Quit ==> cmd == NoCmd && State() == old(State())
    {
      if scanning {
        cmd := NoCmd;
        if key == Quit {
          quitting := true;
          cmd := QuitCmd;
        }
      } else {
        cmd := HandleKey(key);
      }
    }

    /** The end of the scan: keys are heeded from now on, and the rows are
        rebuilt. */
    method FinishScan()
      requires Valid()
      modifies this`scanning, this`nodes, this`flatList
      ensures Valid() && State() == old(State()).(nodes := nodes, flatList := flatList, scanning := false)
      ensures nodes == Relabelled(old(nodes))
    {
      RebuildFlatList();
      scanning := false;
    }

    /** A resize records the terminal size. */
    method Resize(w: int, h: int)
      modifies this`width, this`height
      ensures State() == old(State()).(width := w, height := h)
    {
      width, height := w, h;
    }

    /** A tick advances the scrolling text and asks for the next tick. */
    method AdvanceScroll() returns (cmd: Cmd)
      modifies this`scrollOffset
      ensures cmd == TickCmd && State() == old(State()).(scrollOffset := old(scrollOffset) + 1)
    {
      scrollOffset := scrollOffset + 1;
      cmd := TickCmd;
    }

    /** Update: keys go to their handlers; Enter hands the current rows to
        deleteSelected, which the runtime runs later. A found directory is
        inserted, the end of the scan stops scanning and rebuilds the rows, a
        tick advances the scrolling text and asks for the next tick, and a
        resize records the terminal size. */
    method Update(msg: Msg) returns (cmd: Cmd)
      requires Valid()
      modifies this
      ensures Valid()
      ensures msg.KeyPress? && (!old(scanning) || msg.key == Quit) ==> KeyHandled(msg.key, cmd)
      ensures msg.KeyPress? && old(scanning) && msg.key != Quit ==> cmd == NoCmd && State() == old(State())
      ensures msg.Found? ==>
        && cmd == NoCmd && State() == old(State()).(nodes := nodes, flatList := flatList)
        && GrownBy(old(nodes), nodes, msg.segments, msg.size, true)
        && (msg.segments != [] ==> HasPath(nodes, msg.segments))
      ensures msg == ScanDone ==>
        && cmd == NoCmd && State() == old(State()).(nodes := nodes, flatList := flatList, scanning := false)
        && nodes == Relabelled(old(nodes))
      ensures msg == DeletionDone ==> cmd == NoCmd && State() == old(State())
      ensures msg == Tick ==> cmd == TickCmd && State() == old(State()).(scrollOffset := old(scrollOffset) + 1)
      ensures msg.Resize? ==> cmd == NoCmd && State() == old(State()).(width := msg.width, height := msg.height)
    {
      cmd := NoCmd;
      match msg
      case KeyPress(key) =>
        cmd := OnKey(key);
      case Resize(w, h) =>
        Resize(w, h);
      case Found(segments, size) =>
        OnFound(segments, size);
      case ScanDone =>
        FinishScan();
      case DeletionDone =>
      case Tick =>
        cmd := AdvanceScroll();
    }
  }
}
