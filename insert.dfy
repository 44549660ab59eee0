/** What insertPath does to the tree: a scanned path, split into segments, is
    walked down from the virtual root; a missing segment becomes a new node
    attached to the current one, whose children are then re-sorted; the node
    of the whole path takes the reported size when it is a target directory. */
module Insertion {
  import opened Tree
  import opened ChildOrder

  /** The scanner reports paths whose last segment is the target name; only
      such a node receives the size. */
  predicate IsTargetPath(segments: seq<string>)
  {
    |segments| > 0 && segments[|segments| - 1] == TargetName
  }

  // ---------------------------------------------------------------------------
  // Attaching one new child
  // ---------------------------------------------------------------------------

  /** `b` is `a` with a new node `part` of size `size` appended under `cur`,
      listed among the children of `cur` in some order; nothing else changes. */
  ghost predicate AttachedAt(a: Arena, b: Arena, cur: nat, part: string, size: int)
  {
    && cur < |a| && |b| == |a| + 1
    && b[|a|] == NewTreeNode(a[cur].path + [part], part, size).(parent := Some(cur))
    && (forall x :: 0 <= x < |a| && x != cur ==> b[x] == a[x])
    && b[cur] == a[cur].(children := b[cur].children)
    && multiset(b[cur].children) == multiset(a[cur].children) + multiset{|a| as nat}
  }

  /** No child of `cur` is named `part`. */
  ghost predicate NoChildNamed(a: Arena, cur: nat, part: string)
    requires ChildrenAfter(a) && cur < |a|
  {
    forall k :: 0 <= k < |a[cur].children| ==> a[a[cur].children[k]].name != part
  }

  lemma AttachChildrenAfter(a: Arena, b: Arena, cur: nat, part: string, size: int)
    requires Valid(a) && AttachedAt(a, b, cur, part, size)
    ensures ChildrenAfter(b)
    ensures forall k :: 0 <= k < |b[cur].children| ==> b[cur].children[k] in multiset(a[cur].children) + multiset{|a| as nat}
  {
    var kids := b[cur].children;
    forall k | 0 <= k < |kids| ensures cur < kids[k] < |b| && kids[k] in multiset(a[cur].children) + multiset{|a| as nat} {
      assert kids[k] in multiset(kids);
      if kids[k] != |a| {
        assert kids[k] in a[cur].children;
      }
    }
  }

  lemma AttachParents(a: Arena, b: Arena, cur: nat, part: string, size: int)
    requires Valid(a) && AttachedAt(a, b, cur, part, size)
    ensures forall i :: 0 < i < |b| ==>
      && b[i].parent.Some?
      && b[i].parent.value < i
      && b[i].path == b[b[i].parent.value].path + [b[i].name]
      && i in b[b[i].parent.value].children
  {
    forall i | 0 < i < |b|
      ensures && b[i].parent.Some? && b[i].parent.value < i
              && b[i].path == b[b[i].parent.value].path + [b[i].name]
              && i in b[b[i].parent.value].children
    {
      if i == |a| || a[i].parent.value == cur {
        assert i in multiset(b[cur].children);
      }
    }
  }

  lemma AttachBackLinks(a: Arena, b: Arena, cur: nat, part: string, size: int)
    requires Valid(a) && AttachedAt(a, b, cur, part, size)
    requires ChildrenAfter(b)
    requires forall k :: 0 <= k < |b[cur].children| ==> b[cur].children[k] in multiset(a[cur].children) + multiset{|a| as nat}
    ensures forall i, k :: 0 <= i < |b| && 0 <= k < |b[i].children| ==> b[b[i].children[k]].parent == Some(i)
  {
    forall i, k | 0 <= i < |b| && 0 <= k < |b[i].children| ensures b[b[i].children[k]].parent == Some(i) {
      if i != cur {
        assert b[i].children == a[i].children;
      } else if b[cur].children[k] != |a| {
        assert b[cur].children[k] in a[cur].children;
      }
    }
  }

  lemma AttachDistinct(a: Arena, b: Arena, cur: nat, part: string, size: int)
    requires Valid(a) && AttachedAt(a, b, cur, part, size) && NoChildNamed(a, cur, part)
    ensures InArena(b, b[cur].children) && DistinctNames(b, b[cur].children)
  {
    var appended := a[cur].children + [|a|];
    assert InArena(b, appended);
    forall k, l | 0 <= k < l < |appended| ensures b[appended[k]].name != b[appended[l]].name {
      assert appended[k] == a[cur].children[k];
      if l < |appended| - 1 {
        assert appended[l] == a[cur].children[l];
      }
    }
    PermNames(b, b[cur].children, appended);
  }

  lemma AttachNames(a: Arena, b: Arena, cur: nat, part: string, size: int)
    requires Valid(a) && AttachedAt(a, b, cur, part, size) && NoChildNamed(a, cur, part)
    requires ChildrenAfter(b)
    ensures forall i, k, l :: 0 <= i < |b| && 0 <= k < l < |b[i].children| ==>
      b[b[i].children[k]].name != b[b[i].children[l]].name
  {
    AttachDistinct(a, b, cur, part, size);
    forall i, k, l | 0 <= i < |b| && 0 <= k < l < |b[i].children|
      ensures b[b[i].children[k]].name != b[b[i].children[l]].name
    {
      if i != cur {
        assert b[i].children == a[i].children;
        assert a[a[i].children[k]].name != a[a[i].children[l]].name;
      }
    }
  }

  /** Attaching a new node under `cur`, which has no child of that name, keeps
      the arena a tree. */
  lemma AttachValid(a: Arena, b: Arena, cur: nat, part: string, size: int)
    requires Valid(a) && AttachedAt(a, b, cur, part, size) && NoChildNamed(a, cur, part)
    ensures Valid(b)
  {
    AttachChildrenAfter(a, b, cur, part, size);
    AttachParents(a, b, cur, part, size);
    AttachBackLinks(a, b, cur, part, size);
    AttachNames(a, b, cur, part, size);
  }

  /** Re-sorting the children of `cur` after appending the new node leaves
      the totals of those children as they were in the appended arena. */
  lemma AttachSorted(g: Arena, b: Arena, cur: nat, kids: seq<nat>)
    requires ChildrenAfter(g) && ChildrenAfter(b) && |g| == |b| && cur < |g|
    requires InArena(g, kids) && Sorted(g, kids)
    requires forall k :: 0 <= k < |kids| ==> cur < kids[k]
    requires forall x :: 0 <= x < |g| && x != cur ==> b[x] == g[x]
    ensures InArena(b, kids) && Sorted(b, kids)
  {
    forall k | 0 <= k < |kids| ensures TotalSize(g, kids[k]) == TotalSize(b, kids[k]) {
      TotalSizeFrame(g, b, cur + 1, kids[k]);
    }
    SortedFrame(g, b, kids);
  }

  /** The arena with the new node appended, before `cur` lists it. */
  lemma AppendPrep(a: Arena, g: Arena, cur: nat, part: string, size: int)
    requires Valid(a) && cur < |a|
    requires g == a + [NewTreeNode(a[cur].path + [part], part, size).(parent := Some(cur))]
    ensures ChildrenAfter(g) && InArena(g, a[cur].children + [|a| as nat])
  {
    forall i, k | 0 <= i < |g| && 0 <= k < |g[i].children|
      ensures i < g[i].children[k] < |g|
    {
      if i < |a| {
        assert g[i] == a[i];
      }
    }
  }

  /** The creation branch of insertPath, once the children of `cur` are
      re-sorted: the new node is attached, the arena is still a tree and the
      children of `cur` are in order. */
  lemma AttachOutcome(a: Arena, g: Arena, b: Arena, cur: nat, part: string, size: int, kids: seq<nat>)
    requires Valid(a) && cur < |a| && NoChildNamed(a, cur, part)
    requires g == a + [NewTreeNode(a[cur].path + [part], part, size).(parent := Some(cur))]
    requires ChildrenAfter(g) && InArena(g, kids) && Sorted(g, kids)
    requires multiset(kids) == multiset(a[cur].children + [|a| as nat])
    requires b == g[cur := g[cur].(children := kids)]
    ensures AttachedAt(a, b, cur, part, size) && Valid(b)
    ensures InArena(b, kids) && Sorted(b, kids)
  {
    SortedAttached(a, g, b, cur, part, size, kids);
    AttachValid(a, b, cur, part, size);
    KidsAfter(a, cur, kids);
    AttachSorted(g, b, cur, kids);
  }

  lemma SortedAttached(a: Arena, g: Arena, b: Arena, cur: nat, part: string, size: int, kids: seq<nat>)
    requires cur < |a| && g == a + [NewTreeNode(a[cur].path + [part], part, size).(parent := Some(cur))]
    requires multiset(kids) == multiset(a[cur].children + [|a| as nat])
    requires b == g[cur := g[cur].(children := kids)]
    ensures AttachedAt(a, b, cur, part, size)
  {
    assert b[|a|] == g[|a|];
    forall x | 0 <= x < |a| && x != cur ensures b[x] == a[x] {
      assert b[x] == g[x];
    }
  }

  /** Every reordered child of `cur`, the new one included, lies after it. */
  lemma KidsAfter(a: Arena, cur: nat, kids: seq<nat>)
    requires Valid(a) && cur < |a|
    requires multiset(kids) == multiset(a[cur].children + [|a| as nat])
    ensures forall k :: 0 <= k < |kids| ==> cur < kids[k]
  {
    forall k | 0 <= k < |kids| ensures cur < kids[k] {
      assert kids[k] in multiset(a[cur].children + [|a| as nat]);
      var j :| 0 <= j < |a[cur].children + [|a| as nat]| && (a[cur].children + [|a| as nat])[j] == kids[k];
      if j < |a[cur].children| {
        assert kids[k] == a[cur].children[j];
      }
    }
  }

  // ---------------------------------------------------------------------------
  // Walking the segments
  // ---------------------------------------------------------------------------

  /** The size insertPath gives the node of the full path: the reported size
      for a target directory, otherwise `prior` (0 for a node it creates). */
  function SizeAt(p: seq<string>, segments: seq<string>, size: int, prior: int): int
  {
    if p == segments && IsTargetPath(segments) then size else prior
  }

  /** `y` is a node insertPath created: a fresh node on a prefix of the
      segments, named after its last segment. */
  ghost predicate NewNode(b: Arena, y: nat, segments: seq<string>, size: int)
    requires y < |b|
  {
    var p := b[y].path;
    && 0 < |p| <= |segments| && p == segments[..|p|]
    && b[y] == NewTreeNode(p, p[|p| - 1], SizeAt(p, segments, size, 0))
                 .(parent := b[y].parent, children := b[y].children, isLast := b[y].isLast)
  }

  /** Every child of `x` in `b` was already a node of `o`. */
  ghost predicate OldChildren(o: Arena, b: Arena, x: nat)
    requires x < |b|
  {
    forall k :: 0 <= k < |b[x].children| ==> b[x].children[k] < |o|
  }

  /** `b` is `o` after inserting `segments`, with the size applied once `done`:
      the old nodes keep everything but their children (which only grow), their
      last-child flags (which the rebuild recomputes) and, for the node of the
      full path, the size; every other node is new. */
  ghost predicate GrownBy(o: Arena, b: Arena, segments: seq<string>, size: int, done: bool)
  {
    && |o| <= |b| <= |o| + |segments|
    && (forall x :: 0 <= x < |o| ==>
          b[x] == o[x].(children := b[x].children, size := b[x].size, isLast := b[x].isLast))
    && (forall x :: 0 <= x < |o| ==> multiset(o[x].children) <= multiset(b[x].children))
    && (forall x :: 0 <= x < |o| && OldChildren(o, b, x) ==> b[x].children == o[x].children)
    && (forall x :: 0 <= x < |o| ==>
          b[x].size == if done then SizeAt(o[x].path, segments, size, o[x].size) else o[x].size)
    && (forall y :: |o| <= y < |b| ==> NewNode(b, y, segments, size))
  }

  /** The state of insertPath's loop after `i` segments: `cur` is the node of
      the first `i` segments. */
  ghost predicate Walking(o: Arena, b: Arena, segments: seq<string>, size: int, i: nat, cur: nat)
  {
    && Valid(b) && i <= |segments| && cur < |b|
    && b[cur].path == segments[..i]
    && |b| <= |o| + i
    && GrownBy(o, b, segments, size, i == |segments|)
  }

  lemma WalkStart(o: Arena, segments: seq<string>, size: int)
    requires Valid(o)
    ensures Walking(o, o, segments, size, 0, Root)
  {
    forall x | 0 <= x < |o| ensures multiset(o[x].children) <= multiset(o[x].children) { }
  }

  /** Some node other than the virtual root has the path `segments`. */
  ghost predicate HasPath(b: Arena, segments: seq<string>)
  {
    exists y :: 0 < y < |b| && b[y].path == segments
  }

  /** At the end of insertPath's loop the node of the whole path is a real
      node (when there is at least one segment). */
  lemma WalkDone(o: Arena, b: Arena, segments: seq<string>, size: int, cur: nat)
    requires Walking(o, b, segments, size, |segments|, cur)
    ensures Valid(b) && GrownBy(o, b, segments, size, true)
    ensures segments != [] ==> HasPath(b, segments)
  {
    assert segments[..|segments|] == segments;
    assert GrownBy(o, b, segments, size, |segments| == |segments|);
    if segments != [] {
      assert b[cur].path == segments && 0 < cur;
    }
  }

  /** Recomputing the last-child flags after insertPath's loop keeps the
      outcome of the walk. */
  lemma InsertOutcome(o: Arena, w: Arena, b: Arena, segments: seq<string>, size: int)
    requires GrownBy(o, w, segments, size, true) && (segments != [] ==> HasPath(w, segments))
    requires |b| == |w| && forall x :: 0 <= x < |w| ==> b[x] == w[x].(isLast := b[x].isLast)
    ensures GrownBy(o, b, segments, size, true)
    ensures segments != [] ==> HasPath(b, segments)
  {
    forall y | |o| <= y < |b| ensures NewNode(b, y, segments, size) {
      assert NewNode(w, y, segments, size);
    }
    forall x | 0 <= x < |o| ensures multiset(o[x].children) <= multiset(b[x].children) {
      assert b[x].children == w[x].children;
    }
    forall x | 0 <= x < |o| && OldChildren(o, b, x) ensures b[x].children == o[x].children {
      assert b[x].children == w[x].children;
      assert OldChildren(o, w, x);
    }
    if segments != [] {
      var y :| 0 < y < |w| && w[y].path == segments;
      assert b[y].path == segments;
    }
  }

  /** Once no old node can be the node of the full path, the size is settled. */
  lemma GrownDone(o: Arena, b: Arena, segments: seq<string>, size: int)
    requires GrownBy(o, b, segments, size, false)
    requires forall x :: 0 <= x < |o| ==> o[x].path != segments || !IsTargetPath(segments)
    ensures GrownBy(o, b, segments, size, true)
  {
  }

  /** No other node has the path of `c`. */
  lemma OnlyNodeOnPath(b: Arena, c: nat)
    requires Valid(b) && c < |b|
    ensures forall x :: 0 <= x < |b| && b[x].path == b[c].path ==> x == c
  {
    forall x | 0 <= x < |b| && b[x].path == b[c].path ensures x == c {
      PathUnique(b, x, c);
    }
  }

  /** Setting the size of the node `c` of the full path of a target. */
  lemma GrownSetSize(o: Arena, b: Arena, segments: seq<string>, size: int, c: nat)
    requires GrownBy(o, b, segments, size, false)
    requires c < |b| && b[c].path == segments && IsTargetPath(segments)
    requires forall x :: 0 <= x < |b| && b[x].path == segments ==> x == c
    ensures GrownBy(o, b[c := b[c].(size := size)], segments, size, true)
  {
    var b2 := b[c := b[c].(size := size)];
    GrownResized(o, b, b2, segments, size);
    SetSizeOld(o, b, segments, size, c);
    SetSizeNew(o, b, segments, size, c);
  }

  /** A change of sizes alone keeps what the old nodes owe to `o` apart from
      their sizes. */
  lemma GrownResized(o: Arena, b: Arena, b2: Arena, segments: seq<string>, size: int)
    requires GrownBy(o, b, segments, size, false) && |b2| == |b|
    requires forall x :: 0 <= x < |b| ==> b2[x] == b[x].(size := b2[x].size)
    ensures forall x :: 0 <= x < |o| ==>
      b2[x] == o[x].(children := b2[x].children, size := b2[x].size, isLast := b2[x].isLast)
    ensures forall x :: 0 <= x < |o| ==> multiset(o[x].children) <= multiset(b2[x].children)
    ensures forall x :: 0 <= x < |o| && OldChildren(o, b2, x) ==> b2[x].children == o[x].children
  {
    forall x | 0 <= x < |o| ensures multiset(o[x].children) <= multiset(b2[x].children) {
      assert b2[x].children == b[x].children;
    }
    forall x | 0 <= x < |o| && OldChildren(o, b2, x) ensures b2[x].children == o[x].children {
      assert b2[x].children == b[x].children;
      assert OldChildren(o, b, x);
    }
  }

  /** After setting the size of `c`, the old nodes carry the sizes the
      finished insertion gives them. */
  lemma SetSizeOld(o: Arena, b: Arena, segments: seq<string>, size: int, c: nat)
    requires GrownBy(o, b, segments, size, false)
    requires c < |b| && b[c].path == segments && IsTargetPath(segments)
    requires forall x :: 0 <= x < |b| && b[x].path == segments ==> x == c
    ensures var b2 := b[c := b[c].(size := size)];
      forall x :: 0 <= x < |o| ==> b2[x].size == SizeAt(o[x].path, segments, size, o[x].size)
  {
    var b2 := b[c := b[c].(size := size)];
    forall x | 0 <= x < |o| ensures b2[x].size == SizeAt(o[x].path, segments, size, o[x].size) {
      assert b[x].path == o[x].path;
    }
  }

  /** After setting the size of `c`, the created nodes are still what the
      insertion creates. */
  lemma SetSizeNew(o: Arena, b: Arena, segments: seq<string>, size: int, c: nat)
    requires GrownBy(o, b, segments, size, false)
    requires c < |b| && b[c].path == segments && IsTargetPath(segments)
    ensures var b2 := b[c := b[c].(size := size)];
      forall y :: |o| <= y < |b2| ==> NewNode(b2, y, segments, size)
  {
    var b2 := b[c := b[c].(size := size)];
    forall y | |o| <= y < |b2| ensures NewNode(b2, y, segments, size) {
      assert NewNode(b, y, segments, size);
    }
  }

  /** A child named after segment `i` of the node of the first `i` segments
      is the node of the first `i + 1` segments. */
  lemma ChildOnPath(b: Arena, segments: seq<string>, i: nat, cur: nat, c: nat)
    requires Valid(b) && i < |segments| && cur < |b| && b[cur].path == segments[..i]
    requires c in b[cur].children && b[c].name == segments[i]
    ensures c < |b| && b[c].path == segments[..i + 1]
  {
    var k :| 0 <= k < |b[cur].children| && b[cur].children[k] == c;
    assert b[cur].path + [segments[i]] == segments[..i + 1];
  }

  /** Changing the size of one node keeps the arena a tree. */
  lemma ResizedValid(b: Arena, c: nat, size: int)
    requires Valid(b) && c < |b|
    ensures Valid(b[c := b[c].(size := size)])
  {
    var b2 := b[c := b[c].(size := size)];
    assert SameShape(b, b2);
    ValidSameShape(b, b2);
  }

  /** The last segment of a target path exists as child `c`: it becomes the
      current node and takes the size. */
  lemma FoundTarget(o: Arena, b: Arena, segments: seq<string>, size: int, i: nat, cur: nat, c: nat)
    requires Walking(o, b, segments, size, i, cur) && i == |segments| - 1 && segments[i] == TargetName
    requires c in b[cur].children && b[c].name == segments[i]
    ensures Walking(o, b[c := b[c].(size := size)], segments, size, i + 1, c)
  {
    ChildOnPath(b, segments, i, cur, c);
    assert segments[..i + 1] == segments;
    ResizedValid(b, c, size);
    OnlyNodeOnPath(b, c);
    GrownSetSize(o, b, segments, size, c);
  }

  /** Any other segment that exists as child `c`: it becomes the current
      node. */
  lemma FoundStep(o: Arena, b: Arena, segments: seq<string>, size: int, i: nat, cur: nat, c: nat)
    requires Walking(o, b, segments, size, i, cur) && i < |segments|
    requires !(i == |segments| - 1 && segments[i] == TargetName)
    requires c in b[cur].children && b[c].name == segments[i]
    ensures Walking(o, b, segments, size, i + 1, c)
  {
    ChildOnPath(b, segments, i, cur, c);
    if i == |segments| - 1 {
      assert segments[..i + 1] == segments;
      GrownDone(o, b, segments, size);
    }
  }

  /** When the last segment is missing under the node of all the others, no
      node has the full path yet. */
  lemma NoNodeOnPath(b: Arena, segments: seq<string>, cur: nat)
    requires Valid(b) && |segments| > 0 && cur < |b|
    requires b[cur].path == segments[..|segments| - 1]
    requires NoChildNamed(b, cur, segments[|segments| - 1])
    ensures forall x :: 0 <= x < |b| ==> b[x].path != segments
  {
    var i := |segments| - 1;
    forall x | 0 < x < |b| ensures b[x].path != segments {
      var q := b[x].parent.value;
      if |b[x].path| == |segments| {
        assert b[x].path[..i] == b[q].path;
        if b[q].path == segments[..i] {
          PathUnique(b, q, cur);
          var k :| 0 <= k < |b[cur].children| && b[cur].children[k] == x;
          assert b[x].path[i] == b[x].name != segments[i];
        } else {
          assert b[x].path[..i] != segments[..i];
        }
      }
    }
  }

  /** Attaching a child to `cur` keeps what the old nodes owe to `o`: their
      children only grow, and a node whose children are all old keeps them. */
  lemma GrownAttachChildren(o: Arena, b: Arena, b2: Arena, segments: seq<string>, size: int, cur: nat, part: string, nodeSize: int)
    requires GrownBy(o, b, segments, size, false)
    requires AttachedAt(b, b2, cur, part, nodeSize)
    ensures forall x :: 0 <= x < |o| ==> multiset(o[x].children) <= multiset(b2[x].children)
    ensures forall x :: 0 <= x < |o| && OldChildren(o, b2, x) ==> b2[x].children == o[x].children
  {
    forall x | 0 <= x < |o| ensures multiset(o[x].children) <= multiset(b2[x].children) {
      assert multiset(o[x].children) <= multiset(b[x].children);
    }
    assert !OldChildren(o, b2, cur) by {
      assert |b| in multiset(b2[cur].children);
    }
    forall x | 0 <= x < |o| && x != cur && OldChildren(o, b2, x) ensures b2[x].children == o[x].children {
      assert OldChildren(o, b, x);
    }
  }

  /** The nodes insertPath created before stay as they were when a child is
      attached to one of them. */
  lemma GrownAttach(o: Arena, b: Arena, b2: Arena, segments: seq<string>, size: int, cur: nat, part: string, nodeSize: int)
    requires GrownBy(o, b, segments, size, false) && |b| < |o| + |segments|
    requires AttachedAt(b, b2, cur, part, nodeSize)
    requires NewNode(b2, |b|, segments, size)
    ensures GrownBy(o, b2, segments, size, false)
  {
    GrownAttachChildren(o, b, b2, segments, size, cur, part, nodeSize);
    NewNodesKept(|o|, b, b2, segments, size, cur, part, nodeSize);
  }

  /** Attaching a child changes no node insertPath created before but for
      its children. */
  lemma NewNodesKept(lo: nat, b: Arena, b2: Arena, segments: seq<string>, size: int, cur: nat, part: string, nodeSize: int)
    requires AttachedAt(b, b2, cur, part, nodeSize)
    requires forall y :: lo <= y < |b| ==> NewNode(b, y, segments, size)
    ensures forall y :: lo <= y < |b| ==> NewNode(b2, y, segments, size)
  {
    forall y | lo <= y < |b| ensures NewNode(b2, y, segments, size) {
      assert NewNode(b, y, segments, size);
    }
  }

  /** The node attached under the node of the first `i` segments, named
      after segment `i`, is a node insertPath creates for the first `i + 1`
      segments. */
  lemma CreatedNode(b: Arena, b2: Arena, segments: seq<string>, size: int, i: nat, cur: nat)
    requires i < |segments| && cur < |b| && b[cur].path == segments[..i]
    requires AttachedAt(b, b2, cur, segments[i],
      if i == |segments| - 1 && segments[i] == TargetName then size else 0)
    ensures b2[|b|].path == segments[..i + 1] && NewNode(b2, |b|, segments, size)
  {
    assert b[cur].path + [segments[i]] == segments[..i + 1];
    var p := b2[|b|].path;
    assert p == segments[..i + 1] && |p| == i + 1;
    assert p[|p| - 1] == segments[i];
    if i + 1 == |segments| {
      assert p == segments;
    }
  }

  /** Creating the node of the whole path: no old node had that path, so the
      size is settled. */
  lemma CreatedLast(o: Arena, b: Arena, b2: Arena, segments: seq<string>, size: int, cur: nat)
    requires Valid(b) && |segments| > 0 && cur < |b| && b[cur].path == segments[..|segments| - 1]
    requires NoChildNamed(b, cur, segments[|segments| - 1])
    requires GrownBy(o, b, segments, size, false) && GrownBy(o, b2, segments, size, false)
    ensures GrownBy(o, b2, segments, size, true)
  {
    NoNodeOnPath(b, segments, cur);
    forall x | 0 <= x < |o| ensures o[x].path != segments {
      assert b[x].path == o[x].path;
    }
    GrownDone(o, b2, segments, size);
  }

  /** The segment is missing: a new node is attached under `cur` and becomes
      the current node. */
  lemma CreateStep(o: Arena, b: Arena, b2: Arena, segments: seq<string>, size: int, i: nat, cur: nat)
    requires Walking(o, b, segments, size, i, cur) && i < |segments|
    requires NoChildNamed(b, cur, segments[i])
    requires AttachedAt(b, b2, cur, segments[i],
      if i == |segments| - 1 && segments[i] == TargetName then size else 0)
    ensures Walking(o, b2, segments, size, i + 1, |b|)
  {
    var nodeSize := if i == |segments| - 1 && segments[i] == TargetName then size else 0;
    AttachValid(b, b2, cur, segments[i], nodeSize);
    CreatedNode(b, b2, segments, size, i, cur);
    GrownAttach(o, b, b2, segments, size, cur, segments[i], nodeSize);
    if i + 1 == |segments| {
      CreatedLast(o, b, b2, segments, size, cur);
    }
  }

  // ---------------------------------------------------------------------------
  // Re-inserting a path that is already there
  // ---------------------------------------------------------------------------

  /** Inserting a path that is already in the tree creates no node and changes
      no link: the only changes are the size of the node of the path, which
      takes the reported size when the path is a target, and the last-child
      flags the rebuild recomputes. */
  lemma ReinsertCreatesNothing(o: Arena, b: Arena, segments: seq<string>, size: int)
    requires Valid(o) && Valid(b) && GrownBy(o, b, segments, size, true)
    requires HasPath(o, segments)
    ensures |b| == |o|
    ensures forall x :: 0 <= x < |o| ==>
      b[x] == o[x].(size := SizeAt(o[x].path, segments, size, o[x].size), isLast := b[x].isLast)
  {
    if |b| > |o| {
      var y := |o|;
      assert NewNode(b, y, segments, size);
      var p := b[y].path;
      var z :| 0 < z < |o| && o[z].path == segments;
      var w := PathPrefix(o, z, |p|);
      assert b[w].path == o[w].path == p;
      PathUnique(b, w, y);
      assert false;
    }
    forall x | 0 <= x < |o| ensures b[x].children == o[x].children {
      assert OldChildren(o, b, x);
    }
  }
}
