/** The order insertPath keeps a parent's children in: larger total size first,
    and among equal totals the smaller name first. The source hands this
    comparator to the library sort; `SortChildren` stands for that call. */
module ChildOrder {
  import opened Tree
  import opened NameOrder

  /** The comparator of insertPath: `x` goes before `y`. */
  predicate ChildLess(a: Arena, x: nat, y: nat)
    requires ChildrenAfter(a) && x < |a| && y < |a|
  {
    var sx, sy := TotalSize(a, x), TotalSize(a, y);
    if sx != sy then sx > sy else NameLess(a[x].name, a[y].name)
  }

  /** No element should have gone before an earlier one. */
  ghost predicate Sorted(a: Arena, s: seq<nat>)
    requires ChildrenAfter(a) && InArena(a, s)
  {
    forall i, j :: 0 <= i < j < |s| ==> !ChildLess(a, s[j], s[i])
  }

  lemma ChildLessAsymmetric(a: Arena, x: nat, y: nat)
    requires ChildrenAfter(a) && x < |a| && y < |a|
    requires ChildLess(a, x, y)
    ensures !ChildLess(a, y, x)
  {
    if TotalSize(a, x) == TotalSize(a, y) {
      NameLessAsymmetric(a[x].name, a[y].name);
    }
  }

  /** Not going before is transitive (the comparator is a strict weak order). */
  lemma ChildLessNegTransitive(a: Arena, p: nat, q: nat, r: nat)
    requires ChildrenAfter(a) && p < |a| && q < |a| && r < |a|
    requires !ChildLess(a, p, q) && !ChildLess(a, q, r)
    ensures !ChildLess(a, p, r)
  {
    if TotalSize(a, p) == TotalSize(a, q) == TotalSize(a, r) {
      NameNotLessTransitive(a[p].name, a[q].name, a[r].name);
    }
  }

  /** Putting `x` in front of a sorted list whose head does not go before it
      keeps the list sorted. */
  lemma InsertFront(a: Arena, x: nat, s: seq<nat>)
    requires ChildrenAfter(a) && x < |a| && InArena(a, s) && Sorted(a, s)
    requires s == [] || !ChildLess(a, s[0], x)
    ensures InArena(a, [x] + s) && Sorted(a, [x] + s)
  {
    var r := [x] + s;
    forall k | 0 < k < |r| ensures r[k] == s[k - 1] { }
    forall j | 1 < j < |r| ensures !ChildLess(a, r[j], x) {
      assert !ChildLess(a, s[j - 1], s[0]);
      ChildLessNegTransitive(a, s[j - 1], s[0], x);
    }
  }

  /** Keeping the head of a sorted list that goes before `x` in front of the
      sorted insertion of `x` into the rest keeps the list sorted. */
  lemma InsertBehind(a: Arena, x: nat, s: seq<nat>, t: seq<nat>)
    requires ChildrenAfter(a) && x < |a| && InArena(a, s) && Sorted(a, s)
    requires s != [] && ChildLess(a, s[0], x)
    requires InArena(a, t) && Sorted(a, t) && multiset(t) == multiset(s[1..]) + multiset{x}
    ensures InArena(a, [s[0]] + t) && Sorted(a, [s[0]] + t)
  {
    var r := [s[0]] + t;
    forall k | 0 < k < |r| ensures r[k] == t[k - 1] { }
    forall j | 0 < j < |r| ensures !ChildLess(a, r[j], s[0]) {
      var e := t[j - 1];
      assert e in multiset(t);
      if e == x {
        ChildLessAsymmetric(a, s[0], x);
      } else {
        assert e in multiset(s[1..]);
        var m :| 0 <= m < |s[1..]| && s[1..][m] == e;
        assert s[m + 1] == e;
      }
    }
  }

  /** Inserts `x` before the first element that does not go before it. */
  function Insert(a: Arena, x: nat, s: seq<nat>): (r: seq<nat>)
    requires ChildrenAfter(a) && x < |a| && InArena(a, s) && Sorted(a, s)
    ensures multiset(r) == multiset(s) + multiset{x}
    ensures InArena(a, r) && Sorted(a, r)
  {
    if s == [] || !ChildLess(a, s[0], x) then
      InsertFront(a, x, s);
      [x] + s
    else
      var t := Insert(a, x, s[1..]);
      InsertBehind(a, x, s, t);
      assert s == [s[0]] + s[1..];
      [s[0]] + t
  }

  /** The library sort with insertPath's comparator, as an insertion sort: the
      result is sorted and is a permutation of the input. */
  function SortChildren(a: Arena, s: seq<nat>): (r: seq<nat>)
    requires ChildrenAfter(a) && InArena(a, s)
    ensures multiset(r) == multiset(s)
    ensures InArena(a, r) && Sorted(a, r)
  {
    if s == [] then []
    else
      assert s == [s[0]] + s[1..];
      Insert(a, s[0], SortChildren(a, s[1..]))
  }

  /** Among siblings with distinct names, sorted means strictly ordered: larger
      totals first, equal totals by ascending name. */
  lemma SortedStrict(a: Arena, s: seq<nat>, i: nat, j: nat)
    requires ChildrenAfter(a) && InArena(a, s) && Sorted(a, s)
    requires i < j < |s| && a[s[i]].name != a[s[j]].name
    ensures TotalSize(a, s[i]) > TotalSize(a, s[j])
         || (TotalSize(a, s[i]) == TotalSize(a, s[j]) && NameLess(a[s[i]].name, a[s[j]].name))
  {
    assert !ChildLess(a, s[j], s[i]);
    NameLessTotal(a[s[i]].name, a[s[j]].name);
  }

  /** Sortedness survives a change that keeps the totals and names of `s`. */
  lemma SortedFrame(a: Arena, b: Arena, s: seq<nat>)
    requires ChildrenAfter(a) && ChildrenAfter(b) && InArena(a, s) && InArena(b, s) && Sorted(a, s)
    requires forall k :: 0 <= k < |s| ==> TotalSize(a, s[k]) == TotalSize(b, s[k]) && a[s[k]].name == b[s[k]].name
    ensures Sorted(b, s)
  {
  }

  /** The nodes of `s` have pairwise different names. */
  ghost predicate DistinctNames(a: Arena, s: seq<nat>)
    requires InArena(a, s)
  {
    forall k, l :: 0 <= k < l < |s| ==> a[s[k]].name != a[s[l]].name
  }

  /** Dropping the sibling at `p` leaves distinct names, none of them the name
      of the one dropped. */
  lemma DropDistinct(a: Arena, t: seq<nat>, p: nat)
    requires InArena(a, t) && DistinctNames(a, t) && p < |t|
    ensures var u := t[..p] + t[p + 1..];
      && InArena(a, u) && DistinctNames(a, u)
      && forall q :: 0 <= q < |u| ==> a[u[q]].name != a[t[p]].name
  {
    var u := t[..p] + t[p + 1..];
    forall q | 0 <= q < |u| ensures u[q] == t[if q < p then q else q + 1] { }
  }

  /** Reordering a list of siblings keeps their names distinct. */
  lemma {:induction false} PermNames(a: Arena, s: seq<nat>, t: seq<nat>)
    requires InArena(a, t) && multiset(s) == multiset(t) && DistinctNames(a, t)
    ensures InArena(a, s) && DistinctNames(a, s)
    decreases |s|
  {
    PermInArena(a, s, t);
    if s != [] {
      assert s[0] in multiset(t);
      var p :| 0 <= p < |t| && t[p] == s[0];
      var u := t[..p] + t[p + 1..];
      PermTail(s, t, p);
      DropDistinct(a, t, p);
      PermNames(a, s[1..], u);
      NamesAvoid(a, s[1..], u, a[s[0]].name);
      ConsDistinct(a, s);
    }
  }

  /** Dropping the head of `s` and its copy in `t` keeps them reorderings. */
  lemma PermTail(s: seq<nat>, t: seq<nat>, p: nat)
    requires multiset(s) == multiset(t) && s != [] && p < |t| && t[p] == s[0]
    ensures multiset(s[1..]) == multiset(t[..p] + t[p + 1..])
  {
    assert s == [s[0]] + s[1..];
    assert t == t[..p] + [t[p]] + t[p + 1..];
    assert multiset(s) == multiset{s[0]} + multiset(s[1..]);
    assert multiset(t) == multiset(t[..p]) + multiset{t[p]} + multiset(t[p + 1..]);
    assert multiset(t[..p] + t[p + 1..]) == multiset(t[..p]) + multiset(t[p + 1..]);
    assert multiset(s[1..]) == multiset(s) - multiset{s[0]};
  }

  lemma PermInArena(a: Arena, s: seq<nat>, t: seq<nat>)
    requires InArena(a, t) && multiset(s) == multiset(t)
    ensures InArena(a, s)
  {
    forall k | 0 <= k < |s| ensures s[k] < |a| {
      assert s[k] in multiset(s);
    }
  }

  /** A name none of `u` has is a name none of its reorderings has. */
  lemma NamesAvoid(a: Arena, s: seq<nat>, u: seq<nat>, n: string)
    requires InArena(a, u) && multiset(s) == multiset(u)
    requires forall q :: 0 <= q < |u| ==> a[u[q]].name != n
    ensures InArena(a, s) && forall q :: 0 <= q < |s| ==> a[s[q]].name != n
  {
    PermInArena(a, s, u);
    forall q | 0 <= q < |s| ensures a[s[q]].name != n {
      assert s[q] in multiset(u);
    }
  }

  /** A head whose name its tail avoids, before a tail of distinct names. */
  lemma ConsDistinct(a: Arena, s: seq<nat>)
    requires InArena(a, s) && s != [] && DistinctNames(a, s[1..])
    requires forall q :: 0 <= q < |s[1..]| ==> a[s[1..][q]].name != a[s[0]].name
    ensures DistinctNames(a, s)
  {
    forall k, l | 0 <= k < l < |s| ensures a[s[k]].name != a[s[l]].name {
      assert s[l] == s[1..][l - 1];
      if k > 0 {
        assert s[k] == s[1..][k - 1];
      }
    }
  }
}
