/** The shell's class browser, arranged by hierarchy: a recursive scan of the sorted class list adds
    a node for every class below the root class. */
module ClassHierarchy {
  import opened Sequences

  /** A class, by identity; NONE is the parent of a class that has none. */
  type Class = int
  const NONE: Class := -1

  /** The sorted class list, the parent of each class, and the class at the root. */
  datatype World = World(list: seq<Class>, parents: map<Class, Class>, root: Class) {
    function ParentOf(c: Class): Class { if c in parents then parents[c] else NONE }

    /** p leads down from the root class, one listed child at a time. */
    predicate Chain(p: seq<Class>) {
      |p| > 0 && p[0] == root && forall i :: 0 < i < |p| ==> p[i] in list && ParentOf(p[i]) == p[i - 1]
    }

    /** The root class is below itself. */
    ghost predicate OnCycle() { exists p :: Chain(p) && |p| > 1 && p[|p| - 1] == root }
  }

  // ------------------------------------------------------------------ depth of the recursion

  lemma ChainPrefix(w: World, p: seq<Class>, k: nat)
    requires w.Chain(p) && 0 < k <= |p|
    ensures w.Chain(p[..k])
  {
  }

  lemma ChainExtend(w: World, p: seq<Class>, c: Class)
    requires w.Chain(p) && c in w.list && w.ParentOf(c) == p[|p| - 1]
    ensures w.Chain(p + [c])
  {
  }

  /** Classes repeat on the way down only when the root is below itself. */
  lemma {:induction false} ChainsAreDistinct(w: World, p: seq<Class>, i: nat, j: nat)
    requires !w.OnCycle() && w.Chain(p) && i < j < |p|
    ensures p[i] != p[j]
    decreases i
  {
    if i == 0 {
      ChainPrefix(w, p, j + 1);
      assert p[..j + 1][j] == p[j];
    } else {
      ChainsAreDistinct(w, p, i - 1, j - 1);
    }
  }

  /** No way down is longer than the list. */
  lemma ChainBound(w: World, p: seq<Class>)
    requires !w.OnCycle() && w.Chain(p)
    ensures |p| <= |w.list| + 1
  {
    var tail := p[1..];
    forall i, j | 0 <= i < j < |tail| ensures tail[i] != tail[j] {
      ChainsAreDistinct(w, p, i + 1, j + 1);
    }
    Pigeonhole(tail, w.list);
  }

  ghost predicate DepthAtMost(w: World, n: nat) { forall p :: w.Chain(p) ==> |p| <= n }

  /** n times around the cycle. */
  lemma {:induction false} AroundTheCycle(w: World, p: seq<Class>, n: nat) returns (q: seq<Class>)
    requires w.Chain(p) && |p| > 1 && p[|p| - 1] == w.root
    ensures w.Chain(q) && |q| > n && q[|q| - 1] == w.root
  {
    if n == 0 {
      q := p;
    } else {
      var r := AroundTheCycle(w, p, n - 1);
      q := r + p[1..];
      forall i | 0 < i < |q| ensures q[i] in w.list && w.ParentOf(q[i]) == q[i - 1] {
        if i >= |r| {
          assert q[i] == p[i - |r| + 1];
          assert q[i - 1] == p[i - |r|];
        }
      }
    }
  }

  /** The recursion goes down the chains; its depth is bounded exactly when the root class is not
      below itself, whatever cycles other classes form. */
  lemma DepthBoundedIff(w: World)
    ensures (exists n :: DepthAtMost(w, n)) <==> !w.OnCycle()
  {
    if !w.OnCycle() {
      forall p | w.Chain(p) ensures |p| <= |w.list| + 1 {
        ChainBound(w, p);
      }
      assert DepthAtMost(w, |w.list| + 1);
    } else {
      forall n | DepthAtMost(w, n) ensures false {
        var p :| w.Chain(p) && |p| > 1 && p[|p| - 1] == w.root;
        var q := AroundTheCycle(w, p, n);
      }
    }
  }

  // ------------------------------------------------------------------ the scan

  /** A tree node: the place of its class in the list, and the node it hangs under. */
  datatype Node = Node(at: nat, under: int)
  const TREE_ROOT: int := -1

  /** The nodes after scanning the list from i on, for children of the last class of path. */
  ghost function Scan(w: World, i: nat, node: int, path: seq<Class>, nodes: seq<Node>): seq<Node>
    requires !w.OnCycle() && w.Chain(path) && i <= |w.list|
    decreases |w.list| + 1 - |path|, |w.list| - i
  {
    if i == |w.list| then nodes
    else if w.ParentOf(w.list[i]) != path[|path| - 1] then Scan(w, i + 1, node, path, nodes)
    else
      var deeper := path + [w.list[i]];
      ChainExtend(w, path, w.list[i]);
      ChainBound(w, deeper);
      Scan(w, i + 1, node, path, Scan(w, 0, |nodes|, deeper, nodes + [Node(i, node)]))
  }

  class ClassesTree {
    var nodes: seq<Node>

    constructor ()
      ensures nodes == []
    {
      nodes := [];
    }

    method AddChild(at: nat, under: int) returns (node: int)
      modifies this
      ensures nodes == old(nodes) + [Node(at, under)] && node == |old(nodes)|
    {
      node := |nodes|;
      nodes := nodes + [Node(at, under)];
    }

    method ScanSubclasses(w: World, node: int, parent: Class, ghost path: seq<Class>)
      requires !w.OnCycle() && w.Chain(path) && path[|path| - 1] == parent
      modifies this
      ensures nodes == Scan(w, 0, node, path, old(nodes))
      decreases |w.list| + 1 - |path|
    {
      for i := 0 to |w.list|
        invariant Scan(w, i, node, path, nodes) == Scan(w, 0, node, path, old(nodes))
      {
        if w.ParentOf(w.list[i]) != parent {
          continue;
        }
        var child := AddChild(i, node);
        ghost var deeper := path + [w.list[i]];
        ChainExtend(w, path, w.list[i]);
        ChainBound(w, deeper);
        ScanSubclasses(w, child, w.list[i], deeper);
      }
    }

    method RefreshByHierarchy(w: World)
      requires !w.OnCycle()
      modifies this
      ensures nodes == Scan(w, 0, TREE_ROOT, [w.root], [])
    {
      nodes := [];
      ScanSubclasses(w, TREE_ROOT, w.root, [w.root]);
    }
  }

  // ------------------------------------------------------------------ what the tree shows

  /** Node k shows a listed child of the class at `node`, or hangs under a new node that shows its
      parent. */
  predicate Placed(w: World, node: int, parent: Class, before: nat, nodes: seq<Node>, k: nat)
    requires k < |nodes|
  {
    var Node(at, under) := nodes[k];
    at < |w.list|
    && ((under == node && w.ParentOf(w.list[at]) == parent)
        || (before <= under < k && nodes[under].at < |w.list| && w.ParentOf(w.list[at]) == w.list[nodes[under].at]))
  }

  predicate AllPlaced(w: World, node: int, parent: Class, before: nat, nodes: seq<Node>) {
    forall k :: before <= k < |nodes| ==> Placed(w, node, parent, before, nodes, k)
  }

  /** Siblings stand in list order. */
  predicate SiblingsInOrder(before: nat, nodes: seq<Node>) {
    forall j, k :: before <= j < k < |nodes| && nodes[j].under == nodes[k].under ==> nodes[j].at < nodes[k].at
  }

  /** Children of `node` come from place i of the list on. */
  predicate ChildrenFrom(i: nat, node: int, before: nat, nodes: seq<Node>) {
    forall k :: before <= k < |nodes| && nodes[k].under == node ==> nodes[k].at >= i
  }

  /** Every listed child of the class from place i on has its node. */
  predicate ChildrenShown(w: World, i: nat, node: int, parent: Class, nodes: seq<Node>) {
    forall m :: i <= m < |w.list| && w.ParentOf(w.list[m]) == parent ==> Node(m, node) in nodes
  }

  predicate AllChildrenShown(w: World, before: nat, nodes: seq<Node>) {
    forall j :: before <= j < |nodes| && nodes[j].at < |w.list| ==>
      ChildrenShown(w, 0, j, w.list[nodes[j].at], nodes)
  }

  predicate IsPrefix(a: seq<Node>, b: seq<Node>) { |a| <= |b| && b[..|a|] == a }

  /** What a scan from place i on adds. */
  predicate Added(w: World, i: nat, node: int, parent: Class, had: seq<Node>, nodes: seq<Node>) {
    IsPrefix(had, nodes)
    && AllPlaced(w, node, parent, |had|, nodes)
    && SiblingsInOrder(|had|, nodes)
    && ChildrenFrom(i, node, |had|, nodes)
    && ChildrenShown(w, i, node, parent, nodes)
    && AllChildrenShown(w, |had|, nodes)
  }

  lemma {:induction false} ScanAdds(w: World, i: nat, node: int, path: seq<Class>, had: seq<Node>)
    requires !w.OnCycle() && w.Chain(path) && i <= |w.list| && node < |had|
    ensures Added(w, i, node, path[|path| - 1], had, Scan(w, i, node, path, had))
    decreases |w.list| + 1 - |path|, |w.list| - i
  {
    assert |path| > 0;
    hide AllPlaced, SiblingsInOrder, ChildrenFrom, ChildrenShown, AllChildrenShown, IsPrefix, Added, World.Chain;
    if i == |w.list| {
      NothingAdded(w, node, path[|path| - 1], had);
    } else if w.ParentOf(w.list[i]) != path[|path| - 1] {
      ScanAdds(w, i + 1, node, path, had);
      OtherAdded(w, i, node, path[|path| - 1], had, Scan(w, i + 1, node, path, had));
    } else {
      var c := w.list[i];
      var deeper := path + [c];
      ChainExtend(w, path, c);
      ChainBound(w, deeper);
      ScanAdds(w, 0, |had|, deeper, had + [Node(i, node)]);
      var mid := Scan(w, 0, |had|, deeper, had + [Node(i, node)]);
      assert |had| + 1 <= |mid| by { PrefixLength(w, 0, |had|, c, had + [Node(i, node)], mid); }
      ScanAdds(w, i + 1, node, path, mid);
      ChildAdded(w, i, node, path[|path| - 1], had, mid, Scan(w, i + 1, node, path, mid));
    }
  }

  lemma PrefixLength(w: World, i: nat, node: int, parent: Class, had: seq<Node>, nodes: seq<Node>)
    requires Added(w, i, node, parent, had, nodes)
    ensures |had| <= |nodes|
  {
  }

  lemma NothingAdded(w: World, node: int, parent: Class, had: seq<Node>)
    ensures Added(w, |w.list|, node, parent, had, had)
  {
    assert had[..|had|] == had;
  }

  lemma OtherAdded(w: World, i: nat, node: int, parent: Class, had: seq<Node>, nodes: seq<Node>)
    requires i < |w.list| && w.ParentOf(w.list[i]) != parent
    requires Added(w, i + 1, node, parent, had, nodes)
    ensures Added(w, i, node, parent, had, nodes)
  {
  }

  /** One child with its own subtree, then the rest. */
  lemma ChildAdded(w: World, i: nat, node: int, parent: Class, had: seq<Node>, mid: seq<Node>, nodes: seq<Node>)
    requires i < |w.list| && w.ParentOf(w.list[i]) == parent && node < |had|
    requires Added(w, 0, |had|, w.list[i], had + [Node(i, node)], mid)
    requires Added(w, i + 1, node, parent, mid, nodes)
    ensures Added(w, i, node, parent, had, nodes)
  {
    var one := had + [Node(i, node)];
    assert IsPrefix(had, nodes) by {
      hide AllPlaced, SiblingsInOrder, ChildrenFrom, ChildrenShown, AllChildrenShown;
      assert nodes[..|had|] == had;
    }
    ChildPlaced(w, i, node, parent, had, mid, nodes);
    ChildInOrder(w, i, node, parent, had, mid, nodes);
    ChildShown(w, i, node, parent, had, mid, nodes);
    hide AllPlaced, SiblingsInOrder, ChildrenFrom, ChildrenShown, AllChildrenShown;
  }

  lemma ChildPlaced(w: World, i: nat, node: int, parent: Class, had: seq<Node>, mid: seq<Node>, nodes: seq<Node>)
    requires i < |w.list| && w.ParentOf(w.list[i]) == parent && node < |had|
    requires Added(w, 0, |had|, w.list[i], had + [Node(i, node)], mid)
    requires Added(w, i + 1, node, parent, mid, nodes)
    ensures AllPlaced(w, node, parent, |had|, nodes)
  {
    hide SiblingsInOrder, ChildrenFrom, ChildrenShown, AllChildrenShown;
    assert nodes[|had|] == mid[|had|] == Node(i, node);
    forall k | |had| <= k < |nodes| ensures Placed(w, node, parent, |had|, nodes, k) {
      if |had| < k < |mid| {
        assert nodes[k] == mid[k];
        assert Placed(w, |had|, w.list[i], |had| + 1, mid, k);
        if nodes[k].under != |had| {
          assert nodes[nodes[k].under] == mid[nodes[k].under];
        }
      } else if k >= |mid| {
        assert Placed(w, node, parent, |mid|, nodes, k);
      }
    }
  }

  lemma ChildInOrder(w: World, i: nat, node: int, parent: Class, had: seq<Node>, mid: seq<Node>, nodes: seq<Node>)
    requires i < |w.list| && w.ParentOf(w.list[i]) == parent && node < |had|
    requires Added(w, 0, |had|, w.list[i], had + [Node(i, node)], mid)
    requires Added(w, i + 1, node, parent, mid, nodes)
    ensures SiblingsInOrder(|had|, nodes) && ChildrenFrom(i, node, |had|, nodes)
  {
    hide ChildrenShown, AllChildrenShown;
    assert nodes[|had|] == mid[|had|] == Node(i, node);
    forall k | |had| < k < |mid| ensures nodes[k] == mid[k] && |had| <= nodes[k].under < |mid| {
      assert Placed(w, |had|, w.list[i], |had| + 1, mid, k);
    }
    forall k | |mid| <= k < |nodes| ensures nodes[k].under == node || |mid| <= nodes[k].under {
      assert Placed(w, node, parent, |mid|, nodes, k);
    }
  }

  lemma ChildShown(w: World, i: nat, node: int, parent: Class, had: seq<Node>, mid: seq<Node>, nodes: seq<Node>)
    requires i < |w.list| && w.ParentOf(w.list[i]) == parent && node < |had|
    requires Added(w, 0, |had|, w.list[i], had + [Node(i, node)], mid)
    requires Added(w, i + 1, node, parent, mid, nodes)
    ensures ChildrenShown(w, i, node, parent, nodes) && AllChildrenShown(w, |had|, nodes)
  {
    hide SiblingsInOrder, ChildrenFrom, AllPlaced;
    assert nodes[|had|] == mid[|had|] == Node(i, node);
    assert Node(i, node) in nodes;
    forall x | x in mid ensures x in nodes {
      var k :| 0 <= k < |mid| && mid[k] == x;
      assert nodes[k] == x;
    }
    forall j | |had| <= j < |nodes| && nodes[j].at < |w.list|
      ensures ChildrenShown(w, 0, j, w.list[nodes[j].at], nodes)
    {
      if |had| < j < |mid| {
        assert nodes[j] == mid[j];
        assert ChildrenShown(w, 0, j, w.list[mid[j].at], mid);
      }
    }
  }

  // ------------------------------------------------------------------ the browser's tree

  /** The tree that refreshing builds. */
  ghost function Tree(w: World): seq<Node>
    requires !w.OnCycle()
  {
    Scan(w, 0, TREE_ROOT, [w.root], [])
  }

  /** The class that node k of the tree shows; the tree's own root stands for the root class. */
  function Shown(w: World, nodes: seq<Node>, k: int): Class {
    if 0 <= k < |nodes| && nodes[k].at < |w.list| then w.list[nodes[k].at] else w.root
  }

  /** Every node hangs under the node of its class's parent, and siblings keep the list's order. */
  lemma NodesHangUnderTheirParents(w: World, k: nat)
    requires !w.OnCycle() && k < |Tree(w)|
    ensures var t := Tree(w);
            -1 <= t[k].under < k && t[k].at < |w.list|
            && w.ParentOf(Shown(w, t, k)) == Shown(w, t, t[k].under)
            && forall j :: 0 <= j < k && t[j].under == t[k].under ==> t[j].at < t[k].at
  {
    ScanAdds(w, 0, TREE_ROOT, [w.root], []);
    assert Placed(w, TREE_ROOT, w.root, 0, Tree(w), k);
    hide Scan;
  }

  /** The way down to the class of node k. */
  lemma {:induction false} WayDown(w: World, k: nat) returns (p: seq<Class>)
    requires !w.OnCycle() && k < |Tree(w)|
    ensures w.Chain(p) && |p| > 1 && p[|p| - 1] == Shown(w, Tree(w), k)
    decreases k
  {
    hide Scan, Tree;
    NodesHangUnderTheirParents(w, k);
    var t := Tree(w);
    var up := t[k].under;
    var q := [w.root];
    if up >= 0 {
      q := WayDown(w, up);
    }
    p := q + [Shown(w, t, k)];
    ChainExtend(w, q, Shown(w, t, k));
  }

  /** Every proper descendant of the root class is shown. */
  lemma {:induction false} DescendantIsShown(w: World, p: seq<Class>) returns (k: nat)
    requires !w.OnCycle() && w.Chain(p) && |p| > 1
    ensures k < |Tree(w)| && Shown(w, Tree(w), k) == p[|p| - 1]
    decreases |p|
  {
    hide Scan, Tree;
    var last := |p| - 1;
    var m :| 0 <= m < |w.list| && w.list[m] == p[last];
    if last == 1 {
      TreeIsClosed(w, -1, m);
      k :| 0 <= k < |Tree(w)| && Tree(w)[k] == Node(m, -1);
    } else {
      ChainPrefix(w, p, last);
      var j := DescendantIsShown(w, p[..last]);
      TreeIsClosed(w, j, m);
      k :| 0 <= k < |Tree(w)| && Tree(w)[k] == Node(m, j);
    }
  }

  /** Below each node stands every listed child of its class. */
  lemma TreeIsClosed(w: World, j: int, m: nat)
    requires !w.OnCycle() && -1 <= j < |Tree(w)|
    requires m < |w.list| && w.ParentOf(w.list[m]) == Shown(w, Tree(w), j)
    ensures Node(m, j) in Tree(w)
  {
    var t := Tree(w);
    ScanAdds(w, 0, TREE_ROOT, [w.root], []);
    hide Scan, Tree;
    if j >= 0 {
      assert Placed(w, TREE_ROOT, w.root, 0, t, j);
      assert ChildrenShown(w, 0, j, w.list[t[j].at], t);
    } else {
      assert ChildrenShown(w, 0, TREE_ROOT, w.root, t);
    }
  }

  /** No class is shown twice, and the root class is not shown below itself. */
  lemma {:induction false} ShownOnce(w: World, j: int, k: nat)
    requires !w.OnCycle() && Distinct(w.list) && -1 <= j < k < |Tree(w)|
    ensures Shown(w, Tree(w), j) != Shown(w, Tree(w), k)
    decreases k
  {
    hide Scan, Tree, World.OnCycle;
    var t := Tree(w);
    NodesHangUnderTheirParents(w, k);
    if j == -1 {
      var p := WayDown(w, k);
      RootNotBelow(w, p);
    } else {
      NodesHangUnderTheirParents(w, j);
      var a, b := t[j].under, t[k].under;
      if a < b {
        ShownOnce(w, a, b);
      } else if b < a {
        ShownOnce(w, b, a);
      }
    }
  }

  lemma RootNotBelow(w: World, p: seq<Class>)
    requires !w.OnCycle() && w.Chain(p) && |p| > 1
    ensures p[|p| - 1] != w.root
  {
  }

  ghost predicate Descends(w: World, c: Class) { exists p :: w.Chain(p) && |p| > 1 && p[|p| - 1] == c }

  predicate ShownBy(w: World, nodes: seq<Node>, c: Class, k: int) { 0 <= k < |nodes| && Shown(w, nodes, k) == c }

  /** The tree shows the proper descendants of the root class and nothing else, each exactly once. */
  lemma DescendantsExactlyOnce(w: World, c: Class)
    requires !w.OnCycle() && Distinct(w.list)
    ensures Descends(w, c) <==> exists k :: ShownBy(w, Tree(w), c, k)
    ensures forall j, k :: ShownBy(w, Tree(w), c, j) && ShownBy(w, Tree(w), c, k) ==> j == k
  {
    hide Scan, Tree, World.OnCycle, Distinct;
    if Descends(w, c) {
      var p :| w.Chain(p) && |p| > 1 && p[|p| - 1] == c;
      var k := DescendantIsShown(w, p);
      assert ShownBy(w, Tree(w), c, k);
    }
    if k :| ShownBy(w, Tree(w), c, k) {
      var p := WayDown(w, k);
      assert Descends(w, c);
    }
    forall j, k | ShownBy(w, Tree(w), c, j) && ShownBy(w, Tree(w), c, k) ensures j == k {
      if j < k {
        ShownOnce(w, j, k);
      } else if k < j {
        ShownOnce(w, k, j);
      }
    }
  }
}
