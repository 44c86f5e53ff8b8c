/** The rebalancing loop of the AVL tree, on the heap. */
module AvlRebalance {
  import opened AvlNodes
  import opened AvlPlan
  import opened AvlBalance

  /** The pointers of the heap follow the plan. */
  ghost predicate Hung(t: Anchor, pl: Plan)
    reads t`root
    reads pl.place.Keys`kids, pl.place.Keys`parent, pl.place.Keys`height, pl.place.Keys`key
  {
    Follows(Snap(pl.place.Keys), t.root, pl)
  }

  lemma PivotInTree(t: Anchor, pl: Plan, node: Node, side: nat)
    requires Hung(t, pl) && side < 2 && node in pl.place && node.kids.Kid(side) != null
    ensures Pivot(node, side) && Linked(t, node)
    ensures Opt(node.parent) + Opt(node.kids.left) + Opt(node.kids.right) <= pl.place.Keys
    ensures var c := node.kids.Kid(side); c in pl.place && Opt(c.kids.left) + Opt(c.kids.right) <= pl.place.Keys
  {
    var s := Snap(pl.place.Keys);
    PivotFacts(s, t.root, pl, node, side);
    assert Wired(s, t.root, pl, node) && Wired(s, t.root, pl, node.kids.Kid(side));
  }

  /** One rotation of the tree; side 0 is a rotation to the right, side 1 to the left. */
  method Turn(t: Anchor, node: Node, side: nat, ghost pl: Plan) returns (child: Node, ghost pl': Plan)
    requires Hung(t, pl) && side < 2 && node in pl.place && node.kids.Kid(side) != null
    modifies t`root, pl.place.Keys`kids, pl.place.Keys`parent, pl.place.Keys`height
    ensures Turned(old(Snap(pl.place.Keys)), Snap(pl.place.Keys), old(t.root), t.root, pl, pl', node, child, side)
    ensures pl'.place.Keys == pl.place.Keys && pl'.order == pl.order && Hung(t, pl')
    ensures forall n :: n in pl.place && n != node && n != child ==> pl'.place[n] == pl.place[n]
  {
    PivotInTree(t, pl, node, side);
    ghost var region := pl.place.Keys;
    ghost var s, root := Snap(region), t.root;
    child := Rotate(t, node, side, region);
    pl' := pl.Rotate(node, child, side);
    assert pl'.place.Keys == region;
    TurnedFollows(s, Snap(region), root, t.root, pl, pl', node, child, side);
  }

  /** The climb, read off the heap. */
  ghost predicate Climbing(t: Anchor, pl: Plan, b: Heights, cur: Node?, stale: Node?, del: bool)
    reads t`root
    reads pl.place.Keys`kids, pl.place.Keys`parent, pl.place.Keys`height, pl.place.Keys`key
  {
    Tilted(Snap(pl.place.Keys), t.root, pl, b, cur, stale, del)
  }

  /** The height that RecalculateHeight would store. */
  ghost predicate Exact(n: Node)
    reads n`kids, n`height, Opt(n.kids.left)`height, Opt(n.kids.right)`height
  {
    n.height == 1 + Max(GetHeight(n.kids.left), GetHeight(n.kids.right))
  }

  lemma HeapHeights(t: Anchor, pl: Plan, n: Node)
    requires Hung(t, pl) && n in pl.place
    ensures var s := Snap(pl.place.Keys);
            && s[n] == Ptrs(n.kids, n.parent, n.height, n.key)
            && HeightIn(s, n.kids.left) == GetHeight(n.kids.left)
            && HeightIn(s, n.kids.right) == GetHeight(n.kids.right)
            && Opt(n.kids.left) + Opt(n.kids.right) + Opt(n.parent) <= pl.place.Keys
            && n.kids.left != n && n.kids.right != n
  {
    var s := Snap(pl.place.Keys);
    assert Wired(s, t.root, pl, n);
  }

  method SingleTurn(t: Anchor, node: Node, side: nat, ghost del: bool, ghost pl: Plan, ghost b: Heights,
      ghost stale: Node?)
    returns (child: Node, ghost pl': Plan, ghost b': Heights)
    requires Climbing(t, pl, b, node, stale, del) && side < 2
    requires GetHeight(node.kids.Kid(side)) == GetHeight(node.kids.Kid(1 - side)) + 2
    requires var c := node.kids.Kid(side);
             var y, g := GetHeight(KidOf(c, side)), GetHeight(KidOf(c, 1 - side));
             y > g || (y == g && del)
    modifies t`root, pl.place.Keys`kids, pl.place.Keys`parent, pl.place.Keys`height
    ensures Climbing(t, pl', b', old(node.parent), if stale == node then null else stale, del)
    ensures child in pl.place && child.parent == old(node.parent) && Exact(child)
    ensures pl'.place.Keys == pl.place.Keys && pl'.order == pl.order
    ensures forall n :: n in pl.place && old(node.parent) == n ==> pl'.place[n] == pl.place[n]
  {
    ghost var s, root := Snap(pl.place.Keys), t.root;
    HeapHeights(t, pl, node);
    HeavyFacts(s, root, pl, b, node, stale, del, side);
    PivotFacts(s, root, pl, node, side);
    HeapHeights(t, pl, node.kids.Kid(side));
    child, pl' := Turn(t, node, side, pl);
    ghost var s' := Snap(pl.place.Keys);
    b' := Updated(b, s', {node, child});
    SingleStep(s, s', root, t.root, pl, pl', b, b', node, child, side, stale, del);
    HeapHeights(t, pl', child);
  }

  /** What is known around a node whose inner grandchild on `side` is the high one. */
  lemma DoubleReady(t: Anchor, node: Node, side: nat, del: bool, pl: Plan, b: Heights, stale: Node?)
    returns (c: Node, g: Node)
    requires Climbing(t, pl, b, node, stale, del) && side < 2
    requires GetHeight(node.kids.Kid(side)) == GetHeight(node.kids.Kid(1 - side)) + 2
    requires var c := node.kids.Kid(side); GetHeight(KidOf(c, side)) + 1 == GetHeight(KidOf(c, 1 - side))
    ensures c == node.kids.Kid(side) && g == c.kids.Kid(1 - side) && c in pl.place && g in pl.place
    ensures var s := Snap(pl.place.Keys);
            && ThreeInARow(s, node, c, g, side) && Heavy(s, node, side)
            && HeightIn(s, s[c].kids.Kid(side)) < HeightIn(s, g)
    ensures node.parent != node && node.parent != c && node.parent != g
  {
    var s := Snap(pl.place.Keys);
    HeapHeights(t, pl, node);
    HeavyFacts(s, t.root, pl, b, node, stale, del, side);
    c := node.kids.Kid(side);
    HeapHeights(t, pl, c);
    assert Wired(s, t.root, pl, c);
    var y := c.kids.Kid(side);
    assert y != null ==> Wired(s, t.root, pl, y) && Fit(s, b, y);
    g := c.kids.Kid(1 - side);
    DoubleKids(s, t.root, pl, node, c, g, side);
  }

  method DoubleTurn(t: Anchor, node: Node, side: nat, ghost del: bool, ghost pl: Plan, ghost b: Heights,
      ghost stale: Node?)
    returns (grand: Node, ghost pl': Plan, ghost b': Heights)
    requires Climbing(t, pl, b, node, stale, del) && side < 2
    requires GetHeight(node.kids.Kid(side)) == GetHeight(node.kids.Kid(1 - side)) + 2
    requires var c := node.kids.Kid(side); GetHeight(KidOf(c, side)) + 1 == GetHeight(KidOf(c, 1 - side))
    modifies t`root, pl.place.Keys`kids, pl.place.Keys`parent, pl.place.Keys`height
    ensures Climbing(t, pl', b', old(node.parent), if stale == node then null else stale, del)
    ensures grand in pl.place && grand.parent == old(node.parent) && Exact(grand)
    ensures pl'.place.Keys == pl.place.Keys && pl'.order == pl.order
    ensures forall n :: n in pl.place && old(node.parent) == n ==> pl'.place[n] == pl.place[n]
  {
    ghost var s, root := Snap(pl.place.Keys), t.root;
    ghost var c, g := DoubleReady(t, node, side, del, pl, b, stale);
    var inner, pl1 := Turn(t, node.kids.Kid(side), 1 - side, pl);
    ghost var s1, root1 := Snap(pl.place.Keys), t.root;
    grand, pl' := Turn(t, node, side, pl1);
    ghost var s2 := Snap(pl.place.Keys);
    b' := Updated(b, s2, {node, c, g});
    DoubleStep(s, s1, s2, root, root1, t.root, pl, pl1, pl', b, b', node, c, g, side, stale, del);
    HeapHeights(t, pl', grand);
  }

  /** The climb never meets an imbalance of more than two, and during an insertion never a
      child in balance below an imbalance of two: the case that the code leaves alone. */
  lemma StepCases(t: Anchor, node: Node, del: bool, pl: Plan, b: Heights, stale: Node?)
    requires Climbing(t, pl, b, node, stale, del)
    ensures -2 <= GetBalance(node) <= 2
    ensures GetBalance(node) == 2 ==>
              var l := GetBalance(node.kids.left); node.kids.left != null && -1 <= l <= 1 && (l == 0 ==> del)
    ensures GetBalance(node) == -2 ==>
              var r := GetBalance(node.kids.right); node.kids.right != null && -1 <= r <= 1 && (r == 0 ==> del)
    ensures node.kids.left != node && node.kids.right != node
    ensures node.parent != null ==>
              var p := node.parent;
              p in pl.place && pl.place[p].hi - pl.place[p].lo > pl.place[node].hi - pl.place[node].lo
  {
    var s := Snap(pl.place.Keys);
    HeapHeights(t, pl, node);
    assert Wired(s, t.root, pl, node);
    if node.parent != null {
      assert Wired(s, t.root, pl, node.parent);
    }
    if GetBalance(node) == 2 {
      HeavyFacts(s, t.root, pl, b, node, stale, del, 0);
      HeapHeights(t, pl, node.kids.left);
    } else if GetBalance(node) == -2 {
      HeavyFacts(s, t.root, pl, b, node, stale, del, 1);
      HeapHeights(t, pl, node.kids.right);
    }
  }

  /** The rotations of the loop body, chosen by the balance of the node and of its higher
      child; without any the top of the subtree stays the same. */
  method Choose(t: Anchor, node: Node, del: bool, ghost pl: Plan, ghost b: Heights, ghost stale: Node?)
    returns (top: Node, ghost pl': Plan, ghost b': Heights)
    requires Climbing(t, pl, b, node, stale, del)
    modifies t`root, pl.place.Keys`kids, pl.place.Keys`parent, pl.place.Keys`height
    ensures top in pl.place && top.parent == old(node.parent)
    ensures old(-1 <= GetBalance(node) <= 1) ==>
              top == node && pl' == pl && b' == b && Climbing(t, pl, b, node, stale, del)
              && -1 <= GetBalance(node) <= 1
    ensures !old(-1 <= GetBalance(node) <= 1) ==>
              Climbing(t, pl', b', old(node.parent), if stale == node then null else stale, del) && Exact(top)
    ensures pl'.place.Keys == pl.place.Keys && pl'.order == pl.order
    ensures forall n :: n in pl.place && old(node.parent) == n ==> pl'.place[n] == pl.place[n]
  {
    StepCases(t, node, del, pl, b, stale);
    top, pl', b' := node, pl, b;
    var balance := GetBalance(node);
    if balance == -2 {
      var rightBalance := GetBalance(node.kids.right);
      if rightBalance == -1 {
        top, pl', b' := SingleTurn(t, node, 1, del, pl, b, stale);
      } else if rightBalance == 0 && del {
        top, pl', b' := SingleTurn(t, node, 1, del, pl, b, stale);
      } else if rightBalance == 1 {
        top, pl', b' := DoubleTurn(t, node, 1, del, pl, b, stale);
      }
    } else if balance == 2 {
      var leftBalance := GetBalance(node.kids.left);
      if leftBalance == 1 {
        top, pl', b' := SingleTurn(t, node, 0, del, pl, b, stale);
      } else if leftBalance == 0 && del {
        top, pl', b' := SingleTurn(t, node, 0, del, pl, b, stale);
      } else if leftBalance == -1 {
        top, pl', b' := DoubleTurn(t, node, 0, del, pl, b, stale);
      }
    }
  }

  /** The height of the top of the subtree is recalculated.  After a rotation this changes
      nothing; otherwise it is the whole step. */
  method Recalculate(
      t: Anchor, top: Node, ghost level: bool, ghost del: bool, ghost pl: Plan, ghost b: Heights, ghost stale: Node?)
    returns (ghost b': Heights)
    requires top in pl.place
    requires level ==> Climbing(t, pl, b, top, stale, del) && -1 <= GetBalance(top) <= 1
    requires !level ==> Climbing(t, pl, b, top.parent, stale, del) && Exact(top)
    modifies top`height
    ensures Climbing(t, pl, b', top.parent, if level && stale == top then null else stale, del)
  {
    ghost var s := Snap(pl.place.Keys);
    HeapHeights(t, pl, top);
    RecalculateHeight(top);
    ghost var s' := Snap(pl.place.Keys);
    b' := b;
    if level {
      assert s' == s[top := s[top].(height := top.height)];
      b' := Updated(b, s', {top});
      LevelStep(s, s', t.root, pl, b, b', top, stale, del);
    } else {
      assert s' == s;
    }
  }

  /** One iteration of the climb. */
  method Step(t: Anchor, node: Node, del: bool, ghost pl: Plan, ghost b: Heights, ghost stale: Node?)
    returns (next: Node?, ghost pl': Plan, ghost b': Heights, ghost stale': Node?)
    requires Climbing(t, pl, b, node, stale, del)
    modifies t`root, pl.place.Keys`kids, pl.place.Keys`parent, pl.place.Keys`height
    ensures Climbing(t, pl', b', next, stale', del)
    ensures stale' == if stale == node then null else stale
    ensures pl'.place.Keys == pl.place.Keys && pl'.order == pl.order
    ensures next != null ==>
              next in pl.place && pl'.place[next].hi - pl'.place[next].lo > pl.place[node].hi - pl.place[node].lo
  {
    StepCases(t, node, del, pl, b, stale);
    stale' := if stale == node then null else stale;
    ghost var level := -1 <= GetBalance(node) <= 1;
    var top;
    top, pl', b' := Choose(t, node, del, pl, b, stale);
    b' := Recalculate(t, top, level, del, pl', b', if level then stale else stale');
    next := top.parent;
  }

  /** The climb ends at the root with every stored height exact and every node balanced. */
  method Rebalance(t: Anchor, start: Node?, del: bool, ghost pl: Plan, ghost b: Heights, ghost stale: Node?)
    returns (ghost pl': Plan)
    requires Climbing(t, pl, b, start, stale, del)
    modifies t`root, pl.place.Keys`kids, pl.place.Keys`parent, pl.place.Keys`height
    ensures pl'.place.Keys == pl.place.Keys && pl'.order == pl.order
    ensures Hung(t, pl') && Balanced(Snap(pl'.place.Keys))
  {
    var node := start;
    pl' := pl;
    ghost var b', stale' := b, stale;
    while node != null
      invariant Climbing(t, pl', b', node, stale', del)
      invariant pl'.place.Keys == pl.place.Keys && pl'.order == pl.order
      decreases if node == null then 0 else |pl.order| - (pl'.place[node].hi - pl'.place[node].lo) + 1
    {
      node, pl', b', stale' := Step(t, node, del, pl', b', stale');
    }
    TiltedEnds(Snap(pl'.place.Keys), t.root, pl', b', del);
  }
}
