/** Linking a node into the AVL tree and out of it, on the heap. */
module AvlSurgery {
  import opened AvlNodes
  import opened AvlPlan
  import opened AvlBalance
  import opened AvlSplice
  import opened AvlRebalance

  // ----- linking up a leaf

  method Attach(t: Anchor, p: Node?, side: nat, n: Node, ghost region: set<Node>)
    requires n !in region && p != n && side < 2
    requires if p == null then t.root == null else p in region && p.kids.Kid(side) == null
    requires n.kids == Kids(null, null) && n.height == 1
    modifies t`root, Opt(p)`kids, n`parent
    ensures Attached(old(Snap(region)), Snap(region + {n}), old(t.root), t.root, p, side, n)
  {
    if p == null {
      t.root := n;
    } else {
      p.kids := p.kids.With(side, n);
    }
    n.parent := p;
  }

  method AttachAndTilt(t: Anchor, p: Node?, side: nat, n: Node, ghost pl: Plan)
    returns (ghost pl': Plan, ghost b: Heights)
    requires Hung(t, pl) && Balanced(Snap(pl.place.Keys)) && n !in pl.place && side < 2
    requires if p == null then t.root == null else p in pl.place && p.kids.Kid(side) == null
    requires n.kids == Kids(null, null) && n.height == 1
    modifies t`root, Opt(p)`kids, n`parent
    ensures var i := SlotAt(pl, p, side); 0 <= i <= |pl.order| && pl' == Grown(pl, i, n)
    ensures Climbing(t, pl', b, p, null, false)
  {
    ghost var region := pl.place.Keys;
    ghost var s, root := Snap(region), t.root;
    assert p != null ==> Wired(s, root, pl, p);
    Attach(t, p, side, n, region);
    ghost var s' := Snap(region + {n});
    pl' := Grown(pl, SlotAt(pl, p, side), n);
    assert pl'.place.Keys == region + {n};
    b := Stored(s');
    AttachedFollows(s, s', root, t.root, pl, pl', p, side, n);
    AttachedTilted(s, s', root, t.root, pl, pl', p, side, n);
  }

  // ----- unlinking a node that has at most one child

  method Unlink(t: Anchor, n: Node, c: Node?, ghost region: set<Node>)
    requires Linked(t, n) && c != n && n in region && Opt(n.parent) + Opt(c) <= region
    requires n.kids == Kids(c, null) || n.kids == Kids(null, c)
    requires n.parent != n && (c != null ==> n.parent != c)
    modifies t`root, Opt(n.parent)`kids, Opt(c)`parent
    ensures Unlinked(old(Snap(region)), Snap(region - {n}), old(t.root), t.root, n, c)
  {
    Relink(t, n, c);
    if c != null {
      c.parent := n.parent;
    }
  }

  /** Nodes of the tree are linked, and parents and children are other nodes. */
  lemma LinkFacts(t: Anchor, pl: Plan, n: Node)
    requires Hung(t, pl) && n in pl.place
    ensures Linked(t, n) && n.parent != n && n.kids.left != n && n.kids.right != n
    ensures n.parent != null ==> n.parent != n.kids.left && n.parent != n.kids.right
    ensures n.kids.left != null ==> n.kids.left != n.kids.right
    ensures Opt(n.parent) + Opt(n.kids.left) + Opt(n.kids.right) <= pl.place.Keys
  {
    var s := Snap(pl.place.Keys);
    assert Wired(s, t.root, pl, n);
    if n.parent != null { assert Wired(s, t.root, pl, n.parent); }
  }

  method UnlinkFrom(t: Anchor, n: Node, c: Node?, ghost pl: Plan) returns (ghost pl': Plan)
    requires Hung(t, pl) && n in pl.place
    requires n.kids == Kids(c, null) || n.kids == Kids(null, c)
    modifies t`root, pl.place.Keys`kids, pl.place.Keys`parent
    ensures pl' == Shrunk(pl, n) && pl'.place.Keys == pl.place.Keys - {n} && Hung(t, pl')
    ensures Unlinked(old(Snap(pl.place.Keys)), Snap(pl'.place.Keys), old(t.root), t.root, n, c)
    ensures unchanged(n)
  {
    ghost var region := pl.place.Keys;
    ghost var s, root := Snap(region), t.root;
    LinkFacts(t, pl, n);
    Unlink(t, n, c, region);
    pl' := Shrunk(pl, n);
    assert pl'.place.Keys == region - {n};
    UnlinkedFollows(s, Snap(region - {n}), root, t.root, pl, pl', n, c);
  }

  // ----- replacing a node

  method Replace(t: Anchor, v: Node, x: Node, ghost region: set<Node>)
    requires Linked(t, v) && v in region && x !in region
    requires Opt(v.parent) + Opt(v.kids.left) + Opt(v.kids.right) <= region
    requires v.kids.left != null && v.kids.left != v && v.kids.right != v && v.parent != v
    requires v.parent != null ==> v.parent != v.kids.left && v.parent != v.kids.right
    modifies t`root, Opt(v.parent)`kids, x`kids, x`parent, Opt(v.kids.left)`parent, Opt(v.kids.right)`parent
    ensures Replaced(old(Snap(region)), Snap(region - {v} + {x}), old(t.root), t.root, v, x)
  {
    Relink(t, v, x);
    x.parent := v.parent;
    x.kids := Kids(v.kids.left, x.kids.right);
    v.kids.left.parent := x;
    x.kids := Kids(x.kids.left, v.kids.right);
    if v.kids.right != null {
      v.kids.right.parent := x;
    }
  }

  method ReplaceIn(t: Anchor, v: Node, x: Node, ghost pl: Plan) returns (ghost pl': Plan)
    requires Hung(t, pl) && v in pl.place && x !in pl.place && v.kids.left != null
    modifies t`root, pl.place.Keys`kids, pl.place.Keys`parent, x`kids, x`parent
    ensures pl' == Renamed(pl, v, x) && pl'.place.Keys == pl.place.Keys - {v} + {x} && Hung(t, pl')
    ensures Replaced(old(Snap(pl.place.Keys)), Snap(pl'.place.Keys), old(t.root), t.root, v, x)
  {
    ghost var region := pl.place.Keys;
    ghost var s, root := Snap(region), t.root;
    LinkFacts(t, pl, v);
    Replace(t, v, x, region);
    pl' := Renamed(pl, v, x);
    assert pl'.place.Keys == region - {v} + {x};
    ReplacedFollows(s, Snap(region - {v} + {x}), root, t.root, pl, pl', v, x);
  }

  // ----- removal up to the climb

  ghost function Without(order: seq<Node>, i: int): seq<Node>
    requires 0 <= i < |order|
  {
    order[..i] + order[i + 1..]
  }

  /** A leaf, or a node with one child: the climb starts at the parent or at the child. */
  method DetachEdge(t: Anchor, n: Node, c: Node?, ghost pl: Plan)
    returns (rebalance: Node?, ghost pl': Plan, ghost b: Heights)
    requires Hung(t, pl) && Balanced(Snap(pl.place.Keys)) && n in pl.place
    requires n.kids == Kids(c, null) || n.kids == Kids(null, c)
    modifies t`root, pl.place.Keys`kids, pl.place.Keys`parent
    ensures Climbing(t, pl', b, rebalance, null, true)
    ensures pl'.place.Keys == pl.place.Keys - {n} && pl'.order == Without(pl.order, pl.place[n].at)
  {
    ghost var s, root := Snap(pl.place.Keys), t.root;
    assert Wired(s, root, pl, n);
    rebalance := n.parent;
    if c != null {
      rebalance := c;
    }
    pl' := UnlinkFrom(t, n, c, pl);
    ghost var s' := Snap(pl'.place.Keys);
    if c != null {
      b := Stored(s')[c := s[n].height];
      UnlinkedBelow(s, s', root, t.root, pl, pl', n, c);
    } else {
      b := Stored(s');
      UnlinkedAbove(s, s', root, t.root, pl, pl', n, c);
    }
  }

  /** The left-most node below the right child comes next in key order. */
  method LeftMost(t: Anchor, n: Node, ghost pl: Plan) returns (successor: Node)
    requires Hung(t, pl) && n in pl.place && n.kids.right != null
    ensures successor in pl.place && pl.place[successor].at == pl.place[n].at + 1 && successor.kids.left == null
    ensures successor.parent != null && successor.parent in pl.place
    ensures Covers(pl, n, pl.place[successor.parent].at)
  {
    ghost var s := Snap(pl.place.Keys);
    assert Wired(s, t.root, pl, n);
    successor := n.kids.right;
    while successor.kids.left != null
      invariant successor in pl.place && pl.place[successor].lo == pl.place[n].at + 1
      invariant pl.place[successor].hi <= pl.place[n].hi
      decreases pl.place[successor].hi - pl.place[successor].lo
    {
      assert Wired(s, t.root, pl, successor);
      successor := successor.kids.left;
    }
    assert Wired(s, t.root, pl, successor);
    ParentCovered(s, t.root, pl, n, successor);
  }

  /** Taking out the successor and giving it the place of `n` takes out `n`. */
  lemma SpliceOrder(pl: Plan, pl1: Plan, pl2: Plan, n: Node, x: Node)
    requires pl.Ok() && n in pl.place && x in pl.place && pl.place[x].at == pl.place[n].at + 1
    requires pl1 == Shrunk(pl, x) && pl1.Ok() && pl2 == Renamed(pl1, n, x)
    ensures pl2.order == Without(pl.order, pl.place[n].at)
  {
    var i := pl.place[n].at;
    assert pl.Seated(n) && pl.Seated(x);
    assert pl1.order == pl.order[..i + 1] + pl.order[i + 2..];
    assert pl2.order == pl1.order[i := x];
  }

  /** The successor is not the left child. */
  lemma LeftKept(s: Snapshot, s1: Snapshot, root: Node?, root1: Node?, pl: Plan, n: Node, x: Node, c: Node?)
    requires Follows(s, root, pl) && Unlinked(s, s1, root, root1, x, c) && n in pl.place && x in pl.place
    requires pl.place[x].at == pl.place[n].at + 1 && s[n].kids.left != null
    ensures n in s1 && s1[n].kids.left != null
  {
    assert Wired(s, root, pl, n);
    assert s1[n].kids.left == s[n].kids.left;
  }

  lemma CoverKept(pl: Plan, n: Node, x: Node, p: Node)
    requires pl.Ok() && n in pl.place && x in pl.place && p in pl.place && p != x
    requires pl.place[x].at == pl.place[n].at + 1 && Covers(pl, n, pl.place[p].at)
    ensures Covers(Shrunk(pl, x), n, Shrunk(pl, x).place[p].at)
  {
    if pl.place[p].at == pl.place[x].at { pl.SeatedOnce(p, x); }
  }

  method DetachSuccessor(t: Anchor, n: Node, ghost pl: Plan)
    returns (successor: Node, ghost pl1: Plan, ghost b1: Heights)
    requires Hung(t, pl) && Balanced(Snap(pl.place.Keys)) && n in pl.place
    requires n.kids.left != null && n.kids.right != null
    modifies t`root, pl.place.Keys`kids, pl.place.Keys`parent
    ensures successor in pl.place && pl.place[successor].at == pl.place[n].at + 1 && successor.parent != null
    ensures pl1 == Shrunk(pl, successor) && pl1.place.Keys == pl.place.Keys - {successor}
    ensures n in pl1.place && n.kids.left != null
    ensures Climbing(t, pl1, b1, successor.parent, null, true) && Covers(pl1, n, pl1.place[successor.parent].at)
  {
    hide Tilted, Balanced, Covers;
    ghost var s, root := Snap(pl.place.Keys), t.root;
    successor := LeftMost(t, n, pl);
    pl1 := UnlinkFrom(t, successor, successor.kids.right, pl);
    ghost var s1 := Snap(pl1.place.Keys);
    UnlinkedAbove(s, s1, root, t.root, pl, pl1, successor, s[successor].kids.right);
    b1 := Stored(s1);
    LeftKept(s, s1, root, t.root, pl, n, successor, s[successor].kids.right);
    CoverKept(pl, n, successor, s[successor].parent);
  }

  method TakePlace(t: Anchor, n: Node, x: Node, ghost pl: Plan, ghost b: Heights, ghost cur: Node)
    returns (ghost pl': Plan, ghost b': Heights)
    requires Climbing(t, pl, b, cur, null, true) && n in pl.place && Covers(pl, n, pl.place[cur].at)
    requires x !in pl.place && n.kids.left != null
    modifies t`root, pl.place.Keys`kids, pl.place.Keys`parent, x`kids, x`parent
    ensures pl' == Renamed(pl, n, x) && pl'.place.Keys == pl.place.Keys - {n} + {x}
    ensures Climbing(t, pl', b', if cur == n then x else cur, if cur == n then null else x, true)
  {
    ghost var s, root := Snap(pl.place.Keys), t.root;
    pl' := ReplaceIn(t, n, x, pl);
    b' := Passed(b, n, x);
    ReplacedTilted(s, Snap(pl'.place.Keys), root, t.root, pl, pl', b, n, x, cur);
  }

  /** Two children: the successor is taken out first and then takes the place of `n`. */
  method DetachInner(t: Anchor, n: Node, ghost pl: Plan)
    returns (rebalance: Node?, ghost pl': Plan, ghost b: Heights, ghost stale: Node?)
    requires Hung(t, pl) && Balanced(Snap(pl.place.Keys)) && n in pl.place
    requires n.kids.left != null && n.kids.right != null
    modifies t`root, pl.place.Keys`kids, pl.place.Keys`parent
    ensures Climbing(t, pl', b, rebalance, stale, true)
    ensures pl'.place.Keys == pl.place.Keys - {n} && pl'.order == Without(pl.order, pl.place[n].at)
  {
    hide Balanced, Covers, Without;
    var successor, pl1, b1 := DetachSuccessor(t, n, pl);
    if n != successor.parent {
      rebalance := successor.parent;
      stale := successor;
    } else {
      rebalance := successor;
      stale := null;
    }
    pl', b := TakePlace(t, n, successor, pl1, b1, successor.parent);
    SpliceOrder(pl, pl1, pl', n, successor);
  }

  method Detach(t: Anchor, n: Node, ghost pl: Plan)
    returns (rebalance: Node?, ghost pl': Plan, ghost b: Heights, ghost stale: Node?)
    requires Hung(t, pl) && Balanced(Snap(pl.place.Keys)) && n in pl.place
    modifies t`root, pl.place.Keys`kids, pl.place.Keys`parent
    ensures Climbing(t, pl', b, rebalance, stale, true)
    ensures pl'.place.Keys == pl.place.Keys - {n} && pl'.order == Without(pl.order, pl.place[n].at)
  {
    stale := null;
    if n.kids.left != null && n.kids.right != null {
      rebalance, pl', b, stale := DetachInner(t, n, pl);
    } else if n.kids.left != null {
      rebalance, pl', b := DetachEdge(t, n, n.kids.left, pl);
    } else if n.kids.right != null {
      rebalance, pl', b := DetachEdge(t, n, n.kids.right, pl);
    } else {
      rebalance, pl', b := DetachEdge(t, n, null, pl);
    }
  }

  // ----- whole operations, up to the key order

  ghost function With(order: seq<Node>, i: int, n: Node): seq<Node>
    requires 0 <= i <= |order|
  {
    order[..i] + [n] + order[i..]
  }

  lemma PlanOk(t: Anchor, pl: Plan)
    requires Hung(t, pl)
    ensures pl.Ok()
  {
  }

  method LinkUp(t: Anchor, p: Node?, side: nat, n: Node, ghost pl: Plan) returns (ghost pl': Plan)
    requires Hung(t, pl) && Balanced(Snap(pl.place.Keys)) && n !in pl.place && side < 2
    requires if p == null then t.root == null else p in pl.place && p.kids.Kid(side) == null
    requires n.kids == Kids(null, null) && n.height == 1
    requires 0 <= SlotAt(pl, p, side) <= |pl.order|
    modifies t`root, n`kids, n`parent, n`height
    modifies pl.place.Keys`kids, pl.place.Keys`parent, pl.place.Keys`height
    ensures Hung(t, pl') && Balanced(Snap(pl'.place.Keys)) && pl'.Ok()
    ensures pl'.place.Keys == pl.place.Keys + {n} && pl'.order == With(pl.order, SlotAt(pl, p, side), n)
  {
    hide Tilted, Balanced, Follows;
    ghost var b;
    pl', b := AttachAndTilt(t, p, side, n, pl);
    assert pl'.place.Keys == pl.place.Keys + {n};
    pl' := Rebalance(t, p, false, pl', b, null);
    PlanOk(t, pl');
  }

  method TakeOut(t: Anchor, n: Node, ghost pl: Plan) returns (ghost pl': Plan)
    requires Hung(t, pl) && Balanced(Snap(pl.place.Keys)) && n in pl.place
    modifies t`root, pl.place.Keys`kids, pl.place.Keys`parent, pl.place.Keys`height
    ensures Hung(t, pl') && Balanced(Snap(pl'.place.Keys)) && pl'.Ok()
    ensures pl'.place.Keys == pl.place.Keys - {n} && pl'.order == Without(pl.order, pl.place[n].at)
    ensures n.kids == Kids(null, null) && n.parent == null
  {
    hide Tilted, Balanced, Follows;
    ghost var b, stale;
    var rebalance;
    rebalance, pl', b, stale := Detach(t, n, pl);
    n.parent := null;
    n.kids := Kids(null, null);
    pl' := Rebalance(t, rebalance, true, pl', b, stale);
    PlanOk(t, pl');
  }
}
