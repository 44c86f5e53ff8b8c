/** In-order plans of an AVL tree, and snapshots that follow a plan.

    A plan lists the nodes in key order and gives every node the stretch `[lo, hi)` of that
    list that its subtree covers.  A rotation changes two stretches and nothing else; an
    insertion or a removal shifts the stretches. */
module AvlPlan {
  import opened AvlNodes

  datatype Place = Place(lo: int, at: int, hi: int)

  datatype Plan = Plan(order: seq<Node>, place: map<Node, Place>) {

    ghost predicate Seated(n: Node) {
      n in place && 0 <= place[n].at < |order| && order[place[n].at] == n
    }

    ghost predicate Ok() {
      && (forall i {:trigger order[i]} :: 0 <= i < |order| ==> order[i] in place && place[order[i]].at == i)
      && (forall n {:trigger place[n]} :: n in place ==>
            0 <= place[n].lo <= place[n].at < place[n].hi <= |order|)
      && (forall n {:trigger Seated(n)} :: n in place ==> Seated(n))
    }

    /** The stretch of one side below a node. */
    ghost function Lo(n: Node, side: nat): int
      requires n in place
    {
      if side == 0 then place[n].lo else place[n].at + 1
    }

    ghost function Hi(n: Node, side: nat): int
      requires n in place
    {
      if side == 0 then place[n].at else place[n].hi
    }

    /** `node` goes down and its child `c` on `side` takes over its stretch. */
    ghost function Rotate(node: Node, c: Node, side: nat): Plan
      requires node in place && c in place
    {
      var p, q := place[node], place[c];
      this.(place := place[c := Place(p.lo, q.at, p.hi)]
                          [node := if side == 0 then Place(q.at + 1, p.at, p.hi) else Place(p.lo, p.at, q.at)])
    }

    lemma RotateOk(node: Node, c: Node, side: nat)
      requires Ok() && node in place && c in place && node != c
      requires Lo(node, side) == place[c].lo && Hi(node, side) == place[c].hi && side < 2
      ensures Rotate(node, c, side).Ok()
      ensures Rotate(node, c, side).place.Keys == place.Keys
    {
      forall n | n in place ensures Rotate(node, c, side).Seated(n) {
        assert Seated(n);
      }
    }

    lemma SeatedOnce(m: Node, n: Node)
      requires Ok() && m in place && n in place && place[m].at == place[n].at
      ensures m == n
    {
      assert Seated(m) && Seated(n);
    }
  }

  // ----- snapshots that follow a plan

  /** The child of `n` on one side covers exactly that side's stretch and points back. */
  ghost predicate ChildOk(s: Snapshot, pl: Plan, n: Node, side: nat)
    requires n in s && n in pl.place
  {
    var c := s[n].kids.Kid(side);
    if c == null then pl.Lo(n, side) == pl.Hi(n, side)
    else c in s && c in pl.place && pl.place[c].lo == pl.Lo(n, side) && pl.place[c].hi == pl.Hi(n, side)
         && s[c].parent == n
  }

  ghost predicate ParentOk(s: Snapshot, root: Node?, n: Node)
    requires n in s
  {
    var p := s[n].parent;
    if p == null then n == root
    else n != root && p in s && (s[p].kids.left == n || s[p].kids.right == n)
  }

  ghost predicate Wired(s: Snapshot, root: Node?, pl: Plan, n: Node) {
    && n in s && n in pl.place
    && ChildOk(s, pl, n, 0) && ChildOk(s, pl, n, 1) && ParentOk(s, root, n)
  }

  ghost predicate RootOk(s: Snapshot, root: Node?, pl: Plan) {
    if root == null then pl.order == []
    else root in s && root in pl.place && s[root].parent == null
         && pl.place[root].lo == 0 && pl.place[root].hi == |pl.order|
  }

  ghost predicate Follows(s: Snapshot, root: Node?, pl: Plan) {
    && pl.Ok()
    && s.Keys == pl.place.Keys
    && RootOk(s, root, pl)
    && forall n {:trigger Wired(s, root, pl, n)} :: n in pl.place ==> Wired(s, root, pl, n)
  }

  // ----- rotations

  lemma PivotFacts(s: Snapshot, root: Node?, pl: Plan, node: Node, side: nat)
    requires Follows(s, root, pl) && side < 2 && node in s && s[node].kids.Kid(side) != null
    ensures var c, p, x := s[node].kids.Kid(side), s[node].parent, s[node].kids.Kid(1 - side);
            && c in s && c != node && p != node && p != c && x != node && x != c
            && pl.Lo(node, side) == pl.place[c].lo && pl.Hi(node, side) == pl.place[c].hi
            && var g, y := s[c].kids.Kid(1 - side), s[c].kids.Kid(side);
            && g != node && g != c && y != node && y != c && (p != null ==> p != g)
  {
    assert Wired(s, root, pl, node);
    var c := s[node].kids.Kid(side);
    assert Wired(s, root, pl, c);
    if s[node].parent != null {
      assert Wired(s, root, pl, s[node].parent);
    }
  }

  /** A rotation of `node` with its child on `side`, in pointers and in the plan. */
  ghost predicate Turned(
      s: Snapshot, s': Snapshot, root: Node?, root': Node?, pl: Plan, pl': Plan, node: Node, c: Node, side: nat)
  {
    && Follows(s, root, pl) && side < 2 && node in s && RotateEffect(s, s', node, side)
    && c == s[node].kids.Kid(side) && c in pl.place && pl' == pl.Rotate(node, c, side)
    && root' == if s[node].parent == null then c else root
  }

  lemma TurnedLow(
      s: Snapshot, s': Snapshot, root: Node?, root': Node?, pl: Plan, pl': Plan, node: Node, c: Node, side: nat)
    requires Turned(s, s', root, root', pl, pl', node, c, side)
    ensures Wired(s', root', pl', node)
  {
    PivotFacts(s, root, pl, node, side);
    assert Wired(s, root, pl, node) && Wired(s, root, pl, c);
  }

  lemma TurnedHigh(
      s: Snapshot, s': Snapshot, root: Node?, root': Node?, pl: Plan, pl': Plan, node: Node, c: Node, side: nat)
    requires Turned(s, s', root, root', pl, pl', node, c, side)
    ensures Wired(s', root', pl', c)
  {
    hide RootOk, Max;
    PivotFacts(s, root, pl, node, side);
    assert Wired(s, root, pl, node) && Wired(s, root, pl, c);
    var p := s[node].parent;
    if p != null { assert Wired(s, root, pl, p); }
  }

  lemma TurnedChild(
      s: Snapshot, s': Snapshot, root: Node?, root': Node?, pl: Plan, pl': Plan, node: Node, c: Node, side: nat,
      n: Node, d: nat)
    requires Turned(s, s', root, root', pl, pl', node, c, side)
    requires n in s && n != node && n != c && d < 2
    ensures ChildOk(s', pl', n, d)
  {
    PivotFacts(s, root, pl, node, side);
    assert Wired(s, root, pl, node) && Wired(s, root, pl, c) && Wired(s, root, pl, n);
    var k := s[n].kids.Kid(d);
    if k == node {
      assert s'[n].kids.Kid(d) == c && s'[c].parent == n;
    } else if k != null {
      assert k != c && s[k].parent == n;
      assert s'[n].kids.Kid(d) == k && s'[k].parent == n;
    }
  }

  lemma TurnedParent(
      s: Snapshot, s': Snapshot, root: Node?, root': Node?, pl: Plan, pl': Plan, node: Node, c: Node, side: nat,
      n: Node)
    requires Turned(s, s', root, root', pl, pl', node, c, side)
    requires n in s && n != node && n != c
    ensures ParentOk(s', root', n)
  {
    PivotFacts(s, root, pl, node, side);
    assert Wired(s, root, pl, node) && Wired(s, root, pl, c) && Wired(s, root, pl, n);
  }

  lemma TurnedFollows(
      s: Snapshot, s': Snapshot, root: Node?, root': Node?, pl: Plan, pl': Plan, node: Node, c: Node, side: nat)
    requires Turned(s, s', root, root', pl, pl', node, c, side)
    ensures Follows(s', root', pl')
  {
    PivotFacts(s, root, pl, node, side);
    pl.RotateOk(node, c, side);
    TurnedLow(s, s', root, root', pl, pl', node, c, side);
    TurnedHigh(s, s', root, root', pl, pl', node, c, side);
    forall n | n in pl'.place ensures Wired(s', root', pl', n) {
      if n != node && n != c {
        TurnedChild(s, s', root, root', pl, pl', node, c, side, n, 0);
        TurnedChild(s, s', root, root', pl, pl', node, c, side, n, 1);
        TurnedParent(s, s', root, root', pl, pl', node, c, side, n);
      }
    }
    assert Wired(s, root, pl, node);
  }

  // ----- subtrees are stretches

  /** Position `i` lies in the subtree of `n`. */
  ghost predicate Covers(pl: Plan, n: Node, i: int) {
    n in pl.place && pl.place[n].lo <= i < pl.place[n].hi
  }

  /** Below a node that covers `m` and is not `m`, a child covers `m`. */
  lemma ChildCovers(s: Snapshot, root: Node?, pl: Plan, n: Node, m: Node) returns (c: Node)
    requires Follows(s, root, pl) && m in pl.place && Covers(pl, n, pl.place[m].at) && n != m
    ensures c in s && Covers(pl, c, pl.place[m].at) && s[c].parent == n
    ensures pl.place[n].lo <= pl.place[c].lo && pl.place[c].hi <= pl.place[n].hi
    ensures pl.place[c].hi - pl.place[c].lo < pl.place[n].hi - pl.place[n].lo
  {
    assert Wired(s, root, pl, n);
    if pl.place[m].at == pl.place[n].at { pl.SeatedOnce(m, n); }
    c := if pl.place[m].at < pl.place[n].at then s[n].kids.left else s[n].kids.right;
  }

  /** If the subtree of `n` contains `m` properly, it contains the parent of `m`. */
  lemma ParentCovered(s: Snapshot, root: Node?, pl: Plan, n: Node, m: Node)
    requires Follows(s, root, pl) && m in pl.place && Covers(pl, n, pl.place[m].at) && n != m
    ensures s[m].parent != null && s[m].parent in pl.place && Covers(pl, n, pl.place[s[m].parent].at)
    decreases pl.place[n].hi - pl.place[n].lo
  {
    var c := ChildCovers(s, root, pl, n, m);
    if c != m {
      ParentCovered(s, root, pl, c, m);
    }
  }
}
