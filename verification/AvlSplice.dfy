/** Splicing nodes into and out of the AVL tree, before the climb repairs the balance. */
module AvlSplice {
  import opened AvlNodes
  import opened AvlPlan
  import opened AvlBalance

  // ----- a new leaf

  /** The plan after `n` was inserted at position `i`: every stretch that the position
      touches grows by one. */
  ghost function Grown(pl: Plan, i: int, n: Node): Plan
    requires 0 <= i <= |pl.order|
  {
    Plan(pl.order[..i] + [n] + pl.order[i..],
         (map m | m in pl.place ::
            Place(if pl.place[m].lo > i then pl.place[m].lo + 1 else pl.place[m].lo,
                  if pl.place[m].at >= i then pl.place[m].at + 1 else pl.place[m].at,
                  if pl.place[m].hi >= i then pl.place[m].hi + 1 else pl.place[m].hi))
         [n := Place(i, i, i + 1)])
  }

  lemma GrownOk(pl: Plan, i: int, n: Node)
    requires pl.Ok() && 0 <= i <= |pl.order| && n !in pl.place
    ensures Grown(pl, i, n).Ok() && Grown(pl, i, n).place.Keys == pl.place.Keys + {n}
  {
    var pl' := Grown(pl, i, n);
    forall m | m in pl'.place ensures pl'.Seated(m) {
      if m != n { assert pl.Seated(m); }
    }
    forall k | 0 <= k < |pl'.order| ensures pl'.order[k] in pl'.place && pl'.place[pl'.order[k]].at == k {
      if k < i {
        assert pl'.order[k] == pl.order[k];
      } else if k > i {
        assert pl'.order[k] == pl.order[k - 1];
      }
    }
  }

  /** Two neighbours in key order cannot both lack the child that faces the other one. */
  lemma {:induction false} OneSided(s: Snapshot, root: Node?, pl: Plan, c: Node, i: int)
    requires Follows(s, root, pl) && Covers(pl, c, i - 1) && Covers(pl, c, i)
    ensures pl.order[i - 1] in s && pl.order[i] in s
    ensures s[pl.order[i - 1]].kids.right != null || s[pl.order[i]].kids.left != null
    decreases pl.place[c].hi - pl.place[c].lo
  {
    assert Wired(s, root, pl, c) && pl.Seated(c);
    if i < pl.place[c].at {
      OneSided(s, root, pl, s[c].kids.left, i);
    } else if pl.place[c].at < i - 1 {
      OneSided(s, root, pl, s[c].kids.right, i);
    }
  }

  /** `n` hangs as a new leaf in the empty slot `side` of `p`, or is the root of a new tree. */
  ghost predicate Attached(s: Snapshot, s': Snapshot, root: Node?, root': Node?, p: Node?, side: nat, n: Node) {
    && n !in s && s'.Keys == s.Keys + {n} && side < 2
    && s'[n].kids == Kids(null, null) && s'[n].parent == p && s'[n].height == 1
    && (if p == null then root == null && root' == n
        else p in s && s[p].kids.Kid(side) == null && root' == root
             && s'[p] == s[p].(kids := s[p].kids.With(side, n)))
    && forall m {:trigger s'[m]} :: m in s && m != p ==> s'[m] == s[m]
  }

  ghost function SlotAt(pl: Plan, p: Node?, side: nat): int
    requires p != null ==> p in pl.place
  {
    if p == null then 0 else pl.Lo(p, side)
  }

  /** Apart from the new leaf's parent no node has its empty slot at the leaf's position. */
  lemma OnlySlot(s: Snapshot, root: Node?, pl: Plan, p: Node, side: nat, m: Node, d: nat)
    requires Follows(s, root, pl) && p in s && m in s && side < 2 && d < 2
    requires s[p].kids.Kid(side) == null && s[m].kids.Kid(d) == null && pl.Lo(m, d) == pl.Lo(p, side)
    ensures m == p && d == side
  {
    assert Wired(s, root, pl, p) && Wired(s, root, pl, m) && pl.Seated(m) && pl.Seated(p);
    if d == side {
      pl.SeatedOnce(m, p);
    } else {
      OneSided(s, root, pl, root, pl.Lo(p, side));
    }
  }

  lemma AttachedChild(
      s: Snapshot, s': Snapshot, root: Node?, root': Node?, pl: Plan, pl': Plan, p: Node?, side: nat, n: Node,
      m: Node, d: nat)
    requires Follows(s, root, pl) && Attached(s, s', root, root', p, side, n)
    requires 0 <= SlotAt(pl, p, side) <= |pl.order| && pl' == Grown(pl, SlotAt(pl, p, side), n)
    requires m in s && d < 2
    ensures ChildOk(s', pl', m, d)
  {
    assert Wired(s, root, pl, m);
    if p != null && s[m].kids.Kid(d) == null && pl.Lo(m, d) == pl.Lo(p, side) {
      OnlySlot(s, root, pl, p, side, m, d);
    }
    if p != null {
      assert Wired(s, root, pl, p);
    }
  }

  lemma AttachedWired(
      s: Snapshot, s': Snapshot, root: Node?, root': Node?, pl: Plan, pl': Plan, p: Node?, side: nat, n: Node, m: Node)
    requires Follows(s, root, pl) && Attached(s, s', root, root', p, side, n)
    requires 0 <= SlotAt(pl, p, side) <= |pl.order| && pl' == Grown(pl, SlotAt(pl, p, side), n)
    requires m in s
    ensures Wired(s', root', pl', m)
  {
    AttachedChild(s, s', root, root', pl, pl', p, side, n, m, 0);
    AttachedChild(s, s', root, root', pl, pl', p, side, n, m, 1);
    assert Wired(s, root, pl, m);
  }

  lemma AttachedFollows(
      s: Snapshot, s': Snapshot, root: Node?, root': Node?, pl: Plan, pl': Plan, p: Node?, side: nat, n: Node)
    requires Follows(s, root, pl) && Attached(s, s', root, root', p, side, n)
    requires 0 <= SlotAt(pl, p, side) <= |pl.order| && pl' == Grown(pl, SlotAt(pl, p, side), n)
    ensures Follows(s', root', pl')
  {
    GrownOk(pl, SlotAt(pl, p, side), n);
    if p != null { assert Wired(s, root, pl, p); }
    forall m | m in pl'.place ensures Wired(s', root', pl', m) {
      if m != n {
        AttachedWired(s, s', root, root', pl, pl', p, side, n, m);
      }
    }
  }

  lemma AttachedFit(
      s: Snapshot, s': Snapshot, root: Node?, root': Node?, pl: Plan, p: Node?, side: nat, n: Node, m: Node)
    requires Follows(s, root, pl) && Balanced(s) && Attached(s, s', root, root', p, side, n)
    requires m in s' && m != p
    ensures Fit(s', Stored(s'), m)
  {
    if m != n {
      assert Wired(s, root, pl, m) && Even(s, m);
      assert s'[m] == s[m];
    }
  }

  lemma AttachedLeans(
      s: Snapshot, s': Snapshot, root: Node?, root': Node?, pl: Plan, p: Node, side: nat, n: Node)
    requires Follows(s, root, pl) && Balanced(s) && Attached(s, s', root, root', p, side, n)
    ensures Lean(s', s'[p].height, p, false)
  {
    assert Wired(s, root, pl, p) && Even(s, p);
  }

  /** After the new leaf was attached, only its parent may lean. */
  lemma AttachedTilted(
      s: Snapshot, s': Snapshot, root: Node?, root': Node?, pl: Plan, pl': Plan, p: Node?, side: nat, n: Node)
    requires Follows(s, root, pl) && Balanced(s) && Attached(s, s', root, root', p, side, n)
    requires Follows(s', root', pl')
    ensures Tilted(s', root', pl', Stored(s'), p, null, false)
  {
    forall m | m in s' && m != p ensures Fit(s', Stored(s'), m) {
      AttachedFit(s, s', root, root', pl, p, side, n, m);
    }
    if p != null {
      AttachedLeans(s, s', root, root', pl, p, side, n);
    }
  }

  // ----- a node with at most one child goes

  /** The plan after `n` was taken out. */
  ghost function Shrunk(pl: Plan, n: Node): Plan
    requires pl.Ok() && n in pl.place
  {
    var i := pl.place[n].at;
    Plan(pl.order[..i] + pl.order[i + 1..],
         map m | m in pl.place && m != n ::
           Place(Down(pl.place[m].lo, i), Down(pl.place[m].at, i), Down(pl.place[m].hi, i)))
  }

  function Down(k: int, i: int): int {
    if k > i then k - 1 else k
  }

  lemma ShrunkSides(pl: Plan, n: Node, m: Node, d: nat)
    requires pl.Ok() && n in pl.place && m in pl.place && m != n && d < 2
    ensures var i, pl' := pl.place[n].at, Shrunk(pl, n);
            pl'.Lo(m, d) == Down(pl.Lo(m, d), i) && pl'.Hi(m, d) == Down(pl.Hi(m, d), i)
  {
    if pl.place[m].at == pl.place[n].at { pl.SeatedOnce(m, n); }
  }

  lemma ShrunkOk(pl: Plan, n: Node)
    requires pl.Ok() && n in pl.place
    ensures Shrunk(pl, n).Ok() && Shrunk(pl, n).place.Keys == pl.place.Keys - {n}
  {
    var pl' := Shrunk(pl, n);
    var i := pl.place[n].at;
    assert pl.Seated(n);
    forall k | 0 <= k < |pl'.order| ensures pl'.order[k] in pl'.place && pl'.place[pl'.order[k]].at == k {
      if k < i {
        assert pl'.order[k] == pl.order[k];
      } else {
        assert pl'.order[k] == pl.order[k + 1];
      }
    }
    forall m | m in pl'.place
      ensures pl'.Seated(m) && 0 <= pl'.place[m].lo <= pl'.place[m].at < pl'.place[m].hi <= |pl'.order|
    {
      assert pl.Seated(m);
    }
  }

  /** `n`, which has no child but possibly `c`, is no longer in the tree, and `c` hangs in
      its place. */
  ghost predicate Unlinked(s: Snapshot, s': Snapshot, root: Node?, root': Node?, n: Node, c: Node?) {
    && n in s && s'.Keys == s.Keys - {n}
    && (s[n].kids == Kids(c, null) || s[n].kids == Kids(null, c))
    && root' == (if s[n].parent == null then c else root)
    && forall m {:trigger s'[m]} :: m in s && m != n ==>
         s'[m] == Ptrs(if m == s[n].parent then Redirected(s[m].kids, n, c) else s[m].kids,
                       if m == c then s[n].parent else s[m].parent, s[m].height, s[m].key)
  }

  lemma UnlinkedChild(
      s: Snapshot, s': Snapshot, root: Node?, root': Node?, pl: Plan, pl': Plan, n: Node, c: Node?, m: Node, d: nat)
    requires Follows(s, root, pl) && Unlinked(s, s', root, root', n, c) && pl' == Shrunk(pl, n)
    requires m in s && m != n && d < 2
    ensures ChildOk(s', pl', m, d)
  {
    assert Wired(s, root, pl, n) && Wired(s, root, pl, m);
    ShrunkSides(pl, n, m, d);
    var k := s[m].kids.Kid(d);
    if k == n {
      assert s'[m].kids.Kid(d) == c;
    } else if k != null {
      assert s'[m].kids.Kid(d) == k;
    }
  }

  lemma UnlinkedParent(
      s: Snapshot, s': Snapshot, root: Node?, root': Node?, pl: Plan, n: Node, c: Node?, m: Node)
    requires Follows(s, root, pl) && Unlinked(s, s', root, root', n, c)
    requires m in s && m != n
    ensures ParentOk(s', root', m)
  {
    assert Wired(s, root, pl, n) && Wired(s, root, pl, m);
    if c != null { assert Wired(s, root, pl, c); }
    if s[n].parent != null { assert Wired(s, root, pl, s[n].parent); }
  }

  lemma UnlinkedRoot(
      s: Snapshot, s': Snapshot, root: Node?, root': Node?, pl: Plan, pl': Plan, n: Node, c: Node?)
    requires Follows(s, root, pl) && Unlinked(s, s', root, root', n, c) && pl' == Shrunk(pl, n)
    ensures RootOk(s', root', pl')
  {
    assert Wired(s, root, pl, n) && pl.Seated(n);
    if c != null { assert Wired(s, root, pl, c); }
  }

  lemma UnlinkedFollows(
      s: Snapshot, s': Snapshot, root: Node?, root': Node?, pl: Plan, pl': Plan, n: Node, c: Node?)
    requires Follows(s, root, pl) && Unlinked(s, s', root, root', n, c) && pl' == Shrunk(pl, n)
    ensures Follows(s', root', pl')
  {
    ShrunkOk(pl, n);
    UnlinkedRoot(s, s', root, root', pl, pl', n, c);
    forall m | m in pl'.place ensures Wired(s', root', pl', m) {
      UnlinkedChild(s, s', root, root', pl, pl', n, c, m, 0);
      UnlinkedChild(s, s', root, root', pl, pl', n, c, m, 1);
      UnlinkedParent(s, s', root, root', pl, n, c, m);
    }
  }

  /** Where the child hangs instead of `n`, it stands in for the height of `n`. */
  lemma UnlinkedFit(
      s: Snapshot, s': Snapshot, root: Node?, root': Node?, pl: Plan, b: Heights, n: Node, c: Node?, m: Node)
    requires Follows(s, root, pl) && Balanced(s) && Unlinked(s, s', root, root', n, c)
    requires b == if c != null && c in s' then Stored(s')[c := s[n].height] else Stored(s')
    requires m in s' && m != c && (c == null ==> m != s[n].parent)
    ensures Fit(s', b, m)
  {
    assert Wired(s, root, pl, m) && Wired(s, root, pl, n) && Even(s, m);
    assert s'[m] == Ptrs(if m == s[n].parent then Redirected(s[m].kids, n, c) else s[m].kids,
                         s[m].parent, s[m].height, s[m].key);
  }

  /** The child of a node without another child is a leaf, and its place was two high. */
  lemma UnlinkedLeaf(
      s: Snapshot, s': Snapshot, root: Node?, root': Node?, pl: Plan, n: Node, c: Node)
    requires Follows(s, root, pl) && Balanced(s) && Unlinked(s, s', root, root', n, c) && c in s
    ensures Lean(s', s[n].height, c, true)
  {
    assert Wired(s, root, pl, n) && Wired(s, root, pl, c) && Even(s, n) && Even(s, c);
    assert s'[c] == Ptrs(s[c].kids, s[n].parent, s[c].height, s[c].key);
  }

  lemma UnlinkedBelow(
      s: Snapshot, s': Snapshot, root: Node?, root': Node?, pl: Plan, pl': Plan, n: Node, c: Node)
    requires Follows(s, root, pl) && Balanced(s) && Unlinked(s, s', root, root', n, c) && c in s
    requires Follows(s', root', pl')
    ensures Tilted(s', root', pl', Stored(s')[c := s[n].height], c, null, true)
  {
    UnlinkedLeaf(s, s', root, root', pl, n, c);
    forall m | m in s' && m != c ensures Fit(s', Stored(s')[c := s[n].height], m) {
      UnlinkedFit(s, s', root, root', pl, Stored(s')[c := s[n].height], n, c, m);
    }
  }

  lemma UnlinkedFar(
      s: Snapshot, s': Snapshot, root: Node?, root': Node?, pl: Plan, n: Node, c: Node?, m: Node)
    requires Follows(s, root, pl) && Balanced(s) && Unlinked(s, s', root, root', n, c)
    requires m in s' && m != s[n].parent
    ensures Fit(s', Stored(s'), m)
  {
    assert Wired(s, root, pl, m) && Wired(s, root, pl, n) && Even(s, m);
  }

  lemma UnlinkedLeans(
      s: Snapshot, s': Snapshot, root: Node?, root': Node?, pl: Plan, n: Node, c: Node?, p: Node)
    requires Follows(s, root, pl) && Balanced(s) && Unlinked(s, s', root, root', n, c) && p == s[n].parent
    ensures p in s' && Lean(s', s'[p].height, p, true)
  {
    assert Wired(s, root, pl, n) && Even(s, n);
    assert Wired(s, root, pl, p) && Even(s, p);
    assert s'[p] == Ptrs(Redirected(s[p].kids, n, c), s[p].parent, s[p].height, s[p].key);
  }

  /** If the climb starts at the parent, that is the only node that leans. */
  lemma UnlinkedAbove(
      s: Snapshot, s': Snapshot, root: Node?, root': Node?, pl: Plan, pl': Plan, n: Node, c: Node?)
    requires Follows(s, root, pl) && Balanced(s) && Unlinked(s, s', root, root', n, c)
    requires c != null ==> s[n].parent != null
    requires Follows(s', root', pl')
    ensures Tilted(s', root', pl', Stored(s'), s[n].parent, null, true)
  {
    assert Wired(s, root, pl, n);
    forall m | m in s' && m != s[n].parent ensures Fit(s', Stored(s'), m) {
      UnlinkedFar(s, s', root, root', pl, n, c, m);
    }
    if s[n].parent != null {
      UnlinkedLeans(s, s', root, root', pl, n, c, s[n].parent);
    }
  }

  // ----- a node takes over the place of another one

  ghost function Renamed(pl: Plan, v: Node, x: Node): Plan
    requires pl.Ok() && v in pl.place
  {
    Plan(pl.order[pl.place[v].at := x], (pl.place - {v})[x := pl.place[v]])
  }

  lemma RenamedOk(pl: Plan, v: Node, x: Node)
    requires pl.Ok() && v in pl.place && x !in pl.place
    ensures Renamed(pl, v, x).Ok() && Renamed(pl, v, x).place.Keys == pl.place.Keys - {v} + {x}
  {
    var pl' := Renamed(pl, v, x);
    assert pl.Seated(v);
    forall k | 0 <= k < |pl'.order| ensures pl'.order[k] in pl'.place && pl'.place[pl'.order[k]].at == k {
      if k != pl.place[v].at { assert pl'.order[k] == pl.order[k]; }
    }
    forall m | m in pl'.place ensures pl'.Seated(m) {
      if m != x {
        assert pl.Seated(m);
        if pl.place[m].at == pl.place[v].at { pl.SeatedOnce(m, v); }
      }
    }
  }

  ghost predicate Replaced(s: Snapshot, s': Snapshot, root: Node?, root': Node?, v: Node, x: Node) {
    && v in s && x !in s && s'.Keys == s.Keys - {v} + {x}
    && s'[x].kids == s[v].kids && s'[x].parent == s[v].parent
    && root' == (if s[v].parent == null then x else root)
    && forall m {:trigger s'[m]} :: m in s && m != v ==>
         s'[m] == Ptrs(if m == s[v].parent then Redirected(s[m].kids, v, x) else s[m].kids,
                       if m == s[v].kids.left || m == s[v].kids.right then x else s[m].parent,
                       s[m].height, s[m].key)
  }

  lemma ReplacedNew(s: Snapshot, s': Snapshot, root: Node?, root': Node?, pl: Plan, pl': Plan, v: Node, x: Node)
    requires Follows(s, root, pl) && Replaced(s, s', root, root', v, x) && pl' == Renamed(pl, v, x)
    ensures Wired(s', root', pl', x) && RootOk(s', root', pl')
  {
    assert Wired(s, root, pl, v) && pl.Seated(v);
    if s[v].parent != null { assert Wired(s, root, pl, s[v].parent); }
  }

  lemma ReplacedChild(
      s: Snapshot, s': Snapshot, root: Node?, root': Node?, pl: Plan, pl': Plan, v: Node, x: Node, m: Node, d: nat)
    requires Follows(s, root, pl) && Replaced(s, s', root, root', v, x) && pl' == Renamed(pl, v, x)
    requires m in s && m != v && d < 2
    ensures ChildOk(s', pl', m, d)
  {
    assert Wired(s, root, pl, v) && Wired(s, root, pl, m);
    var k := s[m].kids.Kid(d);
    if k == v {
      assert s'[m].kids.Kid(d) == x;
    } else if k != null {
      assert s'[m].kids.Kid(d) == k;
    }
  }

  lemma ReplacedParent(
      s: Snapshot, s': Snapshot, root: Node?, root': Node?, pl: Plan, v: Node, x: Node, m: Node)
    requires Follows(s, root, pl) && Replaced(s, s', root, root', v, x)
    requires m in s && m != v
    ensures ParentOk(s', root', m)
  {
    assert Wired(s, root, pl, v) && Wired(s, root, pl, m);
    if s[m].parent != null { assert Wired(s, root, pl, s[m].parent); }
  }

  lemma ReplacedFollows(
      s: Snapshot, s': Snapshot, root: Node?, root': Node?, pl: Plan, pl': Plan, v: Node, x: Node)
    requires Follows(s, root, pl) && Replaced(s, s', root, root', v, x) && pl' == Renamed(pl, v, x)
    ensures Follows(s', root', pl')
  {
    RenamedOk(pl, v, x);
    ReplacedNew(s, s', root, root', pl, pl', v, x);
    forall m | m in pl'.place ensures Wired(s', root', pl', m) {
      if m != x {
        ReplacedChild(s, s', root, root', pl, pl', v, x, m, 0);
        ReplacedChild(s, s', root, root', pl, pl', v, x, m, 1);
        ReplacedParent(s, s', root, root', pl, v, x, m);
      }
    }
  }

  ghost function Passed(b: Heights, v: Node, x: Node): Heights
    requires v in b
  {
    (b - {v})[x := b[v]]
  }

  lemma ReplacedFit(
      s: Snapshot, s': Snapshot, root: Node?, root': Node?, pl: Plan, b: Heights, b': Heights,
      v: Node, x: Node, m: Node)
    requires Follows(s, root, pl) && Replaced(s, s', root, root', v, x)
    requires b.Keys == s.Keys && b' == Passed(b, v, x)
    requires m in s && Fit(s, b, m)
    ensures Fit(s', b', if m == v then x else m)
  {
    assert Wired(s, root, pl, v) && Wired(s, root, pl, m);
    if m != v {
      assert s'[m].kids == if m == s[v].parent then Redirected(s[m].kids, v, x) else s[m].kids;
    }
  }

  lemma ReplacedLeans(
      s: Snapshot, s': Snapshot, root: Node?, root': Node?, pl: Plan, v: Node, x: Node, cur: Node, e: int)
    requires Follows(s, root, pl) && Replaced(s, s', root, root', v, x)
    requires cur in s && Covers(pl, v, pl.place[cur].at) && Lean(s, e, cur, true)
    ensures Lean(s', e, if cur == v then x else cur, true)
  {
    assert Wired(s, root, pl, v) && Wired(s, root, pl, cur);
    if cur != v {
      assert s'[cur].kids == s[cur].kids;
    }
  }

  /** The new node is believed to have the height of the old one. */
  lemma ReplacedTilted(
      s: Snapshot, s': Snapshot, root: Node?, root': Node?, pl: Plan, pl': Plan, b: Heights,
      v: Node, x: Node, cur: Node)
    requires Tilted(s, root, pl, b, cur, null, true) && Replaced(s, s', root, root', v, x)
    requires Covers(pl, v, pl.place[cur].at) && pl' == Renamed(pl, v, x) && Follows(s', root', pl')
    ensures Tilted(s', root', pl', Passed(b, v, x), if cur == v then x else cur, if cur == v then null else x, true)
  {
    var b' := Passed(b, v, x);
    var cur' := if cur == v then x else cur;
    forall m | m in s' && m != cur' ensures Fit(s', b', m) {
      var m0 := if m == x then v else m;
      assert Fit(s, b, m0);
      ReplacedFit(s, s', root, root', pl, b, b', v, x, m0);
    }
    ReplacedLeans(s, s', root, root', pl, v, x, cur, b[cur]);
  }
}
