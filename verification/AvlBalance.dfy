/** Heights in an AVL tree that is being rebalanced.

    While the rebalancing loop climbs, the stored heights are those of the finished tree
    below the current node and those of the old tree above it.  `believed` gives every node
    the height that its parent relies on.  Everywhere but at the current node believed
    heights are balanced; at the current node one child has changed by at most one. */
module AvlBalance {
  import opened AvlNodes
  import opened AvlPlan

  type Heights = map<Node, int>

  ghost function At(b: Heights, n: Node?): int {
    if n != null && n in b then b[n] else 0
  }

  /** `h` is the height of a balanced node over subtrees of heights `l` and `r`. */
  predicate Level(h: int, l: int, r: int) {
    h == 1 + Max(l, r) && -1 <= l - r <= 1 && l >= 0 && r >= 0
  }

  ghost predicate Fit(s: Snapshot, b: Heights, n: Node) {
    n in s && n in b && Level(b[n], At(b, s[n].kids.left), At(b, s[n].kids.right))
  }

  /** A subtree that has grown: a single node, or one that leans to a side. */
  ghost predicate Tall(s: Snapshot, n: Node?) {
    n != null && n in s
    && (s[n].height == 1 || HeightIn(s, s[n].kids.left) != HeightIn(s, s[n].kids.right))
  }

  /** The subtree of `n` used to have height `e`, and since then nothing has changed, or one
      child has shrunk by one (on deletion) or grown by one (on insertion). */
  ghost predicate Lean(s: Snapshot, e: int, n: Node, del: bool) {
    n in s &&
    var l, r := HeightIn(s, s[n].kids.left), HeightIn(s, s[n].kids.right);
    && l >= 0 && r >= 0
    && if del then Level(e, l, r) || Level(e, l + 1, r) || Level(e, l, r + 1)
       else Level(e, l, r)
            || (Level(e, l - 1, r) && Tall(s, s[n].kids.left))
            || (Level(e, l, r - 1) && Tall(s, s[n].kids.right))
  }

  /** The invariant of the climb: `cur` is next, `stale` (if any) is a node above it whose
      stored height is not its believed one. */
  ghost predicate Tilted(
      s: Snapshot, root: Node?, pl: Plan, b: Heights, cur: Node?, stale: Node?, del: bool)
  {
    && Follows(s, root, pl)
    && b.Keys == s.Keys
    && (forall n {:trigger Fit(s, b, n)} :: n in s && n != cur ==> Fit(s, b, n))
    && (forall n {:trigger s[n]} :: n in s && n != cur && n != stale ==> s[n].height == b[n])
    && (stale != null ==> cur != null && cur in pl.place && Covers(pl, stale, pl.place[cur].at))
    && (cur != null ==> cur in s && Lean(s, b[cur], cur, del))
  }

  /** The stored height is exact and the node is balanced. */
  ghost predicate Even(s: Snapshot, n: Node) {
    n in s && Level(s[n].height, HeightIn(s, s[n].kids.left), HeightIn(s, s[n].kids.right))
  }

  ghost predicate Balanced(s: Snapshot) {
    forall n {:trigger Even(s, n)} :: n in s ==> Even(s, n)
  }

  ghost function Stored(s: Snapshot): Heights {
    map n | n in s :: s[n].height
  }

  lemma TiltedEnds(s: Snapshot, root: Node?, pl: Plan, b: Heights, del: bool)
    requires Tilted(s, root, pl, b, null, null, del)
    ensures Balanced(s)
  {
    forall n | n in s ensures Even(s, n) {
      assert Fit(s, b, n) && Wired(s, root, pl, n);
    }
  }

  lemma SameNodes(s: Snapshot, root: Node?, pl: Plan, b: Heights, cur: Node?, stale: Node?, del: bool)
    requires Tilted(s, root, pl, b, cur, stale, del)
    ensures b.Keys == s.Keys
  {
  }

  /** The children of the current node are not stale, so their stored heights are believed. */
  lemma KidsKnown(s: Snapshot, root: Node?, pl: Plan, b: Heights, cur: Node, stale: Node?, del: bool)
    requires Tilted(s, root, pl, b, cur, stale, del)
    ensures HeightIn(s, s[cur].kids.left) == At(b, s[cur].kids.left)
    ensures HeightIn(s, s[cur].kids.right) == At(b, s[cur].kids.right)
  {
    assert Wired(s, root, pl, cur);
  }

  // ----- without a rotation

  /** The parent of a subtree whose height went from `e` to `h`. */
  lemma ParentLeans(s: Snapshot, s': Snapshot, b: Heights, p: Node, cur: Node, r: Node, h: int, del: bool)
    requires p in s && p in s' && Fit(s, b, p) && cur in b && cur in s && r in s'
    requires s'[p].kids == Redirected(s[p].kids, cur, r)
    requires (s[p].kids.left == cur) != (s[p].kids.right == cur)
    requires s'[r].height == h && h >= 0
    requires var x := if s[p].kids.left == cur then s[p].kids.right else s[p].kids.left;
             HeightIn(s', x) == At(b, x)
    requires if del then h == b[cur] || h == b[cur] - 1
             else h == b[cur] || (h == b[cur] + 1 && Tall(s', r))
    ensures Lean(s', b[p], p, del)
  {
  }

  // ----- one step of the climb

  /** `b` with the heights that `s'` stores for the nodes of `touched`. */
  ghost function Updated(b: Heights, s': Snapshot, touched: set<Node>): Heights
    requires touched <= b.Keys && b.Keys == s'.Keys
  {
    map n | n in b :: if n in touched then s'[n].height else b[n]
  }

  /** Between two snapshots the subtree of `cur` has been rebuilt from the nodes of
      `touched`, with `r` on top; outside, only the pointer to the subtree has changed. */
  ghost predicate Rebuilt(s: Snapshot, s': Snapshot, cur: Node, r: Node, touched: set<Node>) {
    && s'.Keys == s.Keys && touched <= s.Keys && cur in touched && r in touched
    && s'[r].parent == s[cur].parent && s[cur].parent !in touched
    && (forall m :: m in touched && m != cur ==> s[m].parent in touched)
    && (forall n {:trigger s'[n]} :: n in s && n !in touched ==>
          && s'[n].height == s[n].height
          && s'[n].kids == if n == s[cur].parent then Redirected(s[n].kids, cur, r) else s[n].kids)
  }

  lemma OthersFit(
      s: Snapshot, s': Snapshot, root: Node?, pl: Plan, b: Heights, cur: Node, stale: Node?, del: bool,
      r: Node, touched: set<Node>, n: Node)
    requires Tilted(s, root, pl, b, cur, stale, del) && Rebuilt(s, s', cur, r, touched)
    requires n in s && n !in touched && n != s[cur].parent
    ensures Fit(s', Updated(b, s', touched), n)
  {
    assert Fit(s, b, n) && Wired(s, root, pl, n);
  }

  lemma StepTilted(
      s: Snapshot, s': Snapshot, root: Node?, root': Node?, pl: Plan, pl': Plan, b: Heights, b': Heights,
      cur: Node, stale: Node?, del: bool, r: Node, touched: set<Node>)
    requires Tilted(s, root, pl, b, cur, stale, del) && Rebuilt(s, s', cur, r, touched)
    requires b' == Updated(b, s', touched)
    requires Follows(s', root', pl')
    requires forall n :: n in touched ==> Fit(s', b', n)
    requires forall n :: n in pl.place && n !in touched ==> n in pl'.place && pl'.place[n] == pl.place[n]
    requires stale in touched ==> stale == cur
    requires var h := s'[r].height;
             if del then h == b[cur] || h == b[cur] - 1 else h == b[cur] || (h == b[cur] + 1 && Tall(s', r))
    ensures Tilted(s', root', pl', b', s[cur].parent, if stale == cur then null else stale, del)
  {
    var p := s[cur].parent;
    forall n | n in s' && n != p ensures Fit(s', b', n) {
      if n !in touched {
        OthersFit(s, s', root, pl, b, cur, stale, del, r, touched, n);
      }
    }
    assert Wired(s, root, pl, cur);
    if p != null {
      assert Wired(s, root, pl, p) && Fit(s, b, p) && Fit(s', b', r);
      ParentLeans(s, s', b, p, cur, r, s'[r].height, del);
    }
    if stale != null && stale != cur {
      ParentCovered(s, root, pl, stale, cur);
    }
  }

  // ----- the three cases of a step

  lemma SameLinksFollow(s: Snapshot, s': Snapshot, root: Node?, pl: Plan)
    requires Follows(s, root, pl) && s'.Keys == s.Keys
    requires forall n {:trigger s'[n]} :: n in s ==> s'[n].kids == s[n].kids && s'[n].parent == s[n].parent
    ensures Follows(s', root, pl)
  {
    forall n | n in pl.place ensures Wired(s', root, pl, n) {
      assert Wired(s, root, pl, n);
    }
  }

  /** A node in balance only gets its height recalculated. */
  lemma LevelStep(
      s: Snapshot, s': Snapshot, root: Node?, pl: Plan, b: Heights, b': Heights, cur: Node, stale: Node?, del: bool)
    requires Tilted(s, root, pl, b, cur, stale, del)
    requires var l, r := HeightIn(s, s[cur].kids.left), HeightIn(s, s[cur].kids.right);
             -1 <= l - r <= 1 && s' == s[cur := s[cur].(height := 1 + Max(l, r))]
    requires b' == Updated(b, s', {cur})
    ensures Tilted(s', root, pl, b', s[cur].parent, if stale == cur then null else stale, del)
  {
    assert Wired(s, root, pl, cur);
    SameLinksFollow(s, s', root, pl);
    LevelFits(s, s', root, pl, b, b', cur, stale, del);
    StepTilted(s, s', root, root, pl, pl, b, b', cur, stale, del, cur, {cur});
  }

  lemma LevelFits(
      s: Snapshot, s': Snapshot, root: Node?, pl: Plan, b: Heights, b': Heights, cur: Node, stale: Node?, del: bool)
    requires Tilted(s, root, pl, b, cur, stale, del)
    requires var l, r := HeightIn(s, s[cur].kids.left), HeightIn(s, s[cur].kids.right);
             -1 <= l - r <= 1 && s' == s[cur := s[cur].(height := 1 + Max(l, r))]
    requires b' == Updated(b, s', {cur})
    ensures Fit(s', b', cur)
    ensures var h := s'[cur].height;
            if del then h == b[cur] || h == b[cur] - 1 else h == b[cur] || (h == b[cur] + 1 && Tall(s', cur))
  {
    assert Wired(s, root, pl, cur);
    KidsKnown(s, root, pl, b, cur, stale, del);
  }

  /** The child on `side` is two higher than the other one. */
  ghost predicate Heavy(s: Snapshot, n: Node, side: nat)
    requires n in s && side < 2
  {
    HeightIn(s, s[n].kids.Kid(side)) == HeightIn(s, s[n].kids.Kid(1 - side)) + 2
  }

  /** The heights around a heavy node are known from its believed height. */
  lemma HeavyFacts(
      s: Snapshot, root: Node?, pl: Plan, b: Heights, cur: Node, stale: Node?, del: bool, side: nat)
    requires Tilted(s, root, pl, b, cur, stale, del) && side < 2 && Heavy(s, cur, side)
    ensures var c := s[cur].kids.Kid(side);
            && c != null && c in s && c in pl.place && c != stale && s[c].parent == cur
            && var y, g := HeightIn(s, s[c].kids.Kid(side)), HeightIn(s, s[c].kids.Kid(1 - side));
            && Level(s[c].height, y, g)
            && b[cur] == (if del then s[c].height + 1 else s[c].height)
            && (!del ==> y != g)
  {
    assert Wired(s, root, pl, cur);
    KidsKnown(s, root, pl, b, cur, stale, del);
    var c := s[cur].kids.Kid(side);
    assert Wired(s, root, pl, c) && Fit(s, b, c);
    assert c != stale;
    KidsOfKidsKnown(s, root, pl, b, cur, c, stale, del);
  }

  lemma KidsOfKidsKnown(
      s: Snapshot, root: Node?, pl: Plan, b: Heights, cur: Node, c: Node, stale: Node?, del: bool)
    requires Tilted(s, root, pl, b, cur, stale, del) && c in s && s[c].parent == cur
    ensures HeightIn(s, s[c].kids.left) == At(b, s[c].kids.left)
    ensures HeightIn(s, s[c].kids.right) == At(b, s[c].kids.right)
  {
    assert Wired(s, root, pl, cur) && Wired(s, root, pl, c);
  }

  lemma SingleFits(
      s: Snapshot, s': Snapshot, root: Node?, root': Node?, pl: Plan, pl': Plan, b: Heights, b': Heights,
      cur: Node, c: Node, side: nat, stale: Node?, del: bool)
    requires Tilted(s, root, pl, b, cur, stale, del) && side < 2 && Heavy(s, cur, side)
    requires Turned(s, s', root, root', pl, pl', cur, c, side)
    requires var y, g := HeightIn(s, s[c].kids.Kid(side)), HeightIn(s, s[c].kids.Kid(1 - side));
             y > g || (y == g && del)
    requires b' == Updated(b, s', {cur, c})
    ensures Fit(s', b', cur) && Fit(s', b', c)
    ensures var h := s'[c].height;
            && h == 1 + Max(HeightIn(s', s'[c].kids.left), HeightIn(s', s'[c].kids.right))
            && (h == b[cur] || (del && h == b[cur] - 1))
  {
    hide Balanced, Even;
    SameNodes(s, root, pl, b, cur, stale, del);
    HeavyFacts(s, root, pl, b, cur, stale, del, side);
    PivotFacts(s, root, pl, cur, side);
    KidsKnown(s, root, pl, b, cur, stale, del);
    KidsOfKidsKnown(s, root, pl, b, cur, c, stale, del);
    assert Wired(s, root, pl, c) && Wired(s, root, pl, cur);
  }

  lemma SingleRebuilt(
      s: Snapshot, s': Snapshot, root: Node?, root': Node?, pl: Plan, pl': Plan, cur: Node, c: Node, side: nat)
    requires Turned(s, s', root, root', pl, pl', cur, c, side)
    ensures Rebuilt(s, s', cur, c, {cur, c})
  {
    PivotFacts(s, root, pl, cur, side);
    assert Wired(s, root, pl, cur) && Wired(s, root, pl, c);
  }

  /** Single rotation: the outer grandchild is at least as high as the inner one. */
  lemma SingleStep(
      s: Snapshot, s': Snapshot, root: Node?, root': Node?, pl: Plan, pl': Plan, b: Heights, b': Heights,
      cur: Node, c: Node, side: nat, stale: Node?, del: bool)
    requires Tilted(s, root, pl, b, cur, stale, del) && side < 2 && Heavy(s, cur, side)
    requires Turned(s, s', root, root', pl, pl', cur, c, side)
    requires var y, g := HeightIn(s, s[c].kids.Kid(side)), HeightIn(s, s[c].kids.Kid(1 - side));
             y > g || (y == g && del)
    requires b' == Updated(b, s', {cur, c})
    ensures s'[c].height == 1 + Max(HeightIn(s', s'[c].kids.left), HeightIn(s', s'[c].kids.right))
    ensures s'[c].parent == s[cur].parent
    ensures Tilted(s', root', pl', b', s[cur].parent, if stale == cur then null else stale, del)
  {
    HeavyFacts(s, root, pl, b, cur, stale, del, side);
    TurnedFollows(s, s', root, root', pl, pl', cur, c, side);
    SingleFits(s, s', root, root', pl, pl', b, b', cur, c, side, stale, del);
    SingleRebuilt(s, s', root, root', pl, pl', cur, c, side);
    StepTilted(s, s', root, root', pl, pl', b, b', cur, stale, del, c, {cur, c});
  }

  /** The outcome of a double rotation, in terms of the snapshot before it. */
  ghost predicate DoubleShape(s: Snapshot, s2: Snapshot, cur: Node, c: Node, g: Node, side: nat)
    requires side < 2
  {
    && cur in s && c in s && g in s && s2.Keys == s.Keys && cur != c && c != g && cur != g
    && var x, y := s[cur].kids.Kid(1 - side), s[c].kids.Kid(side);
    && var u, v := s[g].kids.Kid(side), s[g].kids.Kid(1 - side);
    && s2[c].kids == s[c].kids.With(1 - side, u) && s2[c].parent == g
    && s2[cur].kids == s[cur].kids.With(side, v) && s2[cur].parent == g
    && s2[g].kids == Kids(null, null).With(side, c).With(1 - side, cur) && s2[g].parent == s[cur].parent
    && s2[c].height == 1 + Max(HeightIn(s, y), HeightIn(s, u))
    && s2[cur].height == 1 + Max(HeightIn(s, v), HeightIn(s, x))
    && s2[g].height == 1 + Max(s2[c].height, s2[cur].height)
  }

  predicate Aside(z: Node?, cur: Node, c: Node, g: Node) {
    z != cur && z != c && z != g
  }

  /** The subtrees that a double rotation moves are none of the three nodes. */
  ghost predicate ThreeInARow(s: Snapshot, cur: Node, c: Node, g: Node, side: nat)
    requires side < 2
  {
    && cur in s && c in s && g in s && c == s[cur].kids.Kid(side) && g == s[c].kids.Kid(1 - side)
    && cur != c && c != g && cur != g && s[c].parent == cur && s[g].parent == c
    && Aside(s[cur].kids.Kid(1 - side), cur, c, g) && Aside(s[c].kids.Kid(side), cur, c, g)
    && Aside(s[g].kids.left, cur, c, g) && Aside(s[g].kids.right, cur, c, g)
    && Aside(s[cur].parent, cur, c, g)
  }

  lemma DoubleKids(s: Snapshot, root: Node?, pl: Plan, cur: Node, c: Node, g: Node, side: nat)
    requires Follows(s, root, pl) && side < 2 && cur in s && c in s && g in s
    requires c == s[cur].kids.Kid(side) && g == s[c].kids.Kid(1 - side)
    ensures ThreeInARow(s, cur, c, g, side)
  {
    PivotFacts(s, root, pl, cur, side);
    PivotFacts(s, root, pl, c, 1 - side);
    assert Wired(s, root, pl, c) && Wired(s, root, pl, cur) && Wired(s, root, pl, g);
  }

  lemma DoubleShapes(s: Snapshot, s1: Snapshot, s2: Snapshot, cur: Node, c: Node, g: Node, side: nat)
    requires side < 2 && ThreeInARow(s, cur, c, g, side)
    requires RotateEffect(s, s1, c, 1 - side) && RotateEffect(s1, s2, cur, side)
    ensures DoubleShape(s, s2, cur, c, g, side)
  {
  }

  lemma DoubleRebuilt(s: Snapshot, s1: Snapshot, s2: Snapshot, cur: Node, c: Node, g: Node, side: nat)
    requires side < 2 && ThreeInARow(s, cur, c, g, side)
    requires RotateEffect(s, s1, c, 1 - side) && RotateEffect(s1, s2, cur, side)
    ensures Rebuilt(s, s2, cur, g, {cur, c, g})
  {
    DoubleShapes(s, s1, s2, cur, c, g, side);
  }

  lemma DoubleFits(
      s: Snapshot, s2: Snapshot, root: Node?, pl: Plan, b: Heights, b': Heights,
      cur: Node, c: Node, g: Node, side: nat, stale: Node?, del: bool)
    requires Tilted(s, root, pl, b, cur, stale, del) && side < 2 && Heavy(s, cur, side)
    requires ThreeInARow(s, cur, c, g, side) && DoubleShape(s, s2, cur, c, g, side)
    requires HeightIn(s, s[c].kids.Kid(side)) < HeightIn(s, g)
    requires b' == Updated(b, s2, {cur, c, g})
    ensures Fit(s2, b', cur) && Fit(s2, b', c) && Fit(s2, b', g)
    ensures s2[g].height == if del then b[cur] - 1 else b[cur]
  {
    hide Tilted, Follows;
    SameNodes(s, root, pl, b, cur, stale, del);
    HeavyFacts(s, root, pl, b, cur, stale, del, side);
    KidsKnown(s, root, pl, b, cur, stale, del);
    KidsOfKidsKnown(s, root, pl, b, cur, c, stale, del);
    InnerKnown(s, root, pl, b, cur, c, g, stale, del);
  }

  lemma InnerKnown(
      s: Snapshot, root: Node?, pl: Plan, b: Heights, cur: Node, c: Node, g: Node, stale: Node?, del: bool)
    requires Tilted(s, root, pl, b, cur, stale, del) && c in s && s[c].parent == cur && g in s && s[g].parent == c
    requires g != cur
    ensures g != stale && s[g].height == b[g] && Fit(s, b, g)
    ensures HeightIn(s, s[g].kids.left) == At(b, s[g].kids.left)
    ensures HeightIn(s, s[g].kids.right) == At(b, s[g].kids.right)
  {
    assert Wired(s, root, pl, cur) && Wired(s, root, pl, c) && Wired(s, root, pl, g) && Fit(s, b, g);
  }

  lemma DoubleStep(
      s: Snapshot, s1: Snapshot, s2: Snapshot, root: Node?, root1: Node?, root2: Node?, pl: Plan, pl1: Plan, pl2: Plan,
      b: Heights, b': Heights, cur: Node, c: Node, g: Node, side: nat, stale: Node?, del: bool)
    requires Tilted(s, root, pl, b, cur, stale, del) && side < 2 && Heavy(s, cur, side)
    requires c == s[cur].kids.Kid(side)
    requires Turned(s, s1, root, root1, pl, pl1, c, g, 1 - side)
    requires Turned(s1, s2, root1, root2, pl1, pl2, cur, g, side)
    requires HeightIn(s, s[c].kids.Kid(side)) < HeightIn(s, g)
    requires b' == Updated(b, s2, {cur, c, g})
    ensures s2[g].height == 1 + Max(HeightIn(s2, s2[g].kids.left), HeightIn(s2, s2[g].kids.right))
    ensures s2[g].parent == s[cur].parent
    ensures Tilted(s2, root2, pl2, b', s[cur].parent, if stale == cur then null else stale, del)
  {
    hide Tilted, Follows, Fit;
    HeavyFacts(s, root, pl, b, cur, stale, del, side);
    DoubleKids(s, root, pl, cur, c, g, side);
    DoubleShapes(s, s1, s2, cur, c, g, side);
    DoubleRebuilt(s, s1, s2, cur, c, g, side);
    DoubleFits(s, s2, root, pl, b, b', cur, c, g, side, stale, del);
    InnerKnown(s, root, pl, b, cur, c, g, stale, del);
    TurnedFollows(s1, s2, root1, root2, pl1, pl2, cur, g, side);
    StepTilted(s, s2, root, root2, pl, pl2, b, b', cur, stale, del, g, {cur, c, g});
  }
}
