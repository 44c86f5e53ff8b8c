/** Nodes of the intrusive AVL tree and the pointer surgery on them.

    As in RadixNodes, every method states what it does to the pointers of all the nodes of
    a region, as an effect between two snapshots. */
module AvlNodes {

  /** What the comparators can see of a node through its key: the tracked address range. */
  datatype Span = Span(addr: nat, size: nat)

  datatype Kids = Kids(left: Node?, right: Node?) {
    function Kid(side: nat): Node? {
      if side == 0 then left else right
    }

    function With(side: nat, n: Node?): Kids {
      if side == 0 then Kids(n, right) else Kids(left, n)
    }
  }

  class Node {
    var kids: Kids
    var parent: Node?
    var key: Span
    var height: int
    /** What the owner of the node attaches to it. */
    var value: object?

    constructor ()
    {
      kids, parent, value := Kids(null, null), null, null;
      key, height := Span(0, 0), 0;
    }
  }

  /** The tree object as its nodes see it: the root pointer. */
  class Anchor {
    var root: Node?

    constructor ()
      ensures root == null
    {
      root := null;
    }
  }

  ghost function Opt(n: Node?): set<Node> {
    if n == null then {} else {n}
  }

  function Max(a: int, b: int): int {
    if a > b then a else b
  }

  lemma MaxIsSymmetric()
    ensures forall a, b :: Max(a, b) == Max(b, a)
  {
  }

  // ----- snapshots

  datatype Ptrs = Ptrs(kids: Kids, parent: Node?, height: int, key: Span)

  type Snapshot = map<Node, Ptrs>

  ghost function Snap(region: set<Node>): Snapshot
    reads region`kids, region`parent, region`height, region`key
  {
    map n | n in region :: Ptrs(n.kids, n.parent, n.height, n.key)
  }

  /** Height of a possibly empty subtree in a snapshot. */
  ghost function HeightIn(s: Snapshot, n: Node?): int {
    if n != null && n in s then s[n].height else 0
  }

  // ----- heights

  function GetHeight(n: Node?): int
    reads Opt(n)`height
  {
    if n != null then n.height else 0
  }

  function KidOf(n: Node?, side: nat): Node?
    reads Opt(n)`kids
  {
    if n != null then n.kids.Kid(side) else null
  }

  function GetBalance(n: Node?): int
    reads Opt(n)`kids, Opt(KidOf(n, 0))`height, Opt(KidOf(n, 1))`height
  {
    GetHeight(KidOf(n, 0)) - GetHeight(KidOf(n, 1))
  }

  method RecalculateHeight(n: Node)
    requires n.kids.left != n && n.kids.right != n
    modifies n`height
    ensures n.height == 1 + Max(GetHeight(n.kids.left), GetHeight(n.kids.right))
  {
    n.height := 1 + Max(GetHeight(n.kids.left), GetHeight(n.kids.right));
  }

  // ----- links

  /** `n` is one child of its parent, or the root. */
  ghost predicate Linked(t: Anchor, n: Node)
    reads t`root, n`parent, Opt(n.parent)`kids
  {
    if n.parent == null then t.root == n
    else n.parent != n && (n.parent.kids.left == n || n.parent.kids.right == n)
  }

  /** Children of `x` after the pointer to `n`, child of `p`, was redirected to `m`. */
  function Redirected(kids: Kids, n: Node, m: Node?): Kids {
    if kids.left == n then Kids(m, kids.right) else if kids.right == n then Kids(kids.left, m) else kids
  }

  /** `*cuAvlTreeNodeGetLinkPointer(tree, n) = m` */
  method Relink(t: Anchor, n: Node, m: Node?)
    requires Linked(t, n)
    modifies t`root, Opt(n.parent)`kids
    ensures n.parent == null ==> t.root == m
    ensures n.parent != null ==> t.root == old(t.root) && n.parent.kids == Redirected(old(n.parent.kids), n, m)
  {
    var parent := n.parent;
    if parent != null {
      if n == parent.kids.left {
        parent.kids := Kids(m, parent.kids.right);
      } else {
        parent.kids := Kids(parent.kids.left, m);
      }
    } else {
      t.root := m;
    }
  }

  // ----- rotations

  /** The nodes around a rotation of `node` with its child on `side` are distinct. */
  ghost predicate Pivot(node: Node, side: nat)
    requires side < 2
    reads node`kids, node`parent, Opt(node.kids.Kid(side))`kids
  {
    var c := node.kids.Kid(side);
    && c != null && c != node
    && var g, p := c.kids.Kid(1 - side), node.parent;
    && var x, y := node.kids.Kid(1 - side), c.kids.Kid(side);
    && g != node && g != c && p != node && p != c && (p != null ==> p != g)
    && x != node && x != c && y != node && y != c
  }

  method RotatePointers(t: Anchor, node: Node, side: nat) returns (child: Node)
    requires side < 2 && Pivot(node, side) && Linked(t, node)
    modifies t`root, Opt(node.parent)`kids
    modifies node`kids, node`parent, node`height
    modifies Opt(node.kids.Kid(side))`kids, Opt(node.kids.Kid(side))`parent, Opt(node.kids.Kid(side))`height
    modifies Opt(KidOf(node.kids.Kid(side), 1 - side))`parent
    ensures child == old(node.kids.Kid(side))
    ensures var g := old(KidOf(node.kids.Kid(side), 1 - side));
            && node.kids == old(node.kids).With(side, g) && node.parent == child
            && node.height == 1 + Max(GetHeight(node.kids.left), GetHeight(node.kids.right))
            && (g != null ==> g.parent == node)
    ensures child.kids == old(child.kids).With(1 - side, node) && child.parent == old(node.parent)
    ensures child.height == 1 + Max(GetHeight(child.kids.left), GetHeight(child.kids.right))
    ensures var p := old(node.parent);
            if p == null then t.root == child
            else t.root == old(t.root) && p.kids == Redirected(old(node.parent.kids), node, child)
  {
    child := node.kids.Kid(side);
    Relink(t, node, child);
    child.parent := node.parent;

    node.kids := node.kids.With(side, child.kids.Kid(1 - side));
    var grand := node.kids.Kid(side);
    if grand != null {
      grand.parent := node;
    }

    child.kids := child.kids.With(1 - side, node);
    node.parent := child;

    RecalculateHeight(node);
    RecalculateHeight(child);
  }

  /** A rotation between two snapshots: `node` goes down, its child on `side` comes up. */
  ghost predicate RotateEffect(s: Snapshot, s': Snapshot, node: Node, side: nat)
    requires side < 2
  {
    && node in s && s'.Keys == s.Keys
    && var c, p, x := s[node].kids.Kid(side), s[node].parent, s[node].kids.Kid(1 - side);
    && c != null && c in s
    && var g, y := s[c].kids.Kid(1 - side), s[c].kids.Kid(side);
    && var low := 1 + Max(HeightIn(s, g), HeightIn(s, x));
    && s'[node] == Ptrs(s[node].kids.With(side, g), c, low, s[node].key)
    && s'[c] == Ptrs(s[c].kids.With(1 - side, node), p, 1 + Max(HeightIn(s, y), low), s[c].key)
    && forall n {:trigger s'[n]} :: n in s && n != node && n != c ==>
         s'[n] == Ptrs(if n == p then Redirected(s[n].kids, node, c) else s[n].kids,
                       if n == g then node else s[n].parent, s[n].height, s[n].key)
  }

  method Rotate(t: Anchor, node: Node, side: nat, ghost region: set<Node>) returns (child: Node)
    requires side < 2 && Pivot(node, side) && Linked(t, node)
    requires node in region && Opt(node.parent) + Opt(node.kids.left) + Opt(node.kids.right) <= region
    requires var c := node.kids.Kid(side); Opt(c.kids.left) + Opt(c.kids.right) <= region
    modifies t`root, region`kids, region`parent, region`height
    ensures child == old(node.kids.Kid(side))
    ensures RotateEffect(old(Snap(region)), Snap(region), node, side)
    ensures t.root == if old(node.parent) == null then child else old(t.root)
  {
    hide Max, Linked;
    MaxIsSymmetric();
    child := RotatePointers(t, node, side);
  }
}
