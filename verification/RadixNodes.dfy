/** Nodes of the intrusive radix tree and the pointer surgery on them.

    This module knows pointers only.  Each method states what it does to the pointers of
    every node of a region; what that means for the tree is the business of RadixTree. */
module RadixNodes {

  /** A `parent_to_self_ptr`: the address of the one pointer that refers to a node. */
  datatype Link = Unlinked | RootOf(anchor: Anchor) | ChildOf(owner: Node, slot: nat)

  /** A node's two child pointers. */
  datatype Pair = Pair(zero: Node?, one: Node?) {
    function Kid(b: nat): Node? {
      if b == 0 then zero else one
    }

    function With(b: nat, n: Node?): Pair {
      if b == 0 then Pair(n, one) else Pair(zero, n)
    }
  }

  /** The part of a tree object that a node can point back at: its root pointer. */
  class Anchor {
    var root: Node?

    constructor ()
      ensures root == null
    {
      root := null;
    }
  }

  class Node {
    var next: Node?
    var prev: Node?
    var child: Pair
    var link: Link
    var parent: Node?
    var key: nat
    /** The structure that the node is a part of, as `container_of` finds it. */
    var container: object?

    constructor ()
      ensures Blank(this)
    {
      next, prev, parent, container := null, null, null, null;
      child := Pair(null, null);
      link := Unlinked;
      key := 0;
    }
  }

  /** Not connected through child, parent and self pointers. */
  predicate Blank(n: Node)
    reads n`child, n`parent, n`link
  {
    n.child == Pair(null, null) && n.parent == null && n.link == Unlinked
  }

  method Clear(n: Node)
    modifies n`child, n`parent, n`link
    ensures Blank(n)
  {
    n.child := Pair(null, null);
    n.parent := null;
    n.link := Unlinked;
  }

  ghost function Opt(n: Node?): set<Node> {
    if n == null then {} else {n}
  }

  // ----- snapshots

  /** The tree pointers and the key of one node, as a value. */
  datatype Ptrs = Ptrs(child: Pair, parent: Node?, link: Link, key: nat)

  type Snapshot = map<Node, Ptrs>

  ghost function Snap(region: set<Node>): Snapshot
    reads region`child, region`parent, region`link, region`key
  {
    map n | n in region :: Ptrs(n.child, n.parent, n.link, n.key)
  }

  // ----- the circular list

  ghost predicate Distinct(s: seq<Node>) {
    forall i, j :: 0 <= i < j < |s| ==> s[i] != s[j]
  }

  function After(n: nat, j: nat): nat {
    if j + 1 < n then j + 1 else 0
  }

  function Before(n: nat, j: nat): nat
    requires j < n
  {
    if j == 0 then n - 1 else j - 1
  }

  ghost predicate Ring(s: seq<Node>)
    reads s`next, s`prev
  {
    && Distinct(s)
    && (forall j {:trigger s[j].next} :: 0 <= j < |s| ==> s[j].next == s[After(|s|, j)])
    && (forall j {:trigger s[j].prev} :: 0 <= j < |s| ==> s[j].prev == s[Before(|s|, j)])
  }

  ghost function Without(s: seq<Node>, j: nat): seq<Node>
    requires j < |s|
  {
    s[..j] + s[j + 1..]
  }

  method ListInit(node: Node)
    modifies node`next, node`prev
    ensures Ring([node])
  {
    node.next := node;
    node.prev := node;
  }

  method ListInsert(node: Node, head: Node)
    requires head.prev != null && node != head && head.prev != node
    modifies node`next, node`prev, head`prev, Opt(head.prev)`next
    ensures node.next == head && node.prev == old(head.prev)
    ensures head.prev == node && old(head.prev).next == node
  {
    var prev := head.prev;
    prev.next := node;
    node.prev := prev;
    head.prev := node;
    node.next := head;
  }

  method ListRemove(node: Node)
    requires node.next != null && node.prev != null && node.next != node && node.prev != node
    modifies Opt(node.next)`prev, Opt(node.prev)`next
    ensures node.next.prev == node.prev && node.prev.next == node.next
  {
    var next := node.next;
    var prev := node.prev;
    next.prev := prev;
    prev.next := next;
  }

  /** `node` has come between the last and the first node of the ring. */
  twostate predicate Inserted(s: seq<Node>, node: Node)
    requires s != []
    reads s, node
  {
    && node.next == s[0] && node.prev == s[|s| - 1]
    && s[0].prev == node && s[|s| - 1].next == node
    && (forall j {:trigger s[j].prev} :: 0 < j < |s| ==> s[j].prev == old(s[j].prev))
    && (forall j {:trigger s[j].next} :: 0 <= j < |s| - 1 ==> s[j].next == old(s[j].next))
  }

  // Two-state lemmas take their arguments as one tuple.
  twostate lemma RingInserted(a: (seq<Node>, Node))
    requires a.0 != [] && a.1 !in a.0 && old(Ring(a.0)) && Inserted(a.0, a.1)
    ensures Ring(a.0 + [a.1])
  {
  }

  /** Index in `s` of the element that `Without(s, j)` has at `i`. */
  function Up(j: nat, i: nat): nat {
    if i < j then i else i + 1
  }

  lemma UpNeighbours(n: nat, j: nat, i: nat)
    requires j < n && i < n - 1
    ensures Up(j, After(n - 1, i)) == if After(n, Up(j, i)) == j then After(n, j) else After(n, Up(j, i))
    ensures Up(j, Before(n - 1, i)) == if Before(n, Up(j, i)) == j then Before(n, j) else Before(n, Up(j, i))
    ensures After(n, Up(j, i)) == j <==> Up(j, i) == Before(n, j)
    ensures Before(n, Up(j, i)) == j <==> Up(j, i) == After(n, j)
  {
  }

  /** The neighbours of the node at `j` point past it. */
  twostate predicate Bypassed(s: seq<Node>, j: nat)
    requires j < |s|
    reads s
  {
    && s[After(|s|, j)].prev == s[Before(|s|, j)] && s[Before(|s|, j)].next == s[After(|s|, j)]
    && (forall i {:trigger s[i].prev} :: 0 <= i < |s| && i != After(|s|, j) ==> s[i].prev == old(s[i].prev))
    && (forall i {:trigger s[i].next} :: 0 <= i < |s| && i != Before(|s|, j) ==> s[i].next == old(s[i].next))
  }

  twostate lemma RingWithout(a: (seq<Node>, nat))
    requires a.1 < |a.0| && |a.0| > 1 && old(Ring(a.0)) && Bypassed(a.0, a.1)
    ensures Ring(Without(a.0, a.1))
  {
    var (s, j) := a;
    var t := Without(s, j);
    assert forall i {:trigger t[i]} :: 0 <= i < |t| ==> t[i] == s[Up(j, i)];
    forall i | 0 <= i < |t| ensures t[i].next == t[After(|t|, i)] && t[i].prev == t[Before(|t|, i)] {
      UpNeighbours(|s|, j, i);
    }
  }

  // ----- links

  ghost function OwnerOf(l: Link): set<Node> {
    if l.ChildOf? then {l.owner} else {}
  }

  ghost function AnchorOf(l: Link): set<Anchor> {
    if l.RootOf? then {l.anchor} else {}
  }

  predicate Slotted(l: Link) {
    l.RootOf? || (l.ChildOf? && l.slot < 2)
  }

  /** What a link points at: `*parent_to_self_ptr`. */
  function Deref(l: Link): Node?
    requires Slotted(l)
    reads AnchorOf(l)`root, OwnerOf(l)`child
  {
    match l
    case RootOf(t) => t.root
    case ChildOf(o, b) => o.child.Kid(b)
  }

  /** `*parent_to_self_ptr = n` */
  method Store(l: Link, n: Node?)
    requires Slotted(l)
    modifies AnchorOf(l)`root, OwnerOf(l)`child
    ensures l.RootOf? ==> l.anchor.root == n
    ensures l.ChildOf? ==> l.owner.child == old(l.owner.child).With(l.slot, n)
  {
    match l {
      case RootOf(t) => t.root := n;
      case ChildOf(o, b) => o.child := o.child.With(b, n);
    }
  }

  /** `n->child.Kid(b) = kid`, with the kid's pointers back to `n`. */
  method SetChild(n: Node, b: nat, kid: Node?)
    requires b < 2 && kid != n
    modifies n`child, Opt(kid)`parent, Opt(kid)`link
    ensures n.child == old(n.child).With(b, kid)
    ensures kid != null ==> kid.parent == n && kid.link == ChildOf(n, b)
  {
    n.child := n.child.With(b, kid);
    if kid != null {
      kid.parent := n;
      kid.link := ChildOf(n, b);
    }
  }

  /** `n` takes over the given children: the child loop shared by replacing and swapping. */
  method Adopt(n: Node, kids: Pair)
    requires kids.Kid(0) != n && kids.Kid(1) != n && (kids.Kid(0) != null ==> kids.Kid(0) != kids.Kid(1))
    modifies n`child, Opt(kids.Kid(0))`parent, Opt(kids.Kid(0))`link, Opt(kids.Kid(1))`parent, Opt(kids.Kid(1))`link
    ensures n.child == kids
    ensures forall b :: 0 <= b < 2 && kids.Kid(b) != null ==>
              kids.Kid(b).parent == n && kids.Kid(b).link == ChildOf(n, b)
  {
    for i := 0 to 2
      invariant forall b :: 0 <= b < i ==> n.child.Kid(b) == kids.Kid(b)
      invariant forall b :: 0 <= b < i && kids.Kid(b) != null ==>
                  kids.Kid(b).parent == n && kids.Kid(b).link == ChildOf(n, b)
    {
      SetChild(n, i, kids.Kid(i));
    }
  }

  /** How a node's child pointers look after `*l = n`. */
  ghost function ChildrenAfter(x: Node, kids: Pair, l: Link, n: Node?): Pair {
    if l.ChildOf? && l.owner == x && l.slot < 2 then kids.With(l.slot, n) else kids
  }

  // ----- replacing a node

  /** The place of `orig`, seen from `orig` alone: its neighbours are distinct nodes. */
  ghost predicate Placed(orig: Node, repl: Node)
    reads orig`child, orig`link
  {
    var c0, c1, l := orig.child.Kid(0), orig.child.Kid(1), orig.link;
    && Slotted(l)
    && repl != orig && c0 != repl && c1 != repl && c0 != orig && c1 != orig
    && (c0 != null ==> c0 != c1)
    && (l.ChildOf? ==> l.owner != repl && l.owner != orig && l.owner != c0 && l.owner != c1)
  }

  /** `repl` has taken the place of `orig`; every other pointer is as it was. */
  ghost predicate ReplaceEffect(s: Snapshot, s': Snapshot, orig: Node, repl: Node) {
    && orig in s && repl !in s && s'.Keys == s.Keys + {repl}
    && s'[repl].child == s[orig].child && s'[repl].parent == s[orig].parent && s'[repl].link == s[orig].link
    && forall n {:trigger s'[n]} :: n in s ==>
         s'[n] == Ptrs(ChildrenAfter(n, s[n].child, s[orig].link, repl),
                       if n == s[orig].child.Kid(0) || n == s[orig].child.Kid(1) then repl else s[n].parent,
                       if n == s[orig].child.Kid(0) then ChildOf(repl, 0)
                       else if n == s[orig].child.Kid(1) then ChildOf(repl, 1) else s[n].link,
                       s[n].key)
  }

  method ReplacePointers(orig: Node, repl: Node)
    requires Placed(orig, repl) && Blank(repl)
    modifies repl`child, repl`parent, repl`link
    modifies Opt(orig.child.Kid(0))`parent, Opt(orig.child.Kid(0))`link
    modifies Opt(orig.child.Kid(1))`parent, Opt(orig.child.Kid(1))`link
    modifies AnchorOf(orig.link)`root, OwnerOf(orig.link)`child
    ensures repl.child == orig.child && repl.parent == orig.parent && repl.link == orig.link
    ensures forall b :: 0 <= b < 2 && orig.child.Kid(b) != null ==>
              orig.child.Kid(b).link == ChildOf(repl, b) && orig.child.Kid(b).parent == repl
    ensures orig.link.RootOf? ==> orig.link.anchor.root == repl
    ensures orig.link.ChildOf? ==> orig.link.owner.child == old(orig.link.owner.child).With(orig.link.slot, repl)
  {
    repl.link := orig.link;
    repl.parent := orig.parent;
    Adopt(repl, orig.child);
    Store(repl.link, repl);
  }

  method ReplaceNode(orig: Node, repl: Node, ghost region: set<Node>)
    requires Placed(orig, repl) && Blank(repl)
    requires orig in region && repl !in region
    requires Opt(orig.child.Kid(0)) + Opt(orig.child.Kid(1)) + OwnerOf(orig.link) <= region
    modifies region`child, region`parent, region`link, repl`child, repl`parent, repl`link
    modifies AnchorOf(orig.link)`root
    ensures ReplaceEffect(old(Snap(region)), Snap(region + {repl}), orig, repl)
    ensures repl.key == old(repl.key)
    ensures old(orig.link.RootOf?) ==> old(orig.link.anchor).root == repl
  {
    ReplacePointers(orig, repl);
  }

  // ----- hanging a node at an empty slot

  ghost predicate HangEffect(s: Snapshot, s': Snapshot, hand: Node, link: Link, parent: Node?) {
    && hand !in s && s'.Keys == s.Keys + {hand}
    && s'[hand].child == Pair(null, null) && s'[hand].parent == parent && s'[hand].link == link
    && forall n {:trigger s'[n]} :: n in s ==> s'[n] == s[n].(child := ChildrenAfter(n, s[n].child, link, hand))
  }

  method HangNode(hand: Node, link: Link, parent: Node?, ghost region: set<Node>)
    requires Slotted(link) && OwnerOf(link) <= region && hand !in region && hand.child == Pair(null, null)
    modifies region`child, hand`parent, hand`link, AnchorOf(link)`root
    ensures HangEffect(old(Snap(region)), Snap(region + {hand}), hand, link, parent)
    ensures link.RootOf? ==> link.anchor.root == hand
  {
    hand.link := link;
    Store(link, hand);
    hand.parent := parent;
  }

  // ----- swapping a parent with a child

  /** The neighbourhood of a parent and its child number `b`: six distinct places. */
  ghost predicate Paired(p: Node, c: Node, b: nat)
    requires b < 2
    reads p`child, p`link, c`child
  {
    var s, c0, c1, l := p.child.Kid(1 - b), c.child.Kid(0), c.child.Kid(1), p.link;
    && p.child.Kid(b) == c && p != c && Slotted(l)
    && s != p && s != c && c0 != p && c0 != c && c1 != p && c1 != c
    && (s != null ==> s != c0 && s != c1) && (c0 != null ==> c0 != c1)
    && (l.ChildOf? ==> l.owner != p && l.owner != c && l.owner != s && l.owner != c0 && l.owner != c1)
  }

  ghost predicate SwapEffect(s: Snapshot, s': Snapshot, p: Node, c: Node, b: nat)
    requires b < 2
  {
    && p in s && c in s && s'.Keys == s.Keys
    && s'[p] == Ptrs(s[c].child, c, ChildOf(c, b), s[p].key)
    && s'[c] == Ptrs(s[p].child.With(b, p), s[p].parent, s[p].link, s[c].key)
    && forall n {:trigger s'[n]} :: n in s && n != p && n != c ==>
         s'[n] == Ptrs(ChildrenAfter(n, s[n].child, s[p].link, c),
                       if n == s[p].child.Kid(1 - b) then c
                       else if n == s[c].child.Kid(0) || n == s[c].child.Kid(1) then p else s[n].parent,
                       if n == s[p].child.Kid(1 - b) then ChildOf(c, 1 - b)
                       else if n == s[c].child.Kid(0) then ChildOf(p, 0)
                       else if n == s[c].child.Kid(1) then ChildOf(p, 1) else s[n].link,
                       s[n].key)
  }

  method SwapPointers(oldParent: Node, oldChild: Node, ghost b: nat)
    requires b < 2 && Paired(oldParent, oldChild, b)
    modifies oldParent`child, oldParent`parent, oldParent`link, oldChild`child, oldChild`parent, oldChild`link
    modifies Opt(oldParent.child.Kid(1 - b))`parent, Opt(oldParent.child.Kid(1 - b))`link
    modifies Opt(oldChild.child.Kid(0))`parent, Opt(oldChild.child.Kid(0))`link
    modifies Opt(oldChild.child.Kid(1))`parent, Opt(oldChild.child.Kid(1))`link
    modifies AnchorOf(oldParent.link)`root, OwnerOf(oldParent.link)`child
    ensures oldParent.child == old(oldChild.child) && oldParent.parent == oldChild
    ensures oldParent.link == ChildOf(oldChild, b)
    ensures oldChild.child == old(oldParent.child).With(b, oldParent)
    ensures oldChild.parent == old(oldParent.parent) && oldChild.link == old(oldParent.link)
    ensures var s := old(oldParent.child.Kid(1 - b));
            s != null ==> s.parent == oldChild && s.link == ChildOf(oldChild, 1 - b)
    ensures var s := old(oldChild.child.Kid(0)); s != null ==> s.parent == oldParent && s.link == ChildOf(oldParent, 0)
    ensures var s := old(oldChild.child.Kid(1)); s != null ==> s.parent == oldParent && s.link == ChildOf(oldParent, 1)
    ensures old(oldParent.link.RootOf?) ==> old(oldParent.link.anchor).root == oldChild
    ensures old(oldParent.link.ChildOf?) ==>
              old(oldParent.link.owner).child == old(oldParent.link.owner.child.With(oldParent.link.slot, oldChild))
  {
    var childNumber := if oldParent.child.Kid(1) == oldChild then 1 else 0;
    var other := 1 - childNumber;
    var swapLink := oldParent.link;
    var grandchildren := oldChild.child;

    oldParent.link := ChildOf(oldChild, childNumber);
    oldChild.child := oldChild.child.With(childNumber, oldParent);

    SetChild(oldChild, other, oldParent.child.Kid(other));

    oldChild.link := swapLink;
    Store(oldChild.link, oldChild);

    var swapParent := oldParent.parent;
    oldParent.parent := oldChild;
    oldChild.parent := swapParent;

    Adopt(oldParent, grandchildren);
  }

  method SwapParentWithChild(p: Node, c: Node, ghost b: nat, ghost region: set<Node>)
    requires b < 2 && Paired(p, c, b)
    requires p in region && c in region && OwnerOf(p.link) <= region
    requires Opt(p.child.Kid(1 - b)) + Opt(c.child.Kid(0)) + Opt(c.child.Kid(1)) <= region
    modifies region`child, region`parent, region`link
    modifies AnchorOf(p.link)`root
    ensures SwapEffect(old(Snap(region)), Snap(region), p, c, b)
    ensures old(p.link.RootOf?) ==> old(p.link.anchor).root == c
  {
    SwapPointers(p, c, b);
  }

  // ----- cutting a leaf

  ghost predicate CutEffect(s: Snapshot, s': Snapshot, leaf: Node) {
    && leaf in s && s'.Keys == s.Keys
    && forall n {:trigger s'[n]} :: n in s && n != leaf ==>
         s'[n] == s[n].(child := ChildrenAfter(n, s[n].child, s[leaf].link, null))
  }

  method CutLeaf(leaf: Node, ghost region: set<Node>)
    requires leaf in region && Slotted(leaf.link) && OwnerOf(leaf.link) <= region - {leaf}
    modifies region`child, AnchorOf(leaf.link)`root
    ensures CutEffect(old(Snap(region)), Snap(region), leaf)
    ensures leaf.link.RootOf? ==> leaf.link.anchor.root == null
  {
    Store(leaf.link, null);
  }
}
