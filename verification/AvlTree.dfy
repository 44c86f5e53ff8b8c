/** The intrusive AVL tree: searches, insertion and removal, all against the sequence of its
    nodes in key order. */
module AvlTree {
  import opened AvlNodes
  import opened AvlPlan
  import opened AvlBalance
  import opened AvlSplice
  import opened AvlRebalance
  import opened AvlSurgery
  import opened BitPaths

  // ----- the cost of a search

  function Fib(n: nat): nat {
    if n < 2 then n else Fib(n - 1) + Fib(n - 2)
  }

  lemma {:induction false} FibRises(m: nat, n: nat)
    requires m <= n
    ensures Fib(m) <= Fib(n)
  {
    if m < n {
      FibRises(m, n - 1);
    }
  }

  /** A subtree of height `h` holds at least Fib(h + 2) - 1 nodes. */
  lemma {:induction false} FibonacciSize(s: Snapshot, root: Node?, pl: Plan, n: Node)
    requires Follows(s, root, pl) && Balanced(s) && n in s
    ensures n in pl.place && s[n].height >= 1
    ensures pl.place[n].hi - pl.place[n].lo >= Fib(s[n].height + 2) - 1
    decreases if n in pl.place then pl.place[n].hi - pl.place[n].lo else 0
  {
    assert Wired(s, root, pl, n) && Even(s, n);
    var l, r := s[n].kids.left, s[n].kids.right;
    if l != null { FibonacciSize(s, root, pl, l); }
    if r != null { FibonacciSize(s, root, pl, r); }
    var low := if HeightIn(s, l) < HeightIn(s, r) then HeightIn(s, l) else HeightIn(s, r);
    FibRises(s[n].height, low + 2);
  }

  lemma {:induction false} FibonacciDoubles(h: nat)
    ensures Fib(h + 2) >= Pow2(h / 2)
  {
    if h >= 2 {
      FibonacciDoubles(h - 2);
      FibRises(h, h + 1);
    }
  }

  // ----- key order

  /** The comparison function orders the keys up to `bound` like numbers. */
  ghost predicate Orders(compare: (nat, nat) -> int, bound: nat) {
    forall a: nat, b: nat :: a <= bound && b <= bound ==>
      (compare(a, b) < 0 <==> a < b) && (compare(a, b) > 0 <==> a > b)
  }

  ghost predicate Sorted(order: seq<Node>, bound: nat)
    reads order`key
  {
    && (forall i :: 0 <= i < |order| ==> order[i].key.addr <= bound)
    && (forall i, j :: 0 <= i < j < |order| ==> order[i].key.addr < order[j].key.addr)
  }

  /** A search for `key` by `comparator` may go left and right in this order: nodes that
      compare above the key come after those that compare equal, these after those below. */
  ghost predicate Steers(order: seq<Node>, key: nat, comparator: (nat, Span) -> int)
    reads order`key
  {
    forall i, j :: 0 <= i < j < |order| ==>
      && (comparator(key, order[i].key) < 0 ==> comparator(key, order[j].key) < 0)
      && (comparator(key, order[j].key) > 0 ==> comparator(key, order[i].key) > 0)
  }

  /** A comparison of keys, as a comparison of a key with a node. */
  function ByKey(comparator: (nat, nat) -> int): (nat, Span) -> int {
    (key: nat, span: Span) => comparator(key, span.addr)
  }

  /** `r` is the node with the least key not below `key`. */
  ghost predicate LeastAbove(nodes: set<Node>, key: nat, r: Node?)
    reads nodes`key
  {
    if r == null then forall n :: n in nodes ==> n.key.addr < key
    else r in nodes && r.key.addr >= key && forall n :: n in nodes && n.key.addr >= key ==> n.key.addr >= r.key.addr
  }

  /** `r` is the node with the greatest key not above `key`. */
  ghost predicate GreatestBelow(nodes: set<Node>, key: nat, r: Node?)
    reads nodes`key
  {
    if r == null then forall n :: n in nodes ==> n.key.addr > key
    else r in nodes && r.key.addr <= key && forall n :: n in nodes && n.key.addr <= key ==> n.key.addr <= r.key.addr
  }

  function GetChild(n: Node, compare: int): Node?
    requires compare != 0
    reads n`kids
  {
    if 0 > compare then n.kids.left else n.kids.right
  }

  class Tree {
    const anchor: Anchor
    const compare: (nat, nat) -> int
    ghost const bound: nat
    ghost var plan: Plan

    ghost function Order(): seq<Node>
      reads this
    {
      plan.order
    }

    ghost function Nodes(): set<Node>
      reads this
    {
      plan.place.Keys
    }

    ghost predicate Valid()
      reads this, anchor, plan.place.Keys
    {
      && Orders(compare, bound)
      && Hung(anchor, plan)
      && Balanced(Snap(plan.place.Keys))
      && (forall i :: 0 <= i < |plan.order| ==> plan.order[i] in plan.place)
      && Sorted(plan.order, bound)
    }

    constructor (compare: (nat, nat) -> int, ghost bound: nat)
      requires Orders(compare, bound)
      ensures Valid() && Order() == [] && this.compare == compare && this.bound == bound
      ensures fresh(anchor)
    {
      anchor := new Anchor();
      this.compare := compare;
      this.bound := bound;
      plan := Plan([], map[]);
    }

    /** The position of a node in key order. */
    ghost function Index(n: Node): int
      requires n in Nodes()
      reads this
    {
      plan.place[n].at
    }

    lemma Indexed(n: Node)
      requires Valid() && n in Nodes()
      ensures 0 <= Index(n) < |Order()| && Order()[Index(n)] == n
    {
      assert plan.Seated(n);
    }

    lemma KeyOrder(i: int, j: int)
      requires Valid() && 0 <= i <= j < |Order()|
      ensures Order()[i] in Nodes() && Order()[j] in Nodes()
      ensures i < j ==> Order()[i].key.addr < Order()[j].key.addr
    {
    }

    // ----- searching

    /** One step down. */
    lemma Below(n: Node, side: nat)
      requires Valid() && n in plan.place && side < 2
      ensures 0 <= plan.place[n].at < |plan.order| && plan.order[plan.place[n].at] == n
      ensures var c := n.kids.Kid(side);
              if c == null then plan.Lo(n, side) == plan.Hi(n, side)
              else c in plan.place && plan.place[c].lo == plan.Lo(n, side) && plan.place[c].hi == plan.Hi(n, side)
      ensures 0 <= GetHeight(n.kids.Kid(side)) < n.height
    {
      var s := Snap(plan.place.Keys);
      assert Wired(s, anchor.root, plan, n) && Even(s, n) && plan.Seated(n);
      HeapHeights(anchor, plan, n);
    }

    /** A node splits its stretch of the order, smaller keys before and larger ones behind. */
    lemma Middle(n: Node)
      requires Valid() && n in plan.place
      ensures 0 <= plan.place[n].lo <= plan.place[n].at < plan.place[n].hi <= |plan.order|
      ensures forall i :: 0 <= i < plan.place[n].at ==> plan.order[i].key.addr < n.key.addr
      ensures forall i :: plan.place[n].at < i < |plan.order| ==> plan.order[i].key.addr > n.key.addr
    {
      hide Balanced, Orders;
      Above(n);
      Below(n, 0);
    }

    /** One step up: the stretch of a node is one side of its parent's. */
    lemma Above(n: Node)
      requires Valid() && n in plan.place
      ensures 0 <= plan.place[n].lo <= plan.place[n].at < plan.place[n].hi <= |plan.order|
      ensures var p := n.parent;
              if p == null then plan.place[n].lo == 0 && plan.place[n].hi == |plan.order|
              else p in plan.place && (p.kids.left == n || p.kids.right == n)
                   && plan.place[p].lo <= plan.place[n].lo && plan.place[n].hi <= plan.place[p].hi
                   && (if p.kids.left == n
                       then plan.place[n].hi == plan.place[p].at && plan.place[n].lo == plan.place[p].lo
                       else plan.place[n].lo == plan.place[p].at + 1 && plan.place[n].hi == plan.place[p].hi)
      ensures n.parent != null && n.parent.kids.right == n ==> n.parent.kids.left != n
    {
      var s := Snap(plan.place.Keys);
      assert Wired(s, anchor.root, plan, n);
      if n.parent != null { assert Wired(s, anchor.root, plan, n.parent); }
    }

    lemma AtRoot()
      requires Valid()
      ensures if anchor.root == null then Order() == []
              else anchor.root in plan.place && plan.place[anchor.root].lo == 0
                   && plan.place[anchor.root].hi == |Order()|
      ensures GetHeight(anchor.root) >= 0
    {
      if anchor.root != null { Below(anchor.root, 0); }
    }

    /** The height, and with it the number of steps of a search, is logarithmic in the
        number of nodes. */
    lemma HeightIsLogarithmic()
      requires Valid()
      ensures GetHeight(anchor.root) >= 0
      ensures Fib(GetHeight(anchor.root) + 2) <= |Order()| + 1
      ensures Pow2(GetHeight(anchor.root) / 2) <= |Order()| + 1
    {
      AtRoot();
      if anchor.root != null {
        FibonacciSize(Snap(plan.place.Keys), anchor.root, plan, anchor.root);
      }
      FibonacciDoubles(GetHeight(anchor.root));
    }

    method FindWithNodeComparator(key: nat, comparator: (nat, Span) -> int) returns (r: Node?, ghost steps: nat)
      requires Valid() && Steers(Order(), key, comparator)
      ensures r != null ==> r in Nodes() && comparator(key, r.key) == 0
      ensures r == null ==> forall n :: n in Nodes() ==> comparator(key, n.key) != 0
      ensures steps <= GetHeight(anchor.root)
    {
      hide Follows, Balanced, Orders, Sorted;
      AtRoot();
      var node := anchor.root;
      steps := 0;
      ghost var lo, hi := 0, |Order()|;
      while node != null
        invariant 0 <= lo <= hi <= |Order()|
        invariant node != null ==> node in plan.place && plan.place[node].lo == lo && plan.place[node].hi == hi
        invariant node == null ==> lo == hi
        invariant forall i :: 0 <= i < lo ==> comparator(key, Order()[i].key) > 0
        invariant forall i :: hi <= i < |Order()| ==> comparator(key, Order()[i].key) < 0
        invariant GetHeight(node) >= 0 && steps + GetHeight(node) <= GetHeight(anchor.root)
        decreases hi - lo, node != null
      {
        var compare := comparator(key, node.key);
        Below(node, 0);
        Below(node, 1);
        Middle(node);
        steps := steps + 1;
        if compare == 0 {
          return node, steps;
        }
        if compare < 0 { hi := plan.place[node].at; } else { lo := plan.place[node].at + 1; }
        node := GetChild(node, compare);
      }
      forall n | n in Nodes() ensures comparator(key, n.key) != 0 {
        Indexed(n);
      }
      return null, steps;
    }

    method FindWithComparator(key: nat, comparator: (nat, nat) -> int) returns (r: Node?, ghost steps: nat)
      requires Valid() && Steers(Order(), key, ByKey(comparator))
      ensures r != null ==> r in Nodes() && comparator(key, r.key.addr) == 0
      ensures r == null ==> forall n :: n in Nodes() ==> comparator(key, n.key.addr) != 0
      ensures steps <= GetHeight(anchor.root)
    {
      r, steps := FindWithNodeComparator(key, ByKey(comparator));
      assert forall n :: n in Nodes() ==> ByKey(comparator)(key, n.key) == comparator(key, n.key.addr);
    }

    /** The node with exactly this key. */
    method Find(key: nat) returns (r: Node?, ghost steps: nat)
      requires Valid() && key <= bound
      ensures r != null ==> r in Nodes() && r.key.addr == key
      ensures r == null ==> forall n :: n in Nodes() ==> n.key.addr != key
      ensures steps <= GetHeight(anchor.root)
    {
      r, steps := FindWithComparator(key, compare);
      if r != null { Indexed(r); }
    }

    /** The comparison of `key` with the stored keys has the right signs. */
    ghost predicate Compares(key: nat)
      reads this`plan, plan.place.Keys`key
    {
      forall n :: n in plan.place ==>
        (compare(key, n.key.addr) < 0 <==> key < n.key.addr) && (compare(key, n.key.addr) > 0 <==> key > n.key.addr)
    }

    /** `key` compares as larger than the root and everything behind it, whatever it is. */
    ghost predicate PastRoot(key: nat)
      reads this`plan, anchor`root, plan.place.Keys`key, Opt(anchor.root)`key
    {
      && anchor.root != null && compare(key, anchor.root.key.addr) > 0
      && forall n :: n in plan.place && n.key.addr >= anchor.root.key.addr ==> compare(key, n.key.addr) > 0
    }

    /** `key` compares as smaller than the root and everything before it, whatever it is. */
    ghost predicate ShortOfRoot(key: nat)
      reads this`plan, anchor`root, plan.place.Keys`key, Opt(anchor.root)`key
    {
      && anchor.root != null && compare(key, anchor.root.key.addr) < 0
      && forall n :: n in plan.place && n.key.addr <= anchor.root.key.addr ==> compare(key, n.key.addr) < 0
    }

    /** Where the keys below `key` end and those above begin are its two neighbours. */
    lemma GapFound(i: nat, key: nat, best: Node?, side: nat)
      requires Valid() && i <= |Order()|
      requires forall k :: 0 <= k < i ==> Order()[k].key.addr < key
      requires forall k :: i <= k < |Order()| ==> Order()[k].key.addr > key
      ensures side == 0 && (if i == |Order()| then best == null else best == Order()[i]) ==>
                LeastAbove(Nodes(), key, best)
      ensures side == 1 && (if i == 0 then best == null else best == Order()[i - 1]) ==>
                GreatestBelow(Nodes(), key, best)
      ensures forall n :: n in Nodes() ==> n.key.addr != key
    {
      hide Follows, Balanced, Orders;
      forall n | n in Nodes() ensures 0 <= Index(n) < |Order()| && Order()[Index(n)] == n {
        Indexed(n);
      }
    }

    /** Where a search for `key` stands: its stretch of the order is `lo..hi`, and what lies
        outside is known as far as the comparison is right, or always points the same way. */
    ghost predicate Searching(key: nat, node: Node?, lo: int, hi: int)
      requires Valid()
      reads this, anchor, plan.place.Keys
    {
      && 0 <= lo <= hi <= |Order()| && (node == null ==> lo == hi)
      && (node != null ==> node in plan.place && plan.place[node].lo == lo && plan.place[node].hi == hi)
      && (Compares(key) ==>
            && (forall i :: 0 <= i < lo ==> Order()[i].key.addr < key)
            && (forall i :: hi <= i < |Order()| ==> Order()[i].key.addr > key))
      && (anchor.root != null ==> anchor.root in plan.place)
      && (PastRoot(key) ==> hi == |Order()| && (node == anchor.root || lo > plan.place[anchor.root].at))
      && (ShortOfRoot(key) ==> lo == 0 && (node == anchor.root || hi <= plan.place[anchor.root].at))
    }

    lemma SearchStarts(key: nat)
      requires Valid()
      ensures Searching(key, anchor.root, 0, |Order()|)
    {
      hide Follows, Balanced, Orders, Sorted, Compares;
      AtRoot();
    }

    lemma SearchStep(key: nat, node: Node, lo: int, hi: int)
      requires Valid() && Searching(key, node, lo, hi)
      ensures var at, c := plan.place[node].at, compare(key, node.key.addr);
              && lo <= at < hi && Order()[at] == node
              && (c < 0 ==> !PastRoot(key) && Searching(key, node.kids.left, lo, at))
              && (c > 0 ==> !ShortOfRoot(key) && Searching(key, node.kids.right, at + 1, hi))
              && (c == 0 ==> !PastRoot(key) && !ShortOfRoot(key) && (Compares(key) ==> node.key.addr == key))
    {
      hide Follows, Balanced, Orders, Sorted;
      Below(node, 0);
      Below(node, 1);
      Middle(node);
      AtRoot();
      BehindRoot(node);
    }

    /** The node at or behind the root in the order has at least its key, and the other way. */
    lemma BehindRoot(n: Node)
      requires Valid() && anchor.root != null && anchor.root in plan.place && n in plan.place
      ensures plan.place[n].at >= plan.place[anchor.root].at ==> n.key.addr >= anchor.root.key.addr
      ensures plan.place[n].at <= plan.place[anchor.root].at ==> n.key.addr <= anchor.root.key.addr
    {
      hide Follows, Balanced, Orders, Sorted;
      Below(n, 0);
      Below(anchor.root, 0);
      Middle(anchor.root);
    }

    /** At the end of a search the neighbours of the gap are the answers. */
    lemma SearchEnds(key: nat, lo: int, hi: int, best: Node?, side: nat)
      requires Valid() && Searching(key, null, lo, hi)
      requires if side == 0 then (if hi == |Order()| then best == null else best == Order()[hi])
               else (if lo == 0 then best == null else best == Order()[lo - 1])
      ensures side == 0 && Compares(key) ==> LeastAbove(Nodes(), key, best)
      ensures side == 0 && PastRoot(key) ==> best == null
      ensures best != null ==> best in Nodes()
      ensures side == 0 && ShortOfRoot(key) ==> best != null
      ensures side == 1 && Compares(key) ==> GreatestBelow(Nodes(), key, best)
      ensures side == 1 && PastRoot(key) ==> Greatest(best)
      ensures side == 1 && ShortOfRoot(key) ==> best == null
    {
      hide Follows, Balanced, Orders, Sorted, Compares;
      AtRoot();
      if anchor.root != null { Middle(anchor.root); }
      if Compares(key) {
        GapFound(lo, key, best, if side == 0 then 0 else 1);
      }
      if PastRoot(key) {
        LastIsGreatest();
      }
    }

    lemma Hit(key: nat, node: Node)
      requires Valid() && node in plan.place && (Compares(key) ==> node.key.addr == key)
      ensures Compares(key) ==> LeastAbove(Nodes(), key, node) && GreatestBelow(Nodes(), key, node)
    {
      hide Follows, Balanced, Orders, Sorted, Compares;
    }

    /** The node with the greatest key of all. */
    ghost predicate Greatest(r: Node?)
      reads this`plan, plan.place.Keys`key
    {
      r != null && r in plan.place && forall n :: n in plan.place ==> n.key.addr <= r.key.addr
    }

    lemma LastIsGreatest()
      requires Valid() && |Order()| > 0
      ensures Greatest(Order()[|Order()| - 1])
    {
      hide Follows, Balanced, Orders;
      forall n | n in plan.place ensures n.key.addr <= Order()[|Order()| - 1].key.addr {
        Indexed(n);
        if Index(n) < |Order()| - 1 { KeyOrder(Index(n), |Order()| - 1); }
      }
    }

    /** The node with the least key at or above `key`, if `key` compares rightly.  If it always
        compares the same way as with the root, the search runs off on that side. */
    method FindGEQ(key: nat) returns (r: Node?, ghost steps: nat)
      requires Valid()
      ensures Compares(key) ==> LeastAbove(Nodes(), key, r)
      ensures r != null ==> r in Nodes()
      ensures PastRoot(key) ==> r == null
      ensures ShortOfRoot(key) ==> r != null
      ensures steps <= GetHeight(anchor.root)
    {
      hide Follows, Balanced, Orders, Sorted, Compares, PastRoot, ShortOfRoot, Searching;
      AtRoot();
      SearchStarts(key);
      var node := anchor.root;
      var best: Node? := null;
      steps := 0;
      ghost var lo, hi := 0, |Order()|;
      while node != null
        invariant Searching(key, node, lo, hi) && 0 <= lo <= hi <= |Order()|
        invariant node != null ==> node in plan.place && plan.place[node].lo == lo && plan.place[node].hi == hi
        invariant if hi == |Order()| then best == null else best == Order()[hi]
        invariant GetHeight(node) >= 0 && steps + GetHeight(node) <= GetHeight(anchor.root)
        decreases hi - lo, node != null
      {
        Below(node, 0);
        Below(node, 1);
        var c := compare(key, node.key.addr);
        SearchStep(key, node, lo, hi);
        steps := steps + 1;
        if 0 >= c {
          best := node;
        }
        if 0 == c {
          Hit(key, node);
          return node, steps;
        }
        if c < 0 { hi := plan.place[node].at; } else { lo := plan.place[node].at + 1; }
        node := GetChild(node, c);
      }
      SearchEnds(key, lo, hi, best, 0);
      return best, steps;
    }

    method FindLEQ(key: nat) returns (r: Node?, ghost steps: nat)
      requires Valid()
      ensures Compares(key) ==> GreatestBelow(Nodes(), key, r)
      ensures r != null ==> r in Nodes()
      ensures PastRoot(key) ==> Greatest(r)
      ensures ShortOfRoot(key) ==> r == null
      ensures steps <= GetHeight(anchor.root)
    {
      hide Follows, Balanced, Orders, Sorted, Compares, PastRoot, ShortOfRoot, Searching;
      AtRoot();
      SearchStarts(key);
      var node := anchor.root;
      var best: Node? := null;
      steps := 0;
      ghost var lo, hi := 0, |Order()|;
      while node != null
        invariant Searching(key, node, lo, hi) && 0 <= lo <= hi <= |Order()|
        invariant node != null ==> node in plan.place && plan.place[node].lo == lo && plan.place[node].hi == hi
        invariant if lo == 0 then best == null else best == Order()[lo - 1]
        invariant GetHeight(node) >= 0 && steps + GetHeight(node) <= GetHeight(anchor.root)
        decreases hi - lo, node != null
      {
        Below(node, 0);
        Below(node, 1);
        var c := compare(key, node.key.addr);
        SearchStep(key, node, lo, hi);
        steps := steps + 1;
        if 0 <= c {
          best := node;
        }
        if 0 == c {
          Hit(key, node);
          return node, steps;
        }
        if c < 0 { hi := plan.place[node].at; } else { lo := plan.place[node].at + 1; }
        node := GetChild(node, c);
      }
      SearchEnds(key, lo, hi, best, 1);
      return best, steps;
    }

    // ----- neighbours

    method InOrderSuccessor(node: Node) returns (r: Node?)
      requires Valid() && node in Nodes()
      ensures var i := Index(node); i >= 0 && if i + 1 < |Order()| then r == Order()[i + 1] else r == null
    {
      ghost var at := plan.place[node].at;
      Below(node, 1);
      if node.kids.right != null {
        var successor := node.kids.right;
        while successor.kids.left != null
          invariant successor in plan.place && plan.place[successor].lo == at + 1
          decreases plan.place[successor].hi - plan.place[successor].lo
        {
          Below(successor, 0);
          successor := successor.kids.left;
        }
        Below(successor, 0);
        return successor;
      } else if node.parent != null {
        var successor: Node? := node;
        while successor != null
          invariant successor != null ==> successor in plan.place && plan.place[successor].hi == at + 1
          invariant successor == null ==> at + 1 == |Order()|
          decreases if successor == null then 0
                    else |Order()| - (plan.place[successor].hi - plan.place[successor].lo) + 1
        {
          Above(successor);
          if successor.parent != null {
            Below(successor.parent, 0);
            if successor.parent.kids.left == successor {
              return successor.parent;
            }
          }
          successor := successor.parent;
        }
      } else {
        Above(node);
      }
      return null;
    }

    method InOrderPredecessor(node: Node) returns (r: Node?)
      requires Valid() && node in Nodes()
      ensures var i := Index(node); i < |Order()| && if i > 0 then r == Order()[i - 1] else r == null
    {
      ghost var at := plan.place[node].at;
      Below(node, 0);
      if node.kids.left != null {
        var predecessor := node.kids.left;
        while predecessor.kids.right != null
          invariant predecessor in plan.place && plan.place[predecessor].hi == at
          decreases plan.place[predecessor].hi - plan.place[predecessor].lo
        {
          Below(predecessor, 1);
          predecessor := predecessor.kids.right;
        }
        Below(predecessor, 1);
        return predecessor;
      } else if node.parent != null {
        var predecessor: Node? := node;
        while predecessor != null
          invariant predecessor != null ==> predecessor in plan.place && plan.place[predecessor].lo == at
          invariant predecessor == null ==> at == 0
          decreases if predecessor == null then 0
                    else |Order()| - (plan.place[predecessor].hi - plan.place[predecessor].lo) + 1
        {
          Above(predecessor);
          if predecessor.parent != null {
            Below(predecessor.parent, 1);
            if predecessor.parent.kids.right == predecessor {
              return predecessor.parent;
            }
          }
          predecessor := predecessor.parent;
        }
      } else {
        Above(node);
      }
      return null;
    }

    // ----- insertion and removal


    /** The node below which `key` belongs, and on which side, unless the key is taken. */
    method Descend(key: nat) returns (existing: Node?, parent: Node?, side: nat, ghost i: nat)
      requires Valid() && key <= bound
      ensures existing != null ==> existing in Nodes() && existing.key.addr == key
      ensures existing == null ==>
                && side < 2 && (parent == null ==> anchor.root == null)
                && (parent != null ==> parent in plan.place && parent.kids.Kid(side) == null)
                && i == SlotAt(plan, parent, side) && i <= |Order()|
                && (forall k :: 0 <= k < i ==> Order()[k].key.addr < key)
                && (forall k :: i <= k < |Order()| ==> Order()[k].key.addr > key)
    {
      AtRoot();
      parent, side := anchor.root, 0;
      ghost var lo, hi := 0, |Order()|;
      i := 0;
      while parent != null
        invariant 0 <= lo <= hi <= |Order()|
        invariant parent == null ==> anchor.root == null && Order() == [] && i == 0 && side == 0
        invariant parent != null ==> parent in plan.place && plan.place[parent].lo == lo && plan.place[parent].hi == hi
        invariant forall k :: 0 <= k < lo ==> Order()[k].key.addr < key
        invariant forall k :: hi <= k < |Order()| ==> Order()[k].key.addr > key
        decreases hi - lo
      {
        Below(parent, 0);
        Below(parent, 1);
        var c := compare(key, parent.key.addr);
        if 0 == c {
          return parent, parent, 0, 0;
        }
        side := if 0 > c then 0 else 1;
        if c < 0 { hi := plan.place[parent].at; } else { lo := plan.place[parent].at + 1; }
        if parent.kids.Kid(side) == null {
          i := lo;
          break;
        }
        parent := parent.kids.Kid(side);
      }
      existing := null;
    }

    lemma Inserted(order: seq<Node>, i: nat, node: Node)
      requires Sorted(order, bound) && i <= |order| && node.key.addr <= bound
      requires forall k :: 0 <= k < i ==> order[k].key.addr < node.key.addr
      requires forall k :: i <= k < |order| ==> order[k].key.addr > node.key.addr
      ensures Sorted(With(order, i, node), bound)
    {
      var order' := With(order, i, node);
      forall j | 0 <= j < |order'|
        ensures order'[j] == if j < i then order[j] else if j == i then node else order[j - 1]
      {
      }
    }

    lemma Dropped(order: seq<Node>, i: nat)
      requires Sorted(order, bound) && i < |order|
      ensures Sorted(Without(order, i), bound)
    {
    }

    method Clear(node: Node, key: Span)
      requires Valid() && node !in plan.place
      modifies node`kids, node`parent, node`key, node`height
      ensures Valid() && node.kids == Kids(null, null) && node.parent == null && node.key == key && node.height == 1
    {
      node.kids, node.parent := Kids(null, null), null;
      node.key, node.height := key, 1;
    }

    method Add(node: Node, parent: Node?, side: nat, ghost i: nat)
      requires Valid() && node !in plan.place && side < 2 && node.key.addr <= bound
      requires node.kids == Kids(null, null) && node.height == 1
      requires if parent == null then anchor.root == null else parent in plan.place && parent.kids.Kid(side) == null
      requires i == SlotAt(plan, parent, side) && i <= |Order()|
      requires forall k :: 0 <= k < i ==> Order()[k].key.addr < node.key.addr
      requires forall k :: i <= k < |Order()| ==> Order()[k].key.addr > node.key.addr
      modifies `plan, anchor`root, node`kids, node`parent, node`height
      modifies plan.place.Keys`kids, plan.place.Keys`parent, plan.place.Keys`height
      ensures Valid() && Order() == With(old(Order()), i, node)
      ensures Nodes() == old(Nodes()) + {node}
    {
      hide Follows, Balanced, Sorted, Orders;
      ghost var order := plan.order;
      plan := LinkUp(anchor, parent, side, node, plan);
      Inserted(order, i, node);
    }

    /** An equal key leaves the tree as it is and its node is returned; otherwise the node is
        added at the one place that keeps the key order. */
    method InsertOrReturnExisting(node: Node, key: Span) returns (existing: Node?, ghost i: nat)
      requires Valid() && node !in Nodes() && key.addr <= bound
      modifies `plan, anchor`root, node`kids, node`parent, node`key, node`height
      modifies plan.place.Keys`kids, plan.place.Keys`parent, plan.place.Keys`height
      ensures Valid() && node.key == key
      ensures existing != null ==>
                && existing in Nodes() && existing.key.addr == key.addr && plan == old(plan)
                && anchor.root == old(anchor.root) && forall n :: n in Nodes() ==> unchanged(n)
      ensures existing == null ==>
                && i <= |old(Order())| && Order() == With(old(Order()), i, node)
                && Nodes() == old(Nodes()) + {node}
                && forall n :: n in old(Nodes()) ==> old(n.key.addr) != key.addr
    {
      hide Follows, Balanced, Sorted, Orders;
      Clear(node, key);
      var parent, side;
      existing, parent, side, i := Descend(key.addr);
      if existing == null {
        GapFound(i, key.addr, null, 0);
        Add(node, parent, side, i);
      }
    }

    /** Exactly the given node leaves; all others keep their identity, key and order. */
    method Remove(node: Node) returns (ghost i: nat)
      requires Valid() && node in Nodes()
      modifies `plan, anchor`root
      modifies plan.place.Keys`kids, plan.place.Keys`parent, plan.place.Keys`height
      ensures Valid() && Nodes() == old(Nodes()) - {node}
      ensures i < |old(Order())| && old(Order())[i] == node && Order() == Without(old(Order()), i)
      ensures node.kids == Kids(null, null) && node.parent == null
    {
      hide Follows, Balanced, Orders, Sorted;
      Below(node, 0);
      i := plan.place[node].at;
      ghost var order := plan.order;
      plan := TakeOut(anchor, node, plan);
      Dropped(order, i);
    }
  }
}
