/** The address tracker: disjoint address ranges, indexed by an AVL tree on their starts. */
module AddrTracker {
  import opened Limits
  import opened AvlNodes
  import opened AvlTree

  /** The value of the low 64 bits of `x`, read as a signed number. */
  function Signed(x: int): int {
    if x % TWO_64 < TWO_63 then x % TWO_64 else x % TWO_64 - TWO_64
  }

  /** Comparison of two addresses by the sign of their difference in 64 bits. */
  function SignedCompare(a: nat, b: nat): int {
    var diff := Signed(Signed(a) - Signed(b));
    if diff < 0 then -1 else if diff > 0 then 1 else 0
  }

  /** The difference has the right sign exactly when it fits into 64 bits. */
  lemma SignedCompareExact(a: nat, b: nat)
    requires a < TWO_64 && b < TWO_64
    ensures ((SignedCompare(a, b) < 0 <==> a < b) && (SignedCompare(a, b) > 0 <==> a > b))
            <==> -0x8000_0000_0000_0000 <= a - b < 0x8000_0000_0000_0000
  {
    var x := Signed(a) - Signed(b);
    assert x == a - b || x == a - b - TWO_64 || x == a - b + TWO_64;
    assert Signed(x) == if a - b < -TWO_63 then a - b + TWO_64 else if a - b >= TWO_63 then a - b - TWO_64 else a - b;
  }

  lemma SignedCompareFar(a: nat, b: nat)
    requires b < TWO_63 <= a < TWO_64
    ensures SignedCompare(a, b) < 0 <==> a - b >= TWO_63
    ensures SignedCompare(a, b) > 0 <==> a - b < TWO_63
  {
  }

  lemma SignedCompareFails()
    ensures SignedCompare(0x8000_0000_0000_0000, 0) < 0
  {
  }

  /** In particular it orders everything below 2^63. */
  lemma SignedCompareOrders()
    ensures Orders(SignedCompare, TWO_63 - 1)
  {
    forall a: nat, b: nat | a <= TWO_63 - 1 && b <= TWO_63 - 1
      ensures (SignedCompare(a, b) < 0 <==> a < b) && (SignedCompare(a, b) > 0 <==> a > b)
    {
      SignedCompareExact(a, b);
    }
  }

  /** Comparison of an address with the range of a node. */
  function RangeCompare(addr: nat, range: Span): int {
    if addr >= range.addr && addr < (range.addr + range.size) % TWO_64 then 0
    else if addr < range.addr then -1 else 1
  }

  predicate Contains(range: Span, addr: nat) {
    range.addr <= addr < range.addr + range.size
  }

  predicate Overlaps(range: Span, lo: nat, afterHi: nat) {
    range.addr < afterHi && lo < range.addr + range.size
  }

  predicate Within(range: Span, lo: nat, afterHi: nat) {
    lo <= range.addr && range.addr + range.size <= afterHi
  }

  /** Nonempty ranges inside `[lo, afterHi)`, no two of which overlap. */
  ghost predicate Disjoint(nodes: set<Node>, lo: nat, afterHi: nat)
    reads nodes`key
  {
    && (forall n :: n in nodes ==> n.key.size > 0 && Within(n.key, lo, afterHi))
    && (forall m, n :: m in nodes && n in nodes && m != n ==>
          !Overlaps(m.key, n.key.addr, n.key.addr + n.key.size))
  }

  class Tracker {
    const tree: Tree
    const lo: nat
    const afterHi: nat

    ghost predicate Valid()
      reads this, tree, tree.anchor, tree.plan.place.Keys
    {
      && tree.Valid() && tree.compare == SignedCompare && tree.bound == TWO_63 - 1
      && lo < afterHi <= TWO_63
      && Disjoint(Tracked(), lo, afterHi)
    }

    ghost function Tracked(): set<Node>
      reads tree
    {
      tree.Nodes()
    }

    constructor (lo: nat, afterHi: nat)
      requires lo < afterHi <= TWO_63
      ensures Valid() && Tracked() == {} && this.lo == lo && this.afterHi == afterHi
      ensures fresh(tree) && fresh(tree.anchor)
    {
      SignedCompareOrders();
      tree := new Tree(SignedCompare, TWO_63 - 1);
      this.lo, this.afterHi := lo, afterHi;
    }

    /** Disjoint ranges lie in the order of their starts, so that the comparison with ranges
        leads a search the same way as the comparison of starts that built the tree. */
    lemma RangesInOrder(i: int, j: int)
      requires Valid() && 0 <= i < j < |tree.Order()|
      ensures var a, z := tree.Order()[i].key, tree.Order()[j].key;
              a.addr + a.size <= z.addr && a.size > 0 && z.size > 0 && z.addr + z.size <= TWO_63
    {
      var m, n := tree.Order()[i], tree.Order()[j];
      assert m.key.addr < n.key.addr;
    }

    lemma RangeCompareSteers(addr: nat)
      requires Valid()
      ensures Steers(tree.Order(), addr, RangeCompare)
    {
      hide Tree.Valid;
      forall i, j | 0 <= i < j < |tree.Order()|
        ensures RangeCompare(addr, tree.Order()[i].key) < 0 ==> RangeCompare(addr, tree.Order()[j].key) < 0
        ensures RangeCompare(addr, tree.Order()[j].key) > 0 ==> RangeCompare(addr, tree.Order()[i].key) > 0
      {
        RangesInOrder(i, j);
      }
    }

    /** The one tracked range that contains the address. */
    method FindNode(addr: nat) returns (r: Node?)
      requires Valid()
      ensures r != null ==> r in Tracked() && Contains(r.key, addr)
      ensures forall n :: n in Tracked() && Contains(n.key, addr) ==> n == r
    {
      hide Tree.Valid, Steers;
      RangeCompareSteers(addr);
      var node, _ := tree.FindWithNodeComparator(addr, RangeCompare);
      forall n | n in Tracked()
        ensures RangeCompare(addr, n.key) == 0 <==> Contains(n.key, addr)
      {
      }
      r := node;
    }

    /** No tracked range starts so far below `addr` that the difference overflows.  That holds
        of every address below 2^63. */
    ghost predicate Comparable(addr: nat)
      reads tree, tree.plan.place.Keys
    {
      addr < TWO_64 && forall n :: n in Tracked() ==> addr - n.key.addr < TWO_63
    }

    /** Then, and only then, is the address compared rightly with every tracked start. */
    lemma ComparableExact(addr: nat)
      requires Valid() && addr < TWO_64
      ensures Comparable(addr) <==> tree.Compares(addr)
    {
      hide Tree.Valid;
      forall n | n in Tracked()
        ensures n.key.addr < TWO_63
        ensures addr - n.key.addr < TWO_63 <==>
                  ((SignedCompare(addr, n.key.addr) < 0 <==> addr < n.key.addr)
                   && (SignedCompare(addr, n.key.addr) > 0 <==> addr > n.key.addr))
      {
        SignedCompareExact(addr, n.key.addr);
      }
    }

    /** A search for `addr` sets out from the root on the right side.  That, too, holds of
        every address below 2^63. */
    predicate Steered(addr: nat)
      reads tree.anchor, AvlNodes.Opt(tree.anchor.root)`key
    {
      tree.anchor.root == null || addr - tree.anchor.root.key.addr < TWO_63
    }

    /** Setting out rightly is enough: either all comparisons are right, or the address is
        larger than all starts and the search stays on the right. */
    lemma SteeredExact(addr: nat)
      requires Valid() && addr < TWO_64
      ensures Steered(addr) && addr < TWO_63 ==> tree.Compares(addr)
      ensures Steered(addr) && addr >= TWO_63 ==> tree.PastRoot(addr) || tree.anchor.root == null
      ensures !Steered(addr) ==> addr >= TWO_63 && tree.ShortOfRoot(addr)
    {
      hide Tree.Valid, SignedCompare, Tree.Compares;
      EndsBelow();
      if addr < TWO_63 {
        ComparableExact(addr);
      } else {
        forall n | n in tree.plan.place
          ensures tree.compare(addr, n.key.addr) < 0 <==> addr - n.key.addr >= TWO_63
          ensures tree.compare(addr, n.key.addr) > 0 <==> addr - n.key.addr < TWO_63
        {
          SignedCompareFar(addr, n.key.addr);
        }
      }
    }

    /** The lowest tracked range that lies within `[lo, afterHi)`, exactly if the search sets
        out rightly; otherwise some range that does not. */
    method FindFirstNodeInRange(lo: nat, afterHi: nat) returns (r: Node?)
      requires Valid() && lo < afterHi < TWO_64
      ensures r != null ==> r in Tracked()
      ensures Steered(lo) && r != null ==>
                && Within(r.key, lo, afterHi)
                && forall n :: n in Tracked() && Within(n.key, lo, afterHi) ==> r.key.addr <= n.key.addr
      ensures Steered(lo) && r == null ==> forall n :: n in Tracked() ==> !Within(n.key, lo, afterHi)
      ensures !Steered(lo) ==> r != null && !Within(r.key, lo, afterHi)
    {
      hide Tree.Valid, Tree.Compares, Tree.PastRoot, Tree.ShortOfRoot, Steered;
      var node, _ := tree.FindGEQ(lo);
      SteeredExact(lo);
      EndsBelow();
      r := node;
      if node == null || node.key.addr + node.key.size > afterHi {
        r := null;
      }
    }

    /** Whether no tracked range meets `[lo, afterHi)`, exactly if the search sets out rightly
        or none does; otherwise it claims so in vain. */
    method IsEmptyForRange(lo: nat, afterHi: nat) returns (empty: bool)
      requires Valid() && lo < afterHi < TWO_64
      ensures Steered(afterHi - 1) ==> (empty <==> forall n :: n in Tracked() ==> !Overlaps(n.key, lo, afterHi))
      ensures !Steered(afterHi - 1) ==> empty
    {
      hide Tree.Valid, Tree.Compares, Tree.PastRoot, Tree.ShortOfRoot, Steered, Disjoint;
      var hi := afterHi - 1;
      var node, _ := tree.FindLEQ(hi);
      SteeredExact(hi);
      empty := node == null || node.key.addr + node.key.size <= lo;
      if Steered(afterHi - 1) {
        LastBefore(node, lo, afterHi);
      }
    }

    /** No range before the last one that starts below `afterHi` reaches further than it. */
    lemma LastBefore(node: Node?, lo: nat, afterHi: nat)
      requires Valid() && lo < afterHi
      requires tree.anchor.root == null || GreatestBelow(Tracked(), afterHi - 1, node)
               || (afterHi > TWO_63 && tree.Greatest(node))
      requires node != null ==> node in Tracked()
      ensures (node == null || node.key.addr + node.key.size <= lo)
              <==> forall n :: n in Tracked() ==> !Overlaps(n.key, lo, afterHi)
    {
      hide Tree.Valid;
      EndsBelow();
    }

    lemma EndsBelow()
      requires Valid()
      ensures forall n :: n in Tracked() ==> n.key.size > 0 && n.key.addr + n.key.size <= TWO_63
      ensures if tree.anchor.root == null then Tracked() == {} else tree.anchor.root in Tracked()
      ensures forall m, n :: m in Tracked() && n in Tracked() && m.key.addr < n.key.addr ==>
                m.key.addr + m.key.size <= n.key.addr
    {
      tree.AtRoot();
    }

    /** The tracked range that comes next after that of `node`. */
    method NodeNext(node: Node) returns (r: Node?)
      requires Valid() && node in Tracked()
      ensures r != null ==> r in Tracked() && r.key.addr >= node.key.addr + node.key.size
      ensures forall n :: n in Tracked() && n.key.addr > node.key.addr ==> r != null && n.key.addr >= r.key.addr
    {
      hide Tree.Valid, Disjoint;
      r := tree.InOrderSuccessor(node);
      ghost var i := tree.Index(node);
      tree.Indexed(node);
      if i + 1 < |tree.Order()| {
        tree.KeyOrder(i, i + 1);
        RangesInOrder(i, i + 1);
      }
      forall n | n in Tracked() && n.key.addr > node.key.addr ensures r != null && n.key.addr >= r.key.addr {
        tree.Indexed(n);
        if tree.Index(n) <= i {
          tree.KeyOrder(tree.Index(n), i);
        } else {
          tree.KeyOrder(i + 1, tree.Index(n));
        }
      }
    }

    /** The next tracked range, if it starts below `startsBefore` and, on request, directly
        at the end of this one. */
    method NodeGetNextWithLimit(node: Node, startsBefore: nat, adjacentOnly: bool) returns (r: Node?)
      requires Valid() && node in Tracked()
      ensures r != null ==> r in Tracked() && node.key.addr < r.key.addr < startsBefore
      ensures r != null ==> forall n :: n in Tracked() && n.key.addr > node.key.addr ==> n.key.addr >= r.key.addr
      ensures r != null && adjacentOnly ==> r.key.addr == node.key.addr + node.key.size
      ensures r == null ==> forall n :: n in Tracked() && node.key.addr < n.key.addr < startsBefore ==>
                adjacentOnly && n.key.addr != node.key.addr + node.key.size
    {
      var next := NodeNext(node);
      r := next;
      if next == null || next.key.addr >= startsBefore
         || (adjacentOnly && next.key.addr != node.key.addr + node.key.size)
      {
        r := null;
      }
    }

    lemma DisjointWith(nodes: set<Node>, node: Node)
      requires Disjoint(nodes, lo, afterHi)
      requires node.key.size > 0 && Within(node.key, lo, afterHi)
      requires forall n :: n in nodes ==> !Overlaps(n.key, node.key.addr, node.key.addr + node.key.size)
      ensures Disjoint(nodes + {node}, lo, afterHi)
    {
    }

    method Forget(node: Node)
      requires Valid() && node !in Tracked()
      modifies node
      ensures Valid() && node.key == Span(0, 0)
    {
      hide Tree.Valid, Orders, Sorted;
      node.kids, node.parent := Kids(null, null), null;
      node.key, node.height, node.value := Span(0, 0), 0, null;
    }

    method Attach(node: Node, value: object?)
      requires Valid() && node !in Tracked()
      modifies node`value
      ensures Valid() && node.value == value
    {
      node.value := value;
    }

    method Track(node: Node, range: Span) returns (existing: Node?)
      requires Valid() && node !in Tracked() && range.addr < TWO_63
      modifies tree`plan, tree.anchor`root, node`kids, node`parent, node`key, node`height
      modifies tree.plan.place.Keys`kids, tree.plan.place.Keys`parent, tree.plan.place.Keys`height
      ensures tree.Valid() && node.key == range && (existing == null <==> node in Tracked())
      ensures existing != null ==>
                existing in Tracked() && existing.key.addr == range.addr && Tracked() == old(Tracked())
      ensures existing == null ==>
                && Tracked() == old(Tracked()) + {node}
                && forall n :: n in old(Tracked()) ==> old(n.key.addr) != range.addr
    {
      ghost var i;
      existing, i := tree.InsertOrReturnExisting(node, range);
    }

    /** A range is added, unless one with the same start is tracked already. */
    method RegisterNodeOrReturnExisting(node: Node, addr: nat, size: nat, value: object?) returns (existing: Node?)
      requires Valid() && node !in Tracked()
      requires size > 0 && addr >= lo && addr + size <= afterHi
      requires (exists n :: n in Tracked() && n.key.addr == addr)
               || (forall n :: n in Tracked() ==> !Overlaps(n.key, addr, addr + size))
      modifies tree`plan, tree.anchor`root, node
      modifies tree.plan.place.Keys`kids, tree.plan.place.Keys`parent, tree.plan.place.Keys`height
      ensures Valid()
      ensures existing != null ==>
                && existing in Tracked() && existing.key.addr == addr
                && Tracked() == old(Tracked()) && node.key == Span(0, 0)
      ensures existing == null ==>
                && Tracked() == old(Tracked()) + {node} && node.key == Span(addr, size) && node.value == value
                && forall n :: n in old(Tracked()) ==> n.key.addr != addr
    {
      hide Tree.Valid, Orders, Sorted;
      ghost var nodes := Tracked();
      Attach(node, value);
      existing := Track(node, Span(addr, size));
      if existing != null {
        Forget(node);
      } else {
        DisjointWith(nodes, node);
      }
    }

    method RegisterNode(node: Node, addr: nat, size: nat, value: object?)
      requires Valid() && node !in Tracked()
      requires size > 0 && addr >= lo && addr + size <= afterHi
      requires forall n :: n in Tracked() ==> !Overlaps(n.key, addr, addr + size)
      modifies tree`plan, tree.anchor`root, node
      modifies tree.plan.place.Keys`kids, tree.plan.place.Keys`parent, tree.plan.place.Keys`height
      ensures Valid() && Tracked() == old(Tracked()) + {node}
      ensures node.key == Span(addr, size) && node.value == value
    {
      hide Tree.Valid;
      var existing := RegisterNodeOrReturnExisting(node, addr, size, value);
      assert existing == null;
    }

    method UnregisterNode(node: Node)
      requires Valid() && node in Tracked()
      modifies tree`plan, tree.anchor`root
      modifies tree.plan.place.Keys`kids, tree.plan.place.Keys`parent, tree.plan.place.Keys`height
      ensures Valid() && Tracked() == old(Tracked()) - {node}
    {
      hide Tree.Valid;
      ghost var i := tree.Remove(node);
    }
  }
}
