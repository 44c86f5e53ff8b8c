/** The best-fit allocator over one reserved range: a doubly linked list of all blocks in
    address order, and a radix tree of the free ones by size. */
module BlockHeap {
  import opened BitPaths
  import opened RadixNodes
  import opened RadixTree
  import opened BlockLayout

  class Block {
    var startAddr: nat
    var size: nat
    var isFree: bool
    var addrNext: Block?
    var addrPrev: Block?
    const radixNode: Node

    constructor (startAddr: nat, size: nat)
      ensures this.startAddr == startAddr && this.size == size && isFree
      ensures addrNext == null && addrPrev == null
      ensures fresh(radixNode) && radixNode.container == this
    {
      this.startAddr, this.size, isFree := startAddr, size, true;
      addrNext, addrPrev := null, null;
      radixNode := new Node();
      new;
      radixNode.container := this;
    }
  }

  // ----- the list

  ghost function At(s: seq<Block>, i: int): Block? {
    if 0 <= i < |s| then s[i] else null
  }

  ghost function Sole(b: Block?): set<Block> {
    if b == null then {} else {b}
  }

  ghost predicate Chain(head: Block?, s: seq<Block>)
    reads s`addrNext, s`addrPrev
  {
    && head == At(s, 0)
    && (forall i {:trigger s[i].addrNext} :: 0 <= i < |s| ==> s[i].addrNext == At(s, i + 1))
    && (forall i {:trigger s[i].addrPrev} :: 0 <= i < |s| ==> s[i].addrPrev == At(s, i - 1))
    && (forall i, j :: 0 <= i < j < |s| ==> s[i] != s[j])
  }

  ghost function Put(s: seq<Block>, i: int, b: Block): seq<Block>
    requires 0 <= i <= |s|
  {
    s[..i] + [b] + s[i..]
  }

  ghost function Drop(s: seq<Block>, i: int): seq<Block>
    requires 0 <= i < |s|
  {
    s[..i] + s[i + 1..]
  }

  lemma PutMembers(s: seq<Block>, i: int, b: Block)
    requires 0 <= i <= |s|
    ensures forall c :: c in Put(s, i, b) <==> c == b || c in s
  {
    assert s == s[..i] + s[i..];
  }

  lemma DropMembers(s: seq<Block>, i: int)
    requires 0 <= i < |s| && forall j, k :: 0 <= j < k < |s| ==> s[j] != s[k]
    ensures forall c :: c in Drop(s, i) <==> c != s[i] && c in s
  {
    assert s == s[..i] + [s[i]] + s[i + 1..];
  }

  /** Blocks and their tree nodes are among the objects of `region`. */
  ghost predicate Within(s: seq<Block>, region: set<object>) {
    forall i {:trigger s[i]} :: 0 <= i < |s| ==> s[i] in region && s[i].radixNode in region
  }

  lemma PutWithin(s: seq<Block>, i: int, b: Block, region: set<object>)
    requires Within(s, region) && 0 <= i <= |s|
    ensures Within(Put(s, i, b), region + {b, b.radixNode})
  {
    PutMembers(s, i, b);
  }

  lemma FewerWithin(s: seq<Block>, s': seq<Block>, region: set<object>)
    requires Within(s, region) && forall b :: b in s' ==> b in s
    ensures Within(s', region)
  {
    forall i | 0 <= i < |s'| ensures s'[i] in region && s'[i].radixNode in region {
      assert s'[i] in s';
    }
  }

  /** The blocks of a list, seen from outside. */
  ghost function ViewOf(s: seq<Block>): (l: Layout)
    reads s`startAddr, s`size, s`isFree
    ensures |l| == |s|
    ensures forall i {:trigger l[i]} :: 0 <= i < |s| ==> l[i] == Extent(s[i].startAddr, s[i].size, s[i].isFree)
  {
    if s == [] then []
    else
      var b := s[|s| - 1];
      ViewOf(s[..|s| - 1]) + [Extent(b.startAddr, b.size, b.isFree)]
  }

  class Heap {
    var addrList: Block?
    const sizeTree: Tree
    ghost var blocks: seq<Block>
    ghost const base: nat
    ghost const total: nat
    /** All objects that belong to the heap, and perhaps some that no longer do. */
    ghost var region: set<object>

    ghost function View(): Layout
      reads this`blocks, blocks`startAddr, blocks`size, blocks`isFree
    {
      ViewOf(blocks)
    }

    // ----- agreement of the list and the tree

    /** The tree holds the block under its size if it is free, and not at all if it is in
        use; about blocks on which work is in progress nothing is said. */
    ghost predicate BlockOk(b: Block, busy: set<Block>)
      reads ({b} - busy)`isFree, ({b} - busy)`size, b.radixNode`container, b.radixNode`key, sizeTree`nodes
    {
      && b.radixNode.container == b
      && (b !in busy ==> (b.isFree <==> b.radixNode in sizeTree.nodes) && (b.isFree ==> b.radixNode.key == b.size))
    }

    /** A node of the tree is part of a block on the list. */
    ghost predicate NodeOk(n: Node, bs: seq<Block>)
      reads n`container
    {
      && n.container is Block
      && (n.container as Block) in bs && (n.container as Block).radixNode == n
    }

    ghost predicate Agreeing(bs: seq<Block>, busy: set<Block>)
      reads (set b | b in bs && b !in busy)`isFree, (set b | b in bs && b !in busy)`size, sizeTree`nodes
      reads (set b | b in bs :: b.radixNode)`container, (set b | b in bs :: b.radixNode)`key
      reads sizeTree.nodes`container
    {
      && (forall b {:trigger BlockOk(b, busy)} :: b in bs ==> BlockOk(b, busy))
      && (forall n {:trigger NodeOk(n, bs)} :: n in sizeTree.nodes ==> NodeOk(n, bs))
    }

    ghost predicate Wired(busy: set<Block>)
      reads this`addrList, this`blocks, blocks, (set b | b in blocks :: b.radixNode)
      reads sizeTree, sizeTree.anchor, sizeTree.nodes, sizeTree.plan.posOf.Keys
    {
      && sizeTree.Valid() && sizeTree.keyBits == 63
      && Chain(addrList, blocks)
      && Agreeing(blocks, busy)
    }

    lemma BlockFacts(b: Block, busy: set<Block>)
      requires Wired(busy) && b in blocks
      ensures BlockOk(b, busy)
    {
    }

    lemma Neighbours(i: int, busy: set<Block>)
      requires Wired(busy) && 0 <= i < |blocks|
      ensures blocks[i].addrPrev == At(blocks, i - 1) && blocks[i].addrNext == At(blocks, i + 1)
    {
    }

    lemma AllDistinct(busy: set<Block>)
      requires Wired(busy)
      ensures forall j, k :: 0 <= j < k < |blocks| ==> blocks[j] != blocks[k]
    {
    }

    lemma AgreeingPut(bs: seq<Block>, busy: set<Block>, busy': set<Block>, i: int, b: Block)
      requires busy' == busy + {b}
      requires Agreeing(bs, busy) && 0 <= i <= |bs| && b.radixNode.container == b
      ensures Agreeing(Put(bs, i, b), busy')
    {
      PutMembers(bs, i, b);
      forall c | c in Put(bs, i, b) ensures BlockOk(c, busy') {
        if c in bs { assert BlockOk(c, busy); }
      }
      forall n | n in sizeTree.nodes ensures NodeOk(n, Put(bs, i, b)) {
        assert NodeOk(n, bs);
      }
    }

    lemma AgreeingDrop(bs: seq<Block>, busy: set<Block>, busy': set<Block>, i: int)
      requires Agreeing(bs, busy) && 0 <= i < |bs| && busy' == busy - {bs[i]}
      requires forall j, k :: 0 <= j < k < |bs| ==> bs[j] != bs[k]
      requires bs[i].radixNode !in sizeTree.nodes
      ensures Agreeing(Drop(bs, i), busy')
    {
      DropMembers(bs, i);
      forall c | c in Drop(bs, i) ensures BlockOk(c, busy') {
        assert BlockOk(c, busy);
      }
      forall n | n in sizeTree.nodes ensures NodeOk(n, Drop(bs, i)) {
        assert NodeOk(n, bs);
      }
    }

    /** Work on a block begins. */
    lemma AgreeingBusy(bs: seq<Block>, busy: set<Block>, busy': set<Block>, b: Block)
      requires busy' == busy + {b}
      requires Agreeing(bs, busy)
      ensures Agreeing(bs, busy')
    {
      forall c | c in bs ensures BlockOk(c, busy') {
        assert BlockOk(c, busy);
      }
    }

    /** Work on a block is done. */
    lemma AgreeingDone(bs: seq<Block>, busy: set<Block>, busy': set<Block>, b: Block)
      requires busy' == busy - {b}
      requires Agreeing(bs, busy) && b in bs
      requires (b.isFree <==> b.radixNode in sizeTree.nodes) && (b.isFree ==> b.radixNode.key == b.size)
      ensures Agreeing(bs, busy')
    {
      forall c | c in bs ensures BlockOk(c, busy') {
        assert BlockOk(c, busy);
      }
    }

    ghost predicate Owns()
      reads this, sizeTree
    {
      && {this, sizeTree, sizeTree.anchor} <= region && Within(blocks, region)
      && sizeTree.nodes <= region && sizeTree.plan.posOf.Keys <= region
    }

    /** The nodes of the tree are those of blocks on the list. */
    lemma OwnsNodes()
      requires Wired({}) && Within(blocks, region) && {this, sizeTree, sizeTree.anchor} <= region
      ensures Owns()
    {
      forall n | n in sizeTree.nodes ensures n in region {
        assert NodeOk(n, blocks);
      }
    }

    ghost predicate Valid()
      reads this, region
    {
      && this in region && sizeTree in region && Owns()
      && Wired({})
      && Sound(View(), base, total)
      && 0 < base && total < Pow2(63)
    }

    constructor (ghost base: nat, ghost total: nat)
      ensures this.base == base && this.total == total && addrList == null && blocks == []
      ensures Wired({}) && sizeTree.nodes == {} && fresh(sizeTree) && fresh(sizeTree.anchor)
      ensures region == {this, sizeTree, sizeTree.anchor}
    {
      this.base, this.total := base, total;
      sizeTree := new Tree(63);
      addrList := null;
      blocks := [];
      new;
      region := {this, sizeTree, sizeTree.anchor};
    }

    method InitialBlock(start: nat, size: nat) returns (block: Block)
      requires start == base && size == total
      requires Wired({}) && blocks == [] && sizeTree.nodes == {} && total < Pow2(63)
      modifies `addrList, `blocks
      modifies sizeTree`plan, sizeTree`buckets, sizeTree`nodes, sizeTree`primaries, sizeTree.anchor`root
      ensures Wired({}) && fresh(block) && fresh(block.radixNode) && blocks == [block]
      ensures View() == [Extent(base, total, true)]
    {
      hide Sound, Pow2, BlockOk, NodeOk;
      assert sizeTree.Valid();
      block := new Block(start, size);
      AgreeingPut([], {}, {block}, 0, block);
      assert Put([], 0, block) == [block];
      addrList := block;
      blocks := [block];
      PutIntoTree(block, {block}, {});
    }

    /** A reserved range starts out as one free block. */
    method Populate(start: nat, size: nat)
      requires start == base && size == total
      requires Wired({}) && blocks == [] && sizeTree.nodes == {} && region == {this, sizeTree, sizeTree.anchor}
      requires 0 < base && 0 < total < Pow2(63)
      modifies `addrList, `blocks, `region
      modifies sizeTree`plan, sizeTree`buckets, sizeTree`nodes, sizeTree`primaries, sizeTree.anchor`root
      ensures Valid() && View() == [Extent(base, total, true)] && fresh(region - old(region))
    {
      hide Tree.Valid, Chain, Agreeing, Sound, ViewOf, Pow2, Within;
      var block := InitialBlock(start, size);
      region := region + {block, block.radixNode};
      WholeSound(base, total);
      OwnsNodes();
    }

    // ----- the list

    method FindPlace(block: Block, ghost i: int) returns (prev: Block?, current: Block?)
      requires Chain(addrList, blocks) && 0 <= i <= |blocks|
      requires forall k :: 0 <= k < i ==> blocks[k].startAddr < block.startAddr
      requires forall k :: i <= k < |blocks| ==> blocks[k].startAddr >= block.startAddr
      ensures prev == At(blocks, i - 1) && current == At(blocks, i)
    {
      current := addrList;
      prev := null;
      ghost var k := 0;
      while current != null && current.startAddr < block.startAddr
        invariant 0 <= k <= i && current == At(blocks, k) && prev == At(blocks, k - 1)
        decreases i - k
      {
        prev := current;
        current := current.addrNext;
        k := k + 1;
      }
    }

    method LinkBetween(prev: Block?, block: Block, current: Block?, ghost i: int)
      requires Chain(addrList, blocks) && block !in blocks && 0 <= i <= |blocks|
      requires prev == At(blocks, i - 1) && current == At(blocks, i)
      modifies `addrList, block`addrNext, block`addrPrev, Sole(prev)`addrNext, Sole(current)`addrPrev
      ensures Chain(addrList, Put(blocks, i, block))
    {
      hide Tree.Valid, Agreeing, Sound;
      block.addrNext := current;
      block.addrPrev := prev;
      if prev != null {
        prev.addrNext := block;
      } else {
        addrList := block;
      }
      if current != null {
        current.addrPrev := block;
      }
    }

    method InsertAddrList(block: Block, ghost i: int)
      requires Chain(addrList, blocks) && block !in blocks && 0 <= i <= |blocks|
      requires forall k :: 0 <= k < i ==> blocks[k].startAddr < block.startAddr
      requires forall k :: i <= k < |blocks| ==> blocks[k].startAddr >= block.startAddr
      modifies `addrList, block`addrNext, block`addrPrev, blocks`addrNext, blocks`addrPrev
      ensures Chain(addrList, Put(blocks, i, block))
    {
      var prev, current := FindPlace(block, i);
      LinkBetween(prev, block, current, i);
    }

    method RemoveAddrList(block: Block, ghost i: int)
      requires Chain(addrList, blocks) && 0 <= i < |blocks| && blocks[i] == block
      modifies `addrList, blocks`addrNext, blocks`addrPrev
      ensures Chain(addrList, Drop(blocks, i))
    {
      ghost var bs, bs' := blocks, Drop(blocks, i);
      assert block.addrPrev == At(bs, i - 1) && block.addrNext == At(bs, i + 1);
      if block.addrPrev != null {
        block.addrPrev.addrNext := block.addrNext;
      } else {
        addrList := block.addrNext;
      }
      if block.addrNext != null {
        block.addrNext.addrPrev := block.addrPrev;
      }
      forall k | 0 <= k < |bs'|
        ensures bs'[k].addrNext == At(bs', k + 1) && bs'[k].addrPrev == At(bs', k - 1)
      {
        assert bs'[k] == bs[if k < i then k else k + 1];
      }
    }

    // ----- the tree

    lemma Begin(b: Block, busy: set<Block>, busy': set<Block>)
      requires Wired(busy) && busy' == busy + {b}
      ensures Wired(busy')
    {
      AgreeingBusy(blocks, busy, busy', b);
    }

    method TakeFromTree(b: Block, ghost bs: seq<Block>, ghost busy: set<Block>)
      requires sizeTree.Valid() && Agreeing(bs, busy) && b in bs && b in busy && b.radixNode in sizeTree.nodes
      modifies sizeTree`plan, sizeTree`buckets, sizeTree`nodes, sizeTree`primaries, sizeTree.anchor`root
      modifies sizeTree.nodes`child, sizeTree.nodes`parent, sizeTree.nodes`link
      modifies sizeTree.nodes`next, sizeTree.nodes`prev
      ensures sizeTree.Valid() && Agreeing(bs, busy) && sizeTree.nodes == old(sizeTree.nodes) - {b.radixNode}
    {
      sizeTree.Remove(b.radixNode);
      forall c | c in bs ensures BlockOk(c, busy) {
        assert old(BlockOk(c, busy)) && old(BlockOk(b, busy));
      }
      forall n | n in sizeTree.nodes ensures NodeOk(n, bs) {
        assert old(NodeOk(n, bs));
      }
    }

    method PutIntoTree(b: Block, ghost busy: set<Block>, ghost busy': set<Block>)
      requires busy' == busy - {b}
      requires Wired(busy) && b in blocks && b in busy && b.isFree && b.radixNode !in sizeTree.nodes
      requires b.size < Pow2(63)
      modifies sizeTree`plan, sizeTree`buckets, sizeTree`nodes, sizeTree`primaries, sizeTree.anchor`root
      modifies sizeTree.nodes`child, sizeTree.nodes`parent, sizeTree.nodes`link
      modifies sizeTree.nodes`next, sizeTree.nodes`prev
      modifies b.radixNode`child, b.radixNode`parent, b.radixNode`link
      modifies b.radixNode`next, b.radixNode`prev, b.radixNode`key
      ensures Wired(busy') && sizeTree.nodes == old(sizeTree.nodes) + {b.radixNode}
    {
      hide Tree.Valid, Chain, Sound, Pow2;
      sizeTree.Insert(b.radixNode, b.size);
      forall c | c in blocks ensures BlockOk(c, busy') {
        assert old(BlockOk(c, busy)) && old(BlockOk(b, busy));
      }
      forall n | n in sizeTree.nodes ensures NodeOk(n, blocks) {
        assert old(BlockOk(b, busy));
        if n != b.radixNode { assert old(NodeOk(n, blocks)); }
      }
    }

    // ----- steps of allocation

    lemma StartsAround(i: int, a: nat)
      requires Sound(View(), base, total) && 0 <= i < |blocks|
      requires blocks[i].startAddr < a <= blocks[i].startAddr + blocks[i].size
      ensures forall k :: 0 <= k <= i ==> blocks[k].startAddr < a
      ensures forall k :: i < k < |blocks| ==> blocks[k].startAddr >= a
    {
      var l := View();
      forall k | 0 <= k < |blocks| ensures if k <= i then blocks[k].startAddr < a else blocks[k].startAddr >= a {
        if k < i { InOrder(l, base, total, k, i); }
        if k > i { InOrder(l, base, total, i, k); }
        assert l[k].start == blocks[k].startAddr;
      }
    }

    method Resize(b: Block, size: nat, ghost busy: set<Block>, ghost busy': set<Block>)
      requires Wired(busy) && busy' == busy + {b}
      modifies b`size
      ensures Wired(busy') && b.size == size
    {
      AgreeingBusy(blocks, busy, busy', b);
      b.size := size;
    }

    /** A new block joins the list behind position `i`. */
    method Link(newBlock: Block, ghost i: int, ghost busy: set<Block>, ghost busy': set<Block>)
      requires Wired(busy) && busy' == busy + {newBlock}
      requires 0 <= i < |blocks| && newBlock !in blocks && newBlock.radixNode.container == newBlock
      requires forall k :: 0 <= k <= i ==> blocks[k].startAddr < newBlock.startAddr
      requires forall k :: i < k < |blocks| ==> blocks[k].startAddr >= newBlock.startAddr
      modifies `addrList, `blocks, blocks`addrNext, blocks`addrPrev, newBlock`addrNext, newBlock`addrPrev
      ensures Wired(busy') && blocks == Put(old(blocks), i + 1, newBlock)
    {
      AgreeingPut(blocks, busy, busy', i + 1, newBlock);
      ghost var bs := Put(blocks, i + 1, newBlock);
      InsertAddrList(newBlock, i + 1);
      assert sizeTree.Valid();
      assert Agreeing(bs, busy');
      blocks := bs;
    }

    /** The front of a free block is cut off; its rest becomes a block of its own. */
    method Cut(best: Block, size: nat, ghost i: int) returns (newBlock: Block)
      requires Wired({}) && 0 <= i < |blocks| && blocks[i] == best && 0 < size < best.size
      requires Sound(View(), base, total)
      modifies `addrList, `blocks, blocks`addrNext, blocks`addrPrev, best`size
      ensures Wired({best, newBlock}) && blocks == Put(old(blocks), i + 1, newBlock)
      ensures fresh(newBlock) && fresh(newBlock.radixNode) && best.size == size && newBlock.isFree
      ensures newBlock.startAddr == best.startAddr + size && newBlock.size == old(best.size) - size
    {
      hide Tree.Valid, Agreeing, Sound, ViewOf;
      newBlock := new Block(best.startAddr + size, best.size - size);
      StartsAround(i, newBlock.startAddr);
      Resize(best, size, {}, {best});
      Link(newBlock, i, {best}, {best, newBlock});
    }

    method Split(best: Block, size: nat, ghost i: int) returns (newBlock: Block)
      requires Wired({}) && 0 <= i < |blocks| && blocks[i] == best && best.isFree && 0 < size < best.size < Pow2(63)
      requires Sound(View(), base, total)
      modifies `addrList, `blocks, blocks`addrNext, blocks`addrPrev, best`size
      modifies sizeTree`plan, sizeTree`buckets, sizeTree`nodes, sizeTree`primaries, sizeTree.anchor`root
      modifies sizeTree.nodes`child, sizeTree.nodes`parent, sizeTree.nodes`link
      modifies sizeTree.nodes`next, sizeTree.nodes`prev
      ensures Wired({best}) && blocks == Put(old(blocks), i + 1, newBlock)
      ensures fresh(newBlock) && fresh(newBlock.radixNode) && best.size == size && newBlock.isFree
      ensures newBlock.startAddr == best.startAddr + size && newBlock.size == old(best.size) - size
      ensures sizeTree.nodes == old(sizeTree.nodes) + {newBlock.radixNode}
    {
      hide Tree.Valid, Agreeing, Chain, Sound, ViewOf;
      newBlock := Cut(best, size, i);
      PutMembers(old(blocks), i + 1, newBlock);
      PutIntoTree(newBlock, {best, newBlock}, {best});
    }

    /** The block leaves the tree and is in use. */
    method Occupy(best: Block, ghost i: int)
      requires Wired({best}) && 0 <= i < |blocks| && blocks[i] == best && best.radixNode in sizeTree.nodes
      modifies best`isFree
      modifies sizeTree`plan, sizeTree`buckets, sizeTree`nodes, sizeTree`primaries, sizeTree.anchor`root
      modifies sizeTree.nodes`child, sizeTree.nodes`parent, sizeTree.nodes`link
      modifies sizeTree.nodes`next, sizeTree.nodes`prev
      ensures Wired({})
      ensures View() == old(View())[i := Extent(best.startAddr, best.size, false)]
    {
      hide Tree.Valid, Chain, Sound, Agreeing;
      AllDistinct({best});
      best.isFree := false;
      TakeFromTree(best, blocks, {best});
      AgreeingDone(blocks, {best}, {}, best);
    }

    /** The tree has the block in front of all others of its size: of these it is the one that
        has been there longest. */
    ghost predicate First(i: int)
      reads this`blocks, blocks`size, sizeTree`buckets
    {
      && 0 <= i < |blocks| && blocks[i].size in sizeTree.buckets
      && sizeTree.buckets[blocks[i].size] != [] && sizeTree.buckets[blocks[i].size][0] == blocks[i].radixNode
    }

    /** The first block of its size starts at `addr`. */
    ghost predicate FirstAt(addr: nat)
      reads this`blocks, blocks`size, blocks`startAddr, sizeTree`buckets
    {
      exists i :: First(i) && blocks[i].startAddr == addr
    }

    lemma Chosen(size: nat, node: Node?) returns (i: int)
      requires Valid() && sizeTree.GeqResult(size, node)
      ensures node == null ==> forall j :: !FreeFit(View(), j, size)
      ensures node != null ==>
                && node in sizeTree.nodes && node.container is Block && (node.container as Block).radixNode == node
                && 0 <= i < |blocks| && blocks[i] == node.container && BestFit(View(), i, size) && First(i)
    {
      sizeTree.LeastNode(size, node);
      i := -1;
      if node != null {
        assert NodeOk(node, blocks);
        i :| 0 <= i < |blocks| && blocks[i] == node.container;
        assert BlockOk(blocks[i], {});
      }
      forall j | FreeFit(View(), j, size) ensures node != null && node.key <= View()[j].size {
        assert BlockOk(blocks[j], {});
      }
    }

    /** The block is used as it is. */
    method PlaceWhole(best: Block, ghost i: int)
      requires Wired({}) && 0 <= i < |blocks| && blocks[i] == best && best.isFree
      modifies best`isFree
      modifies sizeTree`plan, sizeTree`buckets, sizeTree`nodes, sizeTree`primaries, sizeTree.anchor`root
      modifies sizeTree.nodes`child, sizeTree.nodes`parent, sizeTree.nodes`link
      modifies sizeTree.nodes`next, sizeTree.nodes`prev
      ensures Wired({}) && View() == Carved(old(View()), i, best.size)
    {
      BlockFacts(best, {});
      AgreeingBusy(blocks, {}, {best}, best);
      Occupy(best, i);
    }

    /** The layout after the block at `i`, seen before as in `l`, was cut in two. */
    lemma ViewCut(l: Layout, bs: seq<Block>, i: int, b: Block)
      requires |l| == |bs| && 0 <= i < |bs| && bs[i].size < l[i].size
      requires forall k :: 0 <= k < |bs| && k != i ==> l[k] == Extent(bs[k].startAddr, bs[k].size, bs[k].isFree)
      requires bs[i].startAddr == l[i].start && b.startAddr == l[i].start + bs[i].size
      requires b.size == l[i].size - bs[i].size && b.isFree
      ensures ViewOf(Put(bs, i + 1, b))[i := Extent(bs[i].startAddr, bs[i].size, false)]
              == Carved(l, i, bs[i].size)
    {
    }

    /** The layout after the split is the carved one, once the front is marked as in use. */
    method SplitSeen(best: Block, size: nat, ghost i: int) returns (newBlock: Block)
      requires Wired({}) && 0 <= i < |blocks| && blocks[i] == best && best.isFree && 0 < size < best.size < Pow2(63)
      requires Sound(View(), base, total)
      modifies `addrList, `blocks, blocks`addrNext, blocks`addrPrev, best`size
      modifies sizeTree`plan, sizeTree`buckets, sizeTree`nodes, sizeTree`primaries, sizeTree.anchor`root
      modifies sizeTree.nodes`child, sizeTree.nodes`parent, sizeTree.nodes`link
      modifies sizeTree.nodes`next, sizeTree.nodes`prev
      ensures Wired({best}) && i < |blocks| && blocks[i] == best && best.radixNode in sizeTree.nodes
      ensures View()[i := Extent(best.startAddr, best.size, false)] == Carved(old(View()), i, size)
      ensures blocks == Put(old(blocks), i + 1, newBlock) && fresh(newBlock) && fresh(newBlock.radixNode)
      ensures best.startAddr == old(best.startAddr) && sizeTree.nodes == old(sizeTree.nodes) + {newBlock.radixNode}
    {
      hide Wired, Sound, Carved;
      ghost var l, bs := View(), blocks;
      AllDistinct({});
      BlockFacts(best, {});
      newBlock := Split(best, size, i);
      ViewCut(l, bs, i, newBlock);
    }

    /** Only the front of the block is used. */
    method PlaceFront(best: Block, size: nat, ghost i: int) returns (newBlock: Block)
      requires Wired({}) && 0 <= i < |blocks| && blocks[i] == best && best.isFree && 0 < size < best.size < Pow2(63)
      requires Sound(View(), base, total)
      modifies `addrList, `blocks, blocks`addrNext, blocks`addrPrev, best`size, best`isFree
      modifies sizeTree`plan, sizeTree`buckets, sizeTree`nodes, sizeTree`primaries, sizeTree.anchor`root
      modifies sizeTree.nodes`child, sizeTree.nodes`parent, sizeTree.nodes`link
      modifies sizeTree.nodes`next, sizeTree.nodes`prev
      ensures Wired({}) && View() == Carved(old(View()), i, size)
      ensures blocks == Put(old(blocks), i + 1, newBlock) && fresh(newBlock) && fresh(newBlock.radixNode)
    {
      hide Wired, Sound, Carved, Put, ViewOf;
      newBlock := SplitSeen(best, size, i);
      Occupy(best, i);
    }

    ghost method Grow(bs: seq<Block>, i: int, newBlock: Block)
      requires Within(bs, region) && 0 <= i <= |bs| && blocks == Put(bs, i, newBlock)
      modifies `region
      ensures Within(blocks, region) && region == old(region) + {newBlock, newBlock.radixNode}
    {
      PutWithin(bs, i, newBlock, region);
      region := region + {newBlock, newBlock.radixNode};
    }

    /** Only the front of the block is allocated. */
    method PlacePart(best: Block, size: nat, ghost i: int)
      requires Valid() && 0 <= i < |blocks| && blocks[i] == best && best.isFree && 0 < size < best.size < Pow2(63)
      modifies `region, `addrList, `blocks, blocks`addrNext, blocks`addrPrev, best`size, best`isFree
      modifies sizeTree`plan, sizeTree`buckets, sizeTree`nodes, sizeTree`primaries, sizeTree.anchor`root
      modifies sizeTree.nodes`child, sizeTree.nodes`parent, sizeTree.nodes`link
      modifies sizeTree.nodes`next, sizeTree.nodes`prev
      ensures this in region && sizeTree in region && Owns() && Wired({}) && View() == Carved(old(View()), i, size)
      ensures fresh(region - old(region))
    {
      hide Wired, Sound, ViewOf, Within, Put, Carved;
      var newBlock := PlaceFront(best, size, i);
      Grow(old(blocks), i + 1, newBlock);
      OwnsNodes();
    }

    /** An extent becomes an allocated one of the size asked for, and a free rest. */
    method Place(best: Block, size: nat, ghost i: int)
      requires Valid() && 0 <= i < |blocks| && blocks[i] == best && best.isFree && 0 < size <= best.size
      modifies `region, `addrList, `blocks, blocks`addrNext, blocks`addrPrev, best`size, best`isFree
      modifies sizeTree`plan, sizeTree`buckets, sizeTree`nodes, sizeTree`primaries, sizeTree.anchor`root
      modifies sizeTree.nodes`child, sizeTree.nodes`parent, sizeTree.nodes`link
      modifies sizeTree.nodes`next, sizeTree.nodes`prev
      ensures Valid() && View() == Carved(old(View()), i, size) && best.startAddr >= base
      ensures fresh(region - old(region))
    {
      hide Wired, Sound, ViewOf, Within, Carved;
      Inside(View(), base, total, i);
      CarvedSound(View(), base, total, i, size);
      if best.size > size {
        PlacePart(best, size, i);
      } else {
        PlaceWhole(best, i);
        OwnsNodes();
      }
    }

    method Alloc(size: nat, callocOk: bool) returns (addr: nat, ghost i: int)
      requires Valid() && 0 < size < Pow2(63)
      modifies region
      ensures Valid() && AllocStep(old(View()), View(), size, callocOk, addr, i)
      ensures addr != 0 ==> old(First(i) && FirstAt(addr))
      ensures fresh(region - old(region))
    {
      hide Tree.Valid, Agreeing, Chain, Sound, ViewOf, Pow2, First;
      var node := sizeTree.FindGEQ(size);
      i := Chosen(size, node);
      if node == null {
        return 0, i;
      }
      var best := node.container as Block;
      if best.size > size && !callocOk {
        return 0, i;
      }
      Place(best, size, i);
      addr := best.startAddr;
    }

    // ----- steps of freeing

    method TakeIn(prev: Block, block: Block, ghost i: int)
      requires Wired({block}) && 0 < i < |blocks| && blocks[i] == block && blocks[i - 1] == prev
      requires prev.isFree && block.radixNode !in sizeTree.nodes
      modifies prev`size, `addrList, `blocks, blocks`addrNext, blocks`addrPrev
      modifies sizeTree`plan, sizeTree`buckets, sizeTree`nodes, sizeTree`primaries, sizeTree.anchor`root
      modifies sizeTree.nodes`child, sizeTree.nodes`parent, sizeTree.nodes`link
      modifies sizeTree.nodes`next, sizeTree.nodes`prev
      ensures Wired({prev}) && prev.radixNode !in sizeTree.nodes
      ensures blocks == Drop(old(blocks), i)
      ensures sizeTree.nodes == old(sizeTree.nodes) - {prev.radixNode}
      ensures prev.size == old(prev.size + block.size)
    {
      hide Tree.Valid, Agreeing, Chain, Sound, ViewOf;
      BlockFacts(prev, {block});
      AllDistinct({block});
      Resize(prev, prev.size + block.size, {block}, {block, prev});
      Unlink(block, i, {block, prev}, {prev});
      TakeFromTree(prev, blocks, {prev});
    }

    /** The free block before `block` takes it in and is now the block in progress. */
    method MergePrev(prev: Block, block: Block, ghost i: int)
      requires Wired({block}) && 0 < i < |blocks| && blocks[i] == block && blocks[i - 1] == prev
      requires prev.isFree && block.radixNode !in sizeTree.nodes
      modifies prev`size, `addrList, `blocks, blocks`addrNext, blocks`addrPrev
      modifies sizeTree`plan, sizeTree`buckets, sizeTree`nodes, sizeTree`primaries, sizeTree.anchor`root
      modifies sizeTree.nodes`child, sizeTree.nodes`parent, sizeTree.nodes`link
      modifies sizeTree.nodes`next, sizeTree.nodes`prev
      ensures Wired({prev}) && prev.radixNode !in sizeTree.nodes
      ensures blocks == old(blocks)[..i - 1] + [prev] + old(blocks)[i + 1..]
      ensures sizeTree.nodes == old(sizeTree.nodes) - {prev.radixNode}
      ensures prev.size == old(prev.size + block.size)
      ensures View() == old(View())[..i - 1] + [Extent(prev.startAddr, prev.size, true)] + old(View())[i + 1..]
    {
      hide Wired, Sound;
      ghost var l, bs := View(), blocks;
      AllDistinct({block});
      TakeIn(prev, block, i);
      assert blocks == bs[..i - 1] + [prev] + bs[i + 1..];
      ViewSpliced(l, bs, i - 1, i + 1, prev);
    }

    /** A block that the tree does not hold leaves the list. */
    method Unlink(block: Block, ghost i: int, ghost busy: set<Block>, ghost busy': set<Block>)
      requires Wired(busy) && 0 <= i < |blocks| && blocks[i] == block && block.radixNode !in sizeTree.nodes
      requires busy' == busy - {block}
      modifies `addrList, `blocks, blocks`addrNext, blocks`addrPrev
      ensures Wired(busy') && blocks == Drop(old(blocks), i)
      ensures forall c :: c in blocks <==> c in old(blocks) && c != block
    {
      AgreeingDrop(blocks, busy, busy', i);
      DropMembers(blocks, i);
      ghost var bs := Drop(blocks, i);
      RemoveAddrList(block, i);
      assert sizeTree.Valid();
      assert Agreeing(bs, busy');
      blocks := bs;
    }

    /** A block leaves the list and then the tree. */
    method Retire(block: Block, ghost i: int, ghost busy: set<Block>, ghost busy': set<Block>)
      requires Wired(busy) && 0 <= i < |blocks| && blocks[i] == block && block.radixNode in sizeTree.nodes
      requires block in busy && busy' == busy - {block}
      modifies `addrList, `blocks, blocks`addrNext, blocks`addrPrev
      modifies sizeTree`plan, sizeTree`buckets, sizeTree`nodes, sizeTree`primaries, sizeTree.anchor`root
      modifies sizeTree.nodes`child, sizeTree.nodes`parent, sizeTree.nodes`link
      modifies sizeTree.nodes`next, sizeTree.nodes`prev
      ensures Wired(busy') && blocks == Drop(old(blocks), i)
      ensures sizeTree.nodes == old(sizeTree.nodes) - {block.radixNode}
    {
      hide BlockOk, NodeOk, Sound, ViewOf;
      ghost var bs := blocks;
      assert sizeTree.Valid();
      RemoveAddrList(block, i);
      assert sizeTree.Valid();
      assert Agreeing(bs, busy);
      TakeFromTree(block, bs, busy);
      AgreeingDrop(bs, busy, busy', i);
      assert Chain(addrList, Drop(bs, i));
      blocks := Drop(bs, i);
    }

    method TakeNext(block: Block, next: Block, ghost i: int)
      requires Wired({block}) && 0 <= i < |blocks| - 1 && blocks[i] == block && blocks[i + 1] == next
      requires next.isFree && block.radixNode !in sizeTree.nodes
      modifies block`size, `addrList, `blocks, blocks`addrNext, blocks`addrPrev
      modifies sizeTree`plan, sizeTree`buckets, sizeTree`nodes, sizeTree`primaries, sizeTree.anchor`root
      modifies sizeTree.nodes`child, sizeTree.nodes`parent, sizeTree.nodes`link
      modifies sizeTree.nodes`next, sizeTree.nodes`prev
      ensures Wired({block}) && block.radixNode !in sizeTree.nodes
      ensures blocks == Drop(old(blocks), i + 1)
      ensures sizeTree.nodes == old(sizeTree.nodes) - {next.radixNode}
      ensures block.size == old(block.size + next.size)
    {
      hide Wired, Sound;
      BlockFacts(next, {block});
      AllDistinct({block});
      Resize(block, block.size + next.size, {block}, {block});
      Begin(next, {block}, {block, next});
      Retire(next, i + 1, {block, next}, {block});
    }

    /** The block in progress takes in the free block behind it. */
    method MergeNext(block: Block, next: Block, ghost i: int)
      requires Wired({block}) && 0 <= i < |blocks| - 1 && blocks[i] == block && blocks[i + 1] == next
      requires next.isFree && block.radixNode !in sizeTree.nodes
      modifies block`size, `addrList, `blocks, blocks`addrNext, blocks`addrPrev
      modifies sizeTree`plan, sizeTree`buckets, sizeTree`nodes, sizeTree`primaries, sizeTree.anchor`root
      modifies sizeTree.nodes`child, sizeTree.nodes`parent, sizeTree.nodes`link
      modifies sizeTree.nodes`next, sizeTree.nodes`prev
      ensures Wired({block}) && block.radixNode !in sizeTree.nodes
      ensures blocks == old(blocks)[..i] + [block] + old(blocks)[i + 2..]
      ensures sizeTree.nodes == old(sizeTree.nodes) - {next.radixNode}
      ensures block.size == old(block.size + next.size)
      ensures View() == old(View())[..i] + [Extent(block.startAddr, block.size, block.isFree)] + old(View())[i + 2..]
    {
      hide Wired, Sound, ViewOf;
      ghost var l, bs := View(), blocks;
      AllDistinct({block});
      TakeNext(block, next, i);
      assert blocks == bs[..i] + [block] + bs[i + 2..];
      ViewSpliced(l, bs, i, i + 2, block);
    }

    method FindBlock(addr: nat) returns (block: Block?, ghost i: int)
      requires Valid()
      ensures block == null ==> forall k :: 0 <= k < |blocks| ==> blocks[k].startAddr != addr
      ensures block != null ==> 0 <= i < |blocks| && blocks[i] == block && block.startAddr == addr
    {
      block := addrList;
      i := 0;
      while block != null && block.startAddr != addr
        invariant 0 <= i <= |blocks| && block == At(blocks, i)
        invariant forall k :: 0 <= k < i ==> blocks[k].startAddr != addr
        decreases |blocks| - i
      {
        block := block.addrNext;
        i := i + 1;
      }
    }

    /** The block is marked free, but the tree does not hold it yet. */
    method Release(block: Block, ghost i: int)
      requires Wired({}) && 0 <= i < |blocks| && blocks[i] == block && !block.isFree
      modifies block`isFree
      ensures Wired({block}) && block.isFree && block.radixNode !in sizeTree.nodes
      ensures View() == old(View())[i := old(View())[i].(free := true)]
    {
      hide Sound;
      AllDistinct({});
      assert BlockOk(block, {});
      AgreeingBusy(blocks, {}, {block}, block);
      block.isFree := true;
    }

    /** The layout after the blocks `f..t`, seen before as in `l`, gave way to `b`. */
    lemma ViewSpliced(l: Layout, bs: seq<Block>, f: int, t: int, b: Block)
      requires |l| == |bs| && 0 <= f < t <= |l|
      requires forall k :: 0 <= k < f || t <= k < |bs| ==>
                 l[k] == Extent(bs[k].startAddr, bs[k].size, bs[k].isFree)
      ensures ViewOf(bs[..f] + [b] + bs[t..]) == l[..f] + [Extent(b.startAddr, b.size, b.isFree)] + l[t..]
    {
    }

    method TryPrev(prev: Block?, block: Block, ghost i: int) returns (merged: Block, ghost f: int)
      requires Wired({block}) && 0 <= i < |blocks| && blocks[i] == block && prev == At(blocks, i - 1)
      requires block.isFree && block.radixNode !in sizeTree.nodes
      modifies Sole(prev)`size, `addrList, `blocks, blocks`addrNext, blocks`addrPrev
      modifies sizeTree`plan, sizeTree`buckets, sizeTree`nodes, sizeTree`primaries, sizeTree.anchor`root
      modifies sizeTree.nodes`child, sizeTree.nodes`parent, sizeTree.nodes`link
      modifies sizeTree.nodes`next, sizeTree.nodes`prev
      ensures Wired({merged}) && merged.isFree && merged.radixNode !in sizeTree.nodes
      ensures sizeTree.nodes <= old(sizeTree.nodes)
      ensures f == (if prev != null && prev.isFree then i - 1 else i) && f >= 0
      ensures blocks == old(blocks)[..f] + [merged] + old(blocks)[i + 1..] && merged == old(blocks)[f]
      ensures merged.size == if f < i then old(prev.size + block.size) else old(block.size)
      ensures View() == old(View())[..f] + [Extent(merged.startAddr, merged.size, true)] + old(View())[i + 1..]
    {
      hide Wired, Sound;
      merged := block;
      f := i;
      if prev != null && prev.isFree {
        MergePrev(prev, block, i);
        merged := prev;
        f := i - 1;
      }
    }

    method TryNext(block: Block, next: Block?, ghost i: int)
      requires Wired({block}) && 0 <= i < |blocks| && blocks[i] == block && next == At(blocks, i + 1)
      requires block.isFree && block.radixNode !in sizeTree.nodes
      modifies block`size, `addrList, `blocks, blocks`addrNext, blocks`addrPrev
      modifies sizeTree`plan, sizeTree`buckets, sizeTree`nodes, sizeTree`primaries, sizeTree.anchor`root
      modifies sizeTree.nodes`child, sizeTree.nodes`parent, sizeTree.nodes`link
      modifies sizeTree.nodes`next, sizeTree.nodes`prev
      ensures Wired({block}) && block.radixNode !in sizeTree.nodes && sizeTree.nodes <= old(sizeTree.nodes)
      ensures i < |blocks| && blocks[i] == block
      ensures block.size == if next != null && next.isFree then old(block.size + next.size) else old(block.size)
      ensures forall b :: b in blocks ==> b in old(blocks)
      ensures View() == old(View())[..i] + [Extent(block.startAddr, block.size, true)]
                        + old(View())[if next != null && next.isFree then i + 2 else i + 1..]
    {
      hide Wired, Sound;
      if next != null && next.isFree {
        MergeNext(block, next, i);
      }
    }

    /** After the merge with the block before: `l` is the layout before that, and `i` was the
        position of the block that was freed. */
    method CoalesceNext(merged: Block, next: Block?, ghost f: int, ghost l: Layout, ghost i: int)
      requires Wired({merged}) && 0 <= f < |blocks| && blocks[f] == merged && next == At(blocks, f + 1)
      requires merged.isFree && merged.radixNode !in sizeTree.nodes
      requires 0 <= i < |l| && f == From(l, i)
      requires View() == l[..f] + [Extent(l[f].start, (if f < i then l[f].size else 0) + l[i].size, true)] + l[i + 1..]
      modifies merged`size, `addrList, `blocks, blocks`addrNext, blocks`addrPrev
      modifies sizeTree`plan, sizeTree`buckets, sizeTree`nodes, sizeTree`primaries, sizeTree.anchor`root
      modifies sizeTree.nodes`child, sizeTree.nodes`parent, sizeTree.nodes`link
      modifies sizeTree.nodes`next, sizeTree.nodes`prev
      ensures Wired({merged}) && merged.radixNode !in sizeTree.nodes && sizeTree.nodes <= old(sizeTree.nodes)
      ensures merged in blocks && View() == Freed(l, i) && merged.size == Merged(l, i).size
      ensures forall b :: b in blocks ==> b in old(blocks)
    {
      hide Wired, Sound;
      ghost var l1 := View();
      assert l1[f].size == merged.size && l1[f].start == merged.startAddr;
      assert i + 1 < |l| ==> l1[f + 1] == l[i + 1];
      TryNext(merged, next, f);
      MergedTwice(l, l1, View(), i, l1[f], Extent(merged.startAddr, merged.size, true));
    }

    lemma PrevMeets(block: Block, prev: Block?, i: int)
      requires Meets(View(), i) && |View()| == |blocks| && blocks[i] == block && prev == At(blocks, i - 1)
      ensures prev != null ==> block.startAddr == prev.startAddr + prev.size
      ensures View()[i] == Extent(block.startAddr, block.size, block.isFree)
      ensures prev != null ==> View()[i - 1] == Extent(prev.startAddr, prev.size, prev.isFree)
      ensures From(View(), i) == if prev != null && prev.isFree then i - 1 else i
    {
      assert i > 0 ==> View()[i - 1].End() == prev.startAddr + prev.size;
    }

    /** After the merge with the block before, the merged block still meets the next one. */
    lemma NextMeets(merged: Block, next: Block?, f: int, l: Layout, i: int)
      requires Meets(l, i) && f == From(l, i) && 0 <= f < |blocks| && blocks[f] == merged && next == At(blocks, f + 1)
      requires View() == l[..f] + [Extent(merged.startAddr, merged.size, true)] + l[i + 1..]
      requires merged.size == (if f < i then l[f].size else 0) + l[i].size && merged.startAddr == l[f].start
      ensures next != null ==> merged.startAddr + merged.size == next.startAddr
    {
      if next != null {
        assert View()[f + 1].start == next.startAddr;
        assert View()[f + 1] == l[i + 1];
      }
    }

    /** The merge with the block before, up to the second assertion of the code: both
        assertions on adjacent addresses hold on every call. */
    method CoalescePrev(block: Block, ghost i: int) returns (merged: Block, next: Block?, ghost f: int)
      requires Wired({block}) && 0 <= i < |blocks| && blocks[i] == block && Meets(View(), i)
      requires block.isFree && block.radixNode !in sizeTree.nodes
      modifies blocks`size, `addrList, `blocks, blocks`addrNext, blocks`addrPrev
      modifies sizeTree`plan, sizeTree`buckets, sizeTree`nodes, sizeTree`primaries, sizeTree.anchor`root
      modifies sizeTree.nodes`child, sizeTree.nodes`parent, sizeTree.nodes`link
      modifies sizeTree.nodes`next, sizeTree.nodes`prev
      ensures Wired({merged}) && merged.isFree && merged.radixNode !in sizeTree.nodes
      ensures sizeTree.nodes <= old(sizeTree.nodes) && merged in old(blocks)
      ensures f == From(old(View()), i) && 0 <= f < |blocks| && blocks[f] == merged && next == At(blocks, f + 1)
      ensures f <= i && merged == old(blocks)[f] && blocks == old(blocks)[..f] + [merged] + old(blocks)[i + 1..]
      ensures var l := old(View());
              View() == l[..f] + [Extent(l[f].start, (if f < i then l[f].size else 0) + l[i].size, true)] + l[i + 1..]
    {
      hide Wired, Sound, ViewOf, Meets, Freed, Merged, From;
      ghost var l := View();
      Neighbours(i, {block});
      var prev := block.addrPrev;
      next := block.addrNext;
      PrevMeets(block, prev, i);
      assert prev != null ==> block.startAddr == prev.startAddr + prev.size;
      merged, f := TryPrev(prev, block, i);
      NextMeets(merged, next, f, l, i);
      assert next != null ==> merged.startAddr + merged.size == next.startAddr;
    }

    /** The free neighbours of a freed block are merged with it. */
    method Coalesce(block: Block, ghost i: int) returns (merged: Block)
      requires Wired({block}) && 0 <= i < |blocks| && blocks[i] == block && Meets(View(), i)
      requires block.isFree && block.radixNode !in sizeTree.nodes
      modifies blocks`size, `addrList, `blocks, blocks`addrNext, blocks`addrPrev
      modifies sizeTree`plan, sizeTree`buckets, sizeTree`nodes, sizeTree`primaries, sizeTree.anchor`root
      modifies sizeTree.nodes`child, sizeTree.nodes`parent, sizeTree.nodes`link
      modifies sizeTree.nodes`next, sizeTree.nodes`prev
      ensures Wired({merged}) && merged.isFree && merged.radixNode !in sizeTree.nodes && merged in blocks
      ensures sizeTree.nodes <= old(sizeTree.nodes) && merged in old(blocks)
      ensures View() == Freed(old(View()), i) && merged.size == Merged(old(View()), i).size
      ensures forall b :: b in blocks ==> b in old(blocks)
    {
      hide Wired, Sound, ViewOf, Meets, Freed, Merged, From;
      ghost var l := View();
      var next;
      ghost var f;
      merged, next, f := CoalescePrev(block, i);
      CoalesceNext(merged, next, f, l, i);
    }

    /** The merged block goes into the tree. */
    method CoalesceAndFile(block: Block, ghost i: int)
      requires Wired({block}) && 0 <= i < |blocks| && blocks[i] == block && Meets(View(), i)
      requires block.isFree && block.radixNode !in sizeTree.nodes && Merged(View(), i).size < Pow2(63)
      modifies blocks`size, `addrList, `blocks, blocks`addrNext, blocks`addrPrev
      modifies sizeTree`plan, sizeTree`buckets, sizeTree`nodes, sizeTree`primaries, sizeTree.anchor`root
      modifies sizeTree.nodes`child, sizeTree.nodes`parent, sizeTree.nodes`link
      modifies sizeTree.nodes`next, sizeTree.nodes`prev
      modifies (set b | b in blocks :: b.radixNode)`child, (set b | b in blocks :: b.radixNode)`parent
      modifies (set b | b in blocks :: b.radixNode)`link, (set b | b in blocks :: b.radixNode)`next
      modifies (set b | b in blocks :: b.radixNode)`prev, (set b | b in blocks :: b.radixNode)`key
      ensures Wired({}) && View() == Freed(old(View()), i) && forall b :: b in blocks ==> b in old(blocks)
    {
      hide Wired, Sound, ViewOf, Meets, Freed, Merged, Pow2;
      var merged := Coalesce(block, i);
      PutIntoTree(merged, {merged}, {});
    }

    method Reclaim(block: Block, ghost i: int)
      requires Wired({}) && 0 <= i < |blocks| && blocks[i] == block && !block.isFree
      requires Merged(View(), i).size < Pow2(63) && Meets(View(), i)
      modifies `addrList, `blocks, blocks`addrNext, blocks`addrPrev, blocks`size, block`isFree
      modifies sizeTree`plan, sizeTree`buckets, sizeTree`nodes, sizeTree`primaries, sizeTree.anchor`root
      modifies sizeTree.nodes`child, sizeTree.nodes`parent, sizeTree.nodes`link
      modifies sizeTree.nodes`next, sizeTree.nodes`prev
      modifies (set b | b in blocks :: b.radixNode)`child, (set b | b in blocks :: b.radixNode)`parent
      modifies (set b | b in blocks :: b.radixNode)`link, (set b | b in blocks :: b.radixNode)`next
      modifies (set b | b in blocks :: b.radixNode)`prev, (set b | b in blocks :: b.radixNode)`key
      ensures Wired({}) && View() == Freed(old(View()), i) && forall b :: b in blocks ==> b in old(blocks)
    {
      hide Wired, Sound, ViewOf, Within, Meets, Freed, Merged;
      ghost var l := View();
      Release(block, i);
      FreedIgnores(l, View(), i);
      CoalesceAndFile(block, i);
    }

    /** The block of an allocated extent is freed. */
    method Return(block: Block, ghost i: int)
      requires Valid() && 0 <= i < |blocks| && blocks[i] == block && !block.isFree
      modifies `addrList, `blocks, blocks`addrNext, blocks`addrPrev, blocks`size, block`isFree
      modifies sizeTree`plan, sizeTree`buckets, sizeTree`nodes, sizeTree`primaries, sizeTree.anchor`root
      modifies sizeTree.nodes`child, sizeTree.nodes`parent, sizeTree.nodes`link
      modifies sizeTree.nodes`next, sizeTree.nodes`prev
      modifies (set b | b in blocks :: b.radixNode)`child, (set b | b in blocks :: b.radixNode)`parent
      modifies (set b | b in blocks :: b.radixNode)`link, (set b | b in blocks :: b.radixNode)`next
      modifies (set b | b in blocks :: b.radixNode)`prev, (set b | b in blocks :: b.radixNode)`key
      ensures Valid() && View() == Freed(old(View()), i)
    {
      hide Wired, Tree.Valid, Chain, Agreeing, Sound, ViewOf, Within;
      FreedSound(View(), base, total, i);
      MergedInside(View(), base, total, i);
      SoundMeets(View(), base, total, i);
      Reclaim(block, i);
      FewerWithin(old(blocks), blocks, region);
      OwnsNodes();
    }

    /** Freeing an address at which no allocated block starts does nothing. */
    method Free(addr: nat) returns (freed: nat, ghost i: int)
      requires Valid()
      modifies region
      ensures Valid() && FreeStep(old(View()), View(), addr, i)
      ensures region == old(region)
      ensures freed == if exists k :: Held(old(View()), k, addr) then old(View())[i].size else 0
    {
      hide Sound, Agreeing, Tree.Valid;
      var block;
      block, i := FindBlock(addr);
      freed := 0;
      if block == null {
        return;
      }
      if block.isFree {
        HeldOnce(View(), base, total, i, addr);
        return;
      }
      assert Held(View(), i, addr);
      freed := block.size;
      Return(block, i);
    }
  }
}
