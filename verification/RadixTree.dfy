/** The heap-ordered radix tree over intrusive nodes: find, insert and remove.

    The ghost `plan` of a tree says which node hangs at which position; `buckets` gives for
    every stored key its nodes, the primary one first.  What callers see is `buckets`. */
module RadixTree {
  import opened BitPaths
  import opened RadixNodes
  import opened RadixPlan
  import RadixShape

  class Tree {
    const anchor: Anchor
    const keyBits: nat
    ghost var plan: Plan
    ghost var buckets: map<nat, seq<Node>>
    ghost var nodes: set<Node>
    ghost var primaries: set<Node>

    // ----- the invariant

    ghost predicate HungHere()
      reads this`plan, anchor`root
      reads plan.posOf.Keys`child, plan.posOf.Keys`parent, plan.posOf.Keys`link, plan.posOf.Keys`key
    {
      Hung(anchor, plan)
    }

    /** The bucket of a stored key is a ring of nodes of that key behind a primary node. */
    ghost predicate BucketOk(k: nat)
      reads this`buckets, this`nodes, this`primaries
      reads nodes`next, nodes`prev, nodes`key
      reads (nodes - primaries)`child, (nodes - primaries)`parent, (nodes - primaries)`link
    {
      && k in buckets
      && buckets[k] != []
      && (forall j :: 0 <= j < |buckets[k]| ==> buckets[k][j] in nodes && buckets[k][j].key == k)
      && buckets[k][0] in primaries
      && (forall j :: 0 < j < |buckets[k]| ==> buckets[k][j] !in primaries && Blank(buckets[k][j]))
      && Ring(buckets[k])
    }

    ghost predicate Filed(n: Node)
      reads this`buckets, n`key
    {
      n.key in buckets && n in buckets[n.key]
    }

    ghost predicate Indexed()
      reads this`buckets, this`nodes, this`primaries
      reads nodes`next, nodes`prev, nodes`key
      reads (nodes - primaries)`child, (nodes - primaries)`parent, (nodes - primaries)`link
    {
      && primaries <= nodes
      && (forall k {:trigger BucketOk(k)} :: k in buckets ==> BucketOk(k))
      && (forall n {:trigger Filed(n)} :: n in nodes ==> Filed(n))
    }

    ghost predicate Valid()
      reads this, anchor, nodes, plan.posOf.Keys
    {
      && HungHere()
      && Indexed()
      && primaries == plan.posOf.Keys
      && RadixShape.Valid(keyBits, plan.shape)
    }

    constructor (bits: nat)
      requires bits > 0
      ensures Valid() && keyBits == bits && buckets == map[] && nodes == {} && fresh(anchor)
    {
      keyBits := bits;
      anchor := new Anchor();
      plan := Plan(map[], map[], map[]);
      buckets, nodes, primaries := map[], {}, {};
    }

    lemma PrimaryIsFirst(n: Node)
      requires Indexed() && n in primaries
      ensures n.key in buckets && buckets[n.key] != [] && n == buckets[n.key][0]
    {
      assert Filed(n);
      assert BucketOk(n.key);
    }

    lemma StoredKeys()
      requires Valid()
      ensures RadixShape.Keys(plan.shape) == buckets.Keys
    {
      forall k | k in buckets ensures k in RadixShape.Keys(plan.shape) {
        assert BucketOk(k);
        var n := buckets[k][0];
        assert plan.Seated(n);
        HungNode(anchor, plan, plan.posOf[n]);
        assert plan.shape[plan.posOf[n]] == k;
      }
      forall i | i in plan.shape ensures plan.shape[i] in buckets {
        HungNode(anchor, plan, i);
        PrimaryIsFirst(plan.at[i]);
      }
    }

    // ----- search

    ghost function NodeAt(i: nat): Node?
      reads this`plan
    {
      if i == 0 then null else plan.Get(i)
    }

    /** One step of the walk, in terms of the nodes that the cursors point at. */
    lemma WalkStep(key: nat, i: nat, f: nat, g: nat) returns (i': nat, f': nat, g': nat)
      requires HungHere() && RadixShape.Valid(keyBits, plan.shape) && key < Pow2(keyBits)
      requires RadixShape.Walk(keyBits, plan.shape, key, i, f, g) && i in plan.at && plan.at[i].key != key
      ensures RadixShape.Walk(keyBits, plan.shape, key, i', f', g') && i' >= 1
      ensures Depth(i) < keyBits && Depth(i') == Depth(i) + 1
      ensures var n, found := plan.at[i], NodeAt(f);
              var take := BitOf(key, keyBits - Depth(i) - 1);
              && NodeAt(i') == n.child.Kid(take)
              && NodeAt(f') == (if n.key > key && (found == null || n.key < found.key) then n else found)
              && NodeAt(g') == (if take == 0 && n.child.Kid(1) != null then n.child.Kid(1) else NodeAt(g))
    {
      hide RadixShape.Walk, RadixShape.Valid, OnPath, Pow2;
      RadixShape.WalkKnows(keyBits, plan.shape, key, i, f, g);
      HungNode(anchor, plan, i);
      if f != 0 {
        HungNode(anchor, plan, f);
      }
      RadixShape.RoomBelow(keyBits, plan.shape, key, i);
      var b := BitOf(key, keyBits - Depth(i) - 1);
      i' := 2 * i + b;
      f' := RadixShape.BetterFound(plan.shape, key, i, f);
      g' := RadixShape.SkippedRight(plan.shape, i, b, g);
      RadixShape.WalkSteps(keyBits, plan.shape, key, i, f, g, i', f', g');
    }

    lemma WalkEnd(key: nat, i: nat, f: nat, g: nat)
      requires Valid() && RadixShape.Walk(keyBits, plan.shape, key, i, f, g) && i !in plan.at
      ensures GeqResult(key, if NodeAt(f) != null then NodeAt(f) else NodeAt(g))
    {
      StoredKeys();
      RadixShape.WalkEnds(keyBits, plan.shape, key, i, f, g);
      var r := if f != 0 then f else g;
      if r != 0 {
        HungNode(anchor, plan, r);
        PrimaryIsFirst(plan.at[r]);
      }
    }

    /** `found` is the primary node of the least stored key that is at least `key`; it is
        null exactly when every stored key is smaller. */
    ghost predicate GeqResult(key: nat, found: Node?)
      reads this`buckets, Opt(found)`key
    {
      if found == null then forall k :: k in buckets ==> k < key
      else
        && found.key in buckets
        && buckets[found.key] != []
        && found == buckets[found.key][0]
        && key <= found.key
        && forall k :: k in buckets && key <= k ==> found.key <= k
    }

    lemma Exact(key: nat, i: nat)
      requires Valid() && i in plan.at && plan.at[i].key == key
      ensures GeqResult(key, plan.at[i])
    {
      hide RadixShape.Valid, Filed, BucketOk;
      HungNode(anchor, plan, i);
      PrimaryIsFirst(plan.at[i]);
    }

    method FindGEQ(key: nat) returns (found: Node?)
      requires Valid() && key < Pow2(keyBits)
      ensures GeqResult(key, found)
    {
      hide RadixShape.Valid, RadixShape.Walk, Wired, BucketOk, Filed, GeqResult;
      var node := anchor.root;
      found := null;
      var gtTree: Node? := null;
      var bit := keyBits;
      ghost var i, f, g := 1, 0, 0;
      RadixShape.WalkStarts(keyBits, plan.shape, key);
      while node != null
        invariant RadixShape.Walk(keyBits, plan.shape, key, i, f, g)
        invariant node == NodeAt(i) && found == NodeAt(f) && gtTree == NodeAt(g)
        invariant i >= 1 && bit == keyBits - Depth(i)
        decreases bit
      {
        if node.key == key {
          Exact(key, i);
          return node;
        }
        ghost var i', f', g' := WalkStep(key, i, f, g);
        if node.key > key {
          found := if found == null || node.key < found.key then node else found;
        }
        bit := bit - 1;
        var take := BitOf(key, bit);
        if take == 0 && node.child.Kid(1) != null {
          gtTree := node.child.Kid(1);
        }
        node := node.child.Kid(take);
        i, f, g := i', f', g';
      }
      WalkEnd(key, i, f, g);
      if found == null {
        found := gtTree;
      }
    }

    /** The search result in terms of nodes. */
    lemma LeastNode(key: nat, found: Node?)
      requires Valid() && GeqResult(key, found)
      ensures found == null ==> forall n :: n in nodes ==> n.key < key
      ensures found != null ==>
                found in nodes && found.key >= key && forall n :: n in nodes && n.key >= key ==> found.key <= n.key
    {
      forall n | n in nodes ensures n.key in buckets {
        assert Filed(n);
      }
      if found != null {
        assert BucketOk(found.key);
      }
    }

    // ----- insertion

    ghost predicate InHand(hand: Node)
      reads this`plan, hand`child, hand`parent, hand`link
    {
      hand !in plan.posOf && Blank(hand)
    }

    /** Insertion on its way down: `hand` is the node still to be placed, at position `i` or
        below.  Either it is the new node, or the new node has displaced a larger key. */
    ghost predicate Descending(node: Node, key: nat, hand: Node, i: nat)
      reads this`plan, anchor`root
      reads plan.posOf.Keys`child, plan.posOf.Keys`parent, plan.posOf.Keys`link, plan.posOf.Keys`key
      reads hand`child, hand`parent, hand`link, hand`key, node`key
    {
      && HungHere()
      && RadixShape.Valid(keyBits, plan.shape)
      && InHand(hand)
      && RadixShape.SlotFor(keyBits, plan.shape, hand.key, i)
      && node.key == key
      && (hand != node ==>
            && node in plan.posOf && key < hand.key && i > 1 && key <= plan.shape[i / 2]
            && (i in plan.shape ==> hand.key < plan.shape[i]))
    }

    /** `hand` belongs below position `i`. */
    ghost predicate Passing(node: Node, key: nat, hand: Node, i: nat)
      reads this`plan, anchor`root
      reads plan.posOf.Keys`child, plan.posOf.Keys`parent, plan.posOf.Keys`link, plan.posOf.Keys`key
      reads hand`child, hand`parent, hand`link, hand`key, node`key
    {
      && HungHere()
      && RadixShape.Valid(keyBits, plan.shape)
      && InHand(hand)
      && i in plan.shape && plan.shape[i] < hand.key < Pow2(keyBits) && OnPath(keyBits, hand.key, i)
      && node.key == key
      && (hand != node ==>
            && node in plan.posOf && key < hand.key && key <= plan.shape[i]
            && (2 * i in plan.shape ==> hand.key < plan.shape[2 * i])
            && (2 * i + 1 in plan.shape ==> hand.key < plan.shape[2 * i + 1]))
    }

    lemma ChildKeysLarger(i: nat)
      requires RadixShape.Valid(keyBits, plan.shape) && i in plan.shape
      ensures i >= 1 && plan.shape[i] < Pow2(keyBits) && OnPath(keyBits, plan.shape[i], i)
      ensures 2 * i in plan.shape ==> plan.shape[i] < plan.shape[2 * i]
      ensures 2 * i + 1 in plan.shape ==> plan.shape[i] < plan.shape[2 * i + 1]
    {
      Halves(i);
      assert RadixShape.NodeOk(keyBits, plan.shape, i);
      assert 2 * i in plan.shape ==> RadixShape.NodeOk(keyBits, plan.shape, 2 * i);
      assert 2 * i + 1 in plan.shape ==> RadixShape.NodeOk(keyBits, plan.shape, 2 * i + 1);
    }

    /** The positions that carry nodes are those of the shape. */
    lemma Domains(i: nat)
      requires HungHere()
      ensures plan.at.Keys == plan.shape.Keys
      ensures i in plan.at ==> plan.at[i] in plan.posOf
    {
    }

    lemma AtTop(node: Node, key: nat)
      requires HungHere() && RadixShape.Valid(keyBits, plan.shape) && key < Pow2(keyBits)
      requires InHand(node) && node.key == key
      ensures Descending(node, key, node, 1)
    {
    }

    /** A node in hand that is smaller than the node at `i` changes places with it. */
    method Displace(ghost node: Node, ghost key: nat, hand: Node, cur: Node, ghost i: nat)
      requires Descending(node, key, hand, i) && i in plan.at && cur == plan.at[i]
      requires key <= hand.key < cur.key
      modifies this`plan, anchor`root
      modifies plan.posOf.Keys`child, plan.posOf.Keys`parent, plan.posOf.Keys`link
      modifies hand`child, hand`parent, hand`link
      ensures Passing(node, key, cur, i) && plan.Get(i) == hand
      ensures plan.posOf.Keys == old(plan).posOf.Keys + {hand} - {cur}
    {
      hide Hung, RadixShape.Valid;
      HungNode(anchor, plan, i);
      ChildKeysLarger(i);
      RadixShape.StoreKeepsValid(keyBits, plan.shape, hand.key, i);
      plan := TakeOver(anchor, plan, i, cur, hand);
    }

    method Pass(ghost node: Node, ghost key: nat, hand: Node, cur: Node, ghost i: nat)
      returns (cur': Node, hand': Node)
      requires Descending(node, key, hand, i) && i in plan.at && cur == plan.at[i]
      requires cur.key != key && key <= hand.key
      modifies this`plan, anchor`root
      modifies plan.posOf.Keys`child, plan.posOf.Keys`parent, plan.posOf.Keys`link
      modifies hand`child, hand`parent, hand`link
      ensures Passing(node, key, hand', i) && plan.Get(i) == cur'
      ensures plan.posOf.Keys + {hand'} == old(plan).posOf.Keys + {hand}
      ensures hand' == node ==> hand == node && plan.shape == old(plan.shape)
      ensures hand == node && hand' != node ==> key !in RadixShape.Keys(old(plan).shape)
    {
      HungNode(anchor, plan, i);
      if hand == node && hand.key < cur.key {
        RadixShape.KeyAbsent(keyBits, plan.shape, key, i);
      }
      if hand.key < cur.key {
        Displace(node, key, hand, cur, i);
        cur', hand' := hand, cur;
      } else {
        cur', hand' := cur, hand;
      }
    }

    /** One level further down behind a smaller node. */
    lemma Advance(node: Node, key: nat, hand: Node, i: nat) returns (i': nat)
      requires Passing(node, key, hand, i)
      ensures i' / 2 == i && i' > 1 && i in plan.at
      ensures Depth(i) < keyBits && Depth(i') == Depth(i) + 1
      ensures Descending(node, key, hand, i')
      ensures plan.Slot(anchor, i') == ChildOf(plan.at[i], BitOf(hand.key, keyBits - Depth(i) - 1))
      ensures Slotted(plan.Slot(anchor, i')) && Deref(plan.Slot(anchor, i')) == plan.Get(i')
    {
      HungNode(anchor, plan, i);
      RadixShape.NextSlot(keyBits, plan.shape, hand.key, i);
      var take := BitOf(hand.key, keyBits - Depth(i) - 1);
      i' := 2 * i + take;
      assert i' / 2 == i;
      SlotHolds(anchor, plan, i');
    }

    /** The loop of Insert: afterwards either the primary node of `key` has been met and the
        tree is as before, or `hand` may be attached to the empty slot `link`. */
    method Descend(node: Node, key: nat) returns (hand: Node, link: Link, parent: Node?, ghost i: nat)
      requires HungHere() && RadixShape.Valid(keyBits, plan.shape) && key < Pow2(keyBits)
      requires InHand(node) && node.key == key
      modifies this`plan, anchor`root
      modifies plan.posOf.Keys`child, plan.posOf.Keys`parent, plan.posOf.Keys`link
      modifies node`child, node`parent, node`link
      ensures Descending(node, key, hand, i)
      ensures link == plan.Slot(anchor, i) && Slotted(link) && Deref(link) == plan.Get(i)
      ensures parent == plan.Parent(i)
      ensures plan.posOf.Keys + {hand} == old(plan).posOf.Keys + {node}
      ensures hand == node || hand in old(plan).posOf
      ensures i in plan.at ==>
                hand == node && plan.at[i] in plan.posOf && plan.at[i].key == key
                && plan.posOf.Keys == old(plan).posOf.Keys
      ensures i in plan.at <==> key in RadixShape.Keys(old(plan).shape)
    {
      hide RadixShape.Valid, RadixShape.SlotFor, Follows;
      hand := node;
      parent := null;
      link := RootOf(anchor);
      var bit := keyBits;
      i := 1;
      SlotHolds(anchor, plan, i);
      AtTop(node, key);
      ghost var all := plan.posOf.Keys + {node};
      while Deref(link) != null && Deref(link).key != key
        invariant Descending(node, key, hand, i)
        invariant link == plan.Slot(anchor, i) && Slotted(link) && Deref(link) == plan.Get(i)
        invariant parent == plan.Parent(i)
        invariant bit == keyBits - Depth(i)
        invariant plan.posOf.Keys + {hand} == all
        invariant if hand == node then plan.shape == old(plan).shape else key !in RadixShape.Keys(old(plan).shape)
        modifies this`plan, anchor`root
        modifies all`child, all`parent, all`link
        decreases bit
      {
        var cur := Deref(link);
        cur, hand := Pass(node, key, hand, cur, i);
        ghost var i' := Advance(node, key, hand, i);
        parent := cur;
        bit := bit - 1;
        link := ChildOf(cur, BitOf(hand.key, bit));
        i := i';
      }
      if i in plan.at {
        HungNode(anchor, plan, i);
        assert plan.shape[i] == key;
      } else if hand == node {
        Domains(i);
        RadixShape.KeyAbsent(keyBits, plan.shape, key, i);
      }
    }

    // ----- the buckets

    /** Whatever else changed, the members of this bucket still form the same ring. */
    twostate predicate RingKept(k: nat)
      reads this, nodes
    {
      && k in old(buckets) && k in buckets && buckets[k] == old(buckets)[k] && old(buckets)[k] != []
      && buckets[k][0] in primaries
      && forall j :: 0 <= j < |buckets[k]| ==> var n := buckets[k][j];
           && n in nodes && n.next == old(n.next) && n.prev == old(n.prev) && n.key == old(n.key)
           && (j > 0 ==> n !in primaries
                         && n.child == old(n.child) && n.parent == old(n.parent) && n.link == old(n.link))
    }

    twostate lemma BucketKept(k: nat)
      requires old(BucketOk(k)) && RingKept(k)
      ensures BucketOk(k)
    {
      hide Wired, RadixShape.Valid, Follows, After, Before, Distinct, Blank;
    }

    /** A new key gets a bucket of its own. */
    twostate lemma FiledAlone(node: Node)
      requires old(Indexed()) && node !in old(nodes) && nodes == old(nodes) + {node}
      requires primaries == old(primaries) + {node}
      requires node.key !in old(buckets) && buckets == old(buckets)[node.key := [node]] && Ring([node])
      requires forall n :: n in old(nodes) ==>
                 && n.next == old(n.next) && n.prev == old(n.prev) && n.key == old(n.key)
                 && (n !in old(primaries) ==>
                       n.child == old(n.child) && n.parent == old(n.parent) && n.link == old(n.link))
      ensures Indexed()
    {
      hide Wired, RadixShape.Valid, Follows, After, Before, Distinct;
      forall k | k in buckets ensures BucketOk(k) {
        if k != node.key {
          assert old(BucketOk(k));
          BucketKept(k);
        }
      }
      forall n | n in nodes ensures Filed(n) {
        assert n != node ==> old(Filed(n));
      }
    }

    /** An equal key joins the end of the ring of its primary node. */
    twostate predicate Joins(node: Node)
      reads this, nodes, node
    {
      var k := node.key;
      && old(Indexed()) && node !in old(nodes) && nodes == old(nodes) + {node} && primaries == old(primaries)
      && Blank(node) && old(BucketOk(k))
      && buckets == old(buckets)[k := old(buckets)[k] + [node]] && Ring(buckets[k])
      && forall n :: n in old(nodes) ==>
           && n.key == old(n.key) && n.child == old(n.child) && n.parent == old(n.parent) && n.link == old(n.link)
           && (n.key != k ==> n.next == old(n.next) && n.prev == old(n.prev))
    }

    twostate lemma OthersUnjoined(node: Node)
      requires Joins(node)
      ensures forall k :: k in buckets && k != node.key ==> BucketOk(k)
    {
      hide Wired, RadixShape.Valid, Follows, Ring, Blank;
      forall k | k in buckets && k != node.key ensures BucketOk(k) {
        assert old(BucketOk(k));
        BucketKept(k);
      }
    }

    twostate lemma BucketJoined(node: Node)
      requires Joins(node)
      ensures BucketOk(node.key)
    {
      hide Wired, RadixShape.Valid, Follows, Ring;
      var key := node.key;
      assert old(BucketOk(key));
    }

    twostate lemma FiledBehind(node: Node)
      requires Joins(node)
      ensures Indexed()
    {
      hide Wired, RadixShape.Valid, Follows, Ring, Blank, BucketOk;
      OthersUnjoined(node);
      BucketJoined(node);
      forall n | n in nodes ensures Filed(n) {
        assert n != node ==> old(Filed(n));
      }
    }

    method Join(node: Node, head: Node)
      requires Indexed() && head in primaries && head.key == node.key && node !in nodes && Blank(node)
      modifies this`nodes, this`buckets, nodes`next, nodes`prev, node`next, node`prev
      ensures Indexed()
      ensures nodes == old(nodes) + {node}
      ensures node.key in old(buckets) && buckets == old(buckets)[node.key := old(buckets)[node.key] + [node]]
    {
      PrimaryIsFirst(head);
      ghost var s := buckets[node.key];
      assert BucketOk(node.key);
      assert s[0] == head && s[|s| - 1] in nodes && node !in s;
      assert s[0].prev == s[|s| - 1];
      ListInsert(node, head);
      RingInserted((s, node));
      nodes := nodes + {node};
      buckets := buckets[node.key := s + [node]];
      FiledBehind(node);
    }

    ghost method FileNew(node: Node)
      requires Indexed() && node !in nodes && node.key !in buckets && Ring([node])
      modifies this`nodes, this`buckets, this`primaries
      ensures Indexed()
      ensures nodes == old(nodes) + {node} && primaries == old(primaries) + {node}
      ensures buckets == old(buckets)[node.key := [node]]
    {
      nodes := nodes + {node};
      primaries := primaries + {node};
      buckets := buckets[node.key := [node]];
      FiledAlone(node);
    }

    /** The end of Insert at an empty slot. */
    method Attach(hand: Node, link: Link, parent: Node?, ghost i: nat)
      requires HungHere() && RadixShape.Valid(keyBits, plan.shape) && i !in plan.at && InHand(hand)
      requires RadixShape.SlotFor(keyBits, plan.shape, hand.key, i)
      requires link == plan.Slot(anchor, i) && parent == plan.Parent(i)
      modifies this`plan, anchor`root
      modifies plan.posOf.Keys`child, hand`child, hand`parent, hand`link
      ensures HungHere() && RadixShape.Valid(keyBits, plan.shape)
      ensures plan.posOf.Keys == old(plan).posOf.Keys + {hand}
    {
      hide Follows, RadixShape.Valid;
      Domains(i);
      RadixShape.StoreKeepsValid(keyBits, plan.shape, hand.key, i);
      plan := Hang(anchor, plan, i, hand, link, parent);
    }

    ghost function Appending(bs: map<nat, seq<Node>>, key: nat, node: Node): map<nat, seq<Node>> {
      if key in bs then bs[key := bs[key] + [node]] else bs[key := [node]]
    }

    method InitNode(node: Node, key: nat)
      requires Valid() && node !in nodes
      modifies node`next, node`prev, node`child, node`parent, node`link, node`key
      ensures Valid() && Blank(node) && node.key == key && Ring([node])
    {
      hide Wired, RadixShape.Valid, Follows, BucketOk, Filed;
      Clear(node);
      node.key := key;
      ListInit(node);
    }

    /** The last step of Insert: behind the equal primary node, or into the empty slot. */
    method Finish(node: Node, hand: Node, link: Link, parent: Node?, ghost i: nat)
      requires HungHere() && RadixShape.Valid(keyBits, plan.shape) && InHand(hand) && Indexed()
      requires RadixShape.SlotFor(keyBits, plan.shape, hand.key, i)
      requires link == plan.Slot(anchor, i) && Slotted(link) && Deref(link) == plan.Get(i)
      requires parent == plan.Parent(i)
      requires i in plan.at ==>
                 hand == node && node !in nodes && primaries == plan.posOf.Keys && plan.at[i].key == node.key
      requires i !in plan.at ==> node in nodes && primaries == plan.posOf.Keys + {hand}
      modifies this`plan, this`buckets, this`nodes, anchor`root
      modifies primaries`child, primaries`parent, primaries`link, node`child, node`parent, node`link
      modifies nodes`next, nodes`prev, node`next, node`prev
      ensures Valid()
      ensures nodes == old(nodes) + {node}
      ensures if old(i in plan.at)
              then node.key in old(buckets) && buckets == old(buckets)[node.key := old(buckets)[node.key] + [node]]
              else buckets == old(buckets)
    {
      hide Follows, BucketOk, Filed, RadixShape.Valid, RadixShape.SlotFor;
      var cur := Deref(link);
      if cur != null {
        Domains(i);
        Join(hand, cur);
      } else {
        Attach(hand, link, parent, i);
      }
    }

    /** Insert after the node is initialised and, for a new key, filed. */
    method Place(node: Node, key: nat, ghost isNew: bool)
      requires HungHere() && RadixShape.Valid(keyBits, plan.shape) && key < Pow2(keyBits)
      requires Indexed() && InHand(node) && node.key == key && (isNew <==> key !in RadixShape.Keys(plan.shape))
      requires if isNew then node in nodes && primaries == plan.posOf.Keys + {node}
               else node !in nodes && primaries == plan.posOf.Keys
      modifies this`plan, this`buckets, this`nodes, anchor`root
      modifies primaries`child, primaries`parent, primaries`link, node`child, node`parent, node`link
      modifies nodes`next, nodes`prev, node`next, node`prev
      ensures Valid()
      ensures nodes == old(nodes) + {node}
      ensures if isNew then buckets == old(buckets)
              else key in old(buckets) && buckets == old(buckets)[key := old(buckets)[key] + [node]]
    {
      hide Indexed, HungHere, RadixShape.Valid, RadixShape.SlotFor;
      var hand, link, parent, i := Descend(node, key);
      assert i in plan.at <==> !isNew;
      Finish(node, hand, link, parent, i);
    }

    method Insert(node: Node, key: nat)
      requires Valid() && node !in nodes && key < Pow2(keyBits)
      modifies this`plan, this`buckets, this`nodes, this`primaries, anchor`root
      modifies nodes`child, nodes`parent, nodes`link, nodes`next, nodes`prev
      modifies node`child, node`parent, node`link, node`next, node`prev, node`key
      ensures Valid()
      ensures node.key == key
      ensures nodes == old(nodes) + {node}
      ensures buckets == Appending(old(buckets), key, node)
    {
      InitNode(node, key);
      StoredKeys();
      ghost var isNew := key !in buckets;
      if isNew {
        FileNew(node);
      }
      Place(node, key, isNew);
    }

    // ----- removal

    /** The position of `n` in its bucket. */
    ghost function IndexIn(s: seq<Node>, n: Node): (j: nat)
      requires n in s
      ensures j < |s| && s[j] == n
    {
      var j :| 0 <= j < |s| && s[j] == n;
      j
    }

    ghost function Removing(bs: map<nat, seq<Node>>, key: nat, node: Node): map<nat, seq<Node>>
      requires key in bs && node in bs[key]
    {
      if |bs[key]| == 1 then bs - {key} else bs[key := Without(bs[key], IndexIn(bs[key], node))]
    }

    /** Nothing is left of a bucket of one. */
    twostate lemma UnfiledAlone(node: Node)
      requires old(Indexed()) && node in old(nodes) && nodes == old(nodes) - {node}
      requires node in old(primaries) && primaries == old(primaries) - {node}
      requires node.key == old(node.key) && node.key in old(buckets)
      requires old(buckets)[node.key] == [node] && buckets == old(buckets) - {node.key}
      requires forall n :: n in nodes ==> n.next == old(n.next) && n.prev == old(n.prev) && n.key == old(n.key)
      requires forall n :: n in nodes - primaries ==>
                 n.child == old(n.child) && n.parent == old(n.parent) && n.link == old(n.link)
      ensures Indexed()
    {
      hide Wired, RadixShape.Valid, Follows, After, Before, Distinct;
      forall k | k in buckets ensures BucketOk(k) {
        assert old(BucketOk(k));
        BucketKept(k);
      }
      forall n | n in nodes ensures Filed(n) {
        assert old(Filed(n));
      }
    }

    /** One node less in the ring of a bucket; the second node may have become primary. */
    twostate predicate Leaves(node: Node)
      reads this, nodes, node
    {
      var k := node.key;
      && old(Indexed()) && node in old(nodes) && nodes == old(nodes) - {node} && k == old(node.key)
      && old(BucketOk(k)) && |old(buckets)[k]| > 1
      && (exists j: nat :: j < |old(buckets)[k]| && old(buckets)[k][j] == node && LeavesAt(node, j))
      && (forall n :: n in nodes ==>
            n.key == old(n.key) && (n.key != k ==> n.next == old(n.next) && n.prev == old(n.prev)))
      && (forall n :: n in nodes - primaries ==>
            n.child == old(n.child) && n.parent == old(n.parent) && n.link == old(n.link))
    }

    twostate predicate LeavesAt(node: Node, j: nat)
      requires var k := node.key; old(BucketOk(k)) && j < |old(buckets)[k]| && |old(buckets)[k]| > 1
      requires old(nodes) <= nodes + {node}
      reads this, nodes, node
    {
      var k := node.key;
      && buckets == old(buckets)[k := Without(old(buckets)[k], j)] && Ring(buckets[k])
      && primaries == (if j == 0 then old(primaries) + {old(buckets)[k][1]} - {node} else old(primaries))
    }

    twostate lemma OthersUnleft(node: Node)
      requires Leaves(node)
      ensures forall k :: k in buckets && k != node.key ==> BucketOk(k)
    {
      hide Wired, RadixShape.Valid, Follows, Ring, Blank;
      assert old(BucketOk(node.key));
      forall k | k in buckets && k != node.key ensures BucketOk(k) {
        assert old(BucketOk(k));
        BucketKept(k);
      }
    }

    twostate lemma BucketLeft(node: Node)
      requires Leaves(node)
      ensures BucketOk(node.key)
    {
      hide Wired, RadixShape.Valid, Follows;
      assert old(BucketOk(node.key));
    }

    twostate lemma UnfiledOne(node: Node)
      requires Leaves(node)
      ensures Indexed()
    {
      hide Wired, RadixShape.Valid, Follows, Ring, Blank;
      OthersUnleft(node);
      BucketLeft(node);
      var key := node.key;
      assert old(BucketOk(key));
      var j: nat :| j < |old(buckets)[key]| && old(buckets)[key][j] == node && LeavesAt(node, j);
      forall n | n in nodes ensures Filed(n) {
        assert old(Filed(n));
        if n.key == key {
          var i :| 0 <= i < |old(buckets)[key]| && old(buckets)[key][i] == n;
          assert buckets[key][if i < j then i else i - 1] == n;
        }
      }
    }

    /** A node that is alone on its list is the only one of its key and hangs on the tree. */
    lemma Lone(node: Node)
      requires Indexed() && node in nodes
      ensures node.key in buckets && node in buckets[node.key] && node.next != null && node.prev != null
      ensures node.next == node <==> buckets[node.key] == [node]
      ensures node.next == node ==> node in primaries
    {
      assert Filed(node);
      assert BucketOk(node.key);
      var s := buckets[node.key];
      var j := IndexIn(s, node);
      assert s[j].next == s[After(|s|, j)] && s[j].prev == s[Before(|s|, j)];
    }

    ghost method UnfileLone(node: Node)
      requires Indexed() && node in nodes && node in primaries && node.key in buckets && buckets[node.key] == [node]
      modifies this`buckets, this`nodes, this`primaries
      ensures Indexed()
      ensures nodes == old(nodes) - {node} && primaries == old(primaries) - {node}
      ensures buckets == old(buckets) - {node.key}
    {
      nodes := nodes - {node};
      primaries := primaries - {node};
      buckets := buckets - {node.key};
      UnfiledAlone(node);
    }

    method SinkOut(node: Node)
      requires HungHere() && RadixShape.Valid(keyBits, plan.shape) && node in plan.posOf
      modifies this`plan, anchor`root
      modifies plan.posOf.Keys`child, plan.posOf.Keys`parent, plan.posOf.Keys`link
      ensures HungHere() && RadixShape.Valid(keyBits, plan.shape)
      ensures plan.posOf.Keys == old(plan).posOf.Keys - {node}
    {
      assert plan.Seated(node);
      RadixShape.ValidForgets(keyBits, plan.shape, plan.posOf[node]);
      plan := RemoveAlone(anchor, plan, plan.posOf[node], node, keyBits);
    }

    method PromoteNext(node: Node, next: Node?)
      requires HungHere() && RadixShape.Valid(keyBits, plan.shape) && node in plan.posOf
      requires next != null && next !in plan.posOf && Blank(next) && next.key == node.key
      modifies this`plan, anchor`root
      modifies plan.posOf.Keys`child, plan.posOf.Keys`parent, plan.posOf.Keys`link
      modifies Opt(next)`child, Opt(next)`parent, Opt(next)`link
      ensures HungHere() && RadixShape.Valid(keyBits, plan.shape)
      ensures plan.posOf.Keys == old(plan).posOf.Keys + {next} - {node}
    {
      assert plan.Seated(node);
      plan := StepUp(anchor, plan, plan.posOf[node], node, next);
    }

    method RemoveLone(node: Node)
      requires Valid() && node in primaries && node.key in buckets && buckets[node.key] == [node]
      modifies this`plan, this`buckets, this`nodes, this`primaries, anchor`root
      modifies primaries`child, primaries`parent, primaries`link
      ensures Valid()
      ensures nodes == old(nodes) - {node}
      ensures buckets == old(buckets) - {node.key}
    {
      hide BucketOk, Filed, HungHere, RadixShape.Valid;
      UnfileLone(node);
      SinkOut(node);
    }

    method OffTheList(node: Node, ghost s: seq<Node>, ghost j: nat)
      requires Ring(s) && j < |s| && |s| > 1 && s[j] == node
      modifies s`next, s`prev
      ensures Ring(Without(s, j))
    {
      RingAround(s, j);
      ListRemove(node);
      RingWithout((s, j));
    }

    /** A primary node with others of its key hands its place in the tree on. */
    method OffTheTree(node: Node, ghost j: nat)
      requires Valid() && node in nodes && node.key in buckets
      requires j < |buckets[node.key]| && buckets[node.key][j] == node && |buckets[node.key]| > 1
      modifies this`plan, anchor`root, nodes`child, nodes`parent, nodes`link
      ensures HungHere() && RadixShape.Valid(keyBits, plan.shape) && plan.posOf.Keys <= nodes
      ensures plan.posOf.Keys == if j == 0 then primaries + {buckets[node.key][1]} - {node} else primaries
      ensures forall n :: n in nodes - plan.posOf.Keys - {node} ==>
                n.child == old(n.child) && n.parent == old(n.parent) && n.link == old(n.link)
    {
      hide RadixShape.Valid, HungHere, Ring, BucketOk, Filed;
      OnTree(node, j);
      if node.link != Unlinked {
        PromoteNext(node, node.next);
      }
    }

    /** The pointers of a removal from a ring of several nodes. */
    method Unhook(node: Node, ghost j: nat)
      requires Valid() && node in nodes && node.key in buckets
      requires j < |buckets[node.key]| && buckets[node.key][j] == node && |buckets[node.key]| > 1
      modifies this`plan, anchor`root
      modifies nodes`child, nodes`parent, nodes`link, buckets[node.key]`next, buckets[node.key]`prev
      ensures HungHere() && RadixShape.Valid(keyBits, plan.shape)
      ensures plan.posOf.Keys == if j == 0 then primaries + {buckets[node.key][1]} - {node} else primaries
      ensures forall n :: n in nodes - plan.posOf.Keys - {node} ==>
                n.child == old(n.child) && n.parent == old(n.parent) && n.link == old(n.link)
      ensures Ring(Without(buckets[node.key], j))
    {
      hide RadixShape.Valid, HungHere, Ring, Filed;
      assert BucketOk(node.key);
      OffTheTree(node, j);
      OffTheList(node, buckets[node.key], j);
    }

    /** A node that shares its key comes off the list; a primary one hands its place on. */
    method RemoveListed(node: Node, ghost j: nat)
      requires Valid() && node in nodes && node.key in buckets
      requires j < |buckets[node.key]| && buckets[node.key][j] == node && |buckets[node.key]| > 1
      modifies this`plan, this`buckets, this`nodes, this`primaries, anchor`root
      modifies nodes`child, nodes`parent, nodes`link, nodes`next, nodes`prev
      ensures Valid()
      ensures nodes == old(nodes) - {node}
      ensures buckets == old(buckets)[node.key := Without(old(buckets)[node.key], j)]
    {
      hide RadixShape.Valid, HungHere, Ring, Blank, Filed;
      assert BucketOk(node.key);
      ghost var s := buckets[node.key];
      Unhook(node, j);
      nodes := nodes - {node};
      buckets := buckets[node.key := Without(s, j)];
      primaries := if j == 0 then primaries + {s[1]} - {node} else primaries;
      assert LeavesAt(node, j);
      UnfiledOne(node);
    }

    /** Only the first node of a bucket hangs on the tree; its successor is off the tree. */
    lemma OnTree(node: Node, j: nat)
      requires Valid() && node in nodes && node.key in buckets
      requires j < |buckets[node.key]| && buckets[node.key][j] == node && |buckets[node.key]| > 1
      ensures node in primaries <==> j == 0
      ensures node.link != Unlinked <==> j == 0
      ensures j == 0 ==> var next := buckets[node.key][1];
                         node.next == next && next in nodes && next !in primaries && Blank(next) && next.key == node.key
    {
      assert BucketOk(node.key);
      RingAround(buckets[node.key], j);
      if j == 0 {
        assert plan.Seated(node);
        HungNode(anchor, plan, plan.posOf[node]);
      }
    }

    lemma RingAround(s: seq<Node>, j: nat)
      requires Ring(s) && j < |s| && |s| > 1
      ensures s[j].next == s[After(|s|, j)] && s[j].prev == s[Before(|s|, j)]
      ensures s[j].next != s[j] && s[j].prev != s[j]
    {
    }

    method Remove(node: Node)
      requires Valid() && node in nodes
      modifies this`plan, this`buckets, this`nodes, this`primaries, anchor`root
      modifies nodes`child, nodes`parent, nodes`link, nodes`next, nodes`prev
      ensures Valid()
      ensures nodes == old(nodes) - {node}
      ensures node.key in old(buckets) && node in old(buckets)[node.key]
      ensures buckets == Removing(old(buckets), node.key, node)
    {
      Lone(node);
      if node.next == node {
        RemoveLone(node);
      } else {
        RemoveListed(node, IndexIn(buckets[node.key], node));
      }
    }

    // ----- what the operations undo

    lemma IndexOfLast(s: seq<Node>, n: Node)
      requires n !in s
      ensures IndexIn(s + [n], n) == |s| && Without(s + [n], |s|) == s
    {
      var t := s + [n];
      assert t[|s|] == n;
      assert forall j :: 0 <= j < |s| ==> t[j] == s[j] && t[j] in s;
    }

    lemma RemovingUndoesAppending(bs: map<nat, seq<Node>>, key: nat, node: Node)
      requires key in bs ==> bs[key] != [] && node !in bs[key]
      ensures var bs' := Appending(bs, key, node);
              key in bs' && node in bs'[key] && Removing(bs', key, node) == bs
    {
      var bs' := Appending(bs, key, node);
      if key in bs {
        assert bs'[key][|bs[key]|] == node;
        IndexOfLast(bs[key], node);
      } else {
        assert bs'[key][0] == node;
      }
    }

    /** Inserting a node and removing it again restores the buckets and the very shape. */
    method InsertThenRemove(node: Node, key: nat)
      requires Valid() && node !in nodes && key < Pow2(keyBits)
      modifies this`plan, this`buckets, this`nodes, this`primaries, anchor`root
      modifies nodes`child, nodes`parent, nodes`link, nodes`next, nodes`prev
      modifies node`child, node`parent, node`link, node`next, node`prev, node`key
      ensures Valid()
      ensures buckets == old(buckets) && nodes == old(nodes)
      ensures plan.shape == old(plan).shape
    {
      hide Wired, RadixShape.Valid, Follows, Filed;
      StoredKeys();
      assert key in buckets ==> BucketOk(key);
      RemovingUndoesAppending(buckets, key, node);
      Insert(node, key);
      Remove(node);
      StoredKeys();
      RadixShape.Canonical(keyBits, plan.shape, old(plan).shape);
    }
  }
}
