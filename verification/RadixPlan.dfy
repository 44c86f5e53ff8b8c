/** Plans of a radix tree, and pointers that follow a plan.

    A plan says which node belongs at which position and which key it holds.  `Hung` says
    that the pointers in the heap are the ones of a plan.  The methods here perform one
    piece of pointer surgery each and return the plan that the pointers follow then. */
module RadixPlan {
  import opened BitPaths
  import opened RadixNodes
  import RadixShape

  // ----- plans

  datatype Plan = Plan(at: map<nat, Node>, posOf: map<Node, nat>, shape: RadixShape.Shape) {

    /** `n` is planned for the position that `posOf` names. */
    ghost predicate Seated(n: Node) {
      n in posOf && posOf[n] in at && at[posOf[n]] == n
    }

    /** `posOf` is the inverse of `at`, and positions are closed under going up. */
    ghost predicate Ok() {
      && at.Keys == shape.Keys
      && (forall i {:trigger at[i]} :: i in at ==>
            i >= 1 && at[i] in posOf && posOf[at[i]] == i && (i > 1 ==> i / 2 in at))
      && (forall n {:trigger Seated(n)} :: n in posOf ==> Seated(n))
    }

    ghost function Get(i: nat): Node? {
      if i in at then at[i] else null
    }

    /** The address of the pointer to position `i`. */
    ghost function Slot(t: Anchor, i: nat): Link {
      if i == 1 then RootOf(t) else if i / 2 in at then ChildOf(at[i / 2], i % 2) else Unlinked
    }

    ghost function Parent(i: nat): Node? {
      if i == 1 then null else Get(i / 2)
    }

    ghost function Put(i: nat, n: Node, key: nat): Plan {
      Plan(at[i := n], posOf[n := i], shape[i := key])
    }

    ghost function Replace(i: nat, n: Node, key: nat): Plan
      requires i in at
    {
      Plan(at[i := n], (posOf - {at[i]})[n := i], shape[i := key])
    }

    ghost function Swap(v: nat, w: nat): Plan
      requires v in at && w in at && v in shape && w in shape
    {
      Plan(at[v := at[w]][w := at[v]], posOf[at[w] := v][at[v] := w], RadixShape.Swapped(shape, v, w))
    }

    ghost function Cut(i: nat): Plan
      requires i in at
    {
      Plan(at - {i}, posOf - {at[i]}, shape - {i})
    }

    lemma EmptySlot(i: nat)
      requires Ok() && i !in at && i >= 1
      ensures 2 * i !in at && 2 * i + 1 !in at
    {
      var c0, c1 := Get(2 * i), Get(2 * i + 1);
      assert (2 * i) / 2 == i && (2 * i + 1) / 2 == i;
    }

    lemma PutOk(i: nat, n: Node, key: nat)
      requires Ok() && i !in at && i >= 1 && (i > 1 ==> i / 2 in at) && n !in posOf
      ensures Put(i, n, key).Ok()
    {
      forall m | m in Put(i, n, key).posOf ensures Put(i, n, key).Seated(m) {
        assert m != n ==> Seated(m);
      }
    }

    /** What a new node at the free position `i` means for the pointers at position `j`. */
    lemma PutAround(t: Anchor, i: nat, n: Node, key: nat, j: nat)
      requires Ok() && i !in at && i >= 1 && 2 * i !in at && 2 * i + 1 !in at && (j in at || j == i)
      ensures j >= 1
      ensures var pl' := Put(i, n, key);
              && j in pl'.at && j in pl'.shape && pl'.at[j] == (if j == i then n else at[j])
              && pl'.shape[j] == (if j == i then key else shape[j])
              && pl'.Get(2 * j) == (if 2 * j == i then n else Get(2 * j))
              && pl'.Get(2 * j + 1) == (if 2 * j + 1 == i then n else Get(2 * j + 1))
              && pl'.Parent(j) == Parent(j) && pl'.Slot(t, j) == Slot(t, j)
    {
    }

    lemma ReplaceOk(i: nat, n: Node, key: nat)
      requires Ok() && i in at && n !in posOf
      ensures Replace(i, n, key).Ok()
      ensures Replace(i, n, key).posOf.Keys == posOf.Keys + {n} - {at[i]}
    {
      forall m | m in Replace(i, n, key).posOf ensures Replace(i, n, key).Seated(m) {
        assert m != n ==> Seated(m);
      }
    }

    lemma SwapOk(v: nat, w: nat)
      requires Ok() && v in at && w in at && v != w
      ensures Swap(v, w).Ok()
      ensures Swap(v, w).at.Keys == at.Keys && Swap(v, w).posOf.Keys == posOf.Keys
    {
      forall m | m in Swap(v, w).posOf ensures Swap(v, w).Seated(m) {
        assert Seated(m);
      }
    }

    lemma SwapRoot(v: nat, w: nat)
      requires v in at && w in at && v in shape && w in shape && w > 1
      ensures Swap(v, w).Get(1) == if v == 1 then at[w] else Get(1)
    {
    }

    /** Node `at[i]` is the one at position `k` only if the positions agree. */
    lemma Same(i: nat, k: nat)
      requires Ok() && i in at
      ensures at[i] == Get(k) <==> i == k
    {
    }

    /** What a swap of `v` with its child `w` means for the pointers at another position. */
    lemma SwapAround(t: Anchor, v: nat, w: nat, i: nat)
      requires Ok() && v in at && w in at && w / 2 == v && i in at && i != v && i != w
      ensures var pl', c, p := Swap(v, w), at[w], at[v];
              && i in pl'.at && pl'.at[i] == at[i] && pl'.shape[i] == shape[i]
              && pl'.Get(2 * i) == (if 2 * i == v then c else Get(2 * i))
              && pl'.Get(2 * i + 1) == (if 2 * i + 1 == v then c else Get(2 * i + 1))
              && pl'.Parent(i) == (if i / 2 == v then c else if i / 2 == w then p else Parent(i))
              && pl'.Slot(t, i) == (if i / 2 == v then ChildOf(c, i % 2)
                                    else if i / 2 == w then ChildOf(p, i % 2) else Slot(t, i))
    {
    }

    /** What a swap of `v` with its child `w` means for the pointers at these two. */
    lemma SwapEnds(t: Anchor, v: nat, w: nat)
      requires Ok() && v in at && w in at && w / 2 == v
      ensures v >= 1 && v in shape && w in shape
      ensures var pl', c, p := Swap(v, w), at[w], at[v];
              && v in pl'.at && w in pl'.at && pl'.at[v] == c && pl'.at[w] == p
              && pl'.shape[v] == shape[w] && pl'.shape[w] == shape[v]
              && pl'.Get(2 * v) == (if 2 * v == w then p else Get(2 * v))
              && pl'.Get(2 * v + 1) == (if 2 * v + 1 == w then p else Get(2 * v + 1))
              && pl'.Get(2 * w) == Get(2 * w) && pl'.Get(2 * w + 1) == Get(2 * w + 1)
              && pl'.Parent(v) == Parent(v) && pl'.Slot(t, v) == Slot(t, v)
              && pl'.Parent(w) == c && pl'.Slot(t, w) == ChildOf(c, w % 2)
    {
    }

    lemma CutOk(i: nat)
      requires Ok() && i in at && 2 * i !in at && 2 * i + 1 !in at
      ensures Cut(i).Ok()
    {
      var pl' := Cut(i);
      forall j {:trigger pl'.at[j]} | j in pl'.at
        ensures j >= 1 && pl'.at[j] in pl'.posOf && pl'.posOf[pl'.at[j]] == j && (j > 1 ==> j / 2 in pl'.at)
      {
        assert at[j] in posOf && posOf[at[j]] == j;
        assert j / 2 == i ==> j == 2 * i || j == 2 * i + 1;
      }
      forall m | m in pl'.posOf ensures pl'.Seated(m) {
        assert Seated(m);
      }
    }
  }

  // ----- pointers that follow a plan

  /** In snapshot `s` the node at position `i` has the key and the pointers that the plan
      prescribes. */
  ghost predicate Wired(s: Snapshot, t: Anchor, pl: Plan, i: nat) {
    && i in pl.at && pl.at[i] in s && i in pl.shape
    && s[pl.at[i]] == Ptrs(Pair(pl.Get(2 * i), pl.Get(2 * i + 1)), pl.Parent(i), pl.Slot(t, i), pl.shape[i])
  }

  ghost predicate Follows(s: Snapshot, t: Anchor, pl: Plan) {
    && pl.Ok()
    && s.Keys == pl.posOf.Keys
    && (forall i {:trigger Wired(s, t, pl, i)} :: i in pl.at ==> Wired(s, t, pl, i))
  }

  lemma WiredAt(s: Snapshot, t: Anchor, pl: Plan, i: nat)
    requires Follows(s, t, pl) && i in pl.at
    ensures pl.Ok() && Wired(s, t, pl, i)
  {
  }

  ghost predicate Hung(t: Anchor, pl: Plan)
    reads t`root, pl.posOf.Keys`child, pl.posOf.Keys`parent, pl.posOf.Keys`link, pl.posOf.Keys`key
  {
    t.root == pl.Get(1) && Follows(Snap(pl.posOf.Keys), t, pl)
  }

  lemma Halves(i: nat)
    ensures i == 2 * (i / 2) + i % 2 && (i % 2 == 0 || i % 2 == 1)
    ensures (2 * i) / 2 == i && (2 * i) % 2 == 0 && (2 * i + 1) / 2 == i && (2 * i + 1) % 2 == 1
  {
  }

  /** The pointers of a hung node, read off the heap. */
  lemma HungNode(t: Anchor, pl: Plan, i: nat)
    requires Hung(t, pl) && i in pl.at
    ensures i >= 1 && pl.at[i] in pl.posOf && i in pl.shape && pl.at[i].key == pl.shape[i]
    ensures pl.at[i].child == Pair(pl.Get(2 * i), pl.Get(2 * i + 1))
    ensures pl.at[i].parent == pl.Parent(i) && pl.at[i].link == pl.Slot(t, i)
  {
    assert Wired(Snap(pl.posOf.Keys), t, pl, i);
  }

  // ----- replacing

  lemma ReplacedWire(s: Snapshot, s': Snapshot, t: Anchor, pl: Plan, p: nat, repl: Node, i: nat)
    requires Follows(s, t, pl) && p in pl.at && repl !in pl.posOf && i in pl.at
    requires ReplaceEffect(s, s', pl.at[p], repl)
    ensures Wired(s', t, pl.Replace(p, repl, s'[repl].key), i)
  {
    assert Wired(s, t, pl, p) && Wired(s, t, pl, i);
    Halves(i);
    Halves(p);
  }

  lemma ReplacedFollows(s: Snapshot, s': Snapshot, t: Anchor, pl: Plan, p: nat, repl: Node)
    requires Follows(s, t, pl) && p in pl.at && repl !in pl.posOf
    requires ReplaceEffect(s, s', pl.at[p], repl)
    ensures Follows(s' - {pl.at[p]}, t, pl.Replace(p, repl, s'[repl].key))
    ensures pl.Replace(p, repl, s'[repl].key).Get(1) == if p == 1 then repl else pl.Get(1)
    ensures pl.Replace(p, repl, s'[repl].key).posOf.Keys == pl.posOf.Keys + {repl} - {pl.at[p]}
  {
    var pl', s'' := pl.Replace(p, repl, s'[repl].key), s' - {pl.at[p]};
    pl.ReplaceOk(p, repl, s'[repl].key);
    forall i | i in pl'.at ensures Wired(s'', t, pl', i) {
      ReplacedWire(s, s', t, pl, p, repl, i);
    }
  }

  // ----- hanging at an empty slot

  lemma PutFollows(s: Snapshot, s': Snapshot, t: Anchor, pl: Plan, i: nat, n: Node)
    requires Follows(s, t, pl) && i !in pl.at && i >= 1 && (i > 1 ==> i / 2 in pl.at) && n !in pl.posOf
    requires 2 * i !in pl.at && 2 * i + 1 !in pl.at
    requires HangEffect(s, s', n, pl.Slot(t, i), pl.Parent(i))
    ensures Follows(s', t, pl.Put(i, n, s'[n].key))
  {
    var pl' := pl.Put(i, n, s'[n].key);
    pl.PutOk(i, n, s'[n].key);
    forall j | j in pl'.at ensures Wired(s', t, pl', j) {
      PutWire(s, s', t, pl, i, n, j);
    }
  }

  lemma PutWire(s: Snapshot, s': Snapshot, t: Anchor, pl: Plan, i: nat, n: Node, j: nat)
    requires Follows(s, t, pl) && i !in pl.at && i >= 1 && (i > 1 ==> i / 2 in pl.at) && n !in pl.posOf
    requires 2 * i !in pl.at && 2 * i + 1 !in pl.at && (j in pl.at || j == i)
    requires HangEffect(s, s', n, pl.Slot(t, i), pl.Parent(i))
    ensures Wired(s', t, pl.Put(i, n, s'[n].key), j)
  {
    assert j != i ==> Wired(s, t, pl, j);
    pl.PutAround(t, i, n, s'[n].key, j);
    Halves(i);
    Halves(j);
    if j != i {
      assert pl.at[j] != n;
      if i > 1 { pl.Same(j, i / 2); }
    }
  }

  // ----- swapping a node with its child

  lemma MovedDown(s: Snapshot, s': Snapshot, t: Anchor, pl: Plan, pl': Plan, v: nat, b: nat)
    requires Follows(s, t, pl) && b < 2 && v in pl.at && 2 * v + b in pl.at && pl' == pl.Swap(v, 2 * v + b)
    requires SwapEffect(s, s', pl.at[v], pl.at[2 * v + b], b)
    ensures Wired(s', t, pl', 2 * v + b)
  {
    WiredAt(s, t, pl, v);
    WiredAt(s, t, pl, 2 * v + b);
    Halves(v);
    pl.SwapEnds(t, v, 2 * v + b);
  }

  lemma MovedUp(s: Snapshot, s': Snapshot, t: Anchor, pl: Plan, pl': Plan, v: nat, b: nat)
    requires Follows(s, t, pl) && b < 2 && v in pl.at && 2 * v + b in pl.at && pl' == pl.Swap(v, 2 * v + b)
    requires SwapEffect(s, s', pl.at[v], pl.at[2 * v + b], b)
    ensures Wired(s', t, pl', v)
  {
    WiredAt(s, t, pl, v);
    WiredAt(s, t, pl, 2 * v + b);
    Halves(v);
    pl.SwapEnds(t, v, 2 * v + b);
  }

  /** Which of the swap's neighbours the node at position `i` is. */
  ghost predicate Seen(s: Snapshot, pl: Plan, v: nat, b: nat, i: nat)
    requires b < 2 && v in pl.at && 2 * v + b in pl.at && i in pl.at
  {
    var n, p, c := pl.at[i], pl.at[v], pl.at[2 * v + b];
    && n in s && n != p && n != c && p in s && c in s
    && (n == s[p].child.Kid(1 - b) <==> i / 2 == v)
    && (n == s[c].child.Kid(0) <==> i == 2 * (2 * v + b))
    && (n == s[c].child.Kid(1) <==> i == 2 * (2 * v + b) + 1)
    && (s[p].link.ChildOf? && n == s[p].link.owner <==> v > 1 && i == v / 2)
    && (s[p].link.ChildOf? ==> s[p].link.slot == v % 2)
    && (i / 2 == v ==> i % 2 == 1 - b)
  }

  lemma SwapSeen(s: Snapshot, t: Anchor, pl: Plan, v: nat, b: nat, i: nat)
    requires Follows(s, t, pl) && b < 2 && v in pl.at && 2 * v + b in pl.at
    requires i in pl.at && i != v && i != 2 * v + b
    ensures Seen(s, pl, v, b, i)
  {
    var w := 2 * v + b;
    assert Wired(s, t, pl, v) && Wired(s, t, pl, w);
    Halves(i);
    pl.Same(i, 2 * v + 1 - b);
    pl.Same(i, 2 * w);
    pl.Same(i, 2 * w + 1);
    pl.Same(i, v / 2);
  }

  lemma OtherPtrs(s: Snapshot, s': Snapshot, t: Anchor, pl: Plan, v: nat, b: nat, i: nat)
    requires b < 2 && v in pl.at && 2 * v + b in pl.at && i in pl.at && i >= 1
    requires SwapEffect(s, s', pl.at[v], pl.at[2 * v + b], b)
    requires Wired(s, t, pl, i) && Seen(s, pl, v, b, i)
    ensures var p, c := pl.at[v], pl.at[2 * v + b];
            s'[pl.at[i]] == Ptrs(Pair(if 2 * i == v then c else pl.Get(2 * i),
                                      if 2 * i + 1 == v then c else pl.Get(2 * i + 1)),
                                 if i / 2 == v then c else if i / 2 == 2 * v + b then p else pl.Parent(i),
                                 if i / 2 == v then ChildOf(c, i % 2)
                                 else if i / 2 == 2 * v + b then ChildOf(p, i % 2) else pl.Slot(t, i),
                                 pl.shape[i])
  {
    Halves(i);
    Halves(v);
  }

  lemma OtherWire(s: Snapshot, s': Snapshot, t: Anchor, pl: Plan, pl': Plan, v: nat, b: nat, i: nat)
    requires Follows(s, t, pl) && b < 2 && v in pl.at && 2 * v + b in pl.at && pl' == pl.Swap(v, 2 * v + b)
    requires SwapEffect(s, s', pl.at[v], pl.at[2 * v + b], b)
    requires i in pl.at && i != v && i != 2 * v + b
    ensures Wired(s', t, pl', i)
  {
    assert Wired(s, t, pl, i);
    pl.SwapAround(t, v, 2 * v + b, i);
    SwapSeen(s, t, pl, v, b, i);
    OtherPtrs(s, s', t, pl, v, b, i);
  }

  lemma SwapKeeps(s: Snapshot, s': Snapshot, p: Node, c: Node, b: nat)
    requires b < 2 && SwapEffect(s, s', p, c, b)
    ensures s'.Keys == s.Keys
  {
  }

  lemma SwappedFollows(s: Snapshot, s': Snapshot, t: Anchor, pl: Plan, pl': Plan, v: nat, b: nat)
    requires Follows(s, t, pl) && b < 2 && v in pl.at && 2 * v + b in pl.at && pl' == pl.Swap(v, 2 * v + b)
    requires pl'.Ok() && pl'.at.Keys == pl.at.Keys && pl'.posOf.Keys == pl.posOf.Keys
    requires SwapEffect(s, s', pl.at[v], pl.at[2 * v + b], b)
    ensures Follows(s', t, pl')
  {
    hide Wired, SwapEffect, Plan.Swap;
    SwapKeeps(s, s', pl.at[v], pl.at[2 * v + b], b);
    MovedDown(s, s', t, pl, pl', v, b);
    MovedUp(s, s', t, pl, pl', v, b);
    forall i | i in pl'.at ensures Wired(s', t, pl', i) {
      if i != v && i != 2 * v + b {
        OtherWire(s, s', t, pl, pl', v, b, i);
      }
    }
  }

  // ----- cutting a leaf

  lemma CutFollows(s: Snapshot, s': Snapshot, t: Anchor, pl: Plan, i: nat)
    requires Follows(s, t, pl) && i in pl.at && 2 * i !in pl.at && 2 * i + 1 !in pl.at
    requires CutEffect(s, s', pl.at[i])
    ensures Follows(s' - {pl.at[i]}, t, pl.Cut(i))
  {
    var pl', s'' := pl.Cut(i), s' - {pl.at[i]};
    pl.CutOk(i);
    forall j | j in pl'.at ensures Wired(s'', t, pl', j) {
      assert Wired(s, t, pl, j) && Wired(s, t, pl, i);
      Halves(i);
      Halves(j);
    }
  }

  // ----- pointer surgery on a hung tree

  lemma PlacedInTree(t: Anchor, pl: Plan, p: nat, repl: Node)
    requires Hung(t, pl) && p in pl.at && repl !in pl.posOf
    ensures Placed(pl.at[p], repl)
    ensures Opt(pl.at[p].child.Kid(0)) + Opt(pl.at[p].child.Kid(1)) + OwnerOf(pl.at[p].link) <= pl.posOf.Keys
    ensures AnchorOf(pl.at[p].link) <= {t} && (p == 1 <==> pl.at[p].link.RootOf?)
  {
    HungNode(t, pl, p);
    Halves(p);
  }

  /** ReplaceNode in the tree: `repl` takes over the position of `orig`. */
  method Substitute(ghost t: Anchor, ghost pl: Plan, ghost p: nat, orig: Node, repl: Node) returns (ghost pl': Plan)
    requires Hung(t, pl) && p in pl.at && pl.at[p] == orig && repl !in pl.posOf && Blank(repl)
    modifies t`root
    modifies pl.posOf.Keys`child, pl.posOf.Keys`parent, pl.posOf.Keys`link, repl`child, repl`parent, repl`link
    ensures pl' == pl.Replace(p, repl, repl.key)
    ensures pl'.posOf.Keys == pl.posOf.Keys + {repl} - {orig}
    ensures Hung(t, pl')
  {
    PlacedInTree(t, pl, p, repl);
    pl' := pl.Replace(p, repl, repl.key);
    ghost var region := pl.posOf.Keys;
    ghost var s := Snap(region);
    ReplaceNode(orig, repl, region);
    ghost var s' := Snap(region + {repl});
    ReplacedFollows(s, s', t, pl, p, repl);
    assert s' - {orig} == Snap(pl'.posOf.Keys);
  }

  /** The swap of Insert: `hand` takes the place of `cur`, which comes off the tree blank. */
  method TakeOver(ghost t: Anchor, ghost pl: Plan, ghost p: nat, cur: Node, hand: Node) returns (ghost pl': Plan)
    requires Hung(t, pl) && p in pl.at && pl.at[p] == cur && hand !in pl.posOf && Blank(hand)
    modifies t`root
    modifies pl.posOf.Keys`child, pl.posOf.Keys`parent, pl.posOf.Keys`link, hand`child, hand`parent, hand`link
    ensures Hung(t, pl') && Blank(cur)
    ensures pl'.shape == pl.shape[p := hand.key] && pl'.Get(p) == hand
    ensures pl'.posOf.Keys == pl.posOf.Keys + {hand} - {cur}
  {
    HungNode(t, pl, p);
    pl' := Substitute(t, pl, p, cur, hand);
    Clear(cur);
  }

  /** Removal of a primary node whose key has other nodes: the next one becomes primary. */
  method StepUp(ghost t: Anchor, ghost pl: Plan, ghost p: nat, node: Node, next: Node) returns (ghost pl': Plan)
    requires Hung(t, pl) && p in pl.at && pl.at[p] == node && next !in pl.posOf && Blank(next) && next.key == node.key
    modifies t`root
    modifies pl.posOf.Keys`child, pl.posOf.Keys`parent, pl.posOf.Keys`link, next`child, next`parent, next`link
    ensures Hung(t, pl') && pl'.shape == pl.shape
    ensures pl'.posOf.Keys == pl.posOf.Keys + {next} - {node}
  {
    hide Wired, Follows;
    HungNode(t, pl, p);
    pl' := Substitute(t, pl, p, node, next);
    node.link := Unlinked;
    assert pl'.shape == pl.shape;
  }

  lemma SlotHolds(t: Anchor, pl: Plan, i: nat)
    requires Hung(t, pl) && i >= 1 && (i > 1 ==> i / 2 in pl.at)
    ensures Slotted(pl.Slot(t, i)) && Deref(pl.Slot(t, i)) == pl.Get(i)
    ensures OwnerOf(pl.Slot(t, i)) <= pl.posOf.Keys && AnchorOf(pl.Slot(t, i)) <= {t}
  {
    hide Wired, Follows;
    Halves(i);
    if i > 1 {
      HungNode(t, pl, i / 2);
    }
  }

  method Hang(ghost t: Anchor, ghost pl: Plan, ghost i: nat, hand: Node, link: Link, parent: Node?)
    returns (ghost pl': Plan)
    requires Hung(t, pl) && i !in pl.at && i >= 1 && (i > 1 ==> i / 2 in pl.at)
    requires hand !in pl.posOf && Blank(hand) && link == pl.Slot(t, i) && parent == pl.Parent(i)
    modifies t`root, pl.posOf.Keys`child, hand`parent, hand`link
    ensures pl'.shape == pl.shape[i := hand.key] && pl'.posOf.Keys == pl.posOf.Keys + {hand}
    ensures Hung(t, pl')
  {
    SlotHolds(t, pl, i);
    pl.EmptySlot(i);
    pl' := pl.Put(i, hand, hand.key);
    ghost var region := pl.posOf.Keys;
    ghost var s := Snap(region);
    HangNode(hand, link, parent, region);
    PutFollows(s, Snap(region + {hand}), t, pl, i, hand);
    assert region + {hand} == pl'.posOf.Keys;
  }

  lemma PairedInTree(t: Anchor, pl: Plan, v: nat, b: nat)
    requires Hung(t, pl) && b < 2 && v in pl.at && 2 * v + b in pl.at
    ensures var p, c := pl.at[v], pl.at[2 * v + b];
            && Paired(p, c, b)
            && Opt(p.child.Kid(1 - b)) + Opt(c.child.Kid(0)) + Opt(c.child.Kid(1)) <= pl.posOf.Keys
            && OwnerOf(p.link) <= pl.posOf.Keys && AnchorOf(p.link) <= {t} && (v == 1 <==> p.link.RootOf?)
  {
    HungNode(t, pl, v);
    HungNode(t, pl, 2 * v + b);
    Halves(v);
  }

  lemma HungOk(t: Anchor, pl: Plan)
    requires Hung(t, pl)
    ensures pl.Ok() && pl.at.Keys == pl.shape.Keys && 0 !in pl.at && Follows(Snap(pl.posOf.Keys), t, pl)
  {
  }

  /** The pointers of the exchange of the nodes at `v` and at slot `b` below it. */
  method ExchangePointers(ghost t: Anchor, ghost pl: Plan, ghost v: nat, ghost b: nat, p: Node, c: Node)
    requires Hung(t, pl) && b < 2 && v in pl.at && 2 * v + b in pl.at && pl.at[v] == p && pl.at[2 * v + b] == c
    modifies t`root, pl.posOf.Keys`child, pl.posOf.Keys`parent, pl.posOf.Keys`link
    ensures SwapEffect(old(Snap(pl.posOf.Keys)), Snap(pl.posOf.Keys), p, c, b)
    ensures t.root == if v == 1 then c else old(t.root)
  {
    hide Wired, Follows, SwapEffect, Paired, Plan.Ok;
    HungOk(t, pl);
    PairedInTree(t, pl, v, b);
    SwapParentWithChild(p, c, b, pl.posOf.Keys);
  }

  /** A node and its child exchange their positions; no other node moves. */
  method Exchange(ghost t: Anchor, ghost pl: Plan, ghost v: nat, ghost w: nat, p: Node, c: Node)
    returns (ghost pl': Plan)
    requires Hung(t, pl) && v in pl.at && w in pl.at && pl.at[v] == p && pl.at[w] == c
    requires w == 2 * v || w == 2 * v + 1
    modifies t`root, pl.posOf.Keys`child, pl.posOf.Keys`parent, pl.posOf.Keys`link
    ensures v in pl.shape && w in pl.shape && pl' == pl.Swap(v, w)
    ensures Hung(t, pl') && pl'.posOf.Keys == pl.posOf.Keys
  {
    hide Wired, Follows, SwapEffect;
    ghost var b, s := w - 2 * v, Snap(pl.posOf.Keys);
    HungOk(t, pl);
    ExchangePointers(t, pl, v, b, p, c);
    pl.SwapOk(v, w);
    pl.SwapRoot(v, w);
    pl' := pl.Swap(v, w);
    SwappedFollows(s, Snap(pl.posOf.Keys), t, pl, pl', v, b);
  }

  method Cut(ghost t: Anchor, ghost pl: Plan, ghost i: nat, leaf: Node) returns (ghost pl': Plan)
    requires Hung(t, pl) && i in pl.at && pl.at[i] == leaf && 2 * i !in pl.at && 2 * i + 1 !in pl.at
    modifies t`root, pl.posOf.Keys`child
    ensures pl'.shape == pl.shape - {i} && pl'.posOf.Keys == pl.posOf.Keys - {leaf}
    ensures Hung(t, pl')
  {
    HungNode(t, pl, i);
    SlotHolds(t, pl, i);
    Halves(i);
    pl' := pl.Cut(i);
    ghost var region := pl.posOf.Keys;
    ghost var s := Snap(region);
    CutLeaf(leaf, region);
    ghost var s' := Snap(region);
    CutFollows(s, s', t, pl, i);
    assert s' - {leaf} == Snap(pl'.posOf.Keys);
  }

  /** Removal of a node that is alone with its key: while it has a child it changes places
      with the smaller one, and as a leaf it is cut off.  On the way down the tree is out
      of order at the sinking node only. */
  method RemoveAlone(ghost t: Anchor, ghost pl: Plan, ghost v: nat, node: Node, ghost bits: nat)
    returns (ghost pl': Plan)
    requires Hung(t, pl) && v in pl.at && pl.at[v] == node && RadixShape.ValidBut(bits, pl.shape, v)
    modifies t`root, pl.posOf.Keys`child, pl.posOf.Keys`parent, pl.posOf.Keys`link
    ensures Hung(t, pl') && RadixShape.Valid(bits, pl'.shape)
    ensures pl'.posOf.Keys == pl.posOf.Keys - {node}
    decreases bits - Level(v)
  {
    HungNode(t, pl, v);
    var leastChild := if node.child.Kid(0) != null then node.child.Kid(0) else node.child.Kid(1);
    if leastChild == null {
      RadixShape.CutKeepsValid(bits, pl.shape, v);
      pl' := Cut(t, pl, v, node);
    } else {
      ghost var w := if node.child.Kid(0) != null then 2 * v else 2 * v + 1;
      RadixShape.SinkKeepsValid(bits, pl.shape, v, w);
      ghost var pl1 := Exchange(t, pl, v, w, node, leastChild);
      pl' := RemoveAlone(t, pl1, w, node, bits);
    }
  }

  ghost function Level(i: nat): nat {
    if i >= 1 then Depth(i) else 0
  }
}
