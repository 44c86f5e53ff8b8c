/** The abstract value of a heap-ordered radix tree: which key sits at which position.

    `Valid` is the tree's representation invariant on values.  The lemmas here are the
    pure half of the pointer methods in RadixTree.dfy: what insertion at a slot,
    replacement in place and sinking a node do to the invariant, why one downward walk
    finds the least key that is large enough, and why the whole shape is determined by
    the set of keys. */
module RadixShape {
  import opened BitPaths

  type Shape = map<nat, nat>

  /** Position `i` holds a key whose path goes through `i`, below a strictly smaller key. */
  predicate NodeOk(bits: nat, s: Shape, i: nat) {
    && i in s
    && i >= 1
    && s[i] < Pow2(bits)
    && OnPath(bits, s[i], i)
    && (i > 1 ==> i / 2 in s && s[i / 2] < s[i])
  }

  ghost predicate Valid(bits: nat, s: Shape) {
    forall i {:trigger NodeOk(bits, s, i)} :: i in s ==> NodeOk(bits, s, i)
  }

  /** The invariant with the key at `v` left out of account: `v` is a node on its way down. */
  predicate NodeOkBut(bits: nat, s: Shape, v: nat, i: nat) {
    && i in s
    && i >= 1
    && Depth(i) <= bits
    && (i != v ==> s[i] < Pow2(bits) && OnPath(bits, s[i], i))
    && (i > 1 ==> i / 2 in s)
    && (i > 1 && i != v && i / 2 != v ==> s[i / 2] < s[i])
    && (i > 1 && i / 2 == v && v > 1 ==> v / 2 in s && s[v / 2] < s[i])
  }

  ghost predicate ValidBut(bits: nat, s: Shape, v: nat) {
    && v in s
    && forall i {:trigger NodeOkBut(bits, s, v, i)} :: i in s ==> NodeOkBut(bits, s, v, i)
  }

  ghost function Keys(s: Shape): set<nat> {
    set i | i in s :: s[i]
  }

  /** The keys stored at or below a position. */
  ghost function Below(s: Shape, i: nat): set<nat> {
    set j | j in s && Above(i, j) :: s[j]
  }

  lemma {:induction false} AncestorsStored(bits: nat, s: Shape, i: nat, j: nat)
    requires Valid(bits, s) && j in s && Above(i, j) && i >= 1
    ensures i in s && s[i] <= s[j]
    ensures i != j ==> s[i] < s[j]
    decreases j
  {
    assert NodeOk(bits, s, j);
    if j > i {
      AncestorsStored(bits, s, i, j / 2);
    }
  }

  lemma {:induction false} KeysDistinct(bits: nat, s: Shape, i: nat, j: nat)
    requires Valid(bits, s) && i in s && j in s && s[i] == s[j]
    ensures i == j
  {
    assert NodeOk(bits, s, i) && NodeOk(bits, s, j);
    PathNested(bits, s[i], i, j);
    if Depth(i) <= Depth(j) {
      AncestorsStored(bits, s, i, j);
    } else {
      AncestorsStored(bits, s, j, i);
    }
  }

  // ----- insertion

  /** `i` is where a key that walked past smaller keys only has to go. */
  ghost predicate SlotFor(bits: nat, s: Shape, key: nat, i: nat) {
    && key < Pow2(bits)
    && OnPath(bits, key, i)
    && (i > 1 ==> i / 2 in s && s[i / 2] < key)
  }

  /** A key that meets an empty slot or a larger key on its path is stored nowhere. */
  lemma {:induction false} KeyAbsent(bits: nat, s: Shape, key: nat, i: nat)
    requires Valid(bits, s) && SlotFor(bits, s, key, i)
    requires i !in s || key < s[i]
    ensures key !in Keys(s)
  {
    if key in Keys(s) {
      var j :| j in s && s[j] == key;
      assert NodeOk(bits, s, j);
      PathNested(bits, key, i, j);
      if Depth(i) <= Depth(j) {
        AncestorsStored(bits, s, i, j);
      } else {
        PathParent(bits, key, i);
        PathNested(bits, key, i / 2, j);
        AncestorsStored(bits, s, j, i / 2);
      }
    }
  }

  lemma {:induction false} StoreKeepsValid(bits: nat, s: Shape, key: nat, i: nat)
    requires Valid(bits, s) && SlotFor(bits, s, key, i)
    requires i !in s || key < s[i]
    ensures Valid(bits, s[i := key])
  {
    var t := s[i := key];
    forall j | j in t ensures NodeOk(bits, t, j) {
      if j != i { assert NodeOk(bits, s, j); }
    }
  }

  /** The next slot down for a key that stays behind a smaller one. */
  lemma {:induction false} NextSlot(bits: nat, s: Shape, key: nat, i: nat)
    requires Valid(bits, s) && i in s && s[i] < key < Pow2(bits) && OnPath(bits, key, i)
    ensures Depth(i) < bits
    ensures SlotFor(bits, s, key, 2 * i + BitOf(key, bits - Depth(i) - 1))
    ensures Depth(2 * i + BitOf(key, bits - Depth(i) - 1)) == Depth(i) + 1
  {
    RoomBelow(bits, s, key, i);
    var b := BitOf(key, bits - Depth(i) - 1);
    PathStep(bits, key, i, b);
    assert (2 * i + b) / 2 == i;
  }

  // ----- removal

  ghost function Swapped(s: Shape, v: nat, w: nat): Shape
    requires v in s && w in s
  {
    s[v := s[w]][w := s[v]]
  }

  lemma {:induction false} ValidForgets(bits: nat, s: Shape, v: nat)
    requires Valid(bits, s) && v in s
    ensures ValidBut(bits, s, v)
  {
    forall i | i in s ensures NodeOkBut(bits, s, v, i) {
      assert NodeOk(bits, s, i);
      if i > 1 && i / 2 == v { assert NodeOk(bits, s, v); }
    }
  }

  /** Swapping the sinking node with child 0, or with child 1 when there is no child 0,
      repairs the invariant above and moves the gap one level down. */
  lemma {:induction false} SinkKeepsValid(bits: nat, s: Shape, v: nat, w: nat)
    requires ValidBut(bits, s, v) && w in s && v >= 1 && (w == 2 * v || w == 2 * v + 1)
    requires w == 2 * v + 1 ==> 2 * v !in s
    ensures ValidBut(bits, Swapped(s, v, w), w)
    ensures Depth(w) == Depth(v) + 1 <= bits
  {
    var t := Swapped(s, v, w);
    assert NodeOkBut(bits, s, v, w) && w / 2 == v;
    forall i | i in t ensures NodeOkBut(bits, t, w, i) {
      SinkNode(bits, s, v, w, i);
    }
  }

  lemma {:induction false} SinkNode(bits: nat, s: Shape, v: nat, w: nat, i: nat)
    requires ValidBut(bits, s, v) && w in s && i in s && v >= 1 && (w == 2 * v || w == 2 * v + 1)
    requires w == 2 * v + 1 ==> 2 * v !in s
    ensures NodeOkBut(bits, Swapped(s, v, w), w, i)
  {
    assert NodeOkBut(bits, s, v, i) && NodeOkBut(bits, s, v, v) && NodeOkBut(bits, s, v, w);
    assert w / 2 == v && w != v;
    PathParent(bits, s[w], w);
    if i == v {
    } else if i == w {
    } else if i / 2 == v {
      assert i == 2 * v || i == 2 * v + 1;
      SiblingsOrdered(bits, s[w], s[i], v);
    } else if i / 2 == w {
      assert i > 1 && i != v;
    }
  }

  lemma {:induction false} CutKeepsValid(bits: nat, s: Shape, v: nat)
    requires ValidBut(bits, s, v) && 2 * v !in s && 2 * v + 1 !in s
    ensures Valid(bits, s - {v})
  {
    var t := s - {v};
    forall i | i in t ensures NodeOk(bits, t, i) {
      assert NodeOkBut(bits, s, v, i);
      assert i == 2 * (i / 2) || i == 2 * (i / 2) + 1;
    }
  }

  // ----- the least key that is large enough

  /** What one downward walk for `key` knows on arrival at position `i`: `f` is the best
      larger key met on the path, `g` the root of the last right subtree walked past
      (0 when there is none).  Every candidate is still below `i`, or is no better. */
  ghost predicate Walk(bits: nat, s: Shape, key: nat, i: nat, f: nat, g: nat) {
    && OnPath(bits, key, i)
    && (f != 0 ==> f in s && key < s[f]
                   && forall j {:trigger s[j]} :: j in s && Above(i, j) ==> s[f] <= s[j])
    && (g != 0 ==> g in s && key < s[g]
                   && forall k: nat :: k < Pow2(bits) && OnPath(bits, k, i) ==> k < s[g])
    && forall j {:trigger s[j]} :: j in s && key <= s[j] ==>
        || Above(i, j)
        || (f != 0 && s[f] <= s[j])
        || (f == 0 && g != 0 && s[g] <= s[j])
  }

  lemma WalkKnows(bits: nat, s: Shape, key: nat, i: nat, f: nat, g: nat)
    requires Walk(bits, s, key, i, f, g)
    ensures OnPath(bits, key, i) && (f != 0 ==> f in s) && (g != 0 ==> g in s)
  {
  }

  lemma {:induction false} WalkStarts(bits: nat, s: Shape, key: nat)
    requires Valid(bits, s)
    ensures Walk(bits, s, key, 1, 0, 0)
  {
    forall j | j in s ensures Above(1, j) {
      assert NodeOk(bits, s, j);
      RootAboveAll(j);
    }
  }

  /** The larger on-path key replaces the best one found when it is smaller. */
  function BetterFound(s: Shape, key: nat, i: nat, f: nat): (r: nat)
    requires i in s && (f != 0 ==> f in s)
    ensures r == i || r == f
  {
    if s[i] > key && (f == 0 || s[i] < s[f]) then i else f
  }

  /** The left turn past an existing right subtree records that subtree. */
  function SkippedRight(s: Shape, i: nat, b: nat, g: nat): nat {
    if b == 0 && 2 * i + 1 in s then 2 * i + 1 else g
  }

  /** What the walk leaves behind when it goes from `i` into slot `b`: the other slot. */
  lemma {:induction false} OtherSide(bits: nat, s: Shape, key: nat, i: nat, b: nat, j: nat)
    requires Valid(bits, s) && key < Pow2(bits) && i >= 1 && b <= 1
    requires OnPath(bits, key, 2 * i + b) && j in s && Above(2 * i + 1 - b, j)
    ensures b == 1 ==> s[j] < key
    ensures b == 0 ==> 2 * i + 1 in s && key < s[2 * i + 1] <= s[j]
  {
    assert NodeOk(bits, s, j);
    PathAbove(bits, s[j], 2 * i + 1 - b, j);
    if b == 1 {
      SiblingsOrdered(bits, s[j], key, i);
    } else {
      AncestorsStored(bits, s, 2 * i + 1, j);
      assert NodeOk(bits, s, 2 * i + 1);
      SiblingsOrdered(bits, key, s[2 * i + 1], i);
    }
  }

  /** A walk past a different key has not used up the bits. */
  lemma {:induction false} RoomBelow(bits: nat, s: Shape, key: nat, i: nat)
    requires Valid(bits, s) && i in s && key < Pow2(bits) && s[i] != key && OnPath(bits, key, i)
    ensures Depth(i) < bits
  {
    assert NodeOk(bits, s, i);
    if Depth(i) == bits {
      FullDepthUnique(bits, key, s[i], i);
    }
  }

  lemma {:induction false} WalkSteps(
      bits: nat, s: Shape, key: nat, i: nat, f: nat, g: nat, i': nat, f': nat, g': nat)
    requires Valid(bits, s) && key < Pow2(bits) && Walk(bits, s, key, i, f, g)
    requires i in s && s[i] != key && Depth(i) < bits
    requires var b := BitOf(key, bits - Depth(i) - 1);
             i' == 2 * i + b && f' == BetterFound(s, key, i, f) && g' == SkippedRight(s, i, b, g)
    ensures Walk(bits, s, key, i', f', g')
    ensures Depth(i') == Depth(i) + 1
  {
    assert NodeOk(bits, s, i);
    var b := BitOf(key, bits - Depth(i) - 1);
    PathStep(bits, key, i, b);
    WalkSkipped(bits, s, key, i, f, g, b, i');
    WalkFound(bits, s, key, i, f, g, i');
    forall j | j in s && key <= s[j] ensures Kept(s, key, i, f, g, b, i', j) {
      WalkKeeps(bits, s, key, i, f, g, b, i', j);
    }
  }

  ghost predicate Kept(s: Shape, key: nat, i: nat, f: nat, g: nat, b: nat, i': nat, j: nat)
    requires i in s && j in s && (f != 0 ==> f in s) && (g != 0 ==> g in s)
  {
    var f', g' := BetterFound(s, key, i, f), SkippedRight(s, i, b, g);
    Above(i', j) || (f' != 0 && s[f'] <= s[j]) || (f' == 0 && g' != 0 && s[g'] <= s[j])
  }

  lemma {:induction false} WalkFound(bits: nat, s: Shape, key: nat, i: nat, f: nat, g: nat, i': nat)
    requires Valid(bits, s) && Walk(bits, s, key, i, f, g) && i in s && i >= 1 && (i' == 2 * i || i' == 2 * i + 1)
    ensures var f' := BetterFound(s, key, i, f);
            f' != 0 ==> f' in s && key < s[f']
                        && forall j {:trigger s[j]} :: j in s && Above(i', j) ==> s[f'] <= s[j]
  {
    forall j | j in s && Above(i', j) ensures Above(i, j) && s[i] <= s[j] {
      AboveSplit(i, j);
      AncestorsStored(bits, s, i, j);
    }
  }

  lemma {:induction false} WalkSkipped(bits: nat, s: Shape, key: nat, i: nat, f: nat, g: nat, b: nat, i': nat)
    requires Valid(bits, s) && key < Pow2(bits) && Walk(bits, s, key, i, f, g) && i in s && i >= 1
    requires b <= 1 && i' == 2 * i + b && OnPath(bits, key, i')
    ensures var g' := SkippedRight(s, i, b, g);
            g' != 0 ==> g' in s && key < s[g']
                        && forall k: nat :: k < Pow2(bits) && OnPath(bits, k, i') ==> k < s[g']
  {
    var g' := SkippedRight(s, i, b, g);
    if g' != 0 {
      forall k: nat | k < Pow2(bits) && OnPath(bits, k, i') ensures k < s[g'] {
        if b == 0 && 2 * i + 1 in s {
          assert NodeOk(bits, s, 2 * i + 1);
          SiblingsOrdered(bits, k, s[2 * i + 1], i);
        } else {
          assert i' / 2 == i;
          PathParent(bits, k, i');
        }
      }
    }
  }

  lemma {:induction false} WalkKeeps(
      bits: nat, s: Shape, key: nat, i: nat, f: nat, g: nat, b: nat, i': nat, j: nat)
    requires Valid(bits, s) && key < Pow2(bits) && Walk(bits, s, key, i, f, g) && i in s && i >= 1
    requires s[i] != key && b <= 1 && i' == 2 * i + b && OnPath(bits, key, i')
    requires j in s && key <= s[j]
    ensures Kept(s, key, i, f, g, b, i', j)
  {
    if Above(i, j) && !Above(i', j) {
      AncestorsStored(bits, s, i, j);
      AboveSplit(i, j);
      if j != i {
        OtherSide(bits, s, key, i, b, j);
      }
    } else if !Above(i, j) && BetterFound(s, key, i, f) == i {
      assert NodeOk(bits, s, i);
    } else if !Above(i, j) && f == 0 && b == 0 && 2 * i + 1 in s {
      assert NodeOk(bits, s, 2 * i + 1);
      assert (2 * i + 1) / 2 == i;
      PathParent(bits, s[2 * i + 1], 2 * i + 1);
    }
  }

  /** Past the end of the path the best candidate kept is the answer, and there is none
      exactly when no stored key is large enough. */
  lemma {:induction false} WalkEnds(bits: nat, s: Shape, key: nat, i: nat, f: nat, g: nat)
    requires Valid(bits, s) && Walk(bits, s, key, i, f, g) && i !in s
    ensures var r := if f != 0 then f else g;
            if r == 0 then forall k :: k in Keys(s) ==> k < key
            else r in s && key <= s[r] && forall k :: k in Keys(s) && key <= k ==> s[r] <= k
  {
    forall j | j in s ensures !Above(i, j) {
      if Above(i, j) { AncestorsStored(bits, s, i, j); }
    }
  }

  // ----- the shape is determined by the keys

  /** The keys of `keys` that a heap-ordered radix tree keeps at or below position `i`:
      at every level the least key stays and the next bit sends the others on.  This
      definition mentions no tree. */
  ghost function Residents(bits: nat, keys: set<nat>, i: nat): set<nat>
    requires i >= 1 && Depth(i) <= bits
  {
    if i == 1 then keys
    else
      var above := Residents(bits, keys, i / 2);
      set k | k in above && BitOf(k, bits - Depth(i)) == i % 2 && exists m :: m in above && m < k
  }

  lemma {:induction false} BelowIsResidents(bits: nat, s: Shape, i: nat)
    requires Valid(bits, s) && i >= 1 && Depth(i) <= bits
    ensures Below(s, i) == Residents(bits, Keys(s), i)
    decreases i
  {
    if i == 1 {
      forall j | j in s ensures Above(1, j) {
        assert NodeOk(bits, s, j);
        RootAboveAll(j);
      }
    } else {
      var p := i / 2;
      var b := i % 2;
      BelowIsResidents(bits, s, p);
      var above := Below(s, p);
      forall k | k in Residents(bits, Keys(s), i) ensures k in Below(s, i) {
        var m :| m in above && m < k;
        ResidentStays(bits, s, i, k, m);
      }
      forall k | k in Below(s, i) ensures k in Residents(bits, Keys(s), i) {
        var j :| j in s && Above(i, j) && s[j] == k;
        assert NodeOk(bits, s, j);
        PathAbove(bits, k, i, j);
        PathParent(bits, k, i);
        AboveTransitiveParent(i, j);
        AncestorsStored(bits, s, p, j);
        assert i <= j;
        assert s[p] in above;
      }
    }
  }

  lemma {:induction false} AboveTransitiveParent(i: nat, j: nat)
    requires i > 1 && Above(i, j)
    ensures Above(i / 2, j)
  {
    assert Above(i / 2, i);
    AboveTransitive(i / 2, i, j);
  }

  lemma {:induction false} ResidentStays(bits: nat, s: Shape, i: nat, k: nat, m: nat)
    requires Valid(bits, s) && i > 1 && Depth(i) <= bits
    requires k in Below(s, i / 2) && m in Below(s, i / 2) && m < k
    requires BitOf(k, bits - Depth(i)) == i % 2
    ensures k in Below(s, i)
  {
    var p := i / 2;
    var j :| j in s && Above(p, j) && s[j] == k;
    var l :| l in s && Above(p, l) && s[l] == m;
    AncestorsStored(bits, s, p, l);
    AboveSplit(p, j);
    assert NodeOk(bits, s, j);
    assert i == 2 * p + i % 2;
    ResidentSide(bits, k, p, j, 2 * p, i);
    ResidentSide(bits, k, p, j, 2 * p + 1, i);
  }

  lemma {:induction false} ResidentSide(bits: nat, k: nat, p: nat, j: nat, c: nat, i: nat)
    requires p >= 1 && (c == 2 * p || c == 2 * p + 1) && (i == 2 * p || i == 2 * p + 1)
    requires OnPath(bits, k, j) && Depth(i) <= bits && BitOf(k, bits - Depth(i)) == i % 2
    ensures Above(c, j) ==> c == i
  {
    if Above(c, j) {
      PathAbove(bits, k, c, j);
      PathParent(bits, k, c);
    }
  }

  /** The shape read off the keys alone: position `i` holds the least resident of `i`. */
  lemma {:induction false} ShapeFromKeys(bits: nat, s: Shape, i: nat)
    requires Valid(bits, s) && i >= 1 && Depth(i) <= bits
    ensures i in s <==> Residents(bits, Keys(s), i) != {}
    ensures i in s ==> s[i] in Residents(bits, Keys(s), i)
                       && forall k :: k in Residents(bits, Keys(s), i) ==> s[i] <= k
  {
    BelowIsResidents(bits, s, i);
    forall k | k in Below(s, i) ensures i in s && s[i] <= k {
      var j :| j in s && Above(i, j) && s[j] == k;
      AncestorsStored(bits, s, i, j);
    }
    if i in s { assert Above(i, i); assert s[i] in Below(s, i); }
  }

  /** Two valid trees over the same keys are the same tree, whatever the order in which
      the keys came and went. */
  lemma {:induction false} Canonical(bits: nat, s: Shape, t: Shape)
    requires Valid(bits, s) && Valid(bits, t) && Keys(s) == Keys(t)
    ensures s == t
  {
    forall i | i in s || i in t ensures i in s && i in t && s[i] == t[i] {
      if i in s { assert NodeOk(bits, s, i); } else { assert NodeOk(bits, t, i); }
      ShapeFromKeys(bits, s, i);
      ShapeFromKeys(bits, t, i);
    }
  }
}
