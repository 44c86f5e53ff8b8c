/** Layouts of a reserved range: what a list of blocks looks like from outside.

    A layout is sound when its extents tile the range exactly and no two neighbours are both
    free.  Carving and freeing keep it sound, and freeing undoes carving. */
module BlockLayout {

  datatype Extent = Extent(start: nat, size: nat, free: bool) {
    function End(): nat {
      start + size
    }
  }

  type Layout = seq<Extent>

  /** The extent at `i` meets its neighbours, or the ends of the range. */
  ghost predicate Fits(l: Layout, base: nat, total: nat, i: int) {
    && 0 <= i < |l| && l[i].size > 0
    && (if i == 0 then l[i].start == base else l[i - 1].End() == l[i].start && !(l[i - 1].free && l[i].free))
    && (if i + 1 == |l| then l[i].End() == base + total
        else l[i].End() == l[i + 1].start && !(l[i].free && l[i + 1].free))
  }

  ghost predicate Sound(l: Layout, base: nat, total: nat) {
    && |l| > 0
    && forall i {:trigger Fits(l, base, total, i)} :: 0 <= i < |l| ==> Fits(l, base, total, i)
  }

  lemma WholeSound(base: nat, total: nat)
    requires total > 0
    ensures Sound([Extent(base, total, true)], base, total)
  {
    assert Fits([Extent(base, total, true)], base, total, 0);
  }

  lemma {:induction false} InOrder(l: Layout, base: nat, total: nat, i: int, j: int)
    requires Sound(l, base, total) && 0 <= i < j < |l|
    ensures l[i].End() <= l[j].start
  {
    assert Fits(l, base, total, j) && Fits(l, base, total, j - 1);
    if i < j - 1 {
      InOrder(l, base, total, i, j - 1);
    }
  }

  lemma Inside(l: Layout, base: nat, total: nat, i: int)
    requires Sound(l, base, total) && 0 <= i < |l|
    ensures base <= l[i].start < l[i].End() <= base + total
  {
    assert Fits(l, base, total, i) && Fits(l, base, total, 0) && Fits(l, base, total, |l| - 1);
    if i > 0 { InOrder(l, base, total, 0, i); }
    if i < |l| - 1 { InOrder(l, base, total, i, |l| - 1); }
  }

  /** Two extents that share an address are the same. */
  lemma Unique(l: Layout, base: nat, total: nat, i: int, j: int, a: nat)
    requires Sound(l, base, total) && 0 <= i < |l| && 0 <= j < |l|
    requires l[i].start <= a < l[i].End() && l[j].start <= a < l[j].End()
    ensures i == j
  {
    if i < j {
      InOrder(l, base, total, i, j);
    } else if j < i {
      InOrder(l, base, total, j, i);
    }
  }

  // ----- used space

  ghost function Used(l: Layout): nat {
    if l == [] then 0 else Used(l[..|l| - 1]) + if l[|l| - 1].free then 0 else l[|l| - 1].size
  }

  lemma UsedWhole(base: nat, total: nat)
    ensures Used([Extent(base, total, true)]) == 0
  {
    UsedOne(Extent(base, total, true));
  }

  lemma {:induction false} UsedSplits(a: Layout, b: Layout)
    ensures Used(a + b) == Used(a) + Used(b)
  {
    if b == [] {
      assert a + b == a;
    } else {
      assert (a + b)[..|a + b| - 1] == a + b[..|b| - 1];
      UsedSplits(a, b[..|b| - 1]);
    }
  }

  lemma UsedAround(a: Layout, m: Layout, b: Layout)
    ensures Used(a + m + b) == Used(a) + Used(m) + Used(b)
  {
    UsedSplits(a + m, b);
    UsedSplits(a, m);
  }

  // ----- allocation

  ghost predicate FreeFit(l: Layout, i: int, size: nat) {
    0 <= i < |l| && l[i].free && l[i].size >= size
  }

  /** The extent at `i` is a smallest free one that is large enough. */
  ghost predicate BestFit(l: Layout, i: int, size: nat) {
    && FreeFit(l, i, size)
    && forall j {:trigger FreeFit(l, j, size)} :: FreeFit(l, j, size) ==> l[i].size <= l[j].size
  }

  ghost function Carved(l: Layout, i: int, size: nat): Layout
    requires 0 <= i < |l| && size <= l[i].size
  {
    l[..i] + Halves(l[i], size) + l[i + 1..]
  }

  /** The allocated front of an extent, and its free rest if there is one. */
  function Halves(e: Extent, size: nat): Layout
    requires size <= e.size
  {
    if size == e.size then [Extent(e.start, size, false)]
    else [Extent(e.start, size, false), Extent(e.start + size, e.size - size, true)]
  }

  /** What an allocation may do to a layout: carve `size` bytes from the front of a smallest
      free extent that is large enough; or nothing, if there is none, or if and only if it has
      to be split and no block can be had for the rest. */
  ghost predicate AllocStep(l: Layout, l': Layout, size: nat, callocOk: bool, addr: nat, i: int) {
    if addr == 0 then
      && l' == l
      && ((forall j :: !FreeFit(l, j, size)) || (!callocOk && BestFit(l, i, size) && l[i].size > size))
    else
      && BestFit(l, i, size) && (callocOk || l[i].size == size)
      && addr == l[i].start && l' == Carved(l, i, size)
  }

  lemma CarvedSound(l: Layout, base: nat, total: nat, i: int, size: nat)
    requires Sound(l, base, total) && FreeFit(l, i, size) && size > 0
    ensures Sound(Carved(l, i, size), base, total)
  {
    var l' := Carved(l, i, size);
    var d := |l'| - |l|;
    forall j | 0 <= j < |l'| ensures Fits(l', base, total, j) {
      assert Fits(l, base, total, i);
      if j < i {
        assert Fits(l, base, total, j);
      } else if j > i + d {
        assert Fits(l, base, total, j - d);
      }
    }
  }

  lemma CarvedUsed(l: Layout, i: int, size: nat)
    requires FreeFit(l, i, size)
    ensures Used(Carved(l, i, size)) == Used(l) + size
  {
    UsedAround(l[..i], Halves(l[i], size), l[i + 1..]);
    UsedAround(l[..i], [l[i]], l[i + 1..]);
    assert l == l[..i] + [l[i]] + l[i + 1..];
    var e := l[i];
    if size < e.size {
      UsedSplits([Extent(e.start, size, false)], [Extent(e.start + size, e.size - size, true)]);
    }
  }

  // ----- freeing

  ghost function Freed(l: Layout, i: int): Layout
    requires 0 <= i < |l|
  {
    l[..From(l, i)] + [Merged(l, i)] + l[To(l, i)..]
  }

  /** The stretch of extents that becomes one when the one at `i` is freed. */
  ghost function From(l: Layout, i: int): (k: int)
    requires 0 <= i < |l|
    ensures i - 1 <= k <= i && 0 <= k
  {
    if i > 0 && l[i - 1].free then i - 1 else i
  }

  ghost function To(l: Layout, i: int): (k: int)
    requires 0 <= i < |l|
    ensures i + 1 <= k <= i + 2 && k <= |l|
  {
    if i + 1 < |l| && l[i + 1].free then i + 2 else i + 1
  }

  ghost function Merged(l: Layout, i: int): Extent
    requires 0 <= i < |l|
  {
    var prev := if From(l, i) < i then l[i - 1].size else 0;
    var next := if To(l, i) > i + 1 then l[i + 1].size else 0;
    Extent(l[From(l, i)].start, prev + l[i].size + next, true)
  }

  /** Merging with the extent before and then with the one behind. */
  lemma MergedTwice(l: Layout, l1: Layout, l2: Layout, i: int, e1: Extent, e2: Extent)
    requires 0 <= i < |l| && e2 == Merged(l, i)
    requires l1 == l[..From(l, i)] + [e1] + l[i + 1..]
    requires var f := From(l, i);
             f + To(l, i) - i <= |l1| && l2 == l1[..f] + [e2] + l1[f + To(l, i) - i..]
    ensures l2 == Freed(l, i)
  {
    var f, t := From(l, i), To(l, i);
    assert l1[f + t - i..] == l[t..];
  }

  /** An allocated extent starts at `addr`. */
  ghost predicate Held(l: Layout, i: int, addr: nat) {
    0 <= i < |l| && l[i].start == addr && !l[i].free
  }

  /** What freeing an address does to a layout: nothing, unless an allocated extent starts
      there. */
  ghost predicate FreeStep(l: Layout, l': Layout, addr: nat, i: int) {
    if exists k :: Held(l, k, addr) then Held(l, i, addr) && l' == Freed(l, i) else l' == l
  }

  /** Only one extent starts at an address. */
  lemma HeldOnce(l: Layout, base: nat, total: nat, i: int, addr: nat)
    requires Sound(l, base, total) && 0 <= i < |l| && l[i].start == addr
    ensures forall k :: Held(l, k, addr) ==> k == i
  {
    forall k | Held(l, k, addr) ensures k == i {
      Inside(l, base, total, i);
      Inside(l, base, total, k);
      Unique(l, base, total, i, k, addr);
    }
  }

  /** The extent at `i` begins where the one before it ends, and ends where the next begins. */
  ghost predicate Meets(l: Layout, i: int) {
    && 0 <= i < |l|
    && (i > 0 ==> l[i - 1].End() == l[i].start)
    && (i + 1 < |l| ==> l[i].End() == l[i + 1].start)
  }

  lemma SoundMeets(l: Layout, base: nat, total: nat, i: int)
    requires Sound(l, base, total) && 0 <= i < |l|
    ensures Meets(l, i)
  {
    assert Fits(l, base, total, i);
  }

  /** The outcome of freeing does not depend on the mark of the extent itself. */
  lemma FreedIgnores(l: Layout, l': Layout, i: int)
    requires 0 <= i < |l| && l' == l[i := l[i].(free := true)]
    ensures Freed(l', i) == Freed(l, i) && Merged(l', i) == Merged(l, i)
    ensures Meets(l', i) <==> Meets(l, i)
  {
  }

  lemma MergedInside(l: Layout, base: nat, total: nat, i: int)
    requires Sound(l, base, total) && 0 <= i < |l| && !l[i].free
    ensures Merged(l, i).size <= total
  {
    FreedSound(l, base, total, i);
    assert Freed(l, i)[From(l, i)] == Merged(l, i);
    Inside(Freed(l, i), base, total, From(l, i));
  }

  /** The extents of the new layout are those before and behind the merged one. */
  lemma FreedAt(l: Layout, i: int, j: int)
    requires 0 <= i < |l| && 0 <= j < |Freed(l, i)|
    ensures From(l, i) < |Freed(l, i)| == |l| - (To(l, i) - From(l, i)) + 1
    ensures Freed(l, i)[j] == if j < From(l, i) then l[j] else if j == From(l, i) then Merged(l, i)
                              else l[j + |l| - |Freed(l, i)|]
  {
  }

  lemma FreedFits(l: Layout, base: nat, total: nat, i: int, j: int)
    requires Sound(l, base, total) && 0 <= i < |l| && !l[i].free && 0 <= j < |Freed(l, i)|
    ensures Fits(Freed(l, i), base, total, j)
  {
    hide Freed;
    assert Fits(l, base, total, i);
    assert i > 0 ==> Fits(l, base, total, i - 1);
    assert i + 1 < |l| ==> Fits(l, base, total, i + 1);
    FreedAt(l, i, j);
    if j > 0 { FreedAt(l, i, j - 1); }
    if j + 1 < |Freed(l, i)| { FreedAt(l, i, j + 1); }
    assert j < From(l, i) ==> Fits(l, base, total, j);
    assert j > From(l, i) ==> Fits(l, base, total, j + |l| - |Freed(l, i)|);
  }

  lemma FreedSound(l: Layout, base: nat, total: nat, i: int)
    requires Sound(l, base, total) && 0 <= i < |l| && !l[i].free
    ensures Sound(Freed(l, i), base, total)
  {
    hide Fits;
    forall j | 0 <= j < |Freed(l, i)| ensures Fits(Freed(l, i), base, total, j) {
      FreedFits(l, base, total, i, j);
    }
  }

  lemma FreedUsed(l: Layout, i: int)
    requires 0 <= i < |l| && !l[i].free
    ensures Used(Freed(l, i)) == Used(l) - l[i].size
  {
    hide Used;
    var f, t := From(l, i), To(l, i);
    UsedAround(l[..f], [Merged(l, i)], l[t..]);
    UsedAround(l[..f], l[f..t], l[t..]);
    assert l == l[..f] + l[f..t] + l[t..];
    UsedMerged(l, i);
    UsedOne(Merged(l, i));
  }

  lemma UsedMerged(l: Layout, i: int)
    requires 0 <= i < |l| && !l[i].free
    ensures Used(l[From(l, i)..To(l, i)]) == l[i].size
  {
    hide Used;
    var f, t := From(l, i), To(l, i);
    UsedAround(l[f..i], [l[i]], l[i + 1..t]);
    assert l[f..t] == l[f..i] + [l[i]] + l[i + 1..t];
    AllFreeUnused(l[f..i]);
    AllFreeUnused(l[i + 1..t]);
    UsedOne(l[i]);
  }

  lemma {:induction false} AllFreeUnused(l: Layout)
    requires forall i :: 0 <= i < |l| ==> l[i].free
    ensures Used(l) == 0
  {
    if l != [] {
      AllFreeUnused(l[..|l| - 1]);
    }
  }

  lemma UsedOne(e: Extent)
    ensures Used([e]) == if e.free then 0 else e.size
  {
    assert [e][..0] == [];
  }

  /** Freeing what was just allocated restores the layout. */
  lemma FreeUndoesAlloc(l: Layout, base: nat, total: nat, i: int, size: nat)
    requires Sound(l, base, total) && FreeFit(l, i, size) && size > 0
    ensures Freed(Carved(l, i, size), i) == l
  {
    assert Fits(l, base, total, i);
    var m := Carved(l, i, size);
    assert From(m, i) == i;
    assert m[i + |m| - |l| + 1..] == l[i + 1..];
    assert Merged(m, i) == l[i];
    assert To(m, i) == i + |m| - |l| + 1;
  }

  lemma CarvedHeld(l: Layout, base: nat, total: nat, i: int, size: nat)
    requires Sound(l, base, total) && FreeFit(l, i, size)
    ensures Held(Carved(l, i, size), i, l[i].start)
  {
  }

  /** The same, of the steps that allocator and caller take. */
  lemma StepsUndo(l: Layout, m: Layout, l': Layout, base: nat, total: nat, i: int, size: nat, addr: nat, j: int)
    requires Sound(l, base, total) && FreeFit(l, i, size) && size > 0 && addr == l[i].start
    requires m == Carved(l, i, size) && FreeStep(m, l', addr, j)
    ensures l' == l
  {
    hide Carved, Freed;
    CarvedSound(l, base, total, i, size);
    CarvedHeld(l, base, total, i, size);
    HeldOnce(m, base, total, i, addr);
    FreeUndoesAlloc(l, base, total, i, size);
  }

  // ----- completeness

  /** No allocated extent meets `[a, a + size)`. */
  ghost predicate Vacant(l: Layout, a: nat, size: nat) {
    forall i :: 0 <= i < |l| && l[i].start < a + size && a < l[i].End() ==> l[i].free
  }

  lemma {:induction false} Locate(l: Layout, base: nat, total: nat, a: nat, n: int) returns (i: int)
    requires Sound(l, base, total) && 0 < n <= |l| && base <= a < l[n - 1].End()
    ensures 0 <= i < n && l[i].start <= a < l[i].End()
  {
    assert Fits(l, base, total, n - 1);
    if l[n - 1].start <= a {
      i := n - 1;
    } else {
      i := Locate(l, base, total, a, n - 1);
    }
  }

  /** A vacant window of the range lies within one free extent, so that a free extent is
      large enough whenever there is room at all. */
  lemma RoomIsInOneExtent(l: Layout, base: nat, total: nat, a: nat, size: nat) returns (i: int)
    requires Sound(l, base, total) && size > 0 && base <= a && a + size <= base + total && Vacant(l, a, size)
    ensures FreeFit(l, i, size) && l[i].start <= a && a + size <= l[i].End()
  {
    assert Fits(l, base, total, |l| - 1);
    i := Locate(l, base, total, a, |l|);
    assert Fits(l, base, total, i);
    if i + 1 < |l| { assert Fits(l, base, total, i + 1); }
  }

  /** There is a large enough free extent exactly when some window of the range is vacant. */
  lemma FitsExactlyWhenVacant(l: Layout, base: nat, total: nat, size: nat)
    requires Sound(l, base, total) && size > 0
    ensures (exists i :: FreeFit(l, i, size))
            <==> (exists a: nat :: base <= a && a + size <= base + total && Vacant(l, a, size))
  {
    if i :| FreeFit(l, i, size) {
      Inside(l, base, total, i);
      forall j | 0 <= j < |l| && l[j].start < l[i].start + size && l[i].start < l[j].End() ensures l[j].free {
        if j < i {
          InOrder(l, base, total, j, i);
        } else if i < j {
          InOrder(l, base, total, i, j);
        }
      }
      assert Vacant(l, l[i].start, size);
    }
    if a: nat :| base <= a && a + size <= base + total && Vacant(l, a, size) {
      var i := RoomIsInOneExtent(l, base, total, a, size);
    }
  }

  /** With nothing allocated one free extent covers the range. */
  lemma AllFreeIsOne(l: Layout, base: nat, total: nat)
    requires Sound(l, base, total) && forall i :: 0 <= i < |l| ==> l[i].free
    ensures l == [Extent(base, total, true)]
  {
    assert Fits(l, base, total, 0);
  }
}
