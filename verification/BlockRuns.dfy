/** Whole runs of allocations and frees over one reserved range.

    The abstract state is the set of live blocks, pairs of an address and a size.  An
    allocation adds a pair, a free takes one away, and the layout follows. */
module BlockRuns {
  import opened BlockLayout

  /** The live blocks of a layout. */
  ghost function Live(l: Layout): set<(nat, nat)> {
    set i | 0 <= i < |l| && !l[i].free :: (l[i].start, l[i].size)
  }

  lemma LiveSplits(a: Layout, b: Layout)
    ensures Live(a + b) == Live(a) + Live(b)
  {
    forall i | 0 <= i < |a| && !a[i].free ensures (a[i].start, a[i].size) in Live(a + b) {
      assert (a + b)[i] == a[i];
    }
    forall i | 0 <= i < |b| && !b[i].free ensures (b[i].start, b[i].size) in Live(a + b) {
      assert (a + b)[|a| + i] == b[i];
    }
    forall i | 0 <= i < |a + b| && !(a + b)[i].free
      ensures ((a + b)[i].start, (a + b)[i].size) in Live(a) + Live(b)
    {
      if i < |a| {
        assert (a + b)[i] == a[i];
      } else {
        assert (a + b)[i] == b[i - |a|];
      }
    }
  }

  lemma LiveAround(a: Layout, m: Layout, b: Layout)
    ensures Live(a + m + b) == Live(a) + Live(m) + Live(b)
  {
    LiveSplits(a + m, b);
    LiveSplits(a, m);
  }

  lemma LiveNone(l: Layout)
    requires forall i :: 0 <= i < |l| ==> l[i].free
    ensures Live(l) == {}
  {
  }

  lemma AllocatedIsLive(l: Layout)
    ensures forall i {:trigger l[i]} :: 0 <= i < |l| && !l[i].free ==> (l[i].start, l[i].size) in Live(l)
  {
  }

  lemma CarvedLive(l: Layout, i: int, size: nat)
    requires FreeFit(l, i, size)
    ensures Live(Carved(l, i, size)) == Live(l) + {(l[i].start, size)}
  {
    var h := Halves(l[i], size);
    LiveAround(l[..i], h, l[i + 1..]);
    LiveAround(l[..i], [l[i]], l[i + 1..]);
    assert l == l[..i] + [l[i]] + l[i + 1..];
    LiveNone([l[i]]);
    assert Live(h) == {(l[i].start, size)} by {
      assert !h[0].free && (h[0].start, h[0].size) == (l[i].start, size);
    }
  }

  lemma FreedLive(l: Layout, base: nat, total: nat, i: int)
    requires Sound(l, base, total) && 0 <= i < |l| && !l[i].free
    ensures Live(Freed(l, i)) == Live(l) - {(l[i].start, l[i].size)}
  {
    var f, t := From(l, i), To(l, i);
    LiveAround(l[..f], [Merged(l, i)], l[t..]);
    LiveAround(l[..f], l[f..t], l[t..]);
    assert l == l[..f] + l[f..t] + l[t..];
    LiveNone([Merged(l, i)]);
    LiveMerged(l, i);
    LiveOnce(l, base, total, i);
  }

  lemma LiveMerged(l: Layout, i: int)
    requires 0 <= i < |l| && !l[i].free
    ensures Live(l[From(l, i)..To(l, i)]) == {(l[i].start, l[i].size)}
  {
    var f, t := From(l, i), To(l, i);
    var m := l[f..t];
    assert m[i - f] == l[i];
    forall j | 0 <= j < |m| && !m[j].free ensures j == i - f {
      assert m[j] == l[f + j];
    }
  }

  lemma LiveOnce(l: Layout, base: nat, total: nat, i: int)
    requires Sound(l, base, total) && 0 <= i < |l| && !l[i].free
    ensures (l[i].start, l[i].size) !in Live(l[..From(l, i)]) + Live(l[To(l, i)..])
  {
    var f, t := From(l, i), To(l, i);
    forall j | 0 <= j < |l| && j != i ensures l[j].start != l[i].start {
      Inside(l, base, total, i);
      Inside(l, base, total, j);
      if l[j].start == l[i].start { Unique(l, base, total, i, j, l[i].start); }
    }
    assert forall j :: 0 <= j < |l[t..]| ==> l[t..][j] == l[t + j];
  }

  // ----- live blocks

  predicate Apart(p: (nat, nat), q: (nat, nat)) {
    p.0 + p.1 <= q.0 || q.0 + q.1 <= p.0
  }

  /** Live blocks lie inside the range and do not overlap. */
  lemma LiveApart(l: Layout, base: nat, total: nat)
    requires Sound(l, base, total)
    ensures forall p :: p in Live(l) ==> base <= p.0 && p.1 > 0 && p.0 + p.1 <= base + total
    ensures forall p, q :: p in Live(l) && q in Live(l) && p != q ==> Apart(p, q)
  {
    forall i | 0 <= i < |l| ensures base <= l[i].start && l[i].size > 0 && l[i].End() <= base + total {
      Inside(l, base, total, i);
    }
    forall p, q | p in Live(l) && q in Live(l) && p != q ensures Apart(p, q) {
      var i :| 0 <= i < |l| && !l[i].free && p == (l[i].start, l[i].size);
      var j :| 0 <= j < |l| && !l[j].free && q == (l[j].start, l[j].size);
      if i < j { InOrder(l, base, total, i, j); }
      if j < i { InOrder(l, base, total, j, i); }
    }
  }

  /** A block carved from a free extent does not overlap the live ones. */
  lemma CarvedApart(l: Layout, base: nat, total: nat, i: int, size: nat)
    requires Sound(l, base, total) && FreeFit(l, i, size)
    ensures forall p :: p in Live(l) ==> Apart(p, (l[i].start, size))
  {
    forall p | p in Live(l) ensures Apart(p, (l[i].start, size)) {
      var j :| 0 <= j < |l| && !l[j].free && p == (l[j].start, l[j].size);
      if i < j { InOrder(l, base, total, i, j); }
      if j < i { InOrder(l, base, total, j, i); }
    }
  }

  /** An address is vacant as far as the live blocks are concerned exactly when it is so for
      the layout. */
  ghost predicate Clear(live: set<(nat, nat)>, a: nat, size: nat) {
    forall p :: p in live ==> Apart(p, (a, size))
  }

  lemma ClearIsVacant(l: Layout, base: nat, total: nat, a: nat, size: nat)
    requires Sound(l, base, total) && size > 0
    ensures Clear(Live(l), a, size) <==> Vacant(l, a, size)
  {
    forall i | 0 <= i < |l| && !l[i].free ensures (l[i].start, l[i].size) in Live(l) && l[i].size > 0 {
      Inside(l, base, total, i);
    }
  }

  // ----- gaps between live blocks

  /** `[a, a + n)` is a gap: it meets no live block, and reaches from one, or from an end of
      the range, to the next. */
  ghost predicate Gap(live: set<(nat, nat)>, base: nat, total: nat, a: nat, n: nat) {
    && n > 0 && base <= a && a + n <= base + total && Clear(live, a, n)
    && (a == base || exists p :: p in live && p.0 + p.1 == a)
    && (a + n == base + total || exists p :: p in live && p.0 == a + n)
  }

  /** A smallest gap of at least `size` bytes starts at `a`. */
  ghost predicate BestGap(live: set<(nat, nat)>, base: nat, total: nat, a: nat, size: nat) {
    exists n: nat :: n >= size && Gap(live, base, total, a, n) && LeastGap(live, base, total, n, size)
  }

  ghost predicate LeastGap(live: set<(nat, nat)>, base: nat, total: nat, n: nat, size: nat) {
    forall b: nat, m: nat :: Gap(live, base, total, b, m) && m >= size ==> n <= m
  }

  /** Free extents are gaps. */
  lemma FreeIsGap(l: Layout, base: nat, total: nat, i: int)
    requires Sound(l, base, total) && 0 <= i < |l| && l[i].free
    ensures Gap(Live(l), base, total, l[i].start, l[i].size)
  {
    Inside(l, base, total, i);
    assert Fits(l, base, total, i);
    CarvedApart(l, base, total, i, l[i].size);
    AllocatedIsLive(l);
    if i > 0 {
      assert (l[i - 1].start, l[i - 1].size) in Live(l);
    }
    if i + 1 < |l| {
      assert (l[i + 1].start, l[i + 1].size) in Live(l);
    }
  }

  /** Gaps are free extents. */
  lemma GapIsFree(l: Layout, base: nat, total: nat, a: nat, n: nat) returns (i: int)
    requires Sound(l, base, total) && Gap(Live(l), base, total, a, n)
    ensures 0 <= i < |l| && l[i] == Extent(a, n, true)
  {
    ClearIsVacant(l, base, total, a, n);
    i := RoomIsInOneExtent(l, base, total, a, n);
    Inside(l, base, total, i);
    if l[i].start < a {
      var p :| p in Live(l) && p.0 + p.1 == a;
      var j :| 0 <= j < |l| && !l[j].free && p == (l[j].start, l[j].size);
      Inside(l, base, total, j);
      Unique(l, base, total, i, j, a - 1);
    }
    if a + n < l[i].End() {
      var p :| p in Live(l) && p.0 == a + n;
      var j :| 0 <= j < |l| && !l[j].free && p == (l[j].start, l[j].size);
      Inside(l, base, total, j);
      Unique(l, base, total, i, j, a + n);
    }
  }

  /** Best fit, told from the live blocks alone. */
  lemma BestFitIsBestGap(l: Layout, base: nat, total: nat, i: int, size: nat)
    requires Sound(l, base, total) && BestFit(l, i, size)
    ensures BestGap(Live(l), base, total, l[i].start, size)
    ensures l[i].size == size <==> exists a: nat :: Gap(Live(l), base, total, a, size)
  {
    hide Gap, Sound;
    FreeIsGap(l, base, total, i);
    forall b: nat, m: nat | Gap(Live(l), base, total, b, m) && m >= size ensures l[i].size <= m {
      var j := GapIsFree(l, base, total, b, m);
      assert FreeFit(l, j, size);
    }
    assert LeastGap(Live(l), base, total, l[i].size, size);
  }

  /** An exact gap is an extent that fits. */
  lemma GapFits(l: Layout, base: nat, total: nat, a: nat, size: nat)
    requires Sound(l, base, total) && Gap(Live(l), base, total, a, size)
    ensures exists i :: FreeFit(l, i, size)
  {
    var i := GapIsFree(l, base, total, a, size);
    assert FreeFit(l, i, size);
  }

  // ----- runs

  /** A call together with what the world let happen: whether a block could be had for the
      split, and the address returned. */
  datatype Call = Alloc(size: nat, callocOk: bool, result: nat) | Free(addr: nat)

  ghost predicate Step(l: Layout, l': Layout, total: nat, c: Call) {
    match c
    case Alloc(size, callocOk, result) =>
      if size == 0 || size > total then result == 0 && l' == l
      else exists i :: AllocStep(l, l', size, callocOk, result, i)
    case Free(addr) => exists i :: FreeStep(l, l', addr, i)
  }

  /** The layouts `ls` are those of a run from one free block through the calls `cs`. */
  ghost predicate Run(base: nat, total: nat, ls: seq<Layout>, cs: seq<Call>) {
    && base > 0 && total > 0 && |ls| == |cs| + 1
    && ls[0] == [Extent(base, total, true)]
    && forall k {:trigger cs[k]} :: 0 <= k < |cs| ==> Step(ls[k], ls[k + 1], total, cs[k])
  }

  lemma RunGoesOn(base: nat, total: nat, ls: seq<Layout>, cs: seq<Call>, l: Layout, c: Call)
    requires Run(base, total, ls, cs) && Step(ls[|cs|], l, total, c)
    ensures Run(base, total, ls + [l], cs + [c])
  {
    var ls', cs' := ls + [l], cs + [c];
    forall k {:trigger cs'[k]} | 0 <= k < |cs'| ensures Step(ls'[k], ls'[k + 1], total, cs'[k]) {
      assert k < |cs| ==> cs'[k] == cs[k];
    }
  }

  /** The live blocks, computed from the calls alone. */
  ghost function LiveAfter(cs: seq<Call>): set<(nat, nat)> {
    if cs == [] then {}
    else
      var before := LiveAfter(cs[..|cs| - 1]);
      match cs[|cs| - 1]
      case Alloc(size, _, result) => if result == 0 then before else before + {(result, size)}
      case Free(addr) => set p | p in before && p.0 != addr
  }

  lemma StepSound(l: Layout, l': Layout, base: nat, total: nat, c: Call)
    requires Sound(l, base, total) && base > 0 && Step(l, l', total, c)
    ensures Sound(l', base, total)
  {
    match c {
      case Alloc(size, callocOk, result) =>
        if 0 < size <= total && result != 0 {
          var i :| AllocStep(l, l', size, callocOk, result, i);
          CarvedSound(l, base, total, i, size);
        }
      case Free(addr) =>
        var i :| FreeStep(l, l', addr, i);
        if k :| Held(l, k, addr) {
          FreedSound(l, base, total, i);
        }
    }
  }

  lemma StepLive(l: Layout, l': Layout, base: nat, total: nat, c: Call)
    requires Sound(l, base, total) && base > 0 && Step(l, l', total, c)
    ensures match c
            case Alloc(size, _, result) => Live(l') == if result == 0 then Live(l) else Live(l) + {(result, size)}
            case Free(addr) => Live(l') == set p | p in Live(l) && p.0 != addr
  {
    match c {
      case Alloc(size, callocOk, result) =>
        if 0 < size <= total && result != 0 {
          var i :| AllocStep(l, l', size, callocOk, result, i);
          CarvedLive(l, i, size);
        }
      case Free(addr) =>
        var i :| FreeStep(l, l', addr, i);
        if k :| Held(l, k, addr) {
          FreedLive(l, base, total, i);
          HeldOnce(l, base, total, i, addr);
        }
        forall p | p in Live(l) && p.0 == addr ensures Held(l, i, addr) && p == (l[i].start, l[i].size) {
          var j :| 0 <= j < |l| && !l[j].free && p == (l[j].start, l[j].size);
          assert Held(l, j, addr);
        }
    }
  }

  /** In every run every layout is sound, and its live blocks are those that were handed out
      and not yet taken back. */
  lemma {:induction false} RunKeeps(base: nat, total: nat, ls: seq<Layout>, cs: seq<Call>, k: nat)
    requires Run(base, total, ls, cs) && k <= |cs|
    ensures Sound(ls[k], base, total) && Live(ls[k]) == LiveAfter(cs[..k])
  {
    if k == 0 {
      WholeSound(base, total);
      LiveNone(ls[0]);
    } else {
      RunKeeps(base, total, ls, cs, k - 1);
      var c := cs[k - 1];
      StepSound(ls[k - 1], ls[k], base, total, c);
      StepLive(ls[k - 1], ls[k], base, total, c);
      assert cs[..k][..k - 1] == cs[..k - 1];
    }
  }

  /** Once everything has been freed, in whatever order, one free block covers the range. */
  lemma RunEndsWhole(base: nat, total: nat, ls: seq<Layout>, cs: seq<Call>)
    requires Run(base, total, ls, cs) && LiveAfter(cs) == {}
    ensures ls[|cs|] == [Extent(base, total, true)]
  {
    RunKeeps(base, total, ls, cs, |cs|);
    assert cs[..|cs|] == cs;
    AllocatedIsLive(ls[|cs|]);
    AllFreeIsOne(ls[|cs|], base, total);
  }

  /** In a run, an allocation of a proper size that meets no shortage of blocks fails exactly
      when every window of that size overlaps a live block. */
  lemma RunIsComplete(base: nat, total: nat, ls: seq<Layout>, cs: seq<Call>, k: nat)
    requires Run(base, total, ls, cs) && k < |cs| && cs[k].Alloc? && 0 < cs[k].size <= total && cs[k].callocOk
    ensures cs[k].result == 0 <==>
              forall a: nat :: base <= a && a + cs[k].size <= base + total ==> !Clear(LiveAfter(cs[..k]), a, cs[k].size)
  {
    RunKeeps(base, total, ls, cs, k);
    var l, size := ls[k], cs[k].size;
    var i :| AllocStep(l, ls[k + 1], size, true, cs[k].result, i);
    if cs[k].result != 0 { Inside(l, base, total, i); }
    FitsExactlyWhenVacant(l, base, total, size);
    forall a: nat ensures Clear(Live(l), a, size) <==> Vacant(l, a, size) {
      ClearIsVacant(l, base, total, a, size);
    }
  }
}
