/** Positions of a binary digital tree.

    A position is numbered as in a binary heap: the root slot is 1 and slot `b` below
    position `i` is `2 * i + b`.  A key of `bits` bits follows one downward path, which at
    each level takes the slot named by the next lower bit of the key.  Everything the
    radix tree needs to know about bits is stated here once: the path of a key is
    monotone in the key, so subtrees that hang side by side hold separated key ranges. */
module BitPaths {

  function Pow2(n: nat): (r: nat)
    ensures r > 0
  {
    if n == 0 then 1 else 2 * Pow2(n - 1)
  }

  lemma {:induction false} PowAdds(m: nat, n: nat)
    ensures Pow2(m + n) == Pow2(m) * Pow2(n)
  {
    if m > 0 {
      PowAdds(m - 1, n);
    }
  }

  /** The keys of a tree over 63 bits are those below 2^63. */
  lemma PowerIsLarge()
    ensures Pow2(63) == 0x8000_0000_0000_0000
  {
    assert Pow2(8) == 256;
    PowAdds(8, 8);
    PowAdds(16, 16);
    PowAdds(1, 31);
    PowAdds(32, 31);
  }

  /** The bit that `key & (1 << b)` tests. */
  function BitOf(key: nat, b: nat): (r: nat)
    ensures r == 0 || r == 1
  {
    (key / Pow2(b)) % 2
  }

  /** Level of a position below the root slot. */
  function Depth(i: nat): nat
    requires i >= 1
  {
    if i == 1 then 0 else 1 + Depth(i / 2)
  }

  /** The position at level `d` on the path of `key`, read off bit by bit from the top. */
  function Pos(bits: nat, key: nat, d: nat): (i: nat)
    requires d <= bits
    ensures i >= 1
  {
    if d == 0 then 1 else 2 * Pos(bits, key, d - 1) + BitOf(key, bits - d)
  }

  /** The path of `key` goes through position `i`. */
  predicate OnPath(bits: nat, key: nat, i: nat) {
    i >= 1 && Depth(i) <= bits && Pos(bits, key, Depth(i)) == i
  }

  /** `i` is `j` or lies above it. */
  predicate Above(i: nat, j: nat)
    decreases j
  {
    if j <= i then i == j else Above(i, j / 2)
  }

  lemma {:induction false} DivHalves(key: nat, h: nat)
    requires h > 0
    ensures key / h == 2 * (key / (2 * h)) + (key / h) % 2
  {
    var q, r := key / h, key % h;
    assert key == q * h + r;
    var q2, b := q / 2, q % 2;
    assert q == 2 * q2 + b;
    assert key == q2 * (2 * h) + (b * h + r) by {
      assert (2 * q2 + b) * h == q2 * (2 * h) + b * h;
    }
    assert b * h + r < 2 * h by {
      if b == 1 { assert b * h == h; } else { assert b * h == 0; }
    }
    QuotientUnique(key, 2 * h, q2, b * h + r);
  }

  lemma {:induction false} MulMonotone(a: nat, b: nat, w: nat)
    requires a <= b
    ensures a * w <= b * w
  {
    assert b * w == a * w + (b - a) * w;
  }

  lemma {:induction false} QuotientUnique(key: nat, w: nat, q: nat, r: nat)
    requires w > 0 && key == q * w + r && r < w
    ensures key / w == q
  {
    var q' := key / w;
    assert q' * w <= key < (q' + 1) * w;
    if q < q' {
      MulMonotone(q + 1, q', w);
    } else if q' < q {
      MulMonotone(q' + 1, q, w);
    }
  }

  lemma {:induction false} DivMonotone(a: nat, b: nat, w: nat)
    requires w > 0 && a <= b
    ensures a / w <= b / w
  {
    var qa, qb := a / w, b / w;
    assert qa * w <= a && b < (qb + 1) * w;
    if qb < qa {
      MulMonotone(qb + 1, qa, w);
    }
  }

  lemma {:induction false} Pow2Depth(i: nat)
    requires i >= 1
    ensures Pow2(Depth(i)) <= i < 2 * Pow2(Depth(i))
  {
    if i > 1 {
      Pow2Depth(i / 2);
    }
  }

  /** The path, read bit by bit, is the level's base plus the key's leading bits. */
  lemma {:induction false} PosClosedForm(bits: nat, key: nat, d: nat)
    requires d <= bits && key < Pow2(bits)
    ensures Pos(bits, key, d) == Pow2(d) + key / Pow2(bits - d)
  {
    if d == 0 {
      assert key / Pow2(bits) == 0 by { QuotientUnique(key, Pow2(bits), 0, key); }
    } else {
      PosClosedForm(bits, key, d - 1);
      DivHalves(key, Pow2(bits - d));
      assert Pow2(bits - d + 1) == 2 * Pow2(bits - d);
    }
  }

  lemma {:induction false} DepthOfPos(bits: nat, key: nat, d: nat)
    requires d <= bits
    ensures Depth(Pos(bits, key, d)) == d
    ensures OnPath(bits, key, Pos(bits, key, d))
  {
    if d > 0 {
      DepthOfPos(bits, key, d - 1);
      assert Pos(bits, key, d) / 2 == Pos(bits, key, d - 1);
    }
  }

  /** One step down: the path goes on through exactly the slot named by the next bit. */
  lemma {:induction false} PathStep(bits: nat, key: nat, i: nat, b: nat)
    requires OnPath(bits, key, i) && Depth(i) < bits && b <= 1
    ensures OnPath(bits, key, 2 * i + b) <==> b == BitOf(key, bits - Depth(i) - 1)
    ensures Depth(2 * i + b) == Depth(i) + 1
  {
    assert (2 * i + b) / 2 == i;
  }

  lemma {:induction false} PathParent(bits: nat, key: nat, i: nat)
    requires OnPath(bits, key, i) && i > 1
    ensures OnPath(bits, key, i / 2) && Depth(i) == Depth(i / 2) + 1
    ensures i % 2 == BitOf(key, bits - Depth(i))
  {
    var d, p, b := Depth(i), Pos(bits, key, Depth(i) - 1), BitOf(key, bits - Depth(i));
    assert i == 2 * p + b;
    assert i / 2 == p && i % 2 == b;
  }

  lemma {:induction false} PathAbove(bits: nat, key: nat, i: nat, j: nat)
    requires OnPath(bits, key, j) && Above(i, j) && i >= 1
    ensures OnPath(bits, key, i)
    decreases j
  {
    if j > i {
      PathParent(bits, key, j);
      PathAbove(bits, key, i, j / 2);
    }
  }

  /** Two positions on one path are nested. */
  lemma {:induction false} PathNested(bits: nat, key: nat, i: nat, j: nat)
    requires OnPath(bits, key, i) && OnPath(bits, key, j)
    ensures Depth(i) <= Depth(j) ==> Above(i, j)
    ensures Depth(j) <= Depth(i) ==> Above(j, i)
    decreases i + j
  {
    if Depth(i) < Depth(j) {
      Pow2Depth(i); Pow2Depth(j);
      PathParent(bits, key, j);
      PathNested(bits, key, i, j / 2);
      DepthLess(i, j);
    } else if Depth(j) < Depth(i) {
      PathParent(bits, key, i);
      PathNested(bits, key, i / 2, j);
      DepthLess(j, i);
    }
  }

  lemma {:induction false} DepthLess(i: nat, j: nat)
    requires i >= 1 && j >= 1 && Depth(i) < Depth(j)
    ensures i < j
    decreases j
  {
    if i > 1 {
      DepthLess(i / 2, j / 2);
    }
  }

  /** At full depth a position names one key. */
  lemma {:induction false} FullDepthUnique(bits: nat, k1: nat, k2: nat, i: nat)
    requires k1 < Pow2(bits) && k2 < Pow2(bits)
    requires OnPath(bits, k1, i) && OnPath(bits, k2, i) && Depth(i) == bits
    ensures k1 == k2
  {
    PosClosedForm(bits, k1, bits);
    PosClosedForm(bits, k2, bits);
    assert Pow2(0) == 1;
  }

  /** Keys below slot 0 of a position are smaller than keys below its slot 1. */
  lemma {:induction false} SiblingsOrdered(bits: nat, k0: nat, k1: nat, i: nat)
    requires k0 < Pow2(bits) && k1 < Pow2(bits)
    requires OnPath(bits, k0, 2 * i) && OnPath(bits, k1, 2 * i + 1)
    ensures k0 < k1
  {
    var d := Depth(2 * i);
    assert (2 * i + 1) / 2 == i && (2 * i) / 2 == i;
    assert i >= 1;
    assert d == 1 + Depth(i) == Depth(2 * i + 1);
    PosClosedForm(bits, k0, d);
    PosClosedForm(bits, k1, d);
    if k1 <= k0 {
      DivMonotone(k1, k0, Pow2(bits - d));
    }
  }

  lemma {:induction false} AboveTransitive(i: nat, j: nat, k: nat)
    requires Above(i, j) && Above(j, k)
    ensures Above(i, k)
    decreases k
  {
    if k > j {
      AboveTransitive(i, j, k / 2);
    }
  }

  /** What lies strictly below a position lies below one of its two slots. */
  lemma {:induction false} AboveSplit(i: nat, j: nat)
    requires i >= 1
    ensures Above(i, j) <==> (j == i || Above(2 * i, j) || Above(2 * i + 1, j))
    decreases j
  {
    if j <= i {
    } else if j / 2 == i {
      assert j == 2 * i || j == 2 * i + 1;
    } else {
      AboveSplit(i, j / 2);
      if j < 2 * i { assert j / 2 < i; }
    }
  }

  lemma {:induction false} RootAboveAll(j: nat)
    requires j >= 1
    ensures Above(1, j)
  {
    if j > 1 {
      RootAboveAll(j / 2);
    }
  }
}
