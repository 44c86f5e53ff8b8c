/** Bits packed in 64-bit words.

    Bits and masks are defined by shifting one place at a time; the first part shows that
    this agrees with shifting at once, which is what the bit-level facts are proved about. */
module BitWords {

  const ONES: bv64 := 0xFFFF_FFFF_FFFF_FFFF

  /** The lowest bit after shifting `k` places. */
  predicate LowBit(w: bv64, k: nat) {
    if k == 0 then w & 1 == 1 else LowBit(w >> 1, k - 1)
  }

  /** Bit `k` of a word, counted from the lowest one. */
  predicate Has(w: bv64, k: nat) {
    LowBit(w, k)
  }

  /** The mask of bit `k`, `1 << k`. */
  function Mask(k: nat): bv64 {
    if k == 0 then 1 else Mask(k - 1) << 1
  }

  /** The bits from `k` on, `~0 << k`. */
  function From(k: nat): bv64 {
    if k == 0 then ONES else From(k - 1) << 1
  }

  /** The bits up to and including `k`, `~0 >> (63 - k)`. */
  function UpTo(k: nat): bv64 {
    if k == 0 then 1 else (UpTo(k - 1) << 1) | 1
  }

  // ----- bit positions as shift amounts

  function Amount(k: nat): bv7
    requires k <= 64
  {
    if k == 0 then 0 else Amount(k - 1) + 1
  }

  lemma {:induction false} AmountIs(k: nat)
    requires k <= 64
    ensures Amount(k) as nat == k
  {
    if k > 0 {
      AmountIs(k - 1);
      Next(Amount(k - 1));
    }
  }

  lemma Next(b: bv7)
    requires b as nat < 127
    ensures (b + 1) as nat == b as nat + 1
  {
  }

  lemma Ordered(a: bv7, b: bv7)
    ensures a <= b <==> a as nat <= b as nat
  {
  }

  lemma AmountOrder(i: nat, j: nat)
    requires i <= 64 && j <= 64
    ensures (Amount(i) <= Amount(j) <==> i <= j) && (Amount(i) == Amount(j) <==> i == j)
  {
    AmountIs(i);
    AmountIs(j);
    Ordered(Amount(i), Amount(j));
    Ordered(Amount(j), Amount(i));
  }

  lemma AmountBelow(k: nat)
    requires k <= 64
    ensures Amount(k) <= 64 && (k < 64 ==> Amount(k) < 64) && (k == 64 ==> Amount(k) == 64)
  {
    AmountIs(k);
    Ordered(Amount(k), 64);
    Ordered(64, Amount(k));
    assert 64 as bv7 as nat == 64;
  }

  // ----- bits and masks by shifting at once

  predicate HasBit(w: bv64, b: bv7) {
    b < 64 && w & (1 << b) != 0
  }

  lemma BitShifted(w: bv64, b: bv7)
    requires 0 < b < 64
    ensures HasBit(w, b) <==> HasBit(w >> 1, b - 1)
  {
  }

  lemma BitLowest(w: bv64)
    ensures HasBit(w, 0) <==> w & 1 == 1
  {
  }

  lemma {:induction false} HasIsBit(w: bv64, k: nat)
    requires k < 64
    ensures Has(w, k) <==> HasBit(w, Amount(k))
  {
    if k == 0 {
      BitLowest(w);
    } else {
      HasIsBit(w >> 1, k - 1);
      AmountBelow(k);
      AmountOrder(0, k);
      BitShifted(w, Amount(k));
    }
  }

  lemma ShiftedMore(b: bv7)
    requires b < 64
    ensures (1 as bv64 << b) << 1 == 1 << (b + 1)
    ensures (ONES << b) << 1 == ONES << (b + 1)
    ensures b < 63 ==> ((ONES >> (63 - b)) << 1) | 1 == ONES >> (63 - (b + 1))
  {
  }

  /** The masks are the shifts of the code. */
  lemma {:induction false} MasksAreShifts(k: nat)
    requires k < 64
    ensures Amount(k) < 64
    ensures Mask(k) == 1 << Amount(k)
    ensures From(k) == ONES << Amount(k)
    ensures UpTo(k) == ONES >> (63 - Amount(k))
  {
    AmountBelow(k);
    if k > 0 {
      MasksAreShifts(k - 1);
      AmountBelow(k - 1);
      AmountOrder(k - 1, 62);
      ShiftedMore(Amount(k - 1));
    }
  }

  // ----- bitwise operations

  function Or(w: bv64, v: bv64): bv64 {
    w | v
  }

  function And(w: bv64, v: bv64): bv64 {
    w & v
  }

  function Not(w: bv64): bv64 {
    !w
  }

  function AndNot(w: bv64, v: bv64): bv64 {
    w & !v
  }

  /** The test `(w & (1 << k)) != 0`. */
  predicate TestBit(w: bv64, k: nat) {
    w & Mask(k) != 0
  }

  lemma BitOps(w: bv64, v: bv64, b: bv7)
    requires b < 64
    ensures HasBit(w | v, b) <==> HasBit(w, b) || HasBit(v, b)
    ensures HasBit(w & v, b) <==> HasBit(w, b) && HasBit(v, b)
    ensures HasBit(w ^ v, b) <==> HasBit(w, b) != HasBit(v, b)
    ensures HasBit(!w, b) <==> !HasBit(w, b)
  {
  }

  lemma BitOr(w: bv64, v: bv64, b: bv7)
    requires b < 64
    ensures HasBit(Or(w, v), b) <==> HasBit(w, b) || HasBit(v, b)
  {
    hide HasBit;
    BitOps(w, v, b);
  }

  lemma BitAnd(w: bv64, v: bv64, b: bv7)
    requires b < 64
    ensures HasBit(And(w, v), b) <==> HasBit(w, b) && HasBit(v, b)
  {
    hide HasBit;
    BitOps(w, v, b);
  }

  lemma BitXor(w: bv64, v: bv64, b: bv7)
    requires b < 64
    ensures HasBit(w ^ v, b) <==> HasBit(w, b) != HasBit(v, b)
  {
    hide HasBit;
    BitOps(w, v, b);
  }

  lemma BitNot(w: bv64, b: bv7)
    requires b < 64
    ensures HasBit(Not(w), b) <==> !HasBit(w, b)
  {
    hide HasBit;
    BitOps(w, w, b);
  }

  lemma BitAndNots(w: bv64, v: bv64, b: bv7)
    requires b < 64
    ensures HasBit(w & !v, b) <==> HasBit(w, b) && !HasBit(v, b)
    ensures HasBit(!v, b) <==> !HasBit(v, b)
  {
  }

  lemma BitAndNot(w: bv64, v: bv64, b: bv7)
    requires b < 64
    ensures HasBit(AndNot(w, v), b) <==> HasBit(w, b) && !HasBit(v, b)
  {
    hide HasBit;
    BitAndNots(w, v, b);
  }

  lemma HasOr(w: bv64, v: bv64, k: nat)
    requires k < 64
    ensures Has(Or(w, v), k) <==> Has(w, k) || Has(v, k)
  {
    hide Has, HasBit, Or;
    HasIsBit(w, k);
    HasIsBit(v, k);
    HasIsBit(Or(w, v), k);
    AmountBelow(k);
    BitOr(w, v, Amount(k));
  }

  lemma HasAnd(w: bv64, v: bv64, k: nat)
    requires k < 64
    ensures Has(And(w, v), k) <==> Has(w, k) && Has(v, k)
  {
    hide Has, HasBit, And;
    HasIsBit(w, k);
    HasIsBit(v, k);
    HasIsBit(And(w, v), k);
    AmountBelow(k);
    BitAnd(w, v, Amount(k));
  }

  lemma HasAndNot(w: bv64, v: bv64, k: nat)
    requires k < 64
    ensures Has(AndNot(w, v), k) <==> Has(w, k) && !Has(v, k)
  {
    hide Has, HasBit, AndNot;
    HasIsBit(w, k);
    HasIsBit(v, k);
    HasIsBit(AndNot(w, v), k);
    AmountBelow(k);
    BitAndNot(w, v, Amount(k));
  }

  lemma HasXor(w: bv64, v: bv64, k: nat)
    requires k < 64
    ensures Has(w ^ v, k) <==> Has(w, k) != Has(v, k)
  {
    hide Has, HasBit;
    HasIsBit(w, k);
    HasIsBit(v, k);
    HasIsBit(w ^ v, k);
    AmountBelow(k);
    BitXor(w, v, Amount(k));
  }

  lemma HasNot(w: bv64, k: nat)
    requires k < 64
    ensures Has(Not(w), k) <==> !Has(w, k)
  {
    hide Has, HasBit, Not;
    HasIsBit(w, k);
    HasIsBit(Not(w), k);
    AmountBelow(k);
    BitNot(w, Amount(k));
  }

  lemma BitMasks(a: bv7, b: bv7)
    requires a < 64 && b < 64
    ensures HasBit(1 << a, b) <==> a == b
  {
  }

  lemma BitsFrom(a: bv7, b: bv7)
    requires a < 64 && b < 64
    ensures HasBit(ONES << a, b) <==> a <= b
  {
  }

  lemma BitsUpTo(a: bv7, b: bv7)
    requires a < 64 && b < 64
    ensures HasBit(ONES >> (63 - a), b) <==> b <= a
  {
  }

  lemma HasMask(i: nat, k: nat)
    requires i < 64 && k < 64
    ensures Has(Mask(i), k) <==> i == k
  {
    MasksAreShifts(i);
    HasIsBit(Mask(i), k);
    AmountBelow(k);
    AmountOrder(i, k);
    BitMasks(Amount(i), Amount(k));
  }

  lemma HasFrom(i: nat, k: nat)
    requires i < 64 && k < 64
    ensures Has(From(i), k) <==> i <= k
  {
    MasksAreShifts(i);
    HasIsBit(From(i), k);
    AmountBelow(k);
    AmountOrder(i, k);
    BitsFrom(Amount(i), Amount(k));
  }

  lemma HasUpTo(i: nat, k: nat)
    requires i < 64 && k < 64
    ensures Has(UpTo(i), k) <==> k <= i
  {
    MasksAreShifts(i);
    HasIsBit(UpTo(i), k);
    AmountBelow(k);
    AmountOrder(k, i);
    BitsUpTo(Amount(i), Amount(k));
  }

  lemma {:induction false} HasZero(k: nat)
    ensures !Has(0, k)
  {
    if k > 0 {
      HasZero(k - 1);
    }
  }

  lemma HasOnes(k: nat)
    requires k < 64
    ensures Has(ONES, k)
  {
    HasFrom(0, k);
  }

  // ----- words are determined by their bits

  /** None of the bits below `b` is set. */
  predicate Quiet(w: bv64, b: bv7) {
    b <= 64 && w & !(ONES << b) == 0
  }

  lemma QuietStep(w: bv64, b: bv7, c: bv7)
    requires b < 64 && c == b + 1 && Quiet(w, b) && !HasBit(w, b)
    ensures Quiet(w, c)
  {
  }

  lemma QuietEnds(w: bv64)
    ensures Quiet(w, 0) && (Quiet(w, 64) ==> w == 0)
  {
  }

  lemma {:induction false} LowZero(w: bv64, n: nat)
    requires n <= 64 && forall k: nat :: k < n ==> !Has(w, k)
    ensures Quiet(w, Amount(n))
  {
    if n == 0 {
      QuietEnds(w);
    } else {
      LowZero(w, n - 1);
      AmountBelow(n - 1);
      HasIsBit(w, n - 1);
      QuietStep(w, Amount(n - 1), Amount(n));
    }
  }

  lemma ZeroWord(w: bv64)
    requires forall k: nat :: k < 64 ==> !Has(w, k)
    ensures w == 0
  {
    LowZero(w, 64);
    AmountBelow(64);
    QuietEnds(w);
  }

  lemma NoDifference(w: bv64, v: bv64)
    requires w ^ v == 0
    ensures w == v
  {
  }

  lemma SameWord(w: bv64, v: bv64)
    requires forall k: nat :: k < 64 ==> (Has(w, k) <==> Has(v, k))
    ensures w == v
  {
    forall k: nat {:trigger Has(w ^ v, k)} | k < 64 ensures !Has(w ^ v, k) {
      HasXor(w, v, k);
    }
    ZeroWord(w ^ v);
    NoDifference(w, v);
  }

  /** What the test of a single bit by its mask says. */
  lemma Tested(w: bv64, k: nat)
    requires k < 64
    ensures TestBit(w, k) <==> Has(w, k)
  {
    MasksAreShifts(k);
    HasIsBit(w, k);
  }

  /** All bits of the mask are set. */
  lemma MaskIsIn(mask: bv64, w: bv64)
    ensures And(mask, w) == mask <==> forall k: nat :: k < 64 && Has(mask, k) ==> Has(w, k)
  {
    hide Has, And;
    forall k: nat | k < 64 ensures Has(And(mask, w), k) <==> Has(mask, k) && Has(w, k) {
      HasAnd(mask, w, k);
    }
    if forall k: nat :: k < 64 && Has(mask, k) ==> Has(w, k) {
      SameWord(And(mask, w), mask);
    }
  }

  /** All bits of the mask are clear. */
  lemma MaskIsOut(mask: bv64, w: bv64)
    ensures Or(Not(mask), w) == Not(mask) <==> forall k: nat :: k < 64 && Has(mask, k) ==> !Has(w, k)
  {
    hide Has, Or, Not;
    forall k: nat | k < 64
      ensures Has(Or(Not(mask), w), k) <==> !Has(mask, k) || Has(w, k)
      ensures Has(Not(mask), k) <==> !Has(mask, k)
    {
      HasNot(mask, k);
      HasOr(Not(mask), w, k);
    }
    if forall k: nat :: k < 64 && Has(mask, k) ==> !Has(w, k) {
      SameWord(Or(Not(mask), w), Not(mask));
    }
  }
}
