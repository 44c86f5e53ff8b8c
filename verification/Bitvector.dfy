/** The bit vector: a finite set of indices, packed in 64-bit words that are kept inline as
    long as there is only one. */
module Bitvector {
  import opened Limits
  import opened BitWords

  const INLINE_LIMIT: nat := 64

  // ----- sequences of words

  /** Bit `k` of the vector. */
  predicate BitAt(ws: seq<bv64>, k: nat)
    requires k < 64 * |ws|
  {
    Has(ws[k / 64], k % 64)
  }

  /** The set of indices that the words stand for. */
  ghost function SetOf(ws: seq<bv64>): set<nat> {
    set k: nat | k < 64 * |ws| && BitAt(ws, k)
  }

  /** No bit at or above `n` is set. */
  ghost predicate Padded(ws: seq<bv64>, n: nat) {
    forall k: nat :: n <= k < 64 * |ws| ==> !BitAt(ws, k)
  }

  lemma SameSet(ws: seq<bv64>, vs: seq<bv64>)
    requires |ws| == |vs| && SetOf(ws) == SetOf(vs)
    ensures ws == vs
  {
    forall i | 0 <= i < |ws| ensures ws[i] == vs[i] {
      forall k: nat | k < 64 ensures Has(ws[i], k) <==> Has(vs[i], k) {
        assert (64 * i + k) / 64 == i && (64 * i + k) % 64 == k;
        assert BitAt(ws, 64 * i + k) <==> 64 * i + k in SetOf(ws);
        assert BitAt(vs, 64 * i + k) <==> 64 * i + k in SetOf(vs);
      }
      SameWord(ws[i], vs[i]);
    }
  }

  lemma EmptySet(ws: seq<bv64>)
    ensures SetOf(ws) == {} <==> forall i :: 0 <= i < |ws| ==> ws[i] == 0
  {
    if SetOf(ws) == {} {
      forall i | 0 <= i < |ws| ensures ws[i] == 0 {
        forall k: nat | k < 64 ensures !Has(ws[i], k) {
          assert (64 * i + k) / 64 == i && (64 * i + k) % 64 == k;
          assert BitAt(ws, 64 * i + k) <==> 64 * i + k in SetOf(ws);
        }
        ZeroWord(ws[i]);
      }
    }
    if forall i :: 0 <= i < |ws| ==> ws[i] == 0 {
      forall k: nat | k < 64 * |ws| ensures !BitAt(ws, k) {
        HasZero(k % 64);
      }
    }
  }

  // ----- masks of a range

  /** The bits of chunk `i` that lie in `[low, high]`. */
  function RangeMask(i: nat, low: nat, high: nat): (mask: bv64)
  {
    var mask := if i == low / 64 then From(low % 64) else ONES;
    if i == high / 64 then And(mask, UpTo(high % 64)) else mask
  }

  lemma HasRange(i: nat, low: nat, high: nat, k: nat)
    requires low / 64 <= i <= high / 64 && k < 64
    ensures Has(RangeMask(i, low, high), k) <==> low <= 64 * i + k <= high
  {
    hide Has, From, UpTo, And;
    HasOnes(k);
    HasFrom(low % 64, k);
    HasUpTo(high % 64, k);
    HasAnd(if i == low / 64 then From(low % 64) else ONES, UpTo(high % 64), k);
  }

  /** The chunks below `i` have had the bits of `[low, high]` set. */
  ghost predicate SetBelow(was: seq<bv64>, ws: seq<bv64>, low: nat, high: nat, i: nat) {
    && |ws| == |was|
    && forall k: nat {:trigger BitAt(ws, k)} :: k < 64 * |ws| ==>
         (BitAt(ws, k) <==> BitAt(was, k) || (low <= k <= high && k / 64 < i))
  }

  ghost predicate ClearBelow(was: seq<bv64>, ws: seq<bv64>, low: nat, high: nat, i: nat) {
    && |ws| == |was|
    && forall k: nat {:trigger BitAt(ws, k)} :: k < 64 * |ws| ==>
         (BitAt(ws, k) <==> BitAt(was, k) && !(low <= k <= high && k / 64 < i))
  }

  lemma SetStep(was: seq<bv64>, ws: seq<bv64>, x: bv64, low: nat, high: nat, i: nat)
    requires SetBelow(was, ws, low, high, i) && low / 64 <= i <= high / 64 && i < |ws|
    requires x == Or(ws[i], RangeMask(i, low, high))
    ensures SetBelow(was, ws[i := x], low, high, i + 1)
  {
    hide Has, RangeMask, Or;
    var ws' := ws[i := x];
    forall k: nat {:trigger BitAt(ws', k)} | k < 64 * |ws|
      ensures BitAt(ws', k) <==> BitAt(was, k) || (low <= k <= high && k / 64 < i + 1)
    {
      assert BitAt(ws, k) <==> BitAt(was, k) || (low <= k <= high && k / 64 < i);
      if k / 64 == i {
        HasRange(i, low, high, k % 64);
        HasOr(ws[i], RangeMask(i, low, high), k % 64);
      }
    }
  }

  lemma ClearStep(was: seq<bv64>, ws: seq<bv64>, x: bv64, low: nat, high: nat, i: nat)
    requires ClearBelow(was, ws, low, high, i) && low / 64 <= i <= high / 64 && i < |ws|
    requires x == AndNot(ws[i], RangeMask(i, low, high))
    ensures ClearBelow(was, ws[i := x], low, high, i + 1)
  {
    hide Has, RangeMask, AndNot;
    var ws' := ws[i := x];
    forall k: nat {:trigger BitAt(ws', k)} | k < 64 * |ws|
      ensures BitAt(ws', k) <==> BitAt(was, k) && !(low <= k <= high && k / 64 < i + 1)
    {
      assert BitAt(ws, k) <==> BitAt(was, k) && !(low <= k <= high && k / 64 < i);
      if k / 64 == i {
        HasRange(i, low, high, k % 64);
        HasAndNot(ws[i], RangeMask(i, low, high), k % 64);
      }
    }
  }

  /** The indices of a closed range. */
  ghost function Range(low: nat, high: nat): set<nat> {
    set k: nat | k <= high && Between(low, k, high)
  }

  predicate Between(low: nat, k: nat, high: nat) {
    low <= k <= high
  }

  lemma SetEnds(was: seq<bv64>, ws: seq<bv64>, low: nat, high: nat, n: nat)
    requires SetBelow(was, ws, low, high, high / 64 + 1) && low <= high < n <= 64 * |was| && Padded(was, n)
    ensures SetOf(ws) == SetOf(was) + Range(low, high) && Padded(ws, n)
  {
    hide BitAt;
    forall k: nat ensures k in SetOf(ws) <==> k in SetOf(was) + Range(low, high) {
      assert k < 64 * |ws| ==> (BitAt(ws, k) <==> BitAt(was, k) || (low <= k <= high && k / 64 < high / 64 + 1));
    }
  }

  lemma ClearEnds(was: seq<bv64>, ws: seq<bv64>, low: nat, high: nat, n: nat)
    requires ClearBelow(was, ws, low, high, high / 64 + 1) && low <= high < n <= 64 * |was| && Padded(was, n)
    ensures SetOf(ws) == SetOf(was) - Range(low, high) && Padded(ws, n)
  {
    hide BitAt;
    forall k: nat ensures k in SetOf(ws) <==> k in SetOf(was) - Range(low, high) {
      assert k < 64 * |ws| ==> (BitAt(ws, k) <==> BitAt(was, k) && !(low <= k <= high && k / 64 < high / 64 + 1));
    }
  }

  lemma SetStarts(ws: seq<bv64>, low: nat, high: nat)
    ensures SetBelow(ws, ws, low, high, low / 64) && ClearBelow(ws, ws, low, high, low / 64)
  {
  }

  /** One bit is a range of its own. */
  lemma OneBit(b: nat, k: nat)
    requires k < 64
    ensures Has(RangeMask(b / 64, b, b), k) <==> Has(Mask(b % 64), k)
  {
    hide Has, RangeMask;
    HasRange(b / 64, b, b, k);
    HasMask(b % 64, k);
  }

  lemma OneBitMask(b: nat)
    ensures RangeMask(b / 64, b, b) == Mask(b % 64)
  {
    hide Has, RangeMask;
    forall k: nat | k < 64 ensures Has(RangeMask(b / 64, b, b), k) <==> Has(Mask(b % 64), k) {
      OneBit(b, k);
    }
    SameWord(RangeMask(b / 64, b, b), Mask(b % 64));
  }

  // ----- searching

  /** The bits of a chunk in `[low, high]` that are set, or clear. */
  function Candidates(word: bv64, i: nat, low: nat, high: nat, findClear: bool): bv64 {
    if findClear then AndNot(RangeMask(i, low, high), word) else And(RangeMask(i, low, high), word)
  }

  lemma HasCandidates(ws: seq<bv64>, i: nat, low: nat, high: nat, findClear: bool, k: nat)
    requires i < |ws| && low / 64 <= i <= high / 64 && k < 64
    ensures Has(Candidates(ws[i], i, low, high, findClear), k)
            <==> low <= 64 * i + k <= high && BitAt(ws, 64 * i + k) != findClear
  {
    hide Has, RangeMask, And, AndNot;
    var mask := RangeMask(i, low, high);
    HasRange(i, low, high, k);
    assert (64 * i + k) / 64 == i && (64 * i + k) % 64 == k;
    if findClear {
      HasAndNot(mask, ws[i], k);
    } else {
      HasAnd(mask, ws[i], k);
    }
  }

  /** An index of the range that is set (or clear, if that is what is looked for). */
  ghost predicate Wanted(ws: seq<bv64>, low: nat, high: nat, findClear: bool, k: nat) {
    low <= k <= high && k < 64 * |ws| && BitAt(ws, k) != findClear
  }

  lemma NoneInChunk(ws: seq<bv64>, i: nat, low: nat, high: nat, findClear: bool)
    requires i < |ws| && low / 64 <= i <= high / 64
    requires forall k: nat :: k < 64 ==> !Has(Candidates(ws[i], i, low, high, findClear), k)
    ensures forall k: nat :: k / 64 == i ==> !Wanted(ws, low, high, findClear, k)
  {
    hide Has, Candidates, BitAt;
    forall k: nat | k / 64 == i ensures !Wanted(ws, low, high, findClear, k) {
      HasCandidates(ws, i, low, high, findClear, k % 64);
      assert 64 * i + k % 64 == k;
    }
  }

  /** Nothing that is looked for lies in the chunks before `i`. */
  ghost predicate NoneBefore(ws: seq<bv64>, low: nat, high: nat, findClear: bool, i: nat) {
    forall k: nat :: Wanted(ws, low, high, findClear, k) ==> k / 64 >= i
  }

  /** Nothing that is looked for lies in the chunks from `i` on. */
  ghost predicate NoneFrom(ws: seq<bv64>, low: nat, high: nat, findClear: bool, i: nat) {
    forall k: nat :: Wanted(ws, low, high, findClear, k) ==> k / 64 < i
  }

  lemma NoneOutside(ws: seq<bv64>, low: nat, high: nat, findClear: bool)
    ensures NoneBefore(ws, low, high, findClear, low / 64) && NoneFrom(ws, low, high, findClear, high / 64 + 1)
  {
    hide BitAt;
  }

  lemma NoneLeft(ws: seq<bv64>, low: nat, high: nat, findClear: bool, i: nat)
    requires (NoneBefore(ws, low, high, findClear, i) && i > high / 64)
             || (NoneFrom(ws, low, high, findClear, i) && i <= low / 64)
    ensures forall k: nat :: !Wanted(ws, low, high, findClear, k)
  {
    hide BitAt;
  }

  /** A chunk without candidates is passed over. */
  lemma PassedOver(ws: seq<bv64>, i: nat, low: nat, high: nat, findClear: bool)
    requires i < |ws| && low / 64 <= i <= high / 64
    requires forall k: nat :: k < 64 ==> !Has(Candidates(ws[i], i, low, high, findClear), k)
    ensures NoneBefore(ws, low, high, findClear, i) ==> NoneBefore(ws, low, high, findClear, i + 1)
    ensures NoneFrom(ws, low, high, findClear, i + 1) ==> NoneFrom(ws, low, high, findClear, i)
  {
    hide Has, Candidates, Wanted;
    NoneInChunk(ws, i, low, high, findClear);
  }

  /** A candidate of chunk `i` is an index that is looked for, and the extreme one if it is
      that of the chunk and the chunks on its side hold none. */
  lemma CandidateFound(ws: seq<bv64>, i: nat, low: nat, high: nat, findClear: bool, j: nat)
    requires i < |ws| && low / 64 <= i <= high / 64 && j < 64
    requires Has(Candidates(ws[i], i, low, high, findClear), j)
    ensures Wanted(ws, low, high, findClear, i * 64 + j)
    ensures NoneBefore(ws, low, high, findClear, i)
            && (forall k: nat :: k < j ==> !Has(Candidates(ws[i], i, low, high, findClear), k)) ==>
              forall k: nat :: Wanted(ws, low, high, findClear, k) ==> i * 64 + j <= k
    ensures NoneFrom(ws, low, high, findClear, i + 1)
            && (forall k: nat :: j < k < 64 ==> !Has(Candidates(ws[i], i, low, high, findClear), k)) ==>
              forall k: nat :: Wanted(ws, low, high, findClear, k) ==> k <= i * 64 + j
  {
    hide Has, Candidates, BitAt;
    HasCandidates(ws, i, low, high, findClear, j);
    forall k: nat | Wanted(ws, low, high, findClear, k) && k / 64 == i
      ensures Has(Candidates(ws[i], i, low, high, findClear), k % 64)
    {
      HasCandidates(ws, i, low, high, findClear, k % 64);
      assert 64 * i + k % 64 == k;
    }
  }

  /** In every chunk of the range the bits of the mask are all set (or all clear). */
  lemma ChunkUniform(ws: seq<bv64>, i: nat, low: nat, high: nat, findClear: bool)
    requires i < |ws| && low / 64 <= i <= high / 64
    ensures (if findClear then And(RangeMask(i, low, high), ws[i]) == RangeMask(i, low, high)
             else Or(Not(RangeMask(i, low, high)), ws[i]) == Not(RangeMask(i, low, high)))
            <==> forall k: nat :: k / 64 == i ==> !Wanted(ws, low, high, findClear, k)
  {
    hide Has, RangeMask, And, Or, Not;
    var mask := RangeMask(i, low, high);
    MaskIsIn(mask, ws[i]);
    MaskIsOut(mask, ws[i]);
    forall k: nat | k < 64 ensures Has(mask, k) <==> low <= 64 * i + k <= high {
      HasRange(i, low, high, k);
    }
    forall k: nat | k < 64
      ensures Wanted(ws, low, high, findClear, 64 * i + k) <==> Has(mask, k) && Has(ws[i], k) != findClear
    {
      assert (64 * i + k) / 64 == i && (64 * i + k) % 64 == k;
    }
    forall k: nat | k / 64 == i ensures k == 64 * i + k % 64 {
    }
  }

  /** The lowest set bit of a word. */
  method LowestInWord(w: bv64) returns (found: bool, j: nat)
    ensures found ==> j < 64 && Has(w, j) && forall k: nat :: k < j ==> !Has(w, k)
    ensures !found ==> forall k: nat :: k < 64 ==> !Has(w, k)
  {
    hide Has, TestBit;
    j := 0;
    while j < 64
      invariant j <= 64 && forall k: nat :: k < j ==> !Has(w, k)
    {
      Tested(w, j);
      if TestBit(w, j) {
        return true, j;
      }
      j := j + 1;
    }
    found := false;
  }

  /** The lowest clear bit below `bitCount` is set. */
  method SetLowestClearInWord(w: bv64, bitCount: nat) returns (found: bool, x: bv64, j: nat)
    requires bitCount <= 64
    ensures found ==> j < bitCount && x == Or(w, Mask(j)) && !Has(w, j)
    ensures found ==> forall k: nat :: k < j ==> Has(w, k)
    ensures !found ==> x == w && forall k: nat :: k < bitCount ==> Has(w, k)
  {
    hide Has, TestBit, Or, Mask;
    x, j := w, 0;
    while j < bitCount
      invariant j <= bitCount && forall k: nat :: k < j ==> Has(w, k)
    {
      Tested(w, j);
      if !TestBit(w, j) {
        return true, Or(w, Mask(j)), j;
      }
      j := j + 1;
    }
    found := false;
  }

  lemma OnesHaveAll(n: nat)
    requires n <= 64
    ensures forall k: nat :: k < n ==> Has(ONES, k)
  {
    hide Has;
    forall k: nat | k < n ensures Has(ONES, k) {
      HasOnes(k);
    }
  }

  /** The bits `0..j` of a chunk are set, and bit `j` is not (if it belongs to the vector). */
  lemma ClearInChunk(ws: seq<bv64>, i: nat, bitCount: nat, j: nat)
    requires i < |ws| && j <= bitCount <= 64 && forall k: nat :: k < j ==> Has(ws[i], k)
    ensures forall k: nat :: 64 * i <= k < 64 * i + j ==> k in SetOf(ws)
    ensures j < 64 && !Has(ws[i], j) ==> 64 * i + j !in SetOf(ws)
  {
    hide Has;
    forall k: nat | 64 * i <= k < 64 * i + j ensures k in SetOf(ws) {
      assert k / 64 == i && Has(ws[i], k % 64);
    }
    assert j < 64 ==> (64 * i + j) / 64 == i && (64 * i + j) % 64 == j;
  }

  /** The highest set bit of a word. */
  method HighestInWord(w: bv64) returns (found: bool, j: nat)
    ensures found ==> j < 64 && Has(w, j) && forall k: nat :: j < k < 64 ==> !Has(w, k)
    ensures !found ==> forall k: nat :: k < 64 ==> !Has(w, k)
  {
    hide Has, TestBit;
    var n := 64;
    while n > 0
      invariant n <= 64 && forall k: nat :: n <= k < 64 ==> !Has(w, k)
    {
      j := n - 1;
      Tested(w, j);
      if TestBit(w, j) {
        return true, j;
      }
      n := n - 1;
    }
    found, j := false, 0;
  }

  lemma NoBits(w: bv64)
    requires w == 0
    ensures forall k: nat :: k < 64 ==> !Has(w, k)
  {
    forall k: nat | k < 64 ensures !Has(w, k) {
      HasZero(k);
    }
  }

  // ----- whole-vector facts

  lemma MaskedSets(ws: seq<bv64>, vs: seq<bv64>, us: seq<bv64>, n: nat)
    requires |ws| == |vs| == |us| && forall i :: 0 <= i < |ws| ==> us[i] == And(ws[i], vs[i])
    requires Padded(ws, n)
    ensures SetOf(us) == SetOf(ws) * SetOf(vs) && Padded(us, n)
  {
    hide Has, And;
    forall k: nat | k < 64 * |ws| ensures BitAt(us, k) <==> BitAt(ws, k) && BitAt(vs, k) {
      HasAnd(ws[k / 64], vs[k / 64], k % 64);
    }
  }

  /** Zero words at the end add nothing. */
  lemma GrownSets(ws: seq<bv64>, us: seq<bv64>, n: nat, m: nat)
    requires |ws| <= |us| && us[..|ws|] == ws && forall i :: |ws| <= i < |us| ==> us[i] == 0
    requires Padded(ws, n) && n <= m
    ensures SetOf(us) == SetOf(ws) && Padded(us, m)
  {
    hide Has;
    forall k: nat | k < 64 * |us| ensures BitAt(us, k) <==> k < 64 * |ws| && BitAt(ws, k) {
      if k / 64 < |ws| {
        assert us[k / 64] == us[..|ws|][k / 64];
      } else {
        HasZero(k % 64);
      }
    }
  }

  lemma AllSet(ws: seq<bv64>, n: nat)
    requires n > 0 && |ws| == (n - 1) / 64 + 1 && ws[|ws| - 1] == LowestBitsSet(BitsInLastChunk(n))
    requires forall i :: 0 <= i < |ws| - 1 ==> ws[i] == ONES
    ensures SetOf(ws) == Range(0, n - 1) && Padded(ws, n)
  {
    hide Has, LowestBitsSet;
    forall k: nat | k < 64 * |ws| ensures BitAt(ws, k) <==> k < n {
      if k / 64 < |ws| - 1 {
        HasOnes(k % 64);
      } else {
        HasLowest(BitsInLastChunk(n), k % 64);
      }
    }
  }

  // ----- the vector

  /** ROUND_UP to whole chunks wraps around in 64 bits. */
  function NumChunks(numBits: nat): nat {
    (numBits + 63) % TWO_64 / 64
  }

  /** The chunks hold all bits exactly up to the wrap-around. */
  lemma ChunksHold(numBits: nat)
    requires 0 < numBits < TWO_64
    ensures 64 * NumChunks(numBits) >= numBits <==> numBits + 63 < 0x1_0000_0000_0000_0000
  {
  }

  /** Growing past it takes all chunks away. */
  lemma ChunksLost()
    ensures NumChunks(TWO_64 - 63) == 0 && NumChunks(TWO_64 - 1) == 0
  {
  }

  function BitsInLastChunk(numBits: nat): nat
    requires numBits > 0
  {
    (numBits - 1) % 64 + 1
  }

  /** The lowest `numBits` bits of a word. */
  function LowestBitsSet(numBits: nat): bv64
    requires 0 < numBits <= 64
  {
    if numBits == 64 then ONES else Not(From(numBits))
  }

  lemma HasLowest(numBits: nat, k: nat)
    requires 0 < numBits <= 64 && k < 64
    ensures Has(LowestBitsSet(numBits), k) <==> k < numBits
  {
    hide Has, From, Not;
    if numBits == 64 {
      HasOnes(k);
    } else {
      HasNot(From(numBits), k);
      HasFrom(numBits, k);
    }
  }

  /** Either the one word itself or a pointer to the words. */
  datatype Storage = Inline(word: bv64) | Chunks(vec: array<bv64>)

  class Vector {
    var numBits: nat
    var bits: Storage

    ghost function Region(): set<object>
      reads this
    {
      if bits.Chunks? then {this, bits.vec} else {this}
    }

    ghost function Words(): seq<bv64>
      reads this, Region()
    {
      match bits
      case Inline(word) => [word]
      case Chunks(vec) => vec[..]
    }

    ghost predicate Valid()
      reads this, Region()
    {
      && 0 < numBits && numBits + 63 < TWO_64
      && (bits.Chunks? <==> numBits > INLINE_LIMIT)
      && |Words()| == NumChunks(numBits)
      && Padded(Words(), numBits)
    }

    /** The indices of the set bits. */
    ghost function Contents(): set<nat>
      reads this, Region()
    {
      SetOf(Words())
    }

    lemma Below()
      requires Valid()
      ensures numBits <= 64 * |Words()| && |Words()| == (numBits - 1) / 64 + 1
      ensures forall k :: k in Contents() ==> k < numBits
    {
    }

    constructor (numBits: nat, bits: Storage)
      requires 0 < numBits && numBits + 63 < TWO_64 && (bits.Chunks? <==> numBits > INLINE_LIMIT)
      requires match bits
               case Inline(word) => word == 0
               case Chunks(vec) => vec.Length == NumChunks(numBits) && forall i :: 0 <= i < vec.Length ==> vec[i] == 0
      ensures Valid() && Contents() == {} && this.numBits == numBits && this.bits == bits
    {
      this.numBits, this.bits := numBits, bits;
      new;
      EmptySet(Words());
      forall k: nat | k < 64 * |Words()| ensures !BitAt(Words(), k) {
        assert k !in SetOf(Words());
      }
    }

    /** Null if the size is zero, too large to be rounded up, or memory is short. */
    static method Create(numBits: nat, callocOk: bool) returns (r: Vector?)
      requires numBits < TWO_64
      ensures r == null <==> numBits == 0 || numBits + 63 >= 0x1_0000_0000_0000_0000 || !callocOk
      ensures r != null ==> fresh(r.Region()) && r.Valid() && r.Contents() == {} && r.numBits == numBits
    {
      if NumChunks(numBits) == 0 || !callocOk {
        return null;
      }
      if numBits > INLINE_LIMIT {
        var vec := new bv64[NumChunks(numBits)](i => 0);
        r := new Vector(numBits, Chunks(vec));
      } else {
        r := new Vector(numBits, Inline(0));
      }
    }

    static method CreateCopy(original: Vector, callocOk: bool) returns (copy: Vector?)
      requires original.Valid()
      ensures copy == null <==> !callocOk
      ensures copy != null ==>
                && fresh(copy.Region()) && copy.Valid() && copy.numBits == original.numBits
                && copy.Contents() == original.Contents()
    {
      hide Padded, BitAt;
      original.Below();
      ghost var ws := original.Words();
      copy := Create(original.numBits, callocOk);
      if copy != null {
        match original.bits {
          case Inline(_) =>
            copy.bits := original.bits;
          case Chunks(vec) =>
            var to := copy.bits.vec;
            forall i | 0 <= i < vec.Length {
              to[i] := vec[i];
            }
        }
        assert copy.Words() == ws == original.Words();
      }
    }

    function Chunk(i: nat): bv64
      requires i < |Words()|
      reads this, Region()
    {
      match bits
      case Inline(word) => word
      case Chunks(vec) => vec[i]
    }

    method PutChunk(i: nat, word: bv64)
      requires i < |Words()|
      modifies Region()
      ensures Words() == old(Words())[i := word] && numBits == old(numBits)
      ensures Region() == old(Region()) && bits.Chunks? == old(bits.Chunks?)
    {
      match bits {
        case Inline(_) => bits := Inline(word);
        case Chunks(vec) => vec[i] := word;
      }
    }

    // ----- single bits and ranges

    method SetBitsInRange(lowBit: nat, highBit: nat)
      requires Valid()
      modifies Region()
      ensures Valid() && numBits == old(numBits) && Region() == old(Region())
      ensures Contents() ==
              if lowBit <= highBit < numBits then old(Contents()) + Range(lowBit, highBit) else old(Contents())
    {
      if lowBit > highBit || highBit > numBits - 1 {
        return;
      }
      hide SetBelow, RangeMask, Padded, SetOf, Or;
      Below();
      ghost var was := Words();
      SetStarts(was, lowBit, highBit);
      var i := lowBit / 64;
      while i <= highBit / 64
        invariant lowBit / 64 <= i <= highBit / 64 + 1
        invariant |Words()| == |was| && SetBelow(was, Words(), lowBit, highBit, i)
        invariant numBits == old(numBits) && Region() == old(Region()) && bits.Chunks? == old(bits.Chunks?)
      {
        var mask := RangeMask(i, lowBit, highBit);
        ghost var ws := Words();
        var x := Or(Chunk(i), mask);
        SetStep(was, ws, x, lowBit, highBit, i);
        PutChunk(i, x);
        i := i + 1;
      }
      SetEnds(was, Words(), lowBit, highBit, numBits);
    }

    method ClearBitsInRange(lowBit: nat, highBit: nat)
      requires Valid()
      modifies Region()
      ensures Valid() && numBits == old(numBits) && Region() == old(Region())
      ensures Contents() ==
              if lowBit <= highBit < numBits then old(Contents()) - Range(lowBit, highBit) else old(Contents())
    {
      if lowBit > highBit || highBit > numBits - 1 {
        return;
      }
      hide ClearBelow, RangeMask, Padded, SetOf, AndNot;
      Below();
      ghost var was := Words();
      SetStarts(was, lowBit, highBit);
      var i := lowBit / 64;
      while i <= highBit / 64
        invariant lowBit / 64 <= i <= highBit / 64 + 1
        invariant |Words()| == |was| && ClearBelow(was, Words(), lowBit, highBit, i)
        invariant numBits == old(numBits) && Region() == old(Region()) && bits.Chunks? == old(bits.Chunks?)
      {
        var mask := RangeMask(i, lowBit, highBit);
        ghost var ws := Words();
        var x := AndNot(Chunk(i), mask);
        ClearStep(was, ws, x, lowBit, highBit, i);
        PutChunk(i, x);
        i := i + 1;
      }
      ClearEnds(was, Words(), lowBit, highBit, numBits);
    }

    method PutBit(bit: nat, x: bv64)
      requires Valid() && bit < numBits && bit / 64 < |Words()| && x == Or(Chunk(bit / 64), Mask(bit % 64))
      modifies Region()
      ensures Valid() && numBits == old(numBits) && Region() == old(Region())
      ensures Contents() == old(Contents()) + {bit}
    {
      hide SetBelow, RangeMask, Padded, SetOf, Mask, Or;
      Below();
      ghost var was := Words();
      SetStarts(was, bit, bit);
      OneBitMask(bit);
      SetStep(was, was, x, bit, bit, bit / 64);
      PutChunk(bit / 64, x);
      SetEnds(was, Words(), bit, bit, numBits);
      assert Range(bit, bit) == {bit};
    }

    method SetBit(bit: nat) returns (ok: bool)
      requires Valid()
      modifies Region()
      ensures Valid() && numBits == old(numBits) && Region() == old(Region())
      ensures ok <==> bit < numBits
      ensures Contents() == if ok then old(Contents()) + {bit} else old(Contents())
    {
      if bit >= numBits {
        return false;
      }
      hide Or, Mask;
      Below();
      PutBit(bit, Or(Chunk(bit / 64), Mask(bit % 64)));
      ok := true;
    }

    method ClearBit(bit: nat) returns (ok: bool)
      requires Valid()
      modifies Region()
      ensures Valid() && numBits == old(numBits) && Region() == old(Region())
      ensures ok <==> bit < numBits
      ensures Contents() == if ok then old(Contents()) - {bit} else old(Contents())
    {
      if bit >= numBits {
        return false;
      }
      hide ClearBelow, RangeMask, Padded, SetOf, Mask, AndNot;
      Below();
      ghost var was := Words();
      SetStarts(was, bit, bit);
      OneBitMask(bit);
      var x := AndNot(Chunk(bit / 64), Mask(bit % 64));
      ClearStep(was, was, x, bit, bit, bit / 64);
      PutChunk(bit / 64, x);
      ClearEnds(was, Words(), bit, bit, numBits);
      assert Range(bit, bit) == {bit};
      ok := true;
    }

    method IsBitSet(bit: nat) returns (r: bool)
      requires Valid()
      ensures r <==> bit in Contents()
    {
      Below();
      if bit >= numBits {
        return false;
      }
      hide Has, TestBit;
      Tested(Words()[bit / 64], bit % 64);
      r := TestBit(Chunk(bit / 64), bit % 64);
      assert BitAt(Words(), bit) <==> bit in SetOf(Words());
    }

    method IsAnyBitSet() returns (r: bool)
      requires Valid()
      ensures r <==> Contents() != {}
    {
      hide SetOf;
      EmptySet(Words());
      Below();
      if numBits <= INLINE_LIMIT {
        assert |Words()| == 1 && Words()[0] == Chunk(0);
        return Chunk(0) != 0;
      }
      var i := 0;
      while i < NumChunks(numBits)
        invariant i <= |Words()| && forall j :: 0 <= j < i ==> Words()[j] == 0
      {
        if Chunk(i) != 0 {
          return true;
        }
        i := i + 1;
      }
      return false;
    }

    // ----- searching

    method FindLowestBitInRange(lowBit: nat, highBit: nat, findClear: bool) returns (ok: bool, bit: nat)
      requires Valid()
      ensures ok ==> highBit < numBits && Wanted(Words(), lowBit, highBit, findClear, bit)
      ensures ok ==> forall k: nat :: Wanted(Words(), lowBit, highBit, findClear, k) ==> bit <= k
      ensures !ok ==> highBit >= numBits || forall k: nat :: !Wanted(Words(), lowBit, highBit, findClear, k)
    {
      if lowBit > highBit || highBit > numBits - 1 {
        return false, 0;
      }
      hide Has, Candidates, BitAt, Wanted, NoneBefore, NoneFrom;
      Below();
      ghost var ws := Words();
      NoneOutside(ws, lowBit, highBit, findClear);
      var i := lowBit / 64;
      while i <= highBit / 64
        invariant lowBit / 64 <= i <= highBit / 64 + 1
        invariant NoneBefore(ws, lowBit, highBit, findClear, i)
      {
        var w := Candidates(Chunk(i), i, lowBit, highBit, findClear);
        if w != 0 {
          var found, j := LowestInWord(w);
          if found {
            CandidateFound(ws, i, lowBit, highBit, findClear, j);
            return true, i * 64 + j;
          }
        } else {
          NoBits(w);
        }
        PassedOver(ws, i, lowBit, highBit, findClear);
        i := i + 1;
      }
      NoneLeft(ws, lowBit, highBit, findClear, i);
      return false, 0;
    }

    method FindHighestBitInRange(lowBit: nat, highBit: nat, findClear: bool) returns (ok: bool, bit: nat)
      requires Valid()
      ensures ok ==> highBit < numBits && Wanted(Words(), lowBit, highBit, findClear, bit)
      ensures ok ==> forall k: nat :: Wanted(Words(), lowBit, highBit, findClear, k) ==> k <= bit
      ensures !ok ==> highBit >= numBits || forall k: nat :: !Wanted(Words(), lowBit, highBit, findClear, k)
    {
      if lowBit > highBit || highBit > numBits - 1 {
        return false, 0;
      }
      hide Has, Candidates, BitAt, Wanted, NoneBefore, NoneFrom;
      Below();
      ghost var ws := Words();
      NoneOutside(ws, lowBit, highBit, findClear);
      var i := highBit / 64 + 1;
      while i >= lowBit / 64 + 1
        invariant lowBit / 64 <= i <= highBit / 64 + 1
        invariant NoneFrom(ws, lowBit, highBit, findClear, i)
        decreases i
      {
        var idx := i - 1;
        var w := Candidates(Chunk(idx), idx, lowBit, highBit, findClear);
        if w != 0 {
          var found, j := HighestInWord(w);
          if found {
            CandidateFound(ws, idx, lowBit, highBit, findClear, j);
            return true, idx * 64 + j;
          }
        } else {
          NoBits(w);
        }
        PassedOver(ws, idx, lowBit, highBit, findClear);
        i := i - 1;
      }
      NoneLeft(ws, lowBit, highBit, findClear, i);
      return false, 0;
    }

    /** No bit of the range is clear. */
    method AreAllBitsSetInRange(lowBit: nat, highBit: nat) returns (r: bool)
      requires Valid()
      ensures r <==> lowBit <= highBit < numBits && Range(lowBit, highBit) <= Contents()
    {
      if lowBit > highBit || highBit > numBits - 1 {
        return false;
      }
      hide BitAt, RangeMask, And;
      Below();
      ghost var ws := Words();
      var i := lowBit / 64;
      while i <= highBit / 64
        invariant lowBit / 64 <= i <= highBit / 64 + 1
        invariant forall k: nat :: k / 64 < i ==> !Wanted(ws, lowBit, highBit, true, k)
      {
        var mask := RangeMask(i, lowBit, highBit);
        ChunkUniform(ws, i, lowBit, highBit, true);
        if And(mask, Chunk(i)) != mask {
          ghost var k: nat :| k / 64 == i && Wanted(ws, lowBit, highBit, true, k);
          assert k in Range(lowBit, highBit) && k !in Contents();
          return false;
        }
        i := i + 1;
      }
      forall k | k in Range(lowBit, highBit) ensures k in Contents() {
        assert !Wanted(ws, lowBit, highBit, true, k);
      }
      return true;
    }

    /** No bit of the range is set. */
    method AreAllBitsClearInRange(lowBit: nat, highBit: nat) returns (r: bool)
      requires Valid()
      ensures r <==> lowBit <= highBit < numBits && Range(lowBit, highBit) !! Contents()
    {
      if lowBit > highBit || highBit > numBits - 1 {
        return false;
      }
      hide BitAt, RangeMask, Or, Not;
      Below();
      ghost var ws := Words();
      var i := lowBit / 64;
      while i <= highBit / 64
        invariant lowBit / 64 <= i <= highBit / 64 + 1
        invariant forall k: nat :: k / 64 < i ==> !Wanted(ws, lowBit, highBit, false, k)
      {
        var mask := RangeMask(i, lowBit, highBit);
        ChunkUniform(ws, i, lowBit, highBit, false);
        if Or(Not(mask), Chunk(i)) != Not(mask) {
          ghost var k: nat :| k / 64 == i && Wanted(ws, lowBit, highBit, false, k);
          assert k in Range(lowBit, highBit) && k in Contents();
          return false;
        }
        i := i + 1;
      }
      forall k | k in Range(lowBit, highBit) ensures k !in Contents() {
        assert !Wanted(ws, lowBit, highBit, false, k);
      }
      return true;
    }

    method FindLowestClearBitInRange(lowBit: nat, highBit: nat) returns (ok: bool, bit: nat)
      requires Valid()
      ensures ok <==> lowBit <= highBit < numBits && !(Range(lowBit, highBit) <= Contents())
      ensures ok ==> lowBit <= bit <= highBit && bit !in Contents()
      ensures ok ==> forall k :: lowBit <= k < bit ==> k in Contents()
    {
      Below();
      ok, bit := FindLowestBitInRange(lowBit, highBit, true);
      ghost var ws := Words();
      forall k: nat | lowBit <= k <= highBit < numBits
        ensures Wanted(ws, lowBit, highBit, true, k) <==> k !in Contents()
      {
      }
      assert ok ==> bit in Range(lowBit, highBit);
    }

    method FindLowestSetBitInRange(lowBit: nat, highBit: nat) returns (ok: bool, bit: nat)
      requires Valid()
      ensures ok <==> lowBit <= highBit < numBits && Range(lowBit, highBit) * Contents() != {}
      ensures ok ==> lowBit <= bit <= highBit && bit in Contents()
      ensures ok ==> forall k :: lowBit <= k < bit ==> k !in Contents()
    {
      Below();
      ok, bit := FindLowestBitInRange(lowBit, highBit, false);
      ghost var ws := Words();
      forall k: nat | lowBit <= k <= highBit < numBits
        ensures Wanted(ws, lowBit, highBit, false, k) <==> k in Contents()
      {
      }
      assert ok ==> bit in Range(lowBit, highBit) * Contents();
    }

    method FindHighestClearBitInRange(lowBit: nat, highBit: nat) returns (ok: bool, bit: nat)
      requires Valid()
      ensures ok <==> lowBit <= highBit < numBits && !(Range(lowBit, highBit) <= Contents())
      ensures ok ==> lowBit <= bit <= highBit && bit !in Contents()
      ensures ok ==> forall k :: bit < k <= highBit ==> k in Contents()
    {
      Below();
      ok, bit := FindHighestBitInRange(lowBit, highBit, true);
      ghost var ws := Words();
      forall k: nat | lowBit <= k <= highBit < numBits
        ensures Wanted(ws, lowBit, highBit, true, k) <==> k !in Contents()
      {
      }
      assert ok ==> bit in Range(lowBit, highBit);
    }

    method FindHighestSetBitInRange(lowBit: nat, highBit: nat) returns (ok: bool, bit: nat)
      requires Valid()
      ensures ok <==> lowBit <= highBit < numBits && Range(lowBit, highBit) * Contents() != {}
      ensures ok ==> lowBit <= bit <= highBit && bit in Contents()
      ensures ok ==> forall k :: bit < k <= highBit ==> k !in Contents()
    {
      Below();
      ok, bit := FindHighestBitInRange(lowBit, highBit, false);
      ghost var ws := Words();
      forall k: nat | lowBit <= k <= highBit < numBits
        ensures Wanted(ws, lowBit, highBit, false, k) <==> k in Contents()
      {
      }
      assert ok ==> bit in Range(lowBit, highBit) * Contents();
    }

    // ----- whole vectors

    method SetAllBits()
      requires Valid()
      modifies Region()
      ensures Valid() && numBits == old(numBits) && Region() == old(Region())
      ensures Contents() == Range(0, numBits - 1)
    {
      Below();
      match bits {
        case Inline(_) =>
          bits := Inline(LowestBitsSet(numBits));
        case Chunks(vec) =>
          var last := NumChunks(numBits) - 1;
          var i := 0;
          while i < last
            invariant i <= last && forall j :: 0 <= j < i ==> vec[j] == ONES
            invariant numBits == old(numBits) && bits == old(bits)
          {
            vec[i] := ONES;
            i := i + 1;
          }
          vec[last] := LowestBitsSet(BitsInLastChunk(numBits));
      }
      AllSet(Words(), numBits);
    }

    /** Word-wise comparison decides equality, because the padding is always zero. */
    static method Compare(v1: Vector, v2: Vector) returns (r: bool)
      requires v1.Valid() && v2.Valid()
      ensures r <==> v1.numBits == v2.numBits && v1.Contents() == v2.Contents()
    {
      if v1.numBits != v2.numBits {
        return false;
      }
      hide SetOf;
      v1.Below();
      v2.Below();
      if v1.Contents() == v2.Contents() { SameSet(v1.Words(), v2.Words()); }
      if v1.numBits <= INLINE_LIMIT {
        r := v1.Chunk(0) == v2.Chunk(0);
        assert r ==> v1.Words() == v2.Words();
        return;
      }
      var i := 0;
      while i < NumChunks(v1.numBits)
        invariant i <= |v1.Words()| && v1.Words()[..i] == v2.Words()[..i]
      {
        if v1.Chunk(i) != v2.Chunk(i) {
          return false;
        }
        i := i + 1;
      }
      assert v1.Words() == v1.Words()[..i] && v2.Words() == v2.Words()[..i];
      return true;
    }

    /** Intersection, if the sizes agree. */
    method Intersect(other: Vector) returns (ok: bool)
      requires Valid() && other.Valid() && (this == other || Region() !! other.Region())
      modifies Region()
      ensures Valid() && numBits == old(numBits) && Region() == old(Region())
      ensures ok <==> numBits == old(other.numBits)
      ensures Contents() == if ok then old(Contents()) * old(other.Contents()) else old(Contents())
    {
      if numBits != other.numBits {
        return false;
      }
      hide And, BitAt;
      Below();
      other.Below();
      ghost var ws, vs := Words(), other.Words();
      if numBits <= INLINE_LIMIT {
        PutChunk(0, And(Chunk(0), other.Chunk(0)));
      } else {
        var i := 0;
        while i < NumChunks(numBits)
          invariant i <= |ws| && |Words()| == |ws| && Words()[i..] == ws[i..]
          invariant other != this ==> other.Words() == vs
          invariant other.numBits == old(other.numBits) && other.bits == old(other.bits)
          invariant numBits == old(numBits) && Region() == old(Region()) && bits.Chunks?
          invariant forall j :: 0 <= j < i ==> Words()[j] == And(ws[j], vs[j])
        {
          assert Words()[i] == Words()[i..][0] && ws[i] == ws[i..][0];
          PutChunk(i, And(Chunk(i), other.Chunk(i)));
          i := i + 1;
        }
      }
      MaskedSets(ws, vs, Words(), numBits);
      ok := true;
    }

    /** A larger size keeps the set; false only if memory is short. */
    method Grow(newNumBits: nat, allocOk: bool) returns (ok: bool)
      requires Valid() && newNumBits + 63 < TWO_64
      modifies this
      ensures Valid() && Contents() == old(Contents()) && fresh(Region() - old(Region()))
      ensures numBits == if ok && newNumBits > old(numBits) then newNumBits else old(numBits)
      ensures allocOk ==> ok
    {
      if numBits >= newNumBits {
        return true;
      }
      Below();
      ghost var ws := Words();
      match bits {
        case Chunks(vec) =>
          if NumChunks(newNumBits) != NumChunks(numBits) {
            if !allocOk {
              return false;
            }
            var newVector := new bv64[NumChunks(newNumBits)](i requires 0 <= i reads vec =>
              if i < vec.Length then vec[i] else 0);
            bits := Chunks(newVector);
          }
        case Inline(word) =>
          if newNumBits > INLINE_LIMIT {
            if !allocOk {
              return false;
            }
            var newVector := new bv64[NumChunks(newNumBits)](i => if i == 0 then word else 0);
            bits := Chunks(newVector);
          }
      }
      numBits := newNumBits;
      GrownSets(ws, Words(), old(numBits), newNumBits);
      ok := true;
    }

    /** The lowest index that is not in the set is added. */
    method SetLowestClearBit() returns (ok: bool, bit: nat)
      requires Valid()
      modifies Region()
      ensures Valid() && numBits == old(numBits) && Region() == old(Region())
      ensures ok <==> old(Contents()) != Range(0, numBits - 1)
      ensures ok ==> bit < numBits && bit !in old(Contents()) && forall k :: 0 <= k < bit ==> k in old(Contents())
      ensures Contents() == if ok then old(Contents()) + {bit} else old(Contents())
    {
      hide Has, SetOf, Mask, Or, Padded;
      Below();
      ghost var was := Words();
      var highChunkIdx := (numBits - 1) / 64;
      var i := 0;
      while i <= highChunkIdx
        invariant i <= highChunkIdx + 1
        invariant Words() == was && numBits == old(numBits) && bits == old(bits)
        invariant forall k: nat :: k / 64 < i && k < numBits ==> k in SetOf(was)
      {
        ghost var totalBits := if i == highChunkIdx then BitsInLastChunk(numBits) else 64;
        if Chunk(i) != ONES {
          var bitCount := if i == highChunkIdx then BitsInLastChunk(numBits) else 64;
          var found, chunk, j := SetLowestClearInWord(Chunk(i), bitCount);
          if found {
            bit := i * 64 + j;
            ClearInChunk(was, i, bitCount, j);
            assert bit !in Contents();
            PutBit(bit, chunk);
            return true, bit;
          }
        } else {
          OnesHaveAll(totalBits);
        }
        ClearInChunk(was, i, totalBits, totalBits);
        forall k: nat | k / 64 == i && k < numBits ensures k in SetOf(was) {
          assert 64 * i <= k < 64 * i + totalBits;
        }
        i := i + 1;
      }
      forall k: nat | k < numBits ensures k in Contents() {
        assert k / 64 < i;
      }
      Below();
      assert Contents() == Range(0, numBits - 1);
      return false, 0;
    }
  }
}
