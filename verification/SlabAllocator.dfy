/** The slab allocator: equal blocks of one reservation, and a bit for each of them. */
module SlabAllocator {
  import opened Limits
  import opened Bitvector

  // ----- counting

  lemma {:induction false} RangeSize(lo: nat, n: nat)
    requires n > 0
    ensures |Range(lo, lo + n - 1)| == n
  {
    if n == 1 {
      assert Range(lo, lo) == {lo};
    } else {
      RangeSize(lo, n - 1);
      assert Range(lo, lo + n - 1) == Range(lo, lo + n - 2) + {lo + n - 1};
    }
  }

  lemma {:induction false} Subset(a: set<nat>, b: set<nat>)
    requires a <= b
    ensures |a| <= |b| && (|a| == |b| ==> a == b)
  {
    if a != {} {
      var x :| x in a;
      Subset(a - {x}, b - {x});
    }
  }

  // ----- blocks and bits

  function AddrOf(base: nat, blockSize: nat, bit: nat): nat {
    base + blockSize * bit
  }

  function BitIndex(base: nat, blockSize: nat, addr: nat): nat
    requires blockSize > 0 && addr >= base
  {
    (addr - base) / blockSize
  }

  /** Addresses inside a block lead back to its bit, those of different blocks to different
      ones. */
  lemma {:induction false} BitOfAddr(base: nat, blockSize: nat, bit: nat, offset: nat)
    requires offset < blockSize
    ensures BitIndex(base, blockSize, AddrOf(base, blockSize, bit) + offset) == bit
  {
    Quotient(blockSize, bit, offset);
  }

  lemma Quotient(d: nat, q: nat, r: nat)
    requires r < d
    ensures (d * q + r) / d == q
  {
    var n := d * q + r;
    var q', r' := n / d, n % d;
    assert n == d * q' + r';
    if q' > q {
      Times(d, q + 1, q');
    } else if q' < q {
      Times(d, q' + 1, q);
    }
  }

  lemma Times(d: nat, a: nat, b: nat)
    requires a <= b
    ensures d * a <= d * b && d * a == d * (a - 1) + d
  {
  }

  ghost function Blocks(base: nat, blockSize: nat, bits: set<nat>): set<nat> {
    set b | b in bits :: AddrOf(base, blockSize, b)
  }

  /** Bits and block addresses correspond one to one. */
  lemma BlockOfBit(base: nat, blockSize: nat, bits: set<nat>, addr: nat)
    requires blockSize > 0
    ensures addr in Blocks(base, blockSize, bits)
            <==> addr >= base && BitIndex(base, blockSize, addr) in bits
                 && addr == AddrOf(base, blockSize, BitIndex(base, blockSize, addr))
  {
    forall b | b in bits ensures BitIndex(base, blockSize, AddrOf(base, blockSize, b)) == b {
      BitOfAddr(base, blockSize, b, 0);
    }
  }

  lemma BlocksAdd(base: nat, blockSize: nat, bits: set<nat>, bit: nat)
    ensures Blocks(base, blockSize, bits + {bit}) == Blocks(base, blockSize, bits) + {AddrOf(base, blockSize, bit)}
  {
  }

  lemma BlocksRemove(base: nat, blockSize: nat, bits: set<nat>, bit: nat)
    requires blockSize > 0 && bit in bits
    ensures Blocks(base, blockSize, bits - {bit}) == Blocks(base, blockSize, bits) - {AddrOf(base, blockSize, bit)}
  {
    BitOfAddr(base, blockSize, bit, 0);
    forall addr ensures addr in Blocks(base, blockSize, bits - {bit})
                        <==> addr in Blocks(base, blockSize, bits) - {AddrOf(base, blockSize, bit)} {
      if addr >= 0 {
        BlockOfBit(base, blockSize, bits, addr);
        BlockOfBit(base, blockSize, bits - {bit}, addr);
      }
    }
  }

  /** Blocks lie inside the reservation and do not overlap. */
  lemma BlocksApart(base: nat, blockSize: nat, n: nat, b: nat, c: nat)
    requires b < n && c < n && blockSize > 0
    ensures base <= AddrOf(base, blockSize, b) && AddrOf(base, blockSize, b) + blockSize <= base + blockSize * n
    ensures b < c ==> AddrOf(base, blockSize, b) + blockSize <= AddrOf(base, blockSize, c)
  {
    Times(blockSize, b + 1, n);
    if b < c {
      Times(blockSize, b + 1, c);
    }
  }

  // ----- the slab

  class Slab {
    const blockSize: nat
    const blocksPerSlab: nat
    var freeBlocks: nat
    const bitmap: Vector
    /** The address of the parent reservation. */
    const base: nat

    ghost function Region(): set<object>
      reads this, bitmap
    {
      {this} + bitmap.Region()
    }

    /** The free blocks are counted by the clear bits. */
    ghost predicate Valid()
      reads this, bitmap, Region()
    {
      && this !in bitmap.Region()
      && bitmap.Valid() && bitmap.numBits == blocksPerSlab
      && blockSize > 0 && base > 0
      && freeBlocks + |bitmap.Contents()| == blocksPerSlab
    }

    /** The addresses of the allocated blocks. */
    ghost function Live(): set<nat>
      reads this, bitmap, Region()
    {
      Blocks(base, blockSize, bitmap.Contents())
    }

    constructor (base: nat, blockSize: nat, blocksPerSlab: nat, bitmap: Vector)
      requires base > 0 && blockSize > 0 && bitmap.Valid() && bitmap.Contents() == {}
      requires bitmap.numBits == blocksPerSlab
      ensures Valid() && Live() == {} && Region() == {this} + bitmap.Region() && this.bitmap == bitmap
      ensures this.base == base && this.blockSize == blockSize && this.blocksPerSlab == blocksPerSlab
    {
      this.base, this.blockSize, this.blocksPerSlab := base, blockSize, blocksPerSlab;
      this.freeBlocks, this.bitmap := blocksPerSlab, bitmap;
    }

    /** Null if no bitmap can be had. */
    static method Initialize(base: nat, maxSize: nat, reservationSize: nat, callocOk: bool) returns (r: Slab?)
      requires base > 0 && maxSize > 0 && reservationSize < TWO_64
      ensures r == null <==>
                !callocOk || reservationSize / maxSize == 0 || reservationSize / maxSize + 63 >= 0x1_0000_0000_0000_0000
      ensures r != null ==>
                && fresh(r.Region()) && r.Valid() && r.Live() == {} && r.bitmap.Contents() == {}
                && r.base == base && r.blockSize == maxSize && r.blocksPerSlab == reservationSize / maxSize
    {
      var bitmap := Vector.Create(reservationSize / maxSize, callocOk);
      if bitmap == null {
        return null;
      }
      r := new Slab(base, maxSize, reservationSize / maxSize, bitmap);
    }

    lemma Counted()
      requires Valid()
      ensures bitmap.Contents() <= Range(0, blocksPerSlab - 1) && blocksPerSlab > 0
      ensures freeBlocks == 0 <==> bitmap.Contents() == Range(0, blocksPerSlab - 1)
    {
      bitmap.Below();
      RangeSize(0, blocksPerSlab);
      Subset(bitmap.Contents(), Range(0, blocksPerSlab - 1));
    }

    /** The lowest free block; 0 exactly if every block is allocated. */
    method Alloc() returns (addr: nat, ghost bit: nat)
      requires Valid()
      modifies Region()
      ensures Valid() && Region() == old(Region())
      ensures addr == 0 <==> old(freeBlocks) == 0
      ensures addr == 0 ==> bitmap.Contents() == old(bitmap.Contents())
      ensures addr != 0 ==>
                && bit < blocksPerSlab && addr == AddrOf(base, blockSize, bit)
                && bit !in old(bitmap.Contents()) && (forall k :: 0 <= k < bit ==> k in old(bitmap.Contents()))
                && bitmap.Contents() == old(bitmap.Contents()) + {bit} && freeBlocks == old(freeBlocks) - 1
                && addr !in old(Live()) && Live() == old(Live()) + {addr}
    {
      hide SetOf, Padded, Range, Blocks;
      Counted();
      addr, bit := 0, 0;
      if freeBlocks == 0 {
        return;
      }
      var found, b := bitmap.FindLowestClearBitInRange(0, blocksPerSlab - 1);
      if !found {
        return;
      }
      BlocksAdd(base, blockSize, bitmap.Contents(), b);
      BitOfAddr(base, blockSize, b, 0);
      BlockOfBit(base, blockSize, bitmap.Contents(), AddrOf(base, blockSize, b));
      var ok := bitmap.SetBit(b);
      freeBlocks := freeBlocks - 1;
      return AddrOf(base, blockSize, b), b;
    }

    /** The address of an allocated block, or any address inside it, frees that block.  The code
        does not look whether the block is allocated: if it is not, and only then, the count of
        free blocks goes wrong. */
    method Free(addr: nat)
      requires Valid() && addr >= base
      modifies Region()
      ensures Region() == old(Region()) && bitmap.Valid() && freeBlocks == old(freeBlocks) + 1
      ensures bitmap.Contents() == old(bitmap.Contents()) - {BitIndex(base, blockSize, addr)}
      ensures Valid() <==> BitIndex(base, blockSize, addr) in old(bitmap.Contents())
      ensures BitIndex(base, blockSize, addr) in old(bitmap.Contents()) ==>
                Live() == old(Live()) - {AddrOf(base, blockSize, BitIndex(base, blockSize, addr))}
    {
      hide SetOf, Padded, Blocks;
      var bit := BitIndex(base, blockSize, addr);
      bitmap.Below();
      if bit in bitmap.Contents() {
        BlocksRemove(base, blockSize, bitmap.Contents(), bit);
      }
      var ok := bitmap.ClearBit(bit);
      freeBlocks := freeBlocks + 1;
    }

    /** Freeing the block just allocated restores the slab. */
    method AllocThenFree()
      requires Valid()
      modifies Region()
      ensures Valid() && freeBlocks == old(freeBlocks) && bitmap.Contents() == old(bitmap.Contents())
    {
      var addr, bit := Alloc();
      if addr != 0 {
        BitOfAddr(base, blockSize, bit, 0);
        Free(addr);
      }
    }
  }
}
