/** Reservations of the arena allocator: a range with a strategy, slab or objects, that
    hands out blocks of it. */
module Reservations {
  import opened BitPaths
  import opened BlockLayout
  import opened BlockRuns
  import opened SlabAllocator
  import opened BlockHeap
  import AvlNodes
  import Bitvector

  datatype Strategy = SlabOf(slab: Slab) | ObjectsOf(heap: Heap)

  ghost function SlabLive(base: nat, blockSize: nat, bits: set<nat>): set<(nat, nat)> {
    set b | b in bits :: (AddrOf(base, blockSize, b), blockSize)
  }

  lemma SlabLiveAdd(base: nat, blockSize: nat, bits: set<nat>, bit: nat)
    ensures SlabLive(base, blockSize, bits + {bit})
            == SlabLive(base, blockSize, bits) + {(AddrOf(base, blockSize, bit), blockSize)}
  {
  }

  lemma SlabLiveRemove(base: nat, blockSize: nat, bits: set<nat>, bit: nat)
    requires blockSize > 0 && bit in bits
    ensures SlabLive(base, blockSize, bits - {bit})
            == SlabLive(base, blockSize, bits) - {(AddrOf(base, blockSize, bit), blockSize)}
  {
    forall b | b in bits ensures AddrOf(base, blockSize, b) == AddrOf(base, blockSize, bit) ==> b == bit {
      BitOfAddr(base, blockSize, b, 0);
      BitOfAddr(base, blockSize, bit, 0);
    }
  }

  /** Block `b` of a slab is not live. */
  ghost predicate Unused(live: set<(nat, nat)>, base: nat, blockSize: nat, b: nat) {
    (AddrOf(base, blockSize, b), blockSize) !in live
  }

  /** The address that is given back lies in the block, which for a slab suffices; an object
      is named by its start. */
  predicate Hits(p: (nat, nat), slab: bool, addr: nat) {
    if slab then p.0 <= addr < p.0 + p.1 else p.0 == addr
  }

  ghost function Released(live: set<(nat, nat)>, slab: bool, addr: nat): set<(nat, nat)> {
    set p | p in live && !Hits(p, slab, addr)
  }

  lemma SlabHit(base: nat, blockSize: nat, bit: nat, addr: nat)
    requires blockSize > 0 && addr >= base
    ensures Hits((AddrOf(base, blockSize, bit), blockSize), true, addr) <==> bit == BitIndex(base, blockSize, addr)
  {
    var b := BitIndex(base, blockSize, addr);
    var offset := (addr - base) % blockSize;
    assert addr == AddrOf(base, blockSize, b) + offset;
    if AddrOf(base, blockSize, bit) <= addr < AddrOf(base, blockSize, bit) + blockSize {
      BitOfAddr(base, blockSize, bit, addr - AddrOf(base, blockSize, bit));
    }
  }

  lemma SlabReleased(base: nat, blockSize: nat, bits: set<nat>, addr: nat)
    requires blockSize > 0 && addr >= base
    ensures BitIndex(base, blockSize, addr) in bits
            <==> exists p :: p in SlabLive(base, blockSize, bits) && Hits(p, true, addr)
    ensures BitIndex(base, blockSize, addr) in bits ==>
              SlabLive(base, blockSize, bits - {BitIndex(base, blockSize, addr)})
              == Released(SlabLive(base, blockSize, bits), true, addr)
  {
    var bit := BitIndex(base, blockSize, addr);
    forall b | b in bits
      ensures Hits((AddrOf(base, blockSize, b), blockSize), true, addr) <==> b == bit
    {
      SlabHit(base, blockSize, b, addr);
    }
    if bit in bits {
      assert (AddrOf(base, blockSize, bit), blockSize) in SlabLive(base, blockSize, bits);
      SlabLiveRemove(base, blockSize, bits, bit);
    }
  }

  class Reservation {
    const addr: nat
    const size: nat
    const arenaIdx: nat
    /** The node that stands for the reservation in the tracker. */
    const node: AvlNodes.Node
    const strategy: Strategy
    var next: Reservation?

    /** The objects at which the strategy starts. */
    ghost function Roots(): set<object> {
      match strategy
      case SlabOf(slab) => {slab, slab.bitmap}
      case ObjectsOf(heap) => {heap}
    }

    ghost function Parts(): set<object>
      reads Roots()
    {
      match strategy
      case SlabOf(slab) => slab.Region()
      case ObjectsOf(heap) => heap.region
    }

    ghost predicate Valid()
      reads Roots(), Parts()
    {
      match strategy
      case SlabOf(slab) =>
        slab.Valid() && slab.base == addr && slab.blockSize * slab.blocksPerSlab <= size
      case ObjectsOf(heap) =>
        heap.Valid() && heap.base == addr && heap.total == size
    }

    /** The blocks that are handed out, with their actual sizes. */
    ghost function Live(): set<(nat, nat)>
      requires Valid()
      reads Roots(), Parts()
    {
      match strategy
      case SlabOf(slab) => SlabLive(slab.base, slab.blockSize, slab.bitmap.Contents())
      case ObjectsOf(heap) => BlockRuns.Live(heap.View())
    }

    constructor (addr: nat, size: nat, arenaIdx: nat, node: AvlNodes.Node, strategy: Strategy)
      ensures this.addr == addr && this.size == size && this.arenaIdx == arenaIdx
      ensures this.node == node && this.strategy == strategy && next == null
    {
      this.addr, this.size, this.arenaIdx := addr, size, arenaIdx;
      this.node, this.strategy, next := node, strategy, null;
    }

    lemma RootsInParts()
      requires Valid()
      ensures Roots() <= Parts()
    {
    }

    /** Live blocks lie inside the reservation and do not overlap. */
    lemma LiveIsSound()
      requires Valid()
      ensures forall p :: p in Live() ==> addr <= p.0 && p.1 > 0 && p.0 + p.1 <= addr + size
      ensures forall p, q :: p in Live() && q in Live() && p != q ==> Apart(p, q)
    {
      match strategy {
        case SlabOf(slab) =>
          slab.bitmap.Below();
          forall b, c | b in slab.bitmap.Contents() && c in slab.bitmap.Contents()
            ensures var base, size := slab.base, slab.blockSize;
                    && base <= AddrOf(base, size, b) && AddrOf(base, size, b) + size <= base + size * slab.blocksPerSlab
                    && (b < c ==> AddrOf(base, size, b) + size <= AddrOf(base, size, c))
          {
            BlocksApart(slab.base, slab.blockSize, slab.blocksPerSlab, b, c);
          }
        case ObjectsOf(heap) =>
          LiveApart(heap.View(), heap.base, heap.total);
      }
    }

    /** Nothing is allocated: no bit of the slab is set, or one free block covers the range. */
    ghost predicate Whole()
      requires Valid()
      reads Roots(), Parts()
    {
      match strategy
      case SlabOf(slab) => slab.bitmap.Contents() == {} && slab.freeBlocks == slab.blocksPerSlab
      case ObjectsOf(heap) => heap.View() == [Extent(addr, size, true)]
    }

    /** Without live blocks the reservation is as it was when it was made. */
    lemma UnusedIsWhole()
      requires Valid() && Live() == {}
      ensures Whole()
    {
      match strategy {
        case SlabOf(slab) =>
          forall b | b in slab.bitmap.Contents()
            ensures (AddrOf(slab.base, slab.blockSize, b), slab.blockSize) in Live()
          {
          }
          assert slab.bitmap.Contents() == {};
        case ObjectsOf(heap) =>
          AllocatedIsLive(heap.View());
          AllFreeIsOne(heap.View(), heap.base, heap.total);
      }
    }

    /** The sizes that the strategy serves: the slab's block size at most, or any size that
        is a key of the size tree. */
    ghost predicate Serves(size: nat)
      requires Valid()
      reads Roots(), Parts()
    {
      match strategy
      case SlabOf(slab) => size <= slab.blockSize
      case ObjectsOf(heap) => 0 < size < Pow2(63)
    }

    /** The size of the block that a request gets. */
    ghost function Granted(size: nat): nat {
      match strategy
      case SlabOf(slab) => slab.blockSize
      case ObjectsOf(_) => size
    }

    /** With these live blocks there is room for one more: some block of the slab is not live,
        or some window of the size meets no live block; if no memory for a split can be had, it
        takes a gap of exactly the size. */
    ghost predicate Room(live: set<(nat, nat)>, size: nat, blockOk: bool) {
      match strategy
      case SlabOf(slab) =>
        exists b: nat :: b < slab.blocksPerSlab && Unused(live, addr, slab.blockSize, b)
      case ObjectsOf(heap) =>
        if blockOk then exists a: nat :: addr <= a && a + size <= addr + this.size && Clear(live, a, size)
        else exists a: nat :: Gap(live, addr, this.size, a, size)
    }

    /** Where the next block goes: to the lowest block of the slab that is not live, or to the
        start of a smallest gap that is large enough. */
    ghost predicate Best(live: set<(nat, nat)>, size: nat, a: nat) {
      match strategy
      case SlabOf(slab) =>
        exists b: nat ::
          && b < slab.blocksPerSlab && a == addr + slab.blockSize * b && Unused(live, addr, slab.blockSize, b)
          && forall c: nat :: c < b ==> !Unused(live, addr, slab.blockSize, c)
      case ObjectsOf(heap) => BestGap(live, addr, this.size, a, size)
    }

    /** An unused reservation has room exactly for the sizes that fit; a heap without memory for
        a split only for its own size. */
    lemma UnusedRoom(size: nat, blockOk: bool)
      requires Valid() && Serves(size)
      ensures Room({}, size, blockOk)
              <==> strategy.SlabOf? || (if blockOk then size <= this.size else size == this.size)
    {
      match strategy {
        case SlabOf(slab) =>
          slab.Counted();
          assert Unused({}, addr, slab.blockSize, 0);
        case ObjectsOf(heap) =>
          assert Clear({}, addr, size);
          assert size == this.size ==> Gap({}, addr, this.size, addr, size);
      }
    }

    /** In an unused reservation the next block goes to the start. */
    lemma UnusedBest(size: nat, a: nat)
      requires Best({}, size, a)
      ensures a == addr
    {
      match strategy {
        case SlabOf(slab) =>
          assert Unused({}, addr, slab.blockSize, 0);
        case ObjectsOf(heap) =>
      }
    }

    lemma SlabRoom(slab: Slab, size: nat, blockOk: bool)
      requires strategy == SlabOf(slab) && slab.Valid() && slab.base == addr
      ensures forall b: nat ::
                Unused(SlabLive(addr, slab.blockSize, slab.bitmap.Contents()), addr, slab.blockSize, b)
                <==> b !in slab.bitmap.Contents()
      ensures Room(SlabLive(addr, slab.blockSize, slab.bitmap.Contents()), size, blockOk) <==> slab.freeBlocks > 0
    {
      slab.Counted();
      var bits := slab.bitmap.Contents();
      forall b: nat ensures Unused(SlabLive(addr, slab.blockSize, bits), addr, slab.blockSize, b) <==> b !in bits {
        if b !in bits { SlabLiveNew(slab, bits, b); }
      }
      if slab.freeBlocks > 0 {
        var b :| b in Bitvector.Range(0, slab.blocksPerSlab - 1) && b !in bits;
      }
    }

    lemma HeapRoom(heap: Heap, size: nat)
      requires strategy == ObjectsOf(heap) && heap.Valid() && heap.base == addr && heap.total == this.size && size > 0
      ensures Room(BlockRuns.Live(heap.View()), size, true) <==> exists i :: FreeFit(heap.View(), i, size)
      ensures Room(BlockRuns.Live(heap.View()), size, false) ==> exists i :: FreeFit(heap.View(), i, size)
    {
      hide Clear, Vacant, Sound, BlockRuns.Live, Gap, FreeFit;
      FitsExactlyWhenVacant(heap.View(), heap.base, heap.total, size);
      forall a: nat ensures Clear(BlockRuns.Live(heap.View()), a, size) <==> Vacant(heap.View(), a, size) {
        ClearIsVacant(heap.View(), heap.base, heap.total, a, size);
      }
      if a: nat :| Gap(BlockRuns.Live(heap.View()), addr, this.size, a, size) {
        GapFits(heap.View(), addr, this.size, a, size);
      }
    }

    /** A block of at least the size asked for, where the best place is, or 0 and nothing
        changes.  It is 0 exactly if there is no room.  Of several best gaps a heap takes the
        one that was filed first. */
    method Alloc(size: nat, blockOk: bool) returns (addr: nat)
      requires Valid() && Serves(size)
      modifies Parts()
      ensures Valid() && fresh(Parts() - old(Parts()))
      ensures addr == 0 ==> Live() == old(Live())
      ensures addr != 0 ==> Live() == old(Live()) + {(addr, Granted(size))} && (addr, Granted(size)) !in old(Live())
      ensures addr != 0 <==> Room(old(Live()), size, blockOk)
      ensures addr != 0 ==> Best(old(Live()), size, addr)
      ensures addr != 0 && strategy.ObjectsOf? ==> old(strategy.heap.FirstAt(addr))
    {
      match strategy {
        case SlabOf(slab) => addr := AllocFromSlab(slab, size, blockOk);
        case ObjectsOf(heap) => addr := AllocFromObjects(heap, size, blockOk);
      }
    }

    method AllocFromSlab(slab: Slab, size: nat, ghost blockOk: bool) returns (addr: nat)
      requires strategy == SlabOf(slab) && Valid() && size <= slab.blockSize
      modifies slab.Region()
      ensures Valid() && Parts() == old(Parts())
      ensures addr == 0 ==> Live() == old(Live())
      ensures addr != 0 ==> Live() == old(Live()) + {(addr, Granted(size))} && (addr, Granted(size)) !in old(Live())
      ensures addr != 0 <==> Room(old(Live()), size, blockOk)
      ensures addr != 0 ==> Best(old(Live()), size, addr)
    {
      hide SlabLive, Apart, Slab.Live, Room, Unused;
      ghost var bits := slab.bitmap.Contents();
      ghost var bit;
      SlabRoom(slab, size, blockOk);
      addr, bit := slab.Alloc();
      if addr != 0 {
        SlabLiveAdd(slab.base, slab.blockSize, bits, bit);
        SlabLiveNew(slab, bits, bit);
      }
    }

    lemma SlabLiveNew(slab: Slab, bits: set<nat>, bit: nat)
      requires slab.Valid() && bit !in bits
      ensures (AddrOf(slab.base, slab.blockSize, bit), slab.blockSize) !in SlabLive(slab.base, slab.blockSize, bits)
    {
      BitOfAddr(slab.base, slab.blockSize, bit, 0);
      forall b | b in bits ensures AddrOf(slab.base, slab.blockSize, b) != AddrOf(slab.base, slab.blockSize, bit) {
        BitOfAddr(slab.base, slab.blockSize, b, 0);
      }
    }

    method AllocFromObjects(heap: Heap, size: nat, blockOk: bool) returns (addr: nat)
      requires strategy == ObjectsOf(heap) && Valid() && 0 < size < Pow2(63)
      modifies heap.region
      ensures Valid() && fresh(Parts() - old(Parts()))
      ensures addr == 0 ==> Live() == old(Live())
      ensures addr != 0 ==> Live() == old(Live()) + {(addr, Granted(size))} && (addr, Granted(size)) !in old(Live())
      ensures addr != 0 <==> Room(old(Live()), size, blockOk)
      ensures addr != 0 ==> Best(old(Live()), size, addr) && old(heap.FirstAt(addr))
    {
      hide BestGap, Gap, Clear, BestFit, FreeFit, Carved, Heap.FirstAt, Heap.First;
      ghost var l := heap.View();
      ghost var i;
      HeapRoom(heap, size);
      addr, i := heap.Alloc(size, blockOk);
      HeapStep(heap, l, size, blockOk, addr, i);
    }

    /** What the step of the layout says of the live blocks. */
    lemma HeapStep(heap: Heap, l: Layout, size: nat, blockOk: bool, addr: nat, i: int)
      requires strategy == ObjectsOf(heap) && size > 0 && Sound(l, this.addr, this.size)
      requires AllocStep(l, heap.View(), size, blockOk, addr, i)
      requires Room(BlockRuns.Live(l), size, true) <==> exists j :: FreeFit(l, j, size)
      requires Room(BlockRuns.Live(l), size, false) ==> exists j :: FreeFit(l, j, size)
      ensures addr != 0 ==> Best(BlockRuns.Live(l), size, addr)
      ensures addr != 0 <==> Room(BlockRuns.Live(l), size, blockOk)
      ensures addr != 0 ==> (addr, size) !in BlockRuns.Live(l)
      ensures addr != 0 ==> BlockRuns.Live(heap.View()) == BlockRuns.Live(l) + {(addr, size)}
    {
      hide BestGap, Gap, Clear, Carved, Sound, BlockRuns.Live;
      if addr != 0 {
        CarvedLive(l, i, size);
        CarvedApart(l, this.addr, this.size, i, size);
        BestFitIsBestGap(l, this.addr, this.size, i, size);
      } else if exists j :: FreeFit(l, j, size) {
        BestFitIsBestGap(l, this.addr, this.size, i, size);
      }
    }

    /** What a caller may free: of a slab, an address in a live block; of a heap, any. */
    ghost predicate Freeable(live: set<(nat, nat)>, addr: nat) {
      strategy.SlabOf? ==> exists p :: p in live && Hits(p, true, addr)
    }

    /** The block that the address names is given back.  The state is sound afterwards exactly
        if the address may be freed. */
    method Free(addr: nat)
      requires Valid() && this.addr <= addr < this.addr + size
      modifies Parts()
      ensures Parts() == old(Parts()) && (Valid() <==> Freeable(old(Live()), addr))
      ensures Freeable(old(Live()), addr) ==> Live() == Released(old(Live()), strategy.SlabOf?, addr)
    {
      match strategy {
        case SlabOf(slab) =>
          SlabReleased(slab.base, slab.blockSize, slab.bitmap.Contents(), addr);
          slab.Free(addr);
        case ObjectsOf(heap) =>
          FreeFromObjects(heap, addr);
      }
    }

    method FreeFromObjects(heap: Heap, addr: nat)
      requires strategy == ObjectsOf(heap) && Valid()
      modifies heap.region
      ensures Valid() && Parts() == old(Parts()) && Live() == Released(old(Live()), false, addr)
    {
      hide BlockRuns.Live, FreeStep;
      ghost var l := heap.View();
      var _, i := heap.Free(addr);
      StepLive(l, heap.View(), heap.base, heap.total, Call.Free(addr));
    }
  }
}
