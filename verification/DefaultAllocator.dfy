/** The default allocator: one reserved range, best fit, with a count of the used bytes. */
module DefaultAllocator {
  import opened Limits
  import opened BitPaths
  import opened BlockLayout
  import opened BlockRuns
  import opened BlockHeap

  const VA_RESERVATION_SIZE: nat := 2 * PHYSICAL_MEMORY_SIZE

  datatype Request = Allocate(size: nat, callocOk: bool) | Release(addr: nat)

  /** The call is the one asked for. */
  predicate Asked(request: Request, call: Call) {
    match request
    case Allocate(size, callocOk) => call.Alloc? && call.size == size && call.callocOk == callocOk
    case Release(addr) => call == Call.Free(addr)
  }

  class Allocator {
    const heap: Heap
    const totalVaSize: nat
    var usedVaSize: nat

    ghost predicate Valid()
      reads this, heap, heap.region
    {
      && heap.Valid() && this !in heap.region
      && totalVaSize == heap.total == VA_RESERVATION_SIZE
      && usedVaSize == Used(heap.View())
    }

    constructor (heap: Heap)
      requires heap.Valid() && heap.total == VA_RESERVATION_SIZE
      requires heap.View() == [Extent(heap.base, heap.total, true)]
      ensures Valid() && this.heap == heap && heap.View() == [Extent(heap.base, heap.total, true)]
    {
      this.heap := heap;
      totalVaSize := VA_RESERVATION_SIZE;
      usedVaSize := 0;
    }

    /** `base` is the address at which the range was reserved, 0 if it was not.  Null if that
        or memory for the allocator or its first block is short. */
    static method Init(base: nat, implOk: bool, blockOk: bool) returns (impl: Allocator?)
      ensures impl == null <==> !implOk || base == 0 || !blockOk
      ensures impl != null ==>
                && impl.Valid() && impl.heap.base == base && impl.heap.total == 0x1_0000_0000
                && impl.heap.View() == [Extent(base, VA_RESERVATION_SIZE, true)]
                && fresh(impl) && fresh(impl.heap.region)
    {
      hide Sound, Heap.Wired, ViewOf, Pow2;
      if !implOk || base == 0 || !blockOk {
        return null;
      }
      PowerIsLarge();
      var heap := new Heap(base, VA_RESERVATION_SIZE);
      heap.Populate(base, VA_RESERVATION_SIZE);
      impl := new Allocator(heap);
    }

    method Account(used: nat)
      requires heap.Valid() && this !in heap.region && totalVaSize == heap.total == VA_RESERVATION_SIZE
      requires used == Used(heap.View())
      modifies `usedVaSize
      ensures Valid() && usedVaSize == used && heap.View() == old(heap.View())
    {
      usedVaSize := used;
    }

    method Alloc(size: nat, callocOk: bool) returns (addr: nat, ghost i: int)
      requires Valid()
      modifies this, heap.region
      ensures Valid() && fresh(heap.region - old(heap.region))
      ensures if size == 0 || size > 0x1_0000_0000 then addr == 0 && heap.View() == old(heap.View())
              else AllocStep(old(heap.View()), heap.View(), size, callocOk, addr, i)
      ensures addr != 0 ==> old(heap.First(i))
      ensures usedVaSize == if addr == 0 then old(usedVaSize) else old(usedVaSize) + size
    {
      hide Heap.Valid, Sound;
      i := -1;
      if size == 0 || size > totalVaSize {
        return 0, i;
      }
      ghost var l := heap.View();
      PowerIsLarge();
      addr, i := heap.Alloc(size, callocOk);
      if addr != 0 {
        CarvedUsed(l, i, size);
        Account(usedVaSize + size);
      }
    }

    method Free(addr: nat) returns (ghost i: int)
      requires Valid()
      modifies this, heap.region
      ensures Valid() && heap.region == old(heap.region)
      ensures FreeStep(old(heap.View()), heap.View(), addr, i)
      ensures usedVaSize == if exists k :: Held(old(heap.View()), k, addr)
                            then old(usedVaSize) - old(heap.View())[i].size
                            else old(usedVaSize)
    {
      hide Heap.Valid, Sound;
      ghost var l := heap.View();
      var freed;
      freed, i := heap.Free(addr);
      if k :| Held(l, k, addr) {
        FreedUsed(l, i);
      }
      Account(usedVaSize - freed);
    }

    /** Freeing the address just returned restores the layout and the count. */
    method AllocThenFree(size: nat, callocOk: bool)
      requires Valid()
      modifies this, heap.region
      ensures Valid() && heap.View() == old(heap.View()) && usedVaSize == old(usedVaSize)
    {
      ghost var l := heap.View();
      assert Sound(l, heap.base, heap.total);
      hide Heap.Valid, Sound, FreeStep, FreeFit, Carved, Used;
      var addr, i := Alloc(size, callocOk);
      if addr != 0 {
        ghost var m := heap.View();
        ghost var j := Free(addr);
        StepsUndo(l, m, heap.View(), heap.base, heap.total, i, size, addr, j);
      }
    }

    /** What a caller asks for; whether memory for a block can be had is up to the world. */
    method Serve(request: Request) returns (ghost call: Call)
      requires Valid()
      modifies this, heap.region
      ensures Valid() && fresh(heap.region - old(heap.region))
      ensures Step(old(heap.View()), heap.View(), heap.total, call) && Asked(request, call)
    {
      match request {
        case Allocate(size, callocOk) =>
          var addr, i := Alloc(size, callocOk);
          call := Call.Alloc(size, callocOk, addr);
        case Release(addr) =>
          ghost var i := Free(addr);
          call := Call.Free(addr);
      }
    }

    lemma RunBegins()
      requires Valid() && heap.View() == [Extent(heap.base, heap.total, true)]
      ensures Run(heap.base, heap.total, [heap.View()], [])
    {
    }

    /** Serving requests one after the other is a run, so that all that holds of runs holds
        of the allocator. */
    method ServeAll(requests: seq<Request>) returns (ghost ls: seq<Layout>, ghost calls: seq<Call>)
      requires Valid() && heap.View() == [Extent(heap.base, heap.total, true)]
      modifies this, heap.region
      ensures Valid() && fresh(heap.region - old(heap.region))
      ensures |calls| == |requests| && |ls| == |calls| + 1
      ensures forall k :: 0 <= k < |calls| ==> Asked(requests[k], calls[k])
      ensures Run(heap.base, heap.total, ls, calls) && ls[|calls|] == heap.View()
      ensures Live(heap.View()) == LiveAfter(calls)
      ensures LiveAfter(calls) == {} ==> heap.View() == [Extent(heap.base, heap.total, true)] && usedVaSize == 0
    {
      hide Heap.Valid, Sound, ViewOf, AllocStep, FreeStep, Run, Live, LiveAfter, Step, Asked;
      ls, calls := [heap.View()], [];
      RunBegins();
      for k := 0 to |requests|
        invariant Valid() && fresh(heap.region - old(heap.region))
        invariant |calls| == k && forall j :: 0 <= j < k ==> Asked(requests[j], calls[j])
        invariant |ls| == k + 1 && Run(heap.base, heap.total, ls, calls) && ls[k] == heap.View()
      {
        ghost var call := Serve(requests[k]);
        RunGoesOn(heap.base, heap.total, ls, calls, heap.View(), call);
        ls, calls := ls + [heap.View()], calls + [call];
      }
      RunKeeps(heap.base, heap.total, ls, calls, |calls|);
      assert calls[..|calls|] == calls;
      if LiveAfter(calls) == {} {
        RunEndsWhole(heap.base, heap.total, ls, calls);
        UsedWhole(heap.base, heap.total);
      }
    }

    /** On a new allocator, with memory for a split, exactly the sizes up to 4 GiB are served,
        from the start of the range. */
    method AllocOnNew(size: nat) returns (addr: nat)
      requires Valid() && heap.View() == [Extent(heap.base, heap.total, true)]
      modifies this, heap.region
      ensures addr == if 0 < size <= 0x1_0000_0000 then heap.base else 0
    {
      hide Heap.Valid, Sound;
      ghost var l, i := heap.View(), 0;
      assert 0 < size <= 0x1_0000_0000 ==> FreeFit(l, 0, size);
      addr, i := Alloc(size, true);
    }

    method GetTotalSize() returns (size: nat)
      requires Valid()
      ensures size == heap.total == 0x1_0000_0000
    {
      size := totalVaSize;
    }

    method GetUsedSize() returns (size: nat)
      requires Valid()
      ensures size == Used(heap.View())
    {
      size := usedVaSize;
    }
  }
}
