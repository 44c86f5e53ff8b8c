/** The arena allocator: eight size classes, each with a list of reservations, and a tracker
    that leads from an address back to its reservation. */
module Arenas {
  import opened Limits
  import opened BitPaths
  import opened BlockRuns
  import opened Reservations
  import opened AddrTracker
  import Bitvector
  import SlabAllocator
  import BlockHeap
  import BlockLayout
  import AvlNodes

  const NUM_ARENAS: nat := 8
  const MAX_VA: nat := 0x200_0000_0000_0000
  const KB: nat := 1024
  const MB: nat := 1024 * 1024

  datatype ArenaInfo = ArenaInfo(maxPerAllocSize: nat, reservationSize: nat)

  const ARENA_INFO_TABLE: seq<ArenaInfo> := [
    ArenaInfo(512, 2 * MB),
    ArenaInfo(1 * KB, 2 * MB),
    ArenaInfo(2 * KB, 4 * MB),
    ArenaInfo(4 * KB, 8 * MB),
    ArenaInfo(64 * KB, 32 * MB),
    ArenaInfo(2 * MB, 64 * MB),
    ArenaInfo(32 * MB, 512 * MB),
    ArenaInfo(TWO_64 - 1, PHYSICAL_MEMORY_SIZE)
  ]

  predicate IsSlabIdx(idx: nat) {
    idx < 3
  }

  /** A class is a slab exactly if its limit is at most 2 KB. */
  lemma SlabClasses(i: nat)
    requires i < NUM_ARENAS
    ensures IsSlabIdx(i) <==> ARENA_INFO_TABLE[i].maxPerAllocSize <= 2048
  {
    assert i in {0, 1, 2, 3, 4, 5, 6, 7};
  }

  /** The limit of each class and the size of its reservations, in bytes. */
  lemma ArenaTable()
    ensures ARENA_INFO_TABLE == [
              ArenaInfo(512, 0x20_0000), ArenaInfo(1024, 0x20_0000), ArenaInfo(2048, 0x40_0000),
              ArenaInfo(4096, 0x80_0000), ArenaInfo(0x1_0000, 0x200_0000), ArenaInfo(0x20_0000, 0x400_0000),
              ArenaInfo(0x200_0000, 0x2000_0000), ArenaInfo(0xffff_ffff_ffff_ffff, 0x8000_0000)]
  {
  }

  /** The size of a block of size class `i`: slabs hand out blocks of one size. */
  function Rounded(i: nat, size: nat): nat
    requires i < NUM_ARENAS
  {
    if IsSlabIdx(i) then ARENA_INFO_TABLE[i].maxPerAllocSize else size
  }

  /** So the sizes up to 2 KB are rounded up to one of three, and all others are kept. */
  lemma RoundedIs(i: nat, size: nat)
    requires InClass(i, size)
    ensures Rounded(i, size) == if size <= 512 then 512 else if size <= 1024 then 1024
                                else if size <= 2048 then 2048 else size
  {
    ArenaTable();
    SlabClasses(i);
    if i > 0 {
      assert ARENA_INFO_TABLE[i - 1].maxPerAllocSize < size;
    }
    if i > 3 {
      assert ARENA_INFO_TABLE[2].maxPerAllocSize < size;
    }
  }

  lemma CountUp(used: nat, size: nat)
    requires used < TWO_64 && size < Pow2(63)
    ensures (used + size) % TWO_64 == if used + size < 0x1_0000_0000_0000_0000 then used + size
                                      else used + size - 0x1_0000_0000_0000_0000
  {
    PowerIsLarge();
  }

  lemma CountDown(used: nat, reserved: nat)
    requires used < TWO_64 && reserved <= PHYSICAL_MEMORY_SIZE
    ensures (used - reserved) % TWO_64 == if used >= reserved then used - reserved
                                          else used + 0x1_0000_0000_0000_0000 - reserved
  {
  }

  /** An allocation counts the size asked for and a free takes off that of the whole
      reservation, in 64 bits: the two cancel only for equal sizes. */
  lemma CountBack(used: nat, up: nat, back: nat, size: nat, i: nat)
    requires used < 0x1_0000_0000_0000_0000 && size < Pow2(63) && i < NUM_ARENAS
    requires up == if used + size < 0x1_0000_0000_0000_0000 then used + size else used + size - 0x1_0000_0000_0000_0000
    requires var reserved := ARENA_INFO_TABLE[i].reservationSize;
             back == if up >= reserved then up - reserved else up + 0x1_0000_0000_0000_0000 - reserved
    ensures back == used <==> size == ARENA_INFO_TABLE[i].reservationSize
  {
    PowerIsLarge();
  }

  /** The first size class whose blocks are large enough. */
  method GetArenaIdxForSize(size: nat) returns (idx: nat)
    requires size < TWO_64
    ensures idx < NUM_ARENAS && ARENA_INFO_TABLE[idx].maxPerAllocSize >= size
    ensures forall j :: 0 <= j < idx ==> ARENA_INFO_TABLE[j].maxPerAllocSize < size
  {
    assert ARENA_INFO_TABLE[7].maxPerAllocSize == TWO_64 - 1;
    idx := 0;
    while idx < NUM_ARENAS && ARENA_INFO_TABLE[idx].maxPerAllocSize < size
      invariant idx <= NUM_ARENAS
      invariant forall j :: 0 <= j < idx ==> ARENA_INFO_TABLE[j].maxPerAllocSize < size
    {
      idx := idx + 1;
    }
  }

  // ----- what is known of the reservations

  datatype Status = Status(parts: set<object>, live: set<(nat, nat)>)

  type View = map<Reservation, Status>

  /** No object belongs to two reservations, or to one and to the arenas themselves. */
  ghost predicate Separate(view: View, outer: set<object>) {
    && (forall r, s :: r in view && s in view && r != s ==> view[r].parts !! view[s].parts)
    && (forall r :: r in view ==> view[r].parts !! outer)
  }

  /** The live blocks of all reservations. */
  ghost function AllLive(view: View): set<(nat, nat)> {
    set r, p | r in view && p in view[r].live :: p
  }

  lemma SeparateGrows(view: View, outer: set<object>, r: Reservation, st: Status)
    requires Separate(view, outer) && r in view
    requires forall s :: s in view && s != r ==> st.parts !! view[s].parts
    requires st.parts !! outer
    ensures Separate(view[r := st], outer)
  {
  }

  lemma SeparateMore(view: View, outer: set<object>, r: Reservation, st: Status, more: set<object>)
    requires Separate(view, outer) && more !! AllParts(view)
    requires st.parts !! outer + more + AllParts(view)
    ensures Separate(view[r := st], outer + more)
  {
    forall s | s in view ensures view[s].parts <= AllParts(view) {
      PartsIn(view, s);
    }
  }

  /** The live blocks of different reservations are different ones. */
  ghost predicate LiveDisjoint(view: View) {
    forall r, s :: r in view && s in view && r != s ==> view[r].live !! view[s].live
  }

  lemma LiveGrows(view: View, r: Reservation, st: Status, b: (nat, nat))
    requires r in view && st.live == view[r].live + {b} && b !in view[r].live && LiveDisjoint(view[r := st])
    ensures AllLive(view[r := st]) == AllLive(view) + {b} && b !in AllLive(view)
  {
    var view' := view[r := st];
    forall s, p | s in view && p in view[s].live ensures p in AllLive(view') && p != b {
      assert s in view' && p in view'[s].live && b in view'[r].live;
    }
    assert r in view' && b in view'[r].live;
  }

  lemma LiveShrinks(view: View, r: Reservation, st: Status, b: (nat, nat))
    requires r in view && st.live == view[r].live - {b} && b in view[r].live && LiveDisjoint(view)
    ensures AllLive(view[r := st]) == AllLive(view) - {b}
  {
    var view' := view[r := st];
    forall s, p | s in view && p in view[s].live && p != b ensures p in AllLive(view') {
      assert s in view' && p in view'[s].live;
    }
    assert r in view && b in view[r].live;
  }

  lemma LiveSame(view: View, r: Reservation, st: Status)
    requires r in view && st.live == view[r].live
    ensures AllLive(view[r := st]) == AllLive(view)
  {
    var view' := view[r := st];
    forall s, p | s in view && p in view[s].live ensures p in AllLive(view') {
      assert s in view' && p in view'[s].live;
    }
  }

  ghost function AllParts(view: View): set<object> {
    set r, o | r in view && o in view[r].parts :: o
  }

  lemma PartsIn(view: View, r: Reservation)
    requires r in view
    ensures view[r].parts <= AllParts(view)
  {
    forall o | o in view[r].parts ensures o in AllParts(view) {
      assert r in view && o in view[r].parts;
    }
  }

  lemma PartsGrow(view: View, r: Reservation, st: Status, added: set<object>)
    requires r in view && st.parts <= view[r].parts + added
    ensures AllParts(view[r := st]) <= AllParts(view) + added
  {
    var view' := view[r := st];
    forall o | o in AllParts(view') ensures o in AllParts(view) + added {
      var s: Reservation :| s in view' && o in view'[s].parts;
      PartsIn(view, s);
    }
  }

  lemma PartsSame(view: View, r: Reservation, st: Status)
    requires r in view && st.parts == view[r].parts
    ensures AllParts(view[r := st]) == AllParts(view)
  {
    var view' := view[r := st];
    PartsGrow(view, r, st, {});
    PartsGrow(view', r, view[r], {});
    assert view'[r := view[r]] == view;
  }

  /** The block lies in the range. */
  predicate Inside(p: (nat, nat), range: AvlNodes.Span) {
    range.addr <= p.0 && p.0 + p.1 <= range.addr + range.size
  }

  predicate Spans(r: Reservation, addr: nat) {
    r.addr <= addr < r.addr + r.size
  }

  /** The total size of reservations. */
  ghost function SumSizes(made: seq<Reservation>): nat {
    if made == [] then 0 else SumSizes(made[..|made| - 1]) + made[|made| - 1].size
  }

  /** The addresses of a reservation. */
  ghost function Cells(r: Reservation): set<nat> {
    if r.size == 0 then {} else Bitvector.Range(r.addr, r.addr + r.size - 1)
  }

  lemma CellsSize(r: Reservation)
    ensures |Cells(r)| == r.size && forall x :: x in Cells(r) <==> Spans(r, x)
  {
    if r.size > 0 { SlabAllocator.RangeSize(r.addr, r.size); }
  }

  /** The addresses that reservations cover. */
  ghost function Covered(made: seq<Reservation>): set<nat> {
    if made == [] then {} else Covered(made[..|made| - 1]) + Cells(made[|made| - 1])
  }

  lemma {:induction false} CoveredBy(made: seq<Reservation>, x: nat) returns (i: nat)
    requires x in Covered(made)
    ensures i < |made| && Spans(made[i], x)
  {
    var r := made[|made| - 1];
    CellsSize(r);
    if x in Cells(r) {
      i := |made| - 1;
    } else {
      i := CoveredBy(made[..|made| - 1], x);
    }
  }

  ghost predicate OffEachOther(made: seq<Reservation>) {
    forall i, j :: 0 <= i < j < |made| ==>
      Apart((made[i].addr, made[i].size), (made[j].addr, made[j].size))
  }

  /** Reservations that do not overlap cover as many addresses as their sizes add up to. */
  lemma {:induction false} CoveredSize(made: seq<Reservation>)
    requires OffEachOther(made)
    ensures |Covered(made)| == SumSizes(made)
  {
    if made != [] {
      var front, r := made[..|made| - 1], made[|made| - 1];
      CoveredSize(front);
      CellsSize(r);
      forall x | x in Covered(front) ensures x !in Cells(r) {
        var i := CoveredBy(front, x);
        assert front[i] == made[i];
      }
    }
  }

  /** So their sizes add up to no more than the space they lie in. */
  lemma SumFits(made: seq<Reservation>, space: nat)
    requires OffEachOther(made)
    requires space > 0 && forall i :: 0 <= i < |made| ==> made[i].addr + made[i].size <= space
    ensures SumSizes(made) <= space
  {
    hide OffEachOther, SumSizes, Covered;
    CoveredSize(made);
    SlabAllocator.RangeSize(0, space);
    forall x | x in Covered(made) ensures x in Bitvector.Range(0, space - 1) {
      var i := CoveredBy(made, x);
    }
    SlabAllocator.Subset(Covered(made), Bitvector.Range(0, space - 1));
  }

  // ----- lists of reservations

  ghost predicate Distinct(s: seq<Reservation>) {
    forall i, j :: 0 <= i < j < |s| ==> s[i] != s[j]
  }

  lemma Appended(s: seq<Reservation>, r: Reservation)
    requires Distinct(s) && r !in s
    ensures Distinct(s + [r])
    ensures (set x | x in s + [r]) == (set x | x in s) + {r}
    ensures SumSizes(s + [r]) == SumSizes(s) + r.size
  {
    assert (s + [r])[..|s|] == s;
  }

  ghost function At(s: seq<Reservation>, i: int): Reservation? {
    if 0 <= i < |s| then s[i] else null
  }

  ghost predicate Chain(head: Reservation?, s: seq<Reservation>)
    reads s`next
  {
    && head == At(s, 0)
    && forall i {:trigger s[i].next} :: 0 <= i < |s| ==> s[i].next == At(s, i + 1)
  }

  /** A list that ends has no node twice. */
  lemma {:induction false} ChainDistinct(head: Reservation?, s: seq<Reservation>, i: int, j: int)
    requires Chain(head, s) && 0 <= i < j < |s|
    ensures s[i] != s[j]
    decreases |s| - j
  {
    if s[i] == s[j] {
      assert s[i].next == At(s, i + 1) && s[j].next == At(s, j + 1);
      if j + 1 < |s| {
        ChainDistinct(head, s, i + 1, j + 1);
      }
    }
  }

  /** What the world lets happen during a call: whether memory can be had for a reservation
      and its strategy, where the system reserves a range (0 if it does not), and whether a
      block can be had for the split in the n-th reservation tried. */
  datatype World = World(reservationOk: bool, base: nat, strategyOk: bool, blockOk: nat -> bool) {
    /** Everything that is asked for can be had. */
    ghost predicate Generous() {
      reservationOk && base != 0 && strategyOk && forall n :: blockOk(n)
    }
  }

  /** None of the first `n` reservations of the list has room. */
  ghost predicate Full(list: seq<Reservation>, view: View, size: nat, blockOk: nat -> bool, n: nat) {
    forall k {:trigger list[k]} :: 0 <= k < n && k < |list| ==>
      list[k] in view && !list[k].Room(view[list[k]].live, size, blockOk(k))
  }

  /** The same blocks are live in every reservation. */
  ghost predicate SameLive(view: View, was: View) {
    view.Keys == was.Keys && forall s :: s in view ==> view[s].live == was[s].live
  }

  /** The reservation had room and served the block at the best place; the live blocks of all
      others stay. */
  ghost predicate ServedBy(r: Reservation, was: View, view: View, size: nat, blockOk: bool, p: (nat, nat)) {
    && r in was && view.Keys == was.Keys
    && r.Room(was[r].live, size, blockOk) && r.Best(was[r].live, size, p.0)
    && view[r].live == was[r].live + {p} && p !in was[r].live
    && forall s :: s in view && s != r ==> view[s].live == was[s].live
  }

  /** The first reservation of the list that has room served the block. */
  ghost predicate ServedFromList(
      list: seq<Reservation>, was: View, view: View, size: nat, blockOk: nat -> bool, p: (nat, nat)) {
    exists k :: 0 <= k < |list| &&
      Full(list, was, size, blockOk, k) && ServedBy(list[k], was, view, size, blockOk(k), p)
  }

  /** In a new reservation there is room for this size: in a slab always, in a heap up to its own
      size, and for that alone if memory for a split is short. */
  predicate Takes(r: Reservation, size: nat, blockOk: bool) {
    r.strategy.SlabOf? || (if blockOk then size <= r.size else size == r.size)
  }

  /** A reservation is new, and the block starts it if there is room; the live blocks of all
      others stay. */
  ghost predicate ServedFresh(r: Reservation, was: View, view: View, size: nat, blockOk: bool, p: (nat, nat)) {
    && r !in was && view.Keys == was.Keys + {r}
    && (forall s :: s in was ==> view[s].live == was[s].live)
    && if Takes(r, size, blockOk) then p.0 == r.addr && view[r].live == {p} else p.0 == 0 && view[r].live == {}
  }

  lemma FullStarts(list: seq<Reservation>, view: View, size: nat, blockOk: nat -> bool)
    ensures Full(list, view, size, blockOk, 0) && SameLive(view, view)
  {
  }

  lemma FullMore(
      list: seq<Reservation>, was: View, before: View, view: View, size: nat, blockOk: nat -> bool, k: nat)
    requires Full(list, was, size, blockOk, k) && k < |list| && SameLive(before, was) && SameLive(view, before)
    requires list[k] in before && !list[k].Room(before[list[k]].live, size, blockOk(k))
    ensures Full(list, was, size, blockOk, k + 1) && SameLive(view, was)
  {
    hide Reservation.Room;
  }

  lemma ServedNow(
      list: seq<Reservation>, k: nat, was: View, before: View, view: View, size: nat, blockOk: nat -> bool,
      p: (nat, nat))
    requires k < |list| && Full(list, was, size, blockOk, k) && SameLive(before, was)
    requires list[k] in before && list[k] in view && view == before[list[k] := view[list[k]]]
    requires list[k].Room(before[list[k]].live, size, blockOk(k)) && list[k].Best(before[list[k]].live, size, p.0)
    requires view[list[k]].live == before[list[k]].live + {p} && p !in before[list[k]].live
    ensures ServedFromList(list, was, view, size, blockOk, p) && !Full(list, was, size, blockOk, |list|)
  {
    hide Reservation.Room, Reservation.Best;
    assert ServedBy(list[k], was, view, size, blockOk(k), p);
  }

  lemma FreshServed(r: Reservation, was: View, mid: View, view: View, size: nat, blockOk: bool, p: (nat, nat))
    requires r !in was && r in mid && mid == was[r := mid[r]]
    requires r in view && view == mid[r := view[r]] && view[r].live == if p.0 == 0 then {} else {p}
    requires r.addr != 0 && p.0 == if Takes(r, size, blockOk) then r.addr else 0
    ensures ServedFresh(r, was, view, size, blockOk, p)
  {
    hide Takes;
  }

  lemma SameLiveHere(view: View)
    ensures SameLive(view, view)
  {
  }

  lemma Composed(was: View, before: View, view: View)
    requires SameLive(before, was)
    ensures SameLive(view, before) ==> SameLive(view, was)
  {
  }

  lemma ServedFreshStill(r: Reservation, was: View, before: View, view: View, size: nat, blockOk: bool, p: (nat, nat))
    requires SameLive(before, was) && ServedFresh(r, before, view, size, blockOk, p)
    ensures ServedFresh(r, was, view, size, blockOk, p)
  {
    hide Takes;
  }

  /** What the allocator knows of its reservations, without the count of used bytes. */
  datatype Books = Books(
    known: set<Reservation>, lists: seq<seq<Reservation>>, made: seq<Reservation>, total: nat, view: View)

  /** The world lets a reservation be made. */
  predicate MayMake(world: World) {
    world.reservationOk && world.base != 0 && world.strategyOk
  }

  /** The shape that its size class asks of a reservation. */
  ghost predicate Shaped(r: Reservation) {
    && r.arenaIdx < NUM_ARENAS && r.size == ARENA_INFO_TABLE[r.arenaIdx].reservationSize > 0
    && (r.strategy.SlabOf? <==> ARENA_INFO_TABLE[r.arenaIdx].maxPerAllocSize <= 2048)
    && (r.strategy.SlabOf? ==>
          && r.strategy.slab.blockSize == ARENA_INFO_TABLE[r.arenaIdx].maxPerAllocSize
          && r.strategy.slab.blockSize * r.strategy.slab.blocksPerSlab == r.size)
  }

  /** Exactly the reservation `r` is made, in the range offered; it is the head of its list,
      and has served the block if it could. */
  ghost predicate Created(
      r: Reservation, was: Books, now: Books, i: nat, size: nat, world: World, blockOk: bool, addr: nat)
    requires i < NUM_ARENAS
  {
    && r !in was.known && now.known == was.known + {r} && now.made == was.made + [r]
    && r.addr == world.base && r.size == ARENA_INFO_TABLE[i].reservationSize && Shaped(r) && r.arenaIdx == i
    && now.total == was.total + r.size
    && i < |was.lists| && now.lists == was.lists[i := [r] + was.lists[i]]
    && ServedFresh(r, was.view, now.view, size, blockOk, (addr, Rounded(i, size)))
  }

  /** Where a block comes from: from the first reservation of the list of the class that has
      room; if none has, from a new reservation, if the world lets it be made; else there is
      none. */
  ghost predicate Outcome(was: Books, now: Books, i: nat, size: nat, world: World, addr: nat)
    requires i < NUM_ARENAS
  {
    && i < |was.lists|
    && var list, p := was.lists[i], (addr, Rounded(i, size));
    if !Full(list, was.view, size, world.blockOk, |list|) then
      && addr != 0 && ServedFromList(list, was.view, now.view, size, world.blockOk, p)
      && now == was.(view := now.view)
    else if !MayMake(world) then
      addr == 0 && SameLive(now.view, was.view) && now == was.(view := now.view)
    else
      exists r :: r in now.known && Created(r, was, now, i, size, world, world.blockOk(|list|), addr)
  }

  // ----- what a caller holds

  /** `size` belongs to size class `i`. */
  ghost predicate InClass(i: nat, size: nat) {
    && i < NUM_ARENAS && size <= ARENA_INFO_TABLE[i].maxPerAllocSize && size < Pow2(63)
    && forall j :: 0 <= j < i ==> ARENA_INFO_TABLE[j].maxPerAllocSize < size
  }

  /** The range lies in the space of the tracker and meets no range reserved before. */
  ghost predicate Unreserved(known: set<Reservation>, base: nat, size: nat) {
    && base + size <= MAX_VA
    && forall r :: r in known ==> !Overlaps(AvlNodes.Span(r.addr, r.size), base, base + size)
  }

  /** The system reserves such a range for the size class, or none. */
  ghost predicate MayReserve(known: set<Reservation>, size: nat, base: nat) {
    base != 0 ==> forall i: nat :: InClass(i, size) ==> Unreserved(known, base, ARENA_INFO_TABLE[i].reservationSize)
  }

  /** A block of `held` bytes is what a request for `size` bytes gets. */
  ghost predicate Fits(size: nat, held: nat) {
    exists i :: 0 <= i < NUM_ARENAS && InClass(i, size) && held == Rounded(i, size)
  }

  /** A request to the allocator: for a block, or to free the one that the k-th request got. */
  datatype Request = Allocate(size: nat, world: World) | Release(k: nat)

  /** The blocks that are not yet given back, by address and size. */
  ghost function Handed(handles: seq<nat>, helds: seq<nat>): set<(nat, nat)>
    requires |handles| == |helds|
  {
    set k | 0 <= k < |handles| && handles[k] != 0 :: (handles[k], helds[k])
  }

  ghost predicate Spread(handles: seq<nat>, helds: seq<nat>)
    requires |handles| == |helds|
  {
    forall j, k :: 0 <= j < k < |handles| && handles[j] != 0 && handles[k] != 0 ==>
      (handles[j], helds[j]) != (handles[k], helds[k])
  }

  /** What a request does to the addresses that the caller holds; `answer` is the address that
      an allocation returns. */
  ghost predicate Follows(request: Request, handles: seq<nat>, handles': seq<nat>, answer: nat, held: nat) {
    match request
    case Allocate(size, _) => handles' == handles + [answer] && (answer != 0 ==> Fits(size, held))
    case Release(k) => answer == 0 && handles' == (if k < |handles| then handles[k := 0] else handles) + [0]
  }

  /** A later request gives back what the k-th one got. */
  ghost predicate GivenBack(requests: seq<Request>, k: nat) {
    exists j :: k < j < |requests| && requests[j].Release? && requests[j].k == k
  }

  /** The caller holds the answers that were not given back. */
  ghost predicate Kept(requests: seq<Request>, answers: seq<nat>, handles: seq<nat>) {
    && |answers| == |handles| == |requests|
    && forall k: nat :: k < |requests| ==> handles[k] == if GivenBack(requests, k) then 0 else answers[k]
  }

  lemma KeptLength(requests: seq<Request>, answers: seq<nat>, handles: seq<nat>)
    requires Kept(requests, answers, handles)
    ensures |answers| == |handles| == |requests|
  {
  }

  lemma KeptMore(
      requests: seq<Request>, answers: seq<nat>, handles: seq<nat>,
      request: Request, answer: nat, held: nat, handles': seq<nat>)
    requires Kept(requests, answers, handles) && Follows(request, handles, handles', answer, held)
    ensures Kept(requests + [request], answers + [answer], handles')
  {
    hide Fits;
    var requests' := requests + [request];
    forall k: nat | k < |requests'|
      ensures GivenBack(requests', k)
              <==> k < |requests| && (GivenBack(requests, k) || (request.Release? && request.k == k))
    {
      assert requests'[|requests|] == request;
      if k < |requests| && GivenBack(requests, k) {
        var j :| k < j < |requests| && requests[j].Release? && requests[j].k == k;
        assert requests'[j] == requests[j];
      }
    }
  }

  /** Every answer but 0 is to a request for a block, which has the right size. */
  ghost predicate Answered(requests: seq<Request>, answers: seq<nat>, helds: seq<nat>) {
    && |answers| == |helds| <= |requests|
    && forall k :: 0 <= k < |answers| && answers[k] != 0 ==>
         requests[k].Allocate? && Fits(requests[k].size, helds[k])
  }

  /** Sizes up to 2 KB are rounded up, all others are kept. */
  lemma AnsweredCovers(requests: seq<Request>, answers: seq<nat>, helds: seq<nat>)
    requires Answered(requests, answers, helds)
    ensures forall k :: 0 <= k < |answers| && answers[k] != 0 ==>
              && requests[k].Allocate?
              && var size := requests[k].size;
              helds[k] == if size <= 512 then 512 else if size <= 1024 then 1024
                          else if size <= 2048 then 2048 else size
  {
    hide InClass, Rounded;
    forall k, i | 0 <= k < |answers| && answers[k] != 0 && InClass(i, requests[k].size) {
      RoundedIs(i, requests[k].size);
    }
  }

  // ----- what a run answers

  /** The size of the reservations from which blocks of this size come. */
  ghost function ReservationSize(size: nat): nat {
    if i: nat :| InClass(i, size) then ARENA_INFO_TABLE[i].reservationSize else 0
  }

  /** A size belongs to one class only. */
  lemma OneClass(i: nat, size: nat)
    requires InClass(i, size)
    ensures i < NUM_ARENAS && ReservationSize(size) == ARENA_INFO_TABLE[i].reservationSize
  {
    assert forall j: nat :: InClass(j, size) ==> j == i;
  }

  /** While the reservations are those of `known`: the request for a block is answered, if all
      that is asked for can be had and the range offered meets none of them, exactly if a
      reservation can hold the block. */
  ghost predicate Served(request: Request, answer: nat, known: set<Reservation>) {
    request.Allocate? && request.world.Generous() && MayReserve(known, request.size, request.world.base) ==>
      (answer != 0 <==> request.size <= 0x8000_0000)
  }

  /** The reservation has the range that the request offered. */
  ghost predicate MadeFor(request: Request, r: Reservation) {
    request.Allocate? && r.addr == request.world.base && r.size == ReservationSize(request.size)
  }

  /** A request makes reservations only in the range that it offers. */
  ghost predicate Extended(request: Request, known: set<Reservation>, known': set<Reservation>) {
    known <= known' && forall r :: r in known' && r !in known ==> MadeFor(request, r)
  }

  /** The reservations that are known before each request, and after the last one; each request
      is served as far as those before it allow. */
  ghost predicate Traced(requests: seq<Request>, answers: seq<nat>, knowns: seq<set<Reservation>>) {
    && |answers| == |requests| && |knowns| == |requests| + 1
    && forall k {:trigger requests[k]} :: 0 <= k < |requests| ==>
         Extended(requests[k], knowns[k], knowns[k + 1]) && Served(requests[k], answers[k], knowns[k])
  }

  lemma TracedLength(requests: seq<Request>, answers: seq<nat>, knowns: seq<set<Reservation>>)
    requires Traced(requests, answers, knowns)
    ensures |answers| == |requests| && |knowns| == |requests| + 1
  {
  }

  lemma TracedMore(
      requests: seq<Request>, answers: seq<nat>, knowns: seq<set<Reservation>>,
      request: Request, answer: nat, known: set<Reservation>)
    requires Traced(requests, answers, knowns)
    requires Extended(request, knowns[|requests|], known) && Served(request, answer, knowns[|requests|])
    ensures Traced(requests + [request], answers + [answer], knowns + [known])
  {
    hide Extended, Served;
    var requests', answers', knowns' := requests + [request], answers + [answer], knowns + [known];
    forall k {:trigger requests'[k]} | 0 <= k < |requests'|
      ensures Extended(requests'[k], knowns'[k], knowns'[k + 1]) && Served(requests'[k], answers'[k], knowns'[k])
    {
      if k < |requests| {
        assert requests'[k] == requests[k] && answers'[k] == answers[k];
        assert knowns'[k] == knowns[k] && knowns'[k + 1] == knowns[k + 1];
      }
    }
  }

  /** Every reservation was there at the start or was made for an earlier request. */
  lemma {:induction false} TraceOrigin(
      requests: seq<Request>, answers: seq<nat>, knowns: seq<set<Reservation>>, k: nat, r: Reservation)
    requires Traced(requests, answers, knowns) && k <= |requests| && r in knowns[k]
    ensures r in knowns[0] || exists j :: 0 <= j < k && MadeFor(requests[j], r)
  {
    hide Served;
    if k > 0 {
      assert Extended(requests[k - 1], knowns[k - 1], knowns[k]);
      if r in knowns[k - 1] {
        TraceOrigin(requests, answers, knowns, k - 1, r);
      }
    }
  }

  /** The ranges that two requests offer do not meet. */
  ghost predicate OffersApart(p: Request, q: Request) {
    p.Allocate? && q.Allocate? ==>
      Apart((p.world.base, ReservationSize(p.size)), (q.world.base, ReservationSize(q.size)))
  }

  /** The world refuses nothing, and offers ranges inside the space of the tracker that meet
      neither each other nor the reservations of the start. */
  ghost predicate Bountiful(requests: seq<Request>, known: set<Reservation>) {
    && (forall k :: 0 <= k < |requests| && requests[k].Allocate? ==>
          && requests[k].world.Generous()
          && Unreserved(known, requests[k].world.base, ReservationSize(requests[k].size)))
    && forall j, k :: 0 <= j < k < |requests| ==> OffersApart(requests[j], requests[k])
  }

  /** In a bountiful world every request up to the size of the largest reservation is answered. */
  lemma BountifulAnswers(requests: seq<Request>, answers: seq<nat>, knowns: seq<set<Reservation>>, k: nat)
    requires Traced(requests, answers, knowns) && Bountiful(requests, knowns[0])
    requires k < |requests| && requests[k].Allocate?
    ensures answers[k] != 0 <==> requests[k].size <= 0x8000_0000
  {
    hide InClass, Served, Extended, ReservationSize;
    var size, base := requests[k].size, requests[k].world.base;
    forall r | r in knowns[k] ensures !Overlaps(AvlNodes.Span(r.addr, r.size), base, base + ReservationSize(size)) {
      TraceOrigin(requests, answers, knowns, k, r);
      if r !in knowns[0] {
        var j :| 0 <= j < k && MadeFor(requests[j], r);
        assert OffersApart(requests[j], requests[k]);
      }
    }
    forall i: nat | InClass(i, size)
      ensures i < NUM_ARENAS && ARENA_INFO_TABLE[i].reservationSize == ReservationSize(size)
    {
      OneClass(i, size);
    }
    ServedIf(requests[k], answers[k], knowns[k]);
  }

  lemma ServedIf(request: Request, answer: nat, known: set<Reservation>)
    requires Served(request, answer, known) && request.Allocate? && request.world.Generous()
    requires MayReserve(known, request.size, request.world.base)
    ensures answer != 0 <==> request.size <= 0x8000_0000
  {
  }

  lemma HandedMore(handles: seq<nat>, helds: seq<nat>, addr: nat, held: nat)
    requires |handles| == |helds| && Spread(handles, helds)
    requires addr == 0 || (addr, held) !in Handed(handles, helds)
    ensures Handed(handles + [addr], helds + [held])
            == Handed(handles, helds) + if addr == 0 then {} else {(addr, held)}
    ensures Spread(handles + [addr], helds + [held])
  {
    var handles', helds' := handles + [addr], helds + [held];
    assert forall k :: 0 <= k < |handles| ==> handles'[k] == handles[k] && helds'[k] == helds[k];
    forall k | 0 <= k < |handles| && handles[k] != 0 ensures (handles[k], helds[k]) in Handed(handles', helds') {
      assert handles'[k] != 0;
    }
    if addr != 0 {
      assert handles'[|handles|] != 0;
    }
  }

  lemma HandedNone(handles: seq<nat>, helds: seq<nat>)
    requires |handles| == |helds| && forall k :: 0 <= k < |handles| ==> handles[k] == 0
    ensures Handed(handles, helds) == {}
  {
  }

  lemma HandedLess(handles: seq<nat>, helds: seq<nat>, k: nat)
    requires |handles| == |helds| && Spread(handles, helds) && k < |handles| && handles[k] != 0
    ensures (handles[k], helds[k]) in Handed(handles, helds)
    ensures Handed(handles[k := 0], helds) == Handed(handles, helds) - {(handles[k], helds[k])}
    ensures Spread(handles[k := 0], helds)
  {
    forall j | 0 <= j < |handles| && j != k && handles[j] != 0
      ensures (handles[j], helds[j]) in Handed(handles[k := 0], helds)
    {
      assert handles[k := 0][j] != 0;
    }
  }

  class Arena {
    const info: ArenaInfo
    const idx: nat
    const isSlab: bool
    var reservationHead: Reservation?

    constructor (idx: nat)
      requires idx < NUM_ARENAS
      ensures this.idx == idx && info == ARENA_INFO_TABLE[idx] && isSlab == IsSlabIdx(idx)
      ensures reservationHead == null
    {
      this.idx, info, isSlab := idx, ARENA_INFO_TABLE[idx], IsSlabIdx(idx);
      reservationHead := null;
    }
  }

  /** A slab for the small size classes.  Null if memory is short. */
  method InitializeSlab(i: nat, base: nat, strategyOk: bool) returns (slab: SlabAllocator.Slab?)
    requires IsSlabIdx(i) && base > 0
    ensures slab == null <==> !strategyOk
    ensures slab != null ==>
              && fresh(slab.Region()) && slab.Valid() && slab.base == base && slab.bitmap.Contents() == {}
              && slab.blockSize == ARENA_INFO_TABLE[i].maxPerAllocSize
              && slab.blockSize * slab.blocksPerSlab == ARENA_INFO_TABLE[i].reservationSize
  {
    var info := ARENA_INFO_TABLE[i];
    assert info.reservationSize / info.maxPerAllocSize == 4096 || info.reservationSize / info.maxPerAllocSize == 2048;
    slab := SlabAllocator.Slab.Initialize(base, info.maxPerAllocSize, info.reservationSize, strategyOk);
  }

  /** A new reservation: a slab for the small size classes, a best-fit heap for the others.
      Null if memory is short. */
  method MakeReservation(i: nat, base: nat, strategyOk: bool) returns (r: Reservation?)
    requires i < NUM_ARENAS && base > 0
    ensures r == null <==> !strategyOk
    ensures r != null ==>
              && fresh(r) && fresh(r.node) && r.Valid() && r.Live() == {} && fresh(r.Parts())
              && r.node !in r.Parts() && r !in r.Parts() && r.next == null
              && r.arenaIdx == i && r.addr == base && r.size == ARENA_INFO_TABLE[i].reservationSize
              && (r.strategy.SlabOf? <==> ARENA_INFO_TABLE[i].maxPerAllocSize <= 2048)
              && (r.strategy.SlabOf? ==>
                    && r.strategy.slab.blockSize == ARENA_INFO_TABLE[i].maxPerAllocSize
                    && r.strategy.slab.blockSize * r.strategy.slab.blocksPerSlab == r.size)
  {
    hide SlabAllocator.Slab.Valid, BlockHeap.Heap.Valid;
    SlabClasses(i);
    if IsSlabIdx(i) {
      var slab := InitializeSlab(i, base, strategyOk);
      if slab == null {
        return null;
      }
      var node := new AvlNodes.Node();
      r := new Reservation(base, ARENA_INFO_TABLE[i].reservationSize, i, node, SlabOf(slab));
    } else {
      if !strategyOk {
        return null;
      }
      var heap := InitializeObjects(base, ARENA_INFO_TABLE[i].reservationSize);
      var node := new AvlNodes.Node();
      r := new Reservation(base, ARENA_INFO_TABLE[i].reservationSize, i, node, ObjectsOf(heap));
    }
  }

  method InitializeObjects(base: nat, size: nat) returns (heap: BlockHeap.Heap)
    requires base > 0 && 0 < size <= PHYSICAL_MEMORY_SIZE
    ensures heap.Valid() && heap.base == base && heap.total == size && fresh(heap.region)
    ensures Live(heap.View()) == {}
  {
    hide BlockHeap.Heap.Wired, Pow2, BlockLayout.Sound;
    PowerIsLarge();
    heap := new BlockHeap.Heap(base, size);
    heap.Populate(base, size);
    LiveNone(heap.View());
  }

  class Allocator {
    const arenas: seq<Arena>
    var totalVaSize: nat
    var usedVaSize: nat
    const tracker: Tracker
    ghost var lists: seq<seq<Reservation>>
    ghost var made: seq<Reservation>
    /** All reservations, and what is known of each. */
    ghost var known: set<Reservation>
    ghost var view: View

    /** The objects of the allocator that are not part of a strategy. */
    ghost function Outer(): set<object>
      reads this`known, tracker, tracker.tree
    {
      {this, tracker, tracker.tree, tracker.tree.anchor} + tracker.Tracked() + (set a | a in arenas) + known
    }

    /** All objects of the allocator. */
    ghost function Region(): set<object>
      reads this`known, this`view, tracker, tracker.tree
    {
      Outer() + AllParts(view)
    }

    ghost predicate ArenaOk(i: nat)
      requires i < |arenas| && i < |lists|
      reads this`lists, this`known, arenas`reservationHead, known`next
    {
      && i < NUM_ARENAS
      && arenas[i].idx == i && arenas[i].info == ARENA_INFO_TABLE[i] && arenas[i].isSlab == IsSlabIdx(i)
      && (forall k {:trigger lists[i][k]} :: 0 <= k < |lists[i]| ==> lists[i][k] in known && lists[i][k].arenaIdx == i)
      && Chain(arenas[i].reservationHead, lists[i])
    }

    /** Every reservation is on the list of its arena, except those just being made. */
    ghost predicate Linked(pending: set<Reservation>)
      reads this`lists, this`known, arenas`reservationHead, known`next
    {
      && |arenas| == NUM_ARENAS && |lists| == NUM_ARENAS
      && (forall i, j :: 0 <= i < j < NUM_ARENAS ==> arenas[i] != arenas[j])
      && (forall i: nat {:trigger ArenaOk(i)} :: i < NUM_ARENAS ==> ArenaOk(i))
      && (forall r :: r in known && r !in pending ==> r.arenaIdx < NUM_ARENAS && r in lists[r.arenaIdx])
      && (forall r, i :: r in pending && 0 <= i < NUM_ARENAS ==> r !in lists[i])
    }

    /** The reservation has its shape, and the tracker knows its range. */
    ghost predicate Mine(r: Reservation)
      reads tracker, tracker.tree, r.node`key, r.node`value
    {
      && Shaped(r)
      && r.node in tracker.Tracked() && r.node.key == AvlNodes.Span(r.addr, r.size) && r.node.value == r
    }

    /** A tracked node is that of a reservation. */
    ghost predicate Owned(n: AvlNodes.Node)
      reads this`known, n`value
    {
      n.value is Reservation && (n.value as Reservation) in known && (n.value as Reservation).node == n
    }

    ghost predicate Known()
      reads this`known
      reads tracker, tracker.tree, tracker.tree.anchor, tracker.tree.plan.place.Keys
    {
      && (forall r :: r in known ==> r.node in tracker.Tracked())
      && tracker.Valid() && tracker.lo == 0 && tracker.afterHi == MAX_VA
      && (forall r {:trigger Mine(r)} :: r in known ==> Mine(r))
      && (forall n {:trigger Owned(n)} :: n in tracker.Tracked() ==> Owned(n))
    }

    /** The state of a reservation is the one on record. */
    static ghost predicate Seen(r: Reservation, st: Status)
      reads r.Roots(), r.Parts()
    {
      r.Roots() <= st.parts && r.Parts() == st.parts && r.Valid() && r.Live() == st.live
    }

    /** The reservations made, without repetition, add up to the total. */
    ghost predicate Counted()
      reads this`made, this`known, this`totalVaSize, this`usedVaSize
    {
      && usedVaSize < TWO_64
      && (set r | r in made) == known
      && Distinct(made)
      && totalVaSize == SumSizes(made)
    }

    ghost predicate Valid()
      reads this, tracker, tracker.tree, Region()
    {
      Ready({})
    }

    ghost predicate Ready(pending: set<Reservation>)
      reads this, tracker, tracker.tree, Region()
    {
      && view.Keys == known
      && (forall r :: r in view ==> r.Roots() <= view[r].parts && r.Parts() == view[r].parts)
      && (forall r {:trigger view[r]} :: r in view ==> Seen(r, view[r]))
      && Separate(view, Outer())
      && Linked(pending) && Known() && Counted()
    }

    constructor (arenas: seq<Arena>, tracker: Tracker)
      requires |arenas| == NUM_ARENAS && forall i, j :: 0 <= i < j < NUM_ARENAS ==> arenas[i] != arenas[j]
      requires forall i: nat :: i < NUM_ARENAS ==>
                 && arenas[i].idx == i && arenas[i].info == ARENA_INFO_TABLE[i] && arenas[i].isSlab == IsSlabIdx(i)
                 && arenas[i].reservationHead == null
      requires tracker.Valid() && tracker.lo == 0 && tracker.afterHi == MAX_VA && tracker.Tracked() == {}
      ensures Valid() && AllLive(view) == {} && made == [] && totalVaSize == 0 && usedVaSize == 0
      ensures Region() == {this, tracker, tracker.tree, tracker.tree.anchor} + (set a | a in arenas)
      ensures this.tracker == tracker && this.arenas == arenas
    {
      this.arenas, this.tracker := arenas, tracker;
      totalVaSize, usedVaSize := 0, 0;
      lists := seq(NUM_ARENAS, i => []);
      made, known, view := [], {}, map[];
      new;
      assert forall i: nat :: i < NUM_ARENAS ==> ArenaOk(i);
    }

    // ----- what separates reservations

    lemma RangesApart(r: Reservation, s: Reservation)
      requires Known() && r in known && s in known && r != s
      ensures r.addr + r.size <= s.addr || s.addr + s.size <= r.addr
    {
      assert Mine(r) && Mine(s);
      assert r.node != s.node;
    }

    lemma LiveApartFrom(r: Reservation, s: Reservation)
      requires Known() && view.Keys == known && r in view && s in view && r != s && Seen(r, view[r]) && Seen(s, view[s])
      ensures view[r].live !! view[s].live
      ensures forall p, q :: p in view[r].live && q in view[s].live ==> Apart(p, q)
    {
      RangesApart(r, s);
      r.LiveIsSound();
      s.LiveIsSound();
    }

    /** All live blocks lie inside tracked reservations and do not overlap. */
    lemma LiveIsSound()
      requires Valid()
      ensures forall p, q :: p in AllLive(view) && q in AllLive(view) && p != q ==> Apart(p, q)
      ensures forall p :: p in AllLive(view) ==>
                p.1 > 0 && exists n :: n in tracker.Tracked() && Inside(p, n.key)
    {
      forall p, q | p in AllLive(view) && q in AllLive(view) && p != q ensures Apart(p, q) {
        var r: Reservation :| r in view && p in view[r].live;
        var s: Reservation :| s in view && q in view[s].live;
        if r == s {
          r.LiveIsSound();
        } else {
          LiveApartFrom(r, s);
        }
      }
      forall p | p in AllLive(view)
        ensures p.1 > 0 && exists n :: n in tracker.Tracked() && Inside(p, n.key)
      {
        var r: Reservation :| r in view && p in view[r].live;
        r.LiveIsSound();
        assert Mine(r);
        assert r.node in tracker.Tracked();
      }
    }

    /** The total size of all reservations does not exceed the space of the tracker, so that it
        does not wrap around in 64 bits. */
    lemma TotalFits()
      requires Valid()
      ensures totalVaSize == SumSizes(made) <= 0x200_0000_0000_0000
    {
      hide Seen, Separate, Linked;
      forall i, j | 0 <= i < j < |made|
        ensures Apart((made[i].addr, made[i].size), (made[j].addr, made[j].size))
      {
        assert made[i] in known && made[j] in known;
        RangesApart(made[i], made[j]);
      }
      forall i | 0 <= i < |made| ensures made[i].addr + made[i].size <= MAX_VA {
        assert made[i] in known;
        assert Mine(made[i]);
      }
      SumFits(made, MAX_VA);
    }

    /** The eight lists partition the tracked ranges, and the total size is that of all of them. */
    lemma ListsPartition()
      requires Valid()
      ensures |lists| == NUM_ARENAS && forall i :: 0 <= i < NUM_ARENAS ==> Distinct(lists[i])
      ensures forall i, k :: 0 <= i < NUM_ARENAS && 0 <= k < |lists[i]| ==>
                lists[i][k].arenaIdx == i && lists[i][k].node in tracker.Tracked()
      ensures forall n :: n in tracker.Tracked() ==>
                exists i, k :: 0 <= i < NUM_ARENAS && 0 <= k < |lists[i]| && lists[i][k].node == n
      ensures (set r | r in made) == known && Distinct(made) && totalVaSize == SumSizes(made) <= MAX_VA
    {
      hide Seen, Separate, Tracker.Valid;
      TotalFits();
      forall i: nat | i < NUM_ARENAS ensures ArenaOk(i) && Distinct(lists[i]) {
        assert ArenaOk(i);
        forall j, k | 0 <= j < k < |lists[i]| ensures lists[i][j] != lists[i][k] {
          ChainDistinct(arenas[i].reservationHead, lists[i], j, k);
        }
      }
      forall n | n in tracker.Tracked()
        ensures exists i, k :: 0 <= i < NUM_ARENAS && 0 <= k < |lists[i]| && lists[i][k].node == n
      {
        assert Owned(n);
        var r := n.value as Reservation;
        var k :| 0 <= k < |lists[r.arenaIdx]| && lists[r.arenaIdx][k] == r;
      }
    }

    /** Once nothing is live, every reservation is as it was when it was made. */
    lemma UnusedIsWhole()
      requires Valid() && AllLive(view) == {}
      ensures forall r :: r in known ==> r.Valid() && r.Whole()
    {
      hide Linked, Known, Counted, Separate, Reservation.Valid, Reservation.Live, Reservation.Whole;
      forall r | r in known ensures r.Valid() && r.Whole() {
        assert Seen(r, view[r]);
        assert forall p :: p in view[r].live ==> p in AllLive(view);
        r.UnusedIsWhole();
      }
    }

    // ----- allocation from one reservation

    /** Everything but the state of one reservation is as it should be. */
    ghost predicate ReadyBut(r: Reservation, pending: set<Reservation>)
      reads this, tracker, tracker.tree, Outer(), AllParts(view)
    {
      && view.Keys == known
      && (forall s :: s in view && s != r ==> s.Roots() <= view[s].parts && s.Parts() == view[s].parts)
      && (forall s {:trigger view[s]} :: s in view && s != r ==> Seen(s, view[s]))
      && Separate(view, Outer())
      && Linked(pending) && Known() && Counted()
    }

    method Draw(r: Reservation, size: nat, blockOk: bool, ghost pending: set<Reservation>)
      returns (addr: nat, ghost st: Status, ghost added: set<object>)
      requires Ready(pending) && r in view && r.Valid() && r.Serves(size)
      modifies r.Parts()
      ensures ReadyBut(r, pending) && Seen(r, st) && unchanged(this)
      ensures fresh(added) && st.parts <= view[r].parts + added
      ensures st.parts !! Outer() && forall s :: s in view && s != r ==> st.parts !! view[s].parts
      ensures addr == 0 ==> st.live == view[r].live
      ensures addr != 0 ==>
                && st.live == view[r].live + {(addr, r.Granted(size))} && (addr, r.Granted(size)) !in view[r].live
      ensures addr != 0 <==> r.Room(view[r].live, size, blockOk)
      ensures addr != 0 ==> r.Best(view[r].live, size, addr)
    {
      hide Linked, Known, Counted, Tracker.Valid, AllParts, Pow2;
      hide Reservation.Valid, Reservation.Live, Reservation.Serves, Reservation.Granted;
      hide Reservation.Room, Reservation.Best;
      PartsIn(view, r);
      addr := r.Alloc(size, blockOk);
      added := r.Parts() - view[r].parts;
      st := Status(r.Parts(), r.Live());
      r.RootsInParts();
    }

    ghost method Record(r: Reservation, st: Status, pending: set<Reservation>)
      requires ReadyBut(r, pending) && r in view && Seen(r, st)
      requires st.parts !! Outer() && forall s :: s in view && s != r ==> st.parts !! view[s].parts
      modifies `view
      ensures Ready(pending) && view == old(view)[r := st]
    {
      hide Linked, Known, Counted, Tracker.Valid, Reservation.Valid, Reservation.Live;
      SeparateGrows(view, Outer(), r, st);
      view := view[r := st];
    }

    lemma PartsOutside(pending: set<Reservation>)
      requires Ready(pending)
      ensures AllParts(view) !! Outer()
    {
      hide Linked, Known, Counted, Seen;
    }

    lemma AllLiveApart(pending: set<Reservation>)
      requires Ready(pending)
      ensures LiveDisjoint(view)
    {
      hide Linked, Known, Counted, Seen, Apart;
      forall r, s | r in view && s in view && r != s ensures view[r].live !! view[s].live {
        LiveApartFrom(r, s);
      }
    }

    /** `allocate_from_reservation`, with the change on record. */
    method AllocateFromReservation(r: Reservation, size: nat, blockOk: bool, ghost pending: set<Reservation>)
      returns (addr: nat, ghost added: set<object>)
      requires Ready(pending) && r in view && r.Valid() && r.Serves(size)
      modifies `view, AllParts(view)
      ensures Ready(pending) && r in view && view == old(view)[r := view[r]]
      ensures fresh(added) && AllParts(view) <= AllParts(old(view)) + added && Outer() == old(Outer())
      ensures unchanged(`lists, `known, `made, `totalVaSize, `usedVaSize)
      ensures addr == 0 ==> AllLive(view) == AllLive(old(view)) && view[r].live == old(view)[r].live
      ensures addr != 0 ==>
                && AllLive(view) == AllLive(old(view)) + {(addr, r.Granted(size))}
                && (addr, r.Granted(size)) !in AllLive(old(view))
                && (addr, r.Granted(size)) !in old(view)[r].live
                && view[r].live == old(view)[r].live + {(addr, r.Granted(size))}
      ensures addr != 0 <==> r.Room(old(view)[r].live, size, blockOk)
      ensures addr != 0 ==> r.Best(old(view)[r].live, size, addr)
    {
      hide Linked, Known, Counted, Seen, AllParts, AllLive, Reservation.Room, Reservation.Best;
      PartsIn(view, r);
      PartsOutside(pending);
      ghost var st;
      addr, st, added := Draw(r, size, blockOk, pending);
      ghost var was := view;
      Record(r, st, pending);
      PartsGrow(was, r, st, added);
      AllLiveApart(pending);
      if addr == 0 {
        LiveSame(was, r, st);
      } else {
        LiveGrows(was, r, st, (addr, r.Granted(size)));
      }
    }

    // ----- allocation from a size class

    lemma ShapeOf(r: Reservation, pending: set<Reservation>)
      requires Ready(pending) && r in known
      ensures r in view && r.Valid() && Shaped(r)
    {
      hide Linked, Counted, Tracker.Valid, Separate, Reservation.Valid, Reservation.Live, Shaped;
      assert Mine(r);
      assert Seen(r, view[r]);
    }

    lemma ClassServes(r: Reservation, size: nat, pending: set<Reservation>)
      requires Ready(pending) && r in known && InClass(r.arenaIdx, size)
      ensures r in view && r.Valid() && r.Serves(size) && r.Granted(size) == Rounded(r.arenaIdx, size)
    {
      hide Ready, Reservation.Valid;
      ShapeOf(r, pending);
      SlabClasses(r.arenaIdx);
      assert ARENA_INFO_TABLE[2].maxPerAllocSize > 0;
    }

    /** In an unused reservation the next block goes to the start. */
    lemma UnusedTakes(r: Reservation, size: nat, blockOk: bool, addr: nat)
      requires Ready({r}) && r in known && InClass(r.arenaIdx, size)
      requires addr != 0 <==> r.Room({}, size, blockOk)
      requires addr != 0 ==> r.Best({}, size, addr)
      ensures addr == if Takes(r, size, blockOk) then r.addr else 0
    {
      hide Ready, Reservation.Valid, Reservation.Room, Reservation.Best, Reservation.Serves;
      ClassServes(r, size, {r});
      r.UnusedRoom(size, blockOk);
      if addr != 0 {
        r.UnusedBest(size, addr);
      }
    }

    lemma ListStarts(i: nat, pending: set<Reservation>)
      requires Ready(pending) && i < NUM_ARENAS
      ensures |arenas| == NUM_ARENAS && |lists| == NUM_ARENAS
      ensures arenas[i].reservationHead == At(lists[i], 0) && arenas[i].info == ARENA_INFO_TABLE[i]
    {
      hide Known, Counted, Seen, Separate;
      assert ArenaOk(i);
    }

    lemma ListGoesOn(i: nat, k: nat, pending: set<Reservation>)
      requires Ready(pending) && i < NUM_ARENAS && |lists| == NUM_ARENAS && k < |lists[i]|
      ensures lists[i][k] in known && lists[i][k].arenaIdx == i && lists[i][k].next == At(lists[i], k + 1)
    {
      hide Known, Counted, Seen, Separate;
      assert ArenaOk(i);
    }

    /** What an allocation does: a block of the size class joins the live ones, in a
        reservation of that class, or nothing happens to them. */
    twostate predicate Allocated(i: nat, size: nat, addr: nat)
      requires i < NUM_ARENAS
      reads `view
    {
      if addr == 0 then AllLive(view) == AllLive(old(view))
      else
        var p := (addr, Rounded(i, size));
        && AllLive(view) == AllLive(old(view)) + {p} && p !in AllLive(old(view))
        && exists r :: r in view && r.arenaIdx == i && p in view[r].live
    }

    /** One turn of the loop over a list: the k-th reservation is tried. */
    method TryReservation(r: Reservation, i: nat, ghost k: nat, size: nat, blockOk: bool)
      returns (addr: nat, next: Reservation?, ghost added: set<object>)
      requires Valid() && i < NUM_ARENAS && InClass(i, size) && i < |lists| && k < |lists[i]| && r == lists[i][k]
      modifies `view, AllParts(view)
      ensures Valid() && unchanged(`lists, `known, `made, `totalVaSize, `usedVaSize)
      ensures fresh(added) && AllParts(view) <= AllParts(old(view)) + added
      ensures Allocated(i, size, addr) && next == At(lists[i], k + 1)
      ensures r in old(view) && r in view && view == old(view)[r := view[r]]
      ensures addr == 0 ==> SameLive(view, old(view))
      ensures addr != 0 ==>
                && r.Best(old(view)[r].live, size, addr) && (addr, Rounded(i, size)) !in old(view)[r].live
                && view[r].live == old(view)[r].live + {(addr, Rounded(i, size))}
      ensures addr != 0 <==> r.Room(old(view)[r].live, size, blockOk)
    {
      hide Ready, InClass, AllParts, AllLive, Reservation.Room, Reservation.Best;
      ListStarts(i, {});
      ListGoesOn(i, k, {});
      ClassServes(r, size, {});
      addr, added := AllocateFromReservation(r, size, blockOk, {});
      ListGoesOn(i, k, {});
      next := r.next;
    }

    /** The reservations of the list are tried in turn, and the first one that has room serves. */
    method AllocateFromList(i: nat, size: nat, blockOk: nat -> bool)
      returns (addr: nat, attempts: nat, ghost added: set<object>)
      requires Valid() && i < NUM_ARENAS && InClass(i, size)
      modifies `view, AllParts(view)
      ensures Valid() && view.Keys == old(view).Keys && unchanged(`lists, `known, `made, `totalVaSize, `usedVaSize)
      ensures fresh(added) && AllParts(view) <= AllParts(old(view)) + added
      ensures Allocated(i, size, addr) && i < |lists|
      ensures addr == 0 ==> attempts == |lists[i]| && SameLive(view, old(view))
      ensures addr == 0 <==> Full(lists[i], old(view), size, blockOk, |lists[i]|)
      ensures addr != 0 ==> ServedFromList(lists[i], old(view), view, size, blockOk, (addr, Rounded(i, size)))
    {
      hide Ready, InClass, AllParts, AllLive, Reservation.Room, Reservation.Best, Full, SameLive, ServedFromList;
      ListStarts(i, {});
      var reservation := arenas[i].reservationHead;
      ghost var k, parts, list := 0, AllParts(view), lists[i];
      attempts := 0;
      addr, added := 0, {};
      FullStarts(list, view, size, blockOk);
      while reservation != null
        invariant Valid() && unchanged(`lists, `known, `made, `totalVaSize, `usedVaSize)
        invariant fresh(added) && AllParts(view) <= parts + added
        invariant 0 <= k <= |list| && reservation == At(list, k)
        invariant view.Keys == old(view).Keys && SameLive(view, old(view)) && AllLive(view) == AllLive(old(view))
        invariant addr == 0 && attempts == k && Full(list, old(view), size, blockOk, k)
        decreases |list| - k
      {
        ghost var before, more := view, {};
        addr, reservation, more := TryReservation(reservation, i, k, size, blockOk(attempts));
        added := added + more;
        if addr != 0 {
          ServedNow(list, k, old(view), before, view, size, blockOk, (addr, Rounded(i, size)));
          return;
        }
        FullMore(list, old(view), before, view, size, blockOk, k);
        attempts := attempts + 1;
        k := k + 1;
      }
    }

    // ----- a new reservation

    /** The tracker knows the new reservation, which the arenas do not yet. */
    ghost predicate KnownBut(r: Reservation)
      reads this`known, r.node`key, r.node`value
      reads tracker, tracker.tree, tracker.tree.anchor, tracker.tree.plan.place.Keys
    {
      && (forall s :: s in known ==> s.node in tracker.Tracked())
      && tracker.Valid() && tracker.lo == 0 && tracker.afterHi == MAX_VA
      && (forall s {:trigger Mine(s)} :: s in known ==> Mine(s))
      && (forall n {:trigger Owned(n)} :: n in tracker.Tracked() && n != r.node ==> Owned(n))
      && Mine(r)
    }

    method Enroll(r: Reservation)
      requires Known() && r !in known && r.node !in tracker.Tracked() && r.size > 0 && Unreserved(known, r.addr, r.size)
      requires Shaped(r)
      modifies tracker.tree`plan, tracker.tree.anchor`root, r.node
      modifies tracker.Tracked()`kids, tracker.Tracked()`parent, tracker.Tracked()`height
      ensures KnownBut(r) && tracker.Tracked() == old(tracker.Tracked()) + {r.node}
    {
      hide Tracker.Valid;
      forall s | s in known ensures s.node != r.node && s.node in tracker.Tracked() {
        assert Mine(s);
      }
      forall n | n in tracker.Tracked() ensures !Overlaps(n.key, r.addr, r.addr + r.size) {
        assert Owned(n);
        assert Mine(n.value as Reservation);
      }
      tracker.RegisterNode(r.node, r.addr, r.size, r);
      forall s | s in known ensures Mine(s) {
        assert old(Mine(s));
      }
      forall n | n in tracker.Tracked() && n != r.node ensures Owned(n) {
        assert old(Owned(n));
      }
    }

    /** All but the new reservation is as it should be, and the tracker knows it already. */
    ghost predicate Halfway(r: Reservation, st: Status)
      reads this, tracker, tracker.tree, Region(), r.node, r.Roots(), r.Parts()
    {
      && view.Keys == known && r !in known
      && (forall s :: s in view ==> s.Roots() <= view[s].parts && s.Parts() == view[s].parts)
      && (forall s {:trigger view[s]} :: s in view ==> Seen(s, view[s]))
      && Separate(view[r := st], Outer() + {r}) && Seen(r, st)
      && Linked({}) && KnownBut(r) && Counted()
    }

    ghost method Note(r: Reservation)
      requires Linked({}) && KnownBut(r) && r !in known
      modifies `known
      ensures Linked({r}) && Known() && known == old(known) + {r}
    {
      hide Tracker.Valid;
      known := known + {r};
      forall i: nat | i < NUM_ARENAS ensures ArenaOk(i) && r !in lists[i] {
        assert old(ArenaOk(i));
      }
      forall n | n in tracker.Tracked() ensures Owned(n) {
        assert n != r.node ==> old(Owned(n));
      }
    }

    method Count(r: Reservation)
      requires (set s | s in made) + {r} == known && r !in made && usedVaSize < TWO_64 && totalVaSize == SumSizes(made)
      requires Distinct(made)
      modifies `made, `totalVaSize
      ensures Counted() && made == old(made) + [r] && totalVaSize == old(totalVaSize) + r.size
    {
      hide Distinct, SumSizes;
      Appended(made, r);
      made := made + [r];
      totalVaSize := totalVaSize + r.size;
    }

    ghost method Put(r: Reservation, st: Status)
      requires view.Keys + {r} == known && Seen(r, st)
      requires forall s {:trigger view[s]} :: s in view ==> Seen(s, view[s])
      requires Separate(view[r := st], {this})
      modifies `view
      ensures view == old(view)[r := st] && view.Keys == known
      ensures forall s {:trigger view[s]} :: s in view ==> Seen(s, view[s])
    {
      hide Reservation.Valid, Reservation.Live;
      assert forall s :: s in view && s != r ==> view[r := st][s] == view[s];
      view := view[r := st];
    }

    lemma Gather(pending: set<Reservation>)
      requires view.Keys == known && Separate(view, Outer()) && Linked(pending) && Known() && Counted()
      requires forall s {:trigger view[s]} :: s in view ==> Seen(s, view[s])
      ensures Ready(pending)
    {
      hide Linked, Known, Counted;
    }

    lemma NotInParts(r: Reservation, st: Status)
      requires Separate(view[r := st], Outer() + {r}) && r !in view
      ensures this !in st.parts && forall s :: s in view ==> this !in view[s].parts
    {
      var view' := view[r := st];
      assert view'[r] == st && forall s :: s in view ==> view'[s] == view[s];
    }

    ghost method NoteAndPut(r: Reservation, st: Status)
      requires Halfway(r, st)
      modifies `known, `view
      ensures Linked({r}) && Known() && known == old(known) + {r} && view == old(view)[r := st] && view.Keys == known
      ensures forall s {:trigger view[s]} :: s in view ==> Seen(s, view[s])
      ensures Separate(view, Outer())
    {
      hide Linked, KnownBut, Known, ArenaOk, Tracker.Valid, Reservation.Valid, Reservation.Live, Counted;
      NotInParts(r, st);
      Note(r);
      Put(r, st);
    }

    method Enlist(r: Reservation, ghost st: Status)
      requires Halfway(r, st)
      modifies `known, `view, `made, `totalVaSize
      ensures Ready({r}) && known == old(known) + {r} && view == old(view)[r := st]
      ensures made == old(made) + [r] && totalVaSize == old(totalVaSize) + r.size
    {
      hide Linked, KnownBut, Known, ArenaOk, Tracker.Valid, Reservation.Valid, Reservation.Live, SumSizes, Ready;
      NoteAndPut(r, st);
      Count(r);
      Gather({r});
    }

    /** Nothing of a new reservation belongs to the allocator yet. */
    ghost predicate Stranger(r: Reservation, st: Status)
      reads this`known, this`view, tracker, tracker.tree
    {
      && r !in known && {r, r.node} !! Outer() + AllParts(view)
      && st.parts !! Outer() + {r, r.node} + AllParts(view)
    }

    method EnrollBeside(r: Reservation, ghost st: Status)
      requires Valid() && Stranger(r, st) && Seen(r, st) && Shaped(r) && Unreserved(known, r.addr, r.size)
      modifies tracker.tree`plan, tracker.tree.anchor`root, r.node
      modifies tracker.Tracked()`kids, tracker.Tracked()`parent, tracker.Tracked()`height
      ensures KnownBut(r) && tracker.Tracked() == old(tracker.Tracked()) + {r.node} && Linked({}) && Counted()
      ensures (forall s :: s in view ==> s.Roots() <= view[s].parts && s.Parts() == view[s].parts)
      ensures (forall s {:trigger view[s]} :: s in view ==> Seen(s, view[s])) && Seen(r, st)
    {
      hide Linked, KnownBut, Known, Counted, Tracker.Valid, Reservation.Valid, Reservation.Live, AllParts, Unreserved;
      PartsOutside({});
      forall s | s in view ensures view[s].parts <= AllParts(view) {
        PartsIn(view, s);
      }
      Enroll(r);
    }

    method Admit(r: Reservation, ghost st: Status)
      requires Valid() && Stranger(r, st) && Seen(r, st) && Shaped(r) && Unreserved(known, r.addr, r.size)
      modifies tracker.tree`plan, tracker.tree.anchor`root, r.node
      modifies tracker.Tracked()`kids, tracker.Tracked()`parent, tracker.Tracked()`height
      ensures Halfway(r, st) && tracker.Tracked() == old(tracker.Tracked()) + {r.node}
    {
      hide Linked, KnownBut, Known, Counted, Seen, AllParts, Unreserved, Shaped;
      SeparateMore(view, Outer(), r, st, {r, r.node});
      EnrollBeside(r, st);
      assert Outer() + {r} == old(Outer()) + {r, r.node};
    }

    lemma NewLive(was: View, r: Reservation, st: Status)
      requires r !in was && st.live == {}
      ensures AllLive(was[r := st]) == AllLive(was)
      ensures AllParts(was[r := st]) <= AllParts(was) + st.parts
    {
      var view' := was[r := st];
      forall s, p | s in was && p in was[s].live ensures p in AllLive(view') {
        assert s in view' && p in view'[s].live;
      }
      forall o | o in AllParts(view') ensures o in AllParts(was) + st.parts {
        var s: Reservation :| s in view' && o in view'[s].parts;
        if s != r { PartsIn(was, s); }
      }
    }

    /** Making a reservation changes nothing of the allocator. */
    method MakeBeside(i: nat, base: nat, strategyOk: bool) returns (r: Reservation?)
      requires Valid() && i < NUM_ARENAS && base > 0
      ensures Valid() && Outer() + AllParts(view) == old(Outer() + AllParts(view))
      ensures r == null <==> !strategyOk
      ensures r != null ==>
                && fresh(r) && fresh(r.node) && r.Valid() && r.Live() == {} && fresh(r.Parts())
                && {r, r.node} !! r.Parts() && Shaped(r) && r.arenaIdx == i && r.addr == base && r.next == null
    {
      hide Linked, Known, Counted, Tracker.Valid, Reservation.Valid, Reservation.Live;
      r := MakeReservation(i, base, strategyOk);
    }

    method MakeStranger(i: nat, base: nat, strategyOk: bool) returns (r: Reservation?, ghost st: Status)
      requires Valid() && i < NUM_ARENAS && base > 0
      ensures Valid()
      ensures r == null <==> !strategyOk
      ensures r != null ==>
                && Stranger(r, st) && Seen(r, st) && Shaped(r) && fresh({r, r.node}) && fresh(st.parts) && st.live == {}
                && r.arenaIdx == i && r.addr == base && r.next == null
    {
      hide Ready, Seen, Shaped, Reservation.Valid, Reservation.Live;
      assert known <= Outer();
      r := MakeBeside(i, base, strategyOk);
      st := Status({}, {});
      if r != null {
        st := Status(r.Parts(), {});
        MadeSeen(r, st);
      }
    }

    /** A reservation that is new was made at `base`, with the size given. */
    twostate predicate Reserved(base: nat, size: nat)
      reads `known
    {
      forall r :: r in known && r !in old(known) ==> base != 0 && r.addr == base && r.size == size
    }

    /** A reservation is made, tracked and counted, but not yet on a list. */
    method CreateReservation(i: nat, world: World) returns (r: Reservation?, ghost added: set<object>)
      requires Valid() && i < NUM_ARENAS
      requires world.base != 0 ==> Unreserved(known, world.base, ARENA_INFO_TABLE[i].reservationSize)
      modifies `known, `view, `made, `totalVaSize, tracker.tree`plan, tracker.tree.anchor`root
      modifies tracker.Tracked()`kids, tracker.Tracked()`parent, tracker.Tracked()`height
      ensures r == null <==> !world.reservationOk || world.base == 0 || !world.strategyOk
      ensures fresh(added)
      ensures r == null ==> Valid() && unchanged(this) && Region() == old(Region())
      ensures Reserved(world.base, ARENA_INFO_TABLE[i].reservationSize)
      ensures r != null ==>
                && Ready({r}) && fresh(r) && r !in old(known) && known == old(known) + {r}
                && view.Keys == known && view == old(view)[r := view[r]] && view[r].live == {}
                && Shaped(r) && r.arenaIdx == i && r.addr == world.base
                && r.size == ARENA_INFO_TABLE[i].reservationSize && Region() <= old(Region()) + added
                && tracker.Tracked() == old(tracker.Tracked()) + {r.node}
                && made == old(made) + [r] && totalVaSize == old(totalVaSize) + r.size
                && AllLive(view) == AllLive(old(view)) && unchanged(`lists, `usedVaSize)
    {
      hide Linked, Known, Counted, Tracker.Valid, Seen, Separate, AllLive, AllParts, Ready, Unreserved;
      r, added := null, {};
      if !world.reservationOk || world.base == 0 {
        return;
      }
      ghost var st;
      r, st := MakeStranger(i, world.base, world.strategyOk);
      if r == null {
        return;
      }
      added := st.parts + {r, r.node};
      ghost var was := view;
      Admit(r, st);
      Enlist(r, st);
      NewLive(was, r, st);
    }

    lemma MadeSeen(r: Reservation, st: Status)
      requires r.Valid() && r.Live() == {} && st == Status(r.Parts(), {})
      ensures Seen(r, st)
    {
      r.RootsInParts();
    }

    /** `r` becomes the head of the list of arena `i`. */
    method LinkHead(r: Reservation, i: nat)
      requires Linked({r}) && r in known && i < NUM_ARENAS && r.arenaIdx == i
      modifies `lists, r`next, arenas`reservationHead
      ensures Linked({}) && lists == old(lists)[i := [r] + old(lists)[i]]
    {
      assert ArenaOk(i);
      r.next := arenas[i].reservationHead;
      arenas[i].reservationHead := r;
      ghost var list := lists[i];
      lists := lists[i := [r] + list];
      forall j: nat | j < NUM_ARENAS ensures ArenaOk(j) {
        assert old(ArenaOk(j));
        assert forall k :: 0 <= k < |old(lists)[j]| ==> old(lists)[j][k] in old(lists)[j];
      }
      assert lists[i][0] == r;
      forall s | s in known && s != r ensures s.arenaIdx < NUM_ARENAS && s in lists[s.arenaIdx] {
        assert s in old(lists)[s.arenaIdx];
      }
    }

    lemma ArenaOf(r: Reservation, pending: set<Reservation>)
      requires Ready(pending) && r in known
      ensures r.arenaIdx < NUM_ARENAS == |arenas| == |lists| && r in view
    {
      assert Mine(r);
    }

    /** The new reservation becomes the head of its arena's list. */
    method Push(r: Reservation)
      requires Ready({r}) && r in known && r.arenaIdx < |lists|
      modifies `lists, r`next, arenas`reservationHead
      ensures Valid() && lists == old(lists)[r.arenaIdx := [r] + old(lists)[r.arenaIdx]] && Region() == old(Region())
    {
      hide Known, Counted, Reservation.Valid, Reservation.Live, AllParts, Tracker.Valid;
      ArenaOf(r, {r});
      LinkHead(r, r.arenaIdx);
      Gather({});
    }

    ghost function Ledger(): Books
      reads `known, `lists, `made, `totalVaSize, `view
    {
      Books(known, lists, made, totalVaSize, view)
    }

    /** The first block of a new reservation starts it; then it becomes the head of the list. */
    method AllocateFromHead(r: Reservation, size: nat, blockOk: bool) returns (addr: nat, ghost added: set<object>)
      requires Ready({r}) && r in known && InClass(r.arenaIdx, size) && r in view && view[r].live == {}
      modifies `view, `lists, r`next, arenas`reservationHead, AllParts(view)
      ensures Valid() && fresh(added) && Region() <= old(Region()) + added
      ensures unchanged(`known, `made, `totalVaSize, `usedVaSize)
      ensures Allocated(r.arenaIdx, size, addr)
      ensures r.arenaIdx < |old(lists)| && lists == old(lists)[r.arenaIdx := [r] + old(lists)[r.arenaIdx]]
      ensures r in old(view) && r in view && view == old(view)[r := view[r]]
      ensures addr == if Takes(r, size, blockOk) then r.addr else 0
      ensures view[r].live == if addr == 0 then {} else {(addr, Rounded(r.arenaIdx, size))}
    {
      hide Ready, AllParts, AllLive, Reservation.Room, Reservation.Best, Takes;
      ArenaOf(r, {r});
      ClassServes(r, size, {r});
      addr, added := AllocateFromReservation(r, size, blockOk, {r});
      UnusedTakes(r, size, blockOk, addr);
      Push(r);
    }

    /** Room is made in a new reservation, which then becomes the head of the list. */
    method AllocateFromNew(i: nat, size: nat, world: World, attempts: nat)
      returns (addr: nat, ghost made': Reservation?, ghost added: set<object>)
      requires Valid() && i < NUM_ARENAS && InClass(i, size)
      requires world.base != 0 ==> Unreserved(known, world.base, ARENA_INFO_TABLE[i].reservationSize)
      modifies Region()
      ensures Valid() && fresh(added) && Region() <= old(Region()) + added && unchanged(`usedVaSize)
      ensures Allocated(i, size, addr)
      ensures old(made) <= made && old(known) <= known
      ensures Reserved(world.base, ARENA_INFO_TABLE[i].reservationSize)
      ensures !MayMake(world) ==>
                && made' == null && addr == 0 && SameLive(view, old(view))
                && unchanged(`known, `lists, `made, `totalVaSize)
      ensures MayMake(world) ==>
                && made' != null
                && Created(made', old(Ledger()), Ledger(), i, size, world, world.blockOk(attempts), addr)
      ensures MayMake(world) && world.blockOk(attempts) && size <= ARENA_INFO_TABLE[i].reservationSize ==> addr != 0
    {
      hide Ready, InClass, AllParts, AllLive, Shaped, Rounded, ServedFresh, SameLive;
      SameLiveHere(view);
      addr, added := 0, {};
      var r;
      r, added := CreateReservation(i, world);
      made' := r;
      if r == null {
        return;
      }
      ghost var mid, more := view, {};
      addr, more := AllocateFromHead(r, size, world.blockOk(attempts));
      added := added + more;
      FreshServed(r, old(view), mid, view, size, world.blockOk(attempts), (addr, Rounded(i, size)));
    }

    /** The list of the size class is tried first, and then a new reservation, if nothing on the
        list has room. */
    method AllocateFromArena(i: nat, size: nat, world: World) returns (addr: nat, ghost added: set<object>)
      requires Valid() && i < NUM_ARENAS && InClass(i, size)
      requires world.base != 0 ==> Unreserved(known, world.base, ARENA_INFO_TABLE[i].reservationSize)
      modifies Region()
      ensures Valid() && fresh(added) && Region() <= old(Region()) + added && unchanged(`usedVaSize)
      ensures Allocated(i, size, addr) && old(made) <= made && old(known) <= known
      ensures Reserved(world.base, ARENA_INFO_TABLE[i].reservationSize)
      ensures Outcome(old(Ledger()), Ledger(), i, size, world, addr)
      ensures world.Generous() && size <= ARENA_INFO_TABLE[i].reservationSize ==> addr != 0
    {
      hide Ready, InClass, AllParts, AllLive, Full, SameLive, ServedFromList, ServedFresh, Shaped;
      PartsOutside({});
      var attempts;
      addr, attempts, added := AllocateFromList(i, size, world.blockOk);
      if addr == 0 {
        ghost var before, made', more := view, null, {};
        addr, made', more := AllocateFromNew(i, size, world, attempts);
        added := added + more;
        Composed(old(view), before, view);
        if made' != null {
          ServedFreshStill(made', old(view), before, view, size, world.blockOk(attempts), (addr, Rounded(i, size)));
          assert Created(made', old(Ledger()), Ledger(), i, size, world, world.blockOk(attempts), addr);
        }
      }
    }

    /** The size asked for is added to the count of used bytes, in 64 bits. */
    method Account(size: nat)
      requires Valid() && size < Pow2(63)
      modifies `usedVaSize
      ensures Valid() && Region() == old(Region())
      ensures usedVaSize == if old(usedVaSize) + size < 0x1_0000_0000_0000_0000 then old(usedVaSize) + size
                            else old(usedVaSize) + size - 0x1_0000_0000_0000_0000
    {
      hide Linked, Known, Reservation.Valid, Reservation.Live, Tracker.Valid, Pow2;
      PartsOutside({});
      UsedBound();
      CountUp(usedVaSize, size);
      usedVaSize := (usedVaSize + size) % TWO_64;
    }

    /** No block is larger than the largest reservation. */
    lemma LiveFits()
      requires Valid()
      ensures forall p :: p in AllLive(view) ==> p.1 <= PHYSICAL_MEMORY_SIZE
    {
      hide Linked, Counted, Separate, Reservation.Valid, Reservation.Live, Known;
      forall p | p in AllLive(view) ensures p.1 <= PHYSICAL_MEMORY_SIZE {
        var r: Reservation :| r in view && p in view[r].live;
        assert Seen(r, view[r]);
        r.LiveIsSound();
        SizeOf(r);
      }
    }

    lemma SizeOf(r: Reservation)
      requires Valid() && r in known
      ensures r.arenaIdx < NUM_ARENAS && r.size == ARENA_INFO_TABLE[r.arenaIdx].reservationSize <= PHYSICAL_MEMORY_SIZE
    {
      hide Linked, Counted, Seen, Separate, Tracker.Valid;
      assert Mine(r);
    }

    method FindClass(size: nat) returns (i: nat)
      requires Valid() && size < Pow2(63)
      ensures Valid() && InClass(i, size) && i < NUM_ARENAS
      ensures size <= PHYSICAL_MEMORY_SIZE ==> size <= ARENA_INFO_TABLE[i].reservationSize
      ensures Rounded(i, size) <= PHYSICAL_MEMORY_SIZE ==> size <= PHYSICAL_MEMORY_SIZE
    {
      hide Linked, Known, Counted, Seen, Separate, AllLive, Pow2;
      PowerIsLarge();
      i := GetArenaIdxForSize(size);
    }

    /** A block for a request, from the size class of the request.  If memory and ranges can be
        had, there is one exactly for the sizes up to that of the largest reservation. */
    method Alloc(size: nat, world: World) returns (addr: nat, ghost i: nat, ghost added: set<object>)
      requires Valid() && size < Pow2(63)
      requires MayReserve(known, size, world.base)
      modifies Region()
      ensures Valid() && fresh(added) && Region() <= old(Region()) + added
      ensures i < NUM_ARENAS && InClass(i, size) && Allocated(i, size, addr)
      ensures old(made) <= made && old(known) <= known
      ensures Reserved(world.base, ARENA_INFO_TABLE[i].reservationSize)
      ensures Outcome(old(Ledger()), Ledger(), i, size, world, addr)
      ensures addr != 0 ==>
                AllLive(view) == AllLive(old(view)) + {(addr, if size <= 512 then 512 else if size <= 1024 then 1024
                                                              else if size <= 2048 then 2048 else size)}
      ensures usedVaSize == if addr == 0 then old(usedVaSize)
                            else if old(usedVaSize) + size < 0x1_0000_0000_0000_0000 then old(usedVaSize) + size
                            else old(usedVaSize) + size - 0x1_0000_0000_0000_0000
      ensures world.Generous() ==> (addr != 0 <==> size <= 0x8000_0000)
    {
      hide Ready, AllParts, AllLive, Pow2, InClass, Outcome;
      var idx := FindClass(size);
      i := idx;
      addr, added := AllocateFromArena(idx, size, world);
      if addr != 0 {
        LiveFits();
        RoundedIs(i, size);
        Account(size);
      }
    }

    // ----- giving blocks back

    /** The tracker leads from an address to the one reservation that contains it. */
    method Route(addr: nat) returns (r: Reservation?)
      requires Valid()
      ensures Valid() && view.Keys == known
      ensures r != null ==> r in known && Spans(r, addr)
      ensures forall s :: s in known && Spans(s, addr) ==> s == r
    {
      hide Linked, Counted, Seen, Separate, Tracker.Valid;
      var node := tracker.FindNode(addr);
      r := null;
      if node != null {
        assert Owned(node);
        r := node.value as Reservation;
        assert Mine(r);
      }
      forall s | s in known && Spans(s, addr) ensures s == r {
        assert Mine(s);
      }
    }

    /** What a caller may free: of a slab, only an address in a live block. */
    ghost predicate MayFree(addr: nat)
      requires view.Keys == known
      reads this`known, this`view
    {
      forall r :: r in known && Spans(r, addr) ==> r.Freeable(view[r].live, addr)
    }

    method GiveBack(r: Reservation, addr: nat)
      requires Valid() && r in view && Spans(r, addr)
      modifies r.Parts()
      ensures ReadyBut(r, {}) && unchanged(this) && r.Roots() <= view[r].parts && r.Parts() == view[r].parts
      ensures r.Valid() <==> r.Freeable(view[r].live, addr)
      ensures r.Valid() ==> Seen(r, Status(view[r].parts, Released(view[r].live, r.strategy.SlabOf?, addr)))
    {
      hide Linked, Known, Counted, Tracker.Valid, Reservation.Valid, Reservation.Live, Reservation.Freeable, AllParts;
      PartsIn(view, r);
      r.Free(addr);
    }

    /** Only one reservation has a say in it. */
    lemma MayFreeHere(r: Reservation, addr: nat)
      requires Valid() && r in known && Spans(r, addr)
      ensures r in view && (MayFree(addr) <==> r.Freeable(view[r].live, addr))
    {
      hide Linked, Counted, Seen, Separate, Reservation.Freeable;
      forall s | s in known && Spans(s, addr) ensures s == r {
        if s != r { RangesApart(r, s); }
      }
    }

    method Release(r: Reservation, addr: nat)
      requires Valid() && r in view && Spans(r, addr)
      modifies `view, AllParts(view)
      ensures unchanged(`lists, `known, `made, `totalVaSize, `usedVaSize) && view.Keys == known
      ensures old(MayFree(addr)) ==>
                && Valid() && Region() == old(Region())
                && var st := old(view)[r];
                view == old(view)[r := Status(st.parts, Released(st.live, r.strategy.SlabOf?, addr))]
      ensures !old(MayFree(addr)) ==> !r.Valid() && this !in r.Roots() + r.Parts()
    {
      hide Linked, Known, Counted, Seen, AllParts, AllLive, MayFree;
      PartsIn(view, r);
      PartsOutside({});
      MayFreeHere(r, addr);
      ghost var was, may := view, MayFree(addr);
      ghost var st := Status(view[r].parts, Released(view[r].live, r.strategy.SlabOf?, addr));
      GiveBack(r, addr);
      if may {
        Record(r, st, {});
        PartsSame(was, r, st);
      }
    }

    /** The size of the reservation is taken off the count of used bytes, in 64 bits, whether
        all is well or the reservation is not. */
    method Settle(r: Reservation)
      requires usedVaSize < TWO_64 && r.size <= PHYSICAL_MEMORY_SIZE && (Valid() || this !in r.Roots() + r.Parts())
      modifies `usedVaSize
      ensures usedVaSize == if old(usedVaSize) >= r.size then old(usedVaSize) - r.size
                            else old(usedVaSize) + 0x1_0000_0000_0000_0000 - r.size
      ensures old(Valid()) ==> Valid() && Region() == old(Region())
      ensures !old(Valid()) ==> r.Valid() == old(r.Valid())
    {
      hide Linked, Known, Reservation.Valid, Reservation.Live, Tracker.Valid;
      if Valid() {
        PartsOutside({});
      }
      CountDown(usedVaSize, r.size);
      usedVaSize := (usedVaSize - r.size) % TWO_64;
    }

    lemma Unsound(r: Reservation)
      requires view.Keys == known && r in known && !r.Valid()
      ensures !Valid()
    {
      hide Linked, Known, Counted, Separate, Reservation.Valid, Reservation.Live;
      assert !Seen(r, view[r]);
    }

    /** A live block belongs to the reservation that contains its start. */
    lemma HomeOf(addr: nat, held: nat) returns (r: Reservation)
      requires Valid() && (addr, held) in AllLive(view)
      ensures r in view && Spans(r, addr) && (addr, held) in view[r].live && held > 0
      ensures forall s :: s in known && Spans(s, addr) ==> s == r
    {
      hide Linked, Counted, Known, Separate;
      r :| r in view && (addr, held) in view[r].live;
      assert Seen(r, view[r]);
      r.LiveIsSound();
      forall s | s in known && Spans(s, addr) ensures s == r {
        if s != r { RangesApart(r, s); }
      }
    }

    lemma LiveMayBeFreed(addr: nat, held: nat)
      requires Valid() && (addr, held) in AllLive(view)
      ensures MayFree(addr)
    {
      hide Ready;
      var r := HomeOf(addr, held);
      assert Hits((addr, held), true, addr);
    }

    /** Giving a live block back takes just that block away. */
    lemma ReleasedOne(r: Reservation, addr: nat, held: nat)
      requires Valid() && r in view && (addr, held) in view[r].live
      ensures Released(view[r].live, r.strategy.SlabOf?, addr) == view[r].live - {(addr, held)}
    {
      hide Linked, Counted, Known, Separate, Reservation.Valid, Reservation.Live;
      assert Seen(r, view[r]);
      r.LiveIsSound();
      forall p | p in view[r].live ensures Hits(p, r.strategy.SlabOf?, addr) <==> p == (addr, held) {
        assert p != (addr, held) ==> Apart(p, (addr, held));
      }
    }

    /** The block that the address names is given back to its reservation; no other
        reservation changes.  The count of used bytes goes down by the size of the whole
        reservation.  The state is sound afterwards exactly if the address may be freed. */
    method Free(addr: nat)
      requires Valid()
      modifies `view, `usedVaSize, AllParts(view)
      ensures Valid() <==> old(MayFree(addr))
      ensures unchanged(`lists, `known, `made, `totalVaSize) && view.Keys == known
      ensures old(MayFree(addr)) ==> Region() == old(Region())
      ensures old(MayFree(addr)) ==> forall r :: r in known ==>
                var live := old(view)[r].live;
                view[r].live == if Spans(r, addr) then Released(live, r.strategy.SlabOf?, addr) else live
      ensures forall r :: r in known && Spans(r, addr) ==>
                usedVaSize == if old(usedVaSize) >= r.size then old(usedVaSize) - r.size
                              else old(usedVaSize) + 0x1_0000_0000_0000_0000 - r.size
      ensures (forall r :: r in known ==> !Spans(r, addr)) ==> usedVaSize == old(usedVaSize)
      ensures forall held :: (addr, held) in AllLive(old(view)) ==> AllLive(view) == AllLive(old(view)) - {(addr, held)}
    {
      hide Ready, AllParts, AllLive, MayFree;
      var r := Route(addr);
      forall held | (addr, held) in AllLive(view) ensures r != null {
        var s := HomeOf(addr, held);
      }
      if r != null {
        ghost var was := view;
        ghost var st := Status(view[r].parts, Released(view[r].live, r.strategy.SlabOf?, addr));
        forall held | (addr, held) in AllLive(view) ensures AllLive(view[r := st]) == AllLive(view) - {(addr, held)} {
          AllLiveAfter(r, addr, held);
        }
        ghost var may := MayFree(addr);
        forall held | (addr, held) in AllLive(view) ensures may {
          LiveMayBeFreed(addr, held);
        }
        UsedBound();
        SizeOf(r);
        Release(r, addr);
        if !may {
          Unsound(r);
        }
        Settle(r);
        if !may {
          Unsound(r);
        }
      } else {
        Nowhere(addr);
      }
    }

    lemma Nowhere(addr: nat)
      requires view.Keys == known && forall r :: r in known ==> !Spans(r, addr)
      ensures MayFree(addr)
    {
    }

    lemma AllLiveAfter(r: Reservation, addr: nat, held: nat)
      requires Valid() && r in known && (addr, held) in AllLive(view) && Spans(r, addr)
      ensures var st := Status(view[r].parts, Released(view[r].live, r.strategy.SlabOf?, addr));
              AllLive(view[r := st]) == AllLive(view) - {(addr, held)}
    {
      hide Ready, AllLive;
      var s := HomeOf(addr, held);
      ReleasedOne(r, addr, held);
      AllLiveApart({});
      LiveShrinks(view, r, Status(view[r].parts, Released(view[r].live, r.strategy.SlabOf?, addr)), (addr, held));
    }

    // ----- whole runs

    static method MakeArenas() returns (arenas: seq<Arena>)
      ensures |arenas| == NUM_ARENAS && forall i, j :: 0 <= i < j < NUM_ARENAS ==> arenas[i] != arenas[j]
      ensures forall i: nat :: i < NUM_ARENAS ==>
                && arenas[i].idx == i && arenas[i].info == ARENA_INFO_TABLE[i] && arenas[i].isSlab == IsSlabIdx(i)
                && arenas[i].reservationHead == null && fresh(arenas[i])
    {
      arenas := [];
      for k := 0 to NUM_ARENAS
        invariant |arenas| == k && forall i, j :: 0 <= i < j < k ==> arenas[i] != arenas[j]
        invariant forall i: nat :: i < k ==>
                    && arenas[i].idx == i && arenas[i].info == ARENA_INFO_TABLE[i] && arenas[i].isSlab == IsSlabIdx(i)
                    && arenas[i].reservationHead == null && fresh(arenas[i])
      {
        var arena := new Arena(k);
        arenas := arenas + [arena];
      }
    }

    /** Null if memory is short. */
    static method Init(implOk: bool) returns (impl: Allocator?)
      ensures impl == null <==> !implOk
      ensures impl != null ==>
                && impl.Valid() && fresh(impl.Region())
                && AllLive(impl.view) == {} && impl.made == [] && impl.totalVaSize == 0 && impl.usedVaSize == 0
                && impl.tracker.lo == 0 && impl.tracker.afterHi == 0x200_0000_0000_0000
    {
      hide Tracker.Valid, Allocator.Ready;
      if !implOk {
        return null;
      }
      var tracker := new Tracker(0, MAX_VA);
      var arenas := MakeArenas();
      impl := new Allocator(arenas, tracker);
    }

    /** A block of size class `i` may be freed; its reservation has the size of that class. */
    lemma HomeClass(addr: nat, held: nat, i: nat) returns (r: Reservation)
      requires Valid() && exists r :: r in view && r.arenaIdx == i && (addr, held) in view[r].live
      ensures i < NUM_ARENAS && (addr, held) in AllLive(view) && MayFree(addr)
      ensures r in known && Spans(r, addr) && r.size == ARENA_INFO_TABLE[i].reservationSize <= PHYSICAL_MEMORY_SIZE
    {
      hide Linked, Counted, Known, Seen, Separate, MayFree;
      var s :| s in view && s.arenaIdx == i && (addr, held) in view[s].live;
      r := HomeOf(addr, held);
      AllLiveApart({});
      SizeOf(r);
      LiveMayBeFreed(addr, held);
    }

    /** Freeing a live block of size class `i`. */
    method FreeLive(addr: nat, ghost held: nat, ghost i: nat)
      requires Valid() && exists r :: r in view && r.arenaIdx == i && (addr, held) in view[r].live
      modifies `view, `usedVaSize, AllParts(view)
      ensures Valid() && Region() == old(Region()) && AllLive(view) == AllLive(old(view)) - {(addr, held)}
      ensures i < NUM_ARENAS
      ensures var reserved := ARENA_INFO_TABLE[i].reservationSize;
              usedVaSize == if old(usedVaSize) >= reserved then old(usedVaSize) - reserved
                            else old(usedVaSize) + 0x1_0000_0000_0000_0000 - reserved
    {
      hide Ready, AllParts, AllLive, MayFree;
      ghost var r := HomeClass(addr, held, i);
      Free(addr);
    }

    lemma UsedBound()
      requires Valid()
      ensures usedVaSize < TWO_64
    {
      hide Linked, Known, Seen, Separate;
    }

    /** Giving back the block just handed out restores the live blocks, but the count of used
        bytes only if the size asked for is that of a whole reservation. */
    method AllocThenFree(size: nat, world: World) returns (addr: nat, ghost i: nat)
      requires Valid() && size < Pow2(63)
      requires MayReserve(known, size, world.base)
      modifies Region()
      ensures Valid() && AllLive(view) == AllLive(old(view))
      ensures i < NUM_ARENAS && InClass(i, size)
      ensures usedVaSize == old(usedVaSize) <==> addr == 0 || size == ARENA_INFO_TABLE[i].reservationSize
    {
      hide Ready, AllParts, AllLive, MayFree, MayReserve, Pow2, InClass, Rounded;
      UsedBound();
      ghost var added;
      addr, i, added := Alloc(size, world);
      if addr != 0 {
        ghost var up := usedVaSize;
        FreeLive(addr, Rounded(i, size), i);
        CountBack(old(usedVaSize), up, usedVaSize, size, i);
      }
    }

    lemma EmptyIsUnreserved(base: nat, size: nat)
      requires Known() && base + size <= MAX_VA
      ensures Unreserved(known, base, size)
              <==> forall n :: n in tracker.Tracked() ==> !Overlaps(n.key, base, base + size)
    {
      forall r | r in known ensures r.node in tracker.Tracked() && r.node.key == AvlNodes.Span(r.addr, r.size) {
        assert Mine(r);
      }
      forall n | n in tracker.Tracked()
        ensures exists r :: r in known && n.key == AvlNodes.Span(r.addr, r.size)
      {
        assert Owned(n);
        assert Mine(n.value as Reservation);
      }
    }

    /** The system reserves no range twice, and none that the tracker has no room for. */
    method Reservable(size: nat, world: World) returns (w: World)
      requires Valid() && size < Pow2(63)
      ensures Valid() && MayReserve(known, size, w.base)
      ensures w == world || w == world.(base := 0)
      ensures MayReserve(known, size, world.base) ==> w == world
    {
      hide Linked, Counted, Seen, Separate, AllLive, Pow2, Tracker.Valid;
      var i := FindClass(size);
      var reservationSize := ARENA_INFO_TABLE[i].reservationSize;
      w := world.(base := 0);
      if world.base + reservationSize <= MAX_VA {
        var empty := tracker.IsEmptyForRange(world.base, world.base + reservationSize);
        if empty {
          w := world;
        }
        EmptyIsUnreserved(world.base, reservationSize);
      }
    }

    /** The blocks whose addresses the caller holds are the live ones. */
    ghost predicate Matches(handles: seq<nat>, helds: seq<nat>)
      reads this`view
    {
      |handles| == |helds| && Spread(handles, helds) && AllLive(view) == Handed(handles, helds)
    }

    method ServeAllocate(size: nat, world: World, handles: seq<nat>, ghost helds: seq<nat>)
      returns (addr: nat, ghost held: nat, ghost added: set<object>)
      requires Valid() && Matches(handles, helds) && size < Pow2(63)
      modifies Region()
      ensures Valid() && fresh(added) && Region() <= old(Region()) + added && old(known) <= known
      ensures Matches(handles + [addr], helds + [held]) && (addr != 0 ==> Fits(size, held))
      ensures Served(Allocate(size, world), addr, old(known)) && Extended(Allocate(size, world), old(known), known)
    {
      hide Ready, AllParts, AllLive, MayReserve, Pow2, InClass, Rounded, Handed, Spread, Full, ReservationSize;
      var w := Reservable(size, world);
      ghost var i;
      addr, i, added := Alloc(size, w);
      held := Rounded(i, size);
      OneClass(i, size);
      HandedMore(handles, helds, addr, held);
    }

    method ServeRelease(k: nat, handles: seq<nat>, ghost helds: seq<nat>) returns (handles': seq<nat>)
      requires Valid() && Matches(handles, helds)
      modifies `view, `usedVaSize, AllParts(view)
      ensures Valid() && Region() == old(Region()) && unchanged(`known)
      ensures handles' == (if k < |handles| then handles[k := 0] else handles) && Matches(handles', helds)
    {
      hide Ready, AllParts, AllLive, MayFree, Spread;
      handles' := handles;
      if k < |handles| && handles[k] != 0 {
        HandedLess(handles, helds, k);
        LiveMayBeFreed(handles[k], helds[k]);
        Free(handles[k]);
        handles' := handles[k := 0];
      }
    }

    method Serve(request: Request, handles: seq<nat>, ghost helds: seq<nat>)
      returns (handles': seq<nat>, ghost answer: nat, ghost held: nat, ghost added: set<object>)
      requires Valid() && Matches(handles, helds) && (request.Allocate? ==> request.size < Pow2(63))
      modifies Region()
      ensures Valid() && fresh(added) && Region() <= old(Region()) + added && old(known) <= known
      ensures Matches(handles', helds + [held]) && Follows(request, handles, handles', answer, held)
      ensures Served(request, answer, old(known)) && Extended(request, old(known), known)
    {
      hide Ready, AllParts, AllLive, MayReserve, Pow2, Handed, Spread, Fits;
      match request {
        case Allocate(size, world) =>
          var addr;
          addr, held, added := ServeAllocate(size, world, handles, helds);
          handles', answer := handles + [addr], addr;
        case Release(k) =>
          handles' := ServeRelease(k, handles, helds);
          HandedMore(handles', helds, 0, 0);
          handles', answer, held, added := handles' + [0], 0, 0, {};
      }
    }

    /** What holds after the first requests of a run. */
    ghost predicate Ran(
        requests: seq<Request>, answers: seq<nat>, helds: seq<nat>, handles: seq<nat>, knowns: seq<set<Reservation>>)
      reads this`view, this`known
    {
      && Matches(handles, helds) && Kept(requests, answers, handles) && Answered(requests, answers, helds)
      && Traced(requests, answers, knowns) && knowns[|requests|] == known
    }

    lemma RanNone()
      requires AllLive(view) == {}
      ensures Ran([], [], [], [], [known])
    {
    }

    lemma RanMore(
        requests: seq<Request>, answers: seq<nat>, helds: seq<nat>, handles: seq<nat>, knowns: seq<set<Reservation>>,
        request: Request, answer: nat, held: nat, handles': seq<nat>)
      requires Kept(requests, answers, handles) && Answered(requests, answers, helds)
      requires Traced(requests, answers, knowns)
      requires Matches(handles', helds + [held]) && Follows(request, handles, handles', answer, held)
      requires Extended(request, knowns[|requests|], known) && Served(request, answer, knowns[|requests|])
      ensures Ran(requests + [request], answers + [answer], helds + [held], handles', knowns + [known])
    {
      hide Fits, Kept, Matches, Served, Extended;
      KeptMore(requests, answers, handles, request, answer, held, handles');
      KeptLength(requests, answers, handles);
      TracedMore(requests, answers, knowns, request, answer, known);
    }

    /** A run on a new allocator.  The caller holds exactly the blocks that were handed out and
        not given back, and nothing else is live; they cover the sizes asked for, lie in
        tracked ranges and do not overlap.  Each request is served as far as the reservations
        made before it allow; in a bountiful world all requests are that can be. */
    method ServeAll(requests: seq<Request>)
      returns (handles: seq<nat>, ghost answers: seq<nat>, ghost helds: seq<nat>, ghost knowns: seq<set<Reservation>>)
      requires Valid() && AllLive(view) == {}
      requires forall k :: 0 <= k < |requests| && requests[k].Allocate? ==> requests[k].size < Pow2(63)
      modifies Region()
      ensures Valid() && fresh(Region() - old(Region()))
      ensures Kept(requests, answers, handles) && Answered(requests, answers, helds)
      ensures Traced(requests, answers, knowns) && knowns[0] == old(known) && knowns[|requests|] == known
      ensures Bountiful(requests, old(known)) ==>
                forall k :: 0 <= k < |requests| && requests[k].Allocate? ==>
                  (answers[k] != 0 <==> requests[k].size <= 0x8000_0000)
      ensures |helds| == |handles| && AllLive(view) == Handed(handles, helds)
      ensures forall k :: 0 <= k < |answers| && answers[k] != 0 ==>
                && requests[k].Allocate?
                && var size := requests[k].size;
                helds[k] == if size <= 512 then 512 else if size <= 1024 then 1024
                            else if size <= 2048 then 2048 else size
      ensures forall k :: 0 <= k < |handles| && handles[k] != 0 ==>
                exists n :: n in tracker.Tracked() && Inside((handles[k], helds[k]), n.key)
      ensures forall j, k :: 0 <= j < k < |handles| && handles[j] != 0 && handles[k] != 0 ==>
                Apart((handles[j], helds[j]), (handles[k], helds[k]))
      ensures (forall k :: 0 <= k < |handles| ==> handles[k] == 0) ==>
                (forall r :: r in known ==> r.Valid() && r.Whole())
    {
      hide Ready, AllParts, AllLive, Pow2, Handed, Spread, Fits, Apart, Answered, Follows, Kept;
      hide Traced, Served, Extended, Bountiful;
      handles, answers, helds, knowns := [], [], [], [known];
      RanNone();
      TracedLength([], [], knowns);
      ghost var all := {};
      for n := 0 to |requests|
        invariant Valid() && fresh(all) && Region() <= old(Region()) + all
        invariant |knowns| == n + 1 && knowns[0] == old(known)
        invariant Ran(requests[..n], answers, helds, handles, knowns)
      {
        ghost var before, answer, held, added := handles, 0, 0, {};
        handles, answer, held, added := Serve(requests[n], handles, helds);
        RanMore(requests[..n], answers, helds, before, knowns, requests[n], answer, held, handles);
        assert requests[..n + 1] == requests[..n] + [requests[n]];
        answers, helds, knowns, all := answers + [answer], helds + [held], knowns + [known], all + added;
      }
      assert requests[..|requests|] == requests;
      AnsweredCovers(requests, answers, helds);
      HeldApart(handles, helds);
      TracedLength(requests, answers, knowns);
      if Bountiful(requests, knowns[0]) {
        forall k | 0 <= k < |requests| && requests[k].Allocate?
          ensures answers[k] != 0 <==> requests[k].size <= 0x8000_0000
        {
          BountifulAnswers(requests, answers, knowns, k);
        }
      }
      if forall k :: 0 <= k < |handles| ==> handles[k] == 0 {
        HandedNone(handles, helds);
        UnusedIsWhole();
      }
    }

    lemma HeldApart(handles: seq<nat>, helds: seq<nat>)
      requires Valid() && Matches(handles, helds)
      ensures forall k :: 0 <= k < |handles| && handles[k] != 0 ==>
                exists n :: n in tracker.Tracked() && Inside((handles[k], helds[k]), n.key)
      ensures forall j, k :: 0 <= j < k < |handles| && handles[j] != 0 && handles[k] != 0 ==>
                Apart((handles[j], helds[j]), (handles[k], helds[k]))
    {
      hide Ready, AllLive;
      LiveIsSound();
      forall k | 0 <= k < |handles| && handles[k] != 0 ensures (handles[k], helds[k]) in AllLive(view) {
      }
    }

    method GetTotalSize() returns (size: nat)
      requires Valid()
      ensures size == SumSizes(made)
    {
      hide Linked, Known, Seen, Separate;
      size := totalVaSize;
    }
  }
}
