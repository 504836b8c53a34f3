/** The downward allocator for guest physical memory, the MMIO window of the devices, and
    `virt_alloc`, which places a mapping and its page tables in one new memslot. */
module PhysMemAllocator {
  import opened Wrappers
  import opened PageMath
  import opened PageTableEntry
  import opened PageWalk
  import opened PageVisit
  import opened PageTableEditor
  import opened PageMapping
  import opened PageTableSize

  datatype Region = Region(start: nat, size: nat)

  /** The inclusive byte range of a memslot. */
  datatype SlotRange = SlotRange(start: nat, end: nat)

  datatype AllocError = OutOfMemory | NoMemory | Conflicts | AddFailed | MapFailed(e: MapError)

  /** `next_allocation`, and the regions handed out so far, latest last. */
  datatype State = State(next: nat, regions: seq<Region>)

  /** A request: an MMIO range, or memory whose memslot the hypervisor accepts or refuses. */
  datatype Request = Mmio(size: nat) | Memory(size: nat, accepted: bool)

  function RequestSize(q: Request): nat {
    match q
    case Mmio(size) => size
    case Memory(size, _) => PageAlign(size)
  }

  /** `next_addr` */
  function NextAddr(next: nat, last: Option<SlotRange>, size: nat): Result<nat, AllocError> {
    if next < size then Err(OutOfMemory)
    else if last.None? then Err(NoMemory)
    else if next - size < last.value.end then Err(Conflicts)
    else Ok(next - size)
  }

  /** The effect of one request; a refused memslot rolls the allocation back. */
  function Serve(s: State, last: Option<SlotRange>, q: Request): State {
    var addr := NextAddr(s.next, last, RequestSize(q));
    if addr.Err? || (q.Memory? && !q.accepted) then s
    else State(addr.value, s.regions + [Region(addr.value, RequestSize(q))])
  }

  function ServeAll(s: State, last: Option<SlotRange>, qs: seq<Request>): State {
    if qs == [] then s else Serve(ServeAll(s, last, qs[..|qs| - 1]), last, qs[|qs| - 1])
  }

  predicate DisjointRegions(a: Region, b: Region) {
    a.start + a.size <= b.start || b.start + b.size <= a.start
  }

  /** Every region is page aligned, lies below the limit and behind the last byte of the last
      memslot, and no two regions overlap. */
  ghost predicate Sound(s: State, last: Option<SlotRange>, limit: nat) {
    && s.next <= limit && s.next % PAGE_SIZE == 0
    && (forall i | 0 <= i < |s.regions| ::
          var r := s.regions[i];
          && r.start % PAGE_SIZE == 0 && s.next <= r.start && r.start + r.size <= limit
          && last.Some? && last.value.end < r.start)
    && (forall i, j | 0 <= i < j < |s.regions| :: DisjointRegions(s.regions[i], s.regions[j]))
  }

  /** The last byte of a memslot that ends at a page boundary. */
  ghost predicate PageMultiple(last: Option<SlotRange>) {
    last.Some? ==> (last.value.end + 1) % PAGE_SIZE == 0
  }

  lemma ServeKeepsSound(s: State, last: Option<SlotRange>, limit: nat, q: Request)
    requires Sound(s, last, limit) && PageMultiple(last) && RequestSize(q) % PAGE_SIZE == 0
    ensures Sound(Serve(s, last, q), last, limit)
  {
    hide RequestSize;
    var addr := NextAddr(s.next, last, RequestSize(q));
    if addr.Ok? {
      AlignedDifference(s.next, RequestSize(q));
      BehindLast(addr.value, last.value.end);
      var t := State(addr.value, s.regions + [Region(addr.value, RequestSize(q))]);
      assert forall i | 0 <= i < |s.regions| :: t.regions[i] == s.regions[i];
    }
  }

  lemma AlignedDifference(a: nat, b: nat)
    requires a % PAGE_SIZE == 0 && b % PAGE_SIZE == 0
    ensures (a - b) % PAGE_SIZE == 0
  {
  }

  /** A page boundary not below the last byte of a page lies behind it. */
  lemma BehindLast(start: nat, end: nat)
    requires start % PAGE_SIZE == 0 && (end + 1) % PAGE_SIZE == 0 && end <= start
    ensures end < start
  {
  }

  /** Any sequence of page-multiple requests, failed ones included, keeps all regions sound. */
  lemma {:induction false} ServeAllSound(limit: nat, last: Option<SlotRange>, qs: seq<Request>)
    requires limit % PAGE_SIZE == 0 && PageMultiple(last)
    requires forall i | 0 <= i < |qs| && qs[i].Mmio? :: qs[i].size % PAGE_SIZE == 0
    ensures Sound(ServeAll(State(limit, []), last, qs), last, limit)
    decreases |qs|
  {
    if qs != [] {
      ServeAllSound(limit, last, qs[..|qs| - 1]);
      ServeKeepsSound(ServeAll(State(limit, []), last, qs[..|qs| - 1]), last, limit, qs[|qs| - 1]);
    }
  }

  /** An address is forwarded to the devices if it passes the window test of
      `handle_mmio_exits`; the upper bound is the last address of the block range. */
  predicate Intercepted(block: Region, console: Region, addr: nat) {
    console.start <= addr < block.start + block.size - 1
  }

  predicate In(r: Region, addr: nat) { r.start <= addr < r.start + r.size }

  // ----- virtual allocations -----

  datatype VirtAlloc = VirtAlloc(virtStart: nat, virtOffset: nat, len: nat, prot: Prot)

  /** The length of the first `n` allocations. */
  function SumLen(allocs: seq<VirtAlloc>, n: nat): nat
    requires n <= |allocs|
  {
    if n == 0 then 0 else SumLen(allocs, n - 1) + allocs[n - 1].len
  }

  /** The allocations placed one after the other from a physical address on. */
  function Place(allocs: seq<VirtAlloc>, addr: PhysAddr): (ms: seq<MappedMemory>)
    ensures |ms| == |allocs|
  {
    seq(|allocs|, i requires 0 <= i < |allocs| =>
      var a := allocs[i];
      MappedMemory(addr.(value := addr.value + SumLen(allocs, i)), a.virtStart, a.len, a.prot))
  }

  predicate AllocAligned(a: VirtAlloc) {
    a.len % PAGE_SIZE == 0 && a.virtStart % PAGE_SIZE == 0
  }

  lemma {:induction false} SumLenAligned(allocs: seq<VirtAlloc>, n: nat)
    requires n <= |allocs| && forall i | 0 <= i < n :: AllocAligned(allocs[i])
    ensures SumLen(allocs, n) % PAGE_SIZE == 0
  {
    if n > 0 { SumLenAligned(allocs, n - 1); }
  }

  lemma {:induction false} SumLenMonotone(allocs: seq<VirtAlloc>, n: nat, k: nat)
    requires n <= k <= |allocs|
    ensures SumLen(allocs, n) <= SumLen(allocs, k)
  {
    if n < k { SumLenMonotone(allocs, n, k - 1); }
  }

  /** Placed allocations pass the checks of `map_memory` exactly when they are page aligned. */
  lemma PlacedWellFormed(allocs: seq<VirtAlloc>, addr: PhysAddr)
    requires addr.value % PAGE_SIZE == 0
    ensures WellFormed(Place(allocs, addr)) <==> forall i | 0 <= i < |allocs| :: AllocAligned(allocs[i])
  {
    var ms := Place(allocs, addr);
    if forall i | 0 <= i < |allocs| :: AllocAligned(allocs[i]) {
      forall i | 0 <= i < |ms| ensures Aligned(ms[i]) {
        SumLenAligned(allocs, i);
      }
      forall i | 0 < i < |ms| ensures Follows(ms[i - 1], ms[i]) {
        assert SumLen(allocs, i) == SumLen(allocs, i - 1) + allocs[i - 1].len;
      }
    }
    if WellFormed(ms) {
      forall i | 0 <= i < |allocs| ensures AllocAligned(allocs[i]) {
        assert Aligned(ms[i]);
      }
    }
  }

  const GIB: nat := 0x4000_0000

  /** Page-aligned, non-empty, virtually contiguous allocations inside one 1 GiB region. */
  ghost predicate Compact(allocs: seq<VirtAlloc>) {
    && |allocs| > 0
    && (forall i | 0 <= i < |allocs| :: AllocAligned(allocs[i]) && 0 < allocs[i].len < WORD)
    && (forall i | 0 <= i < |allocs| :: allocs[i].virtStart == allocs[0].virtStart + SumLen(allocs, i))
    && allocs[0].virtStart / GIB == (allocs[0].virtStart + SumLen(allocs, |allocs|) - 1) / GIB
  }

  /** First page of the allocations, and their number of pages. */
  function FirstPage(allocs: seq<VirtAlloc>): nat
    requires |allocs| > 0
  {
    allocs[0].virtStart / PAGE_SIZE % PAGE_COUNT
  }

  function PageTotal(allocs: seq<VirtAlloc>): nat { SumLen(allocs, |allocs|) / PAGE_SIZE }

  lemma GibOfPages(p: nat, t: nat)
    requires t > 0 && p * PAGE_SIZE / GIB == (p * PAGE_SIZE + t * PAGE_SIZE - 1) / GIB
    ensures p % PAGES_PER_GIB + t <= PAGES_PER_GIB
  {
    assert p * PAGE_SIZE / GIB == p / PAGES_PER_GIB;
    assert (p * PAGE_SIZE + t * PAGE_SIZE - 1) / GIB == (p + t - 1) / PAGES_PER_GIB;
  }

  /** Inside a 1 GiB region, page numbers do not wrap around. */
  lemma GibNoWrap(p: nat, o: nat, n: nat, t: nat)
    requires n > 0 && o + n <= t && p % PAGES_PER_GIB + t <= PAGES_PER_GIB
    ensures var first, start := p % PAGE_COUNT, (p + o) % PAGE_COUNT;
            && start == first + o && first + t <= PAGE_COUNT
            && first / PAGES_PER_GIB == (first + t - 1) / PAGES_PER_GIB
            && start / PAGES_PER_GIB == (start + n - 1) / PAGES_PER_GIB
  {
    var a, r := p / PAGES_PER_GIB, p % PAGES_PER_GIB;
    var b, c := a / 0x4_0000, a % 0x4_0000;
    var first := c * PAGES_PER_GIB + r;
    assert p == b * PAGE_COUNT + first && first + t <= PAGE_COUNT;
    assert p % PAGE_COUNT == first && (p + o) % PAGE_COUNT == first + o;
    assert first / PAGES_PER_GIB == c && (first + t - 1) / PAGES_PER_GIB == c;
    assert (first + o) / PAGES_PER_GIB == c && (first + o + n - 1) / PAGES_PER_GIB == c;
  }

  /** Allocation `i` of compact allocations, in pages. */
  lemma CompactJob(allocs: seq<VirtAlloc>, i: nat)
    requires Compact(allocs) && i < |allocs|
    ensures var first, t := FirstPage(allocs), PageTotal(allocs);
            var start, n := allocs[i].virtStart / PAGE_SIZE % PAGE_COUNT, allocs[i].len / PAGE_SIZE;
            && 0 < n && 0 < t && first <= start && start + n <= first + t <= PAGE_COUNT
            && first / PAGES_PER_GIB == (first + t - 1) / PAGES_PER_GIB
            && start / PAGES_PER_GIB == (start + n - 1) / PAGES_PER_GIB
  {
    hide SumLen;
    SumLenAligned(allocs, i);
    SumLenAligned(allocs, |allocs|);
    SumLenMonotone(allocs, i + 1, |allocs|);
    SumLenStep(allocs, i);
    var v, total := allocs[0].virtStart, SumLen(allocs, |allocs|);
    var p, o, n, t := v / PAGE_SIZE, SumLen(allocs, i) / PAGE_SIZE, allocs[i].len / PAGE_SIZE, total / PAGE_SIZE;
    assert AllocAligned(allocs[0]) && AllocAligned(allocs[i]);
    assert v == p * PAGE_SIZE && total == t * PAGE_SIZE;
    GibOfPages(p, t);
    assert allocs[i].virtStart / PAGE_SIZE == p + o;
    GibNoWrap(p, o, n, t);
  }

  lemma SumLenStep(allocs: seq<VirtAlloc>, i: nat)
    requires i < |allocs|
    ensures SumLen(allocs, i + 1) == SumLen(allocs, i) + allocs[i].len
  {
  }

  /** Compact allocations visit exactly their own pages. */
  lemma CompactPages(allocs: seq<VirtAlloc>, addr: PhysAddr, q: nat)
    requires Compact(allocs) && q in VisitedPages(Jobs(Place(allocs, addr)))
    ensures FirstPage(allocs) <= q <= FirstPage(allocs) + PageTotal(allocs) - 1
  {
    hide Nth, Compact, FirstPage, PageTotal;
    var jobs := Jobs(Place(allocs, addr));
    assert Visited(jobs, q);
    var i: nat, k: nat :| Visits(jobs, i, k, q);
    CompactJob(allocs, i);
    ContiguousExactly(jobs[i].start, jobs[i].count);
    assert Nth(jobs[i].start, k) == jobs[i].start + k;
  }

  /** Which pages are visited does not depend on where the allocations are placed. */
  lemma PlacePages(allocs: seq<VirtAlloc>, a: PhysAddr, b: PhysAddr)
    ensures VisitedPages(Jobs(Place(allocs, a))) == VisitedPages(Jobs(Place(allocs, b)))
  {
    hide Nth;
    var ja, jb := Jobs(Place(allocs, a)), Jobs(Place(allocs, b));
    forall i: nat | i < |allocs| ensures ja[i].start == jb[i].start && Total(ja[i]) == Total(jb[i]) {}
    forall q: nat ensures Visited(ja, q) <==> Visited(jb, q) {
      if Visited(ja, q) {
        var i: nat, k: nat :| Visits(ja, i, k, q);
        assert Visits(jb, i, k, q);
      }
      if Visited(jb, q) {
        var i: nat, k: nat :| Visits(jb, i, k, q);
        assert Visits(ja, i, k, q);
      }
    }
  }

  lemma PlacedWords(allocs: seq<VirtAlloc>, addr: PhysAddr)
    requires forall i | 0 <= i < |allocs| :: allocs[i].len < WORD
    ensures forall i | 0 <= i < |allocs| :: Place(allocs, addr)[i].len < WORD
  {
  }

  lemma PlacedBase(allocs: seq<VirtAlloc>, addr: PhysAddr)
    requires |allocs| > 0
    ensures TableBase(Place(allocs, addr)) == (addr.value + SumLen(allocs, |allocs|)) / PAGE_SIZE
  {
    SumLenStep(allocs, |allocs| - 1);
  }

  /** The bytes of the memslot that `virt_alloc` asks for. */
  function SlotSize(allocs: seq<VirtAlloc>): nat {
    var len := SumLen(allocs, |allocs|);
    PageAlign(len + PAGE_SIZE * PackedTables(Ceil(len, PAGE_SIZE), LEVEL_COUNT))
  }

  /** The pages that the allocations take; it does not matter where they are placed. */
  ghost function Wanted(allocs: seq<VirtAlloc>): iset<nat> {
    VisitedPages(Jobs(Place(allocs, PhysAddr(0, 0))))
  }

  /** The tables that the memslot has room for. */
  function Estimated(allocs: seq<VirtAlloc>): nat {
    PackedTables(Ceil(SumLen(allocs, |allocs|), PAGE_SIZE), LEVEL_COUNT)
  }

  /** All tables that were added lie in the memslot. */
  ghost predicate Housed(mem: Memory, m: Memory, end: nat) {
    forall f | f in m && f !in mem :: (f + 1) * PAGE_SIZE <= end
  }

  /** All tables that were added begin at or behind `start`. */
  ghost predicate TablesFrom(mem: Memory, m: Memory, start: nat) {
    forall f | f in m && f !in mem :: start <= f * PAGE_SIZE
  }

  lemma {:induction false} SlotEnd(allocs: seq<VirtAlloc>)
    requires forall i | 0 <= i < |allocs| :: AllocAligned(allocs[i])
    ensures SumLen(allocs, |allocs|) % PAGE_SIZE == 0
    ensures SlotSize(allocs) == SumLen(allocs, |allocs|) + PAGE_SIZE * Estimated(allocs)
  {
    hide SumLen, PackedTables;
    SumLenAligned(allocs, |allocs|);
    AlignedSum(SumLen(allocs, |allocs|), Estimated(allocs));
  }

  lemma AlignedSum(a: nat, n: nat)
    requires a % PAGE_SIZE == 0
    ensures PageAlign(a + PAGE_SIZE * n) == a + PAGE_SIZE * n
  {
    var k := a / PAGE_SIZE;
    assert a + PAGE_SIZE * n == (k + n) * PAGE_SIZE;
  }

  /** For any list of page-aligned allocations, gaps or not: the new tables stay inside the memslot
      if and only if there are no more slots to fill than the estimate for the total length. */
  lemma {:induction false} HousedExactly(allocs: seq<VirtAlloc>, addr: PhysAddr, mem: Memory, m: Memory, root: nat,
                      slots: seq<(nat, nat)>)
    requires |allocs| > 0 && addr.value % PAGE_SIZE == 0 && WellFormed(Place(allocs, addr))
    requires var ms := Place(allocs, addr);
             && Hung(m, root, VisitedPages(Jobs(ms)), TableBase(ms), slots) && Grown(mem, m, root, slots)
             && TablesUnder(mem, root, TableBase(ms)) && MapsExactly(mem, m, root, Jobs(ms))
             && (forall f | f in mem :: f < TableBase(ms))
             && (forall f | f in m :: f in mem || TableBase(ms) <= f < TableBase(ms) + |slots|)
    ensures Housed(mem, m, addr.value + SlotSize(allocs))
            <==> |NewSlots(mem, root, Wanted(allocs))| <= Estimated(allocs)
  {
    hide Hung, Grown, TablesUnder, NewSlots, MapsExactly, VisitedPages, Place, SumLen, Walk, Jobs, TableBase, SlotSize,
         Estimated, WellFormed;
    var ms := Place(allocs, addr);
    var pages, base, end := VisitedPages(Jobs(ms)), TableBase(ms), addr.value + SlotSize(allocs);
    PlacePages(allocs, PhysAddr(0, 0), addr);
    PlacedWellFormed(allocs, addr);
    PlacedBase(allocs, addr);
    SlotEnd(allocs);
    MappedLeaves(mem, m, root, Jobs(ms));
    NewTablesCount(mem, m, root, pages, base, slots);
    if |slots| > Estimated(allocs) {
      NewTableThere(m, root, pages, base, slots, |slots| - 1);
    }
  }

  lemma {:induction false} MappedLeaves(mem: Memory, m: Memory, root: nat, jobs: seq<Job>)
    requires MapsExactly(mem, m, root, jobs)
    ensures forall q | q in VisitedPages(jobs) :: Walk(m, root, 4, q).Leaf? && Walk(m, root, 4, q).level == 3
  {
    hide Walk, Nth;
    forall q | q in VisitedPages(jobs) ensures Walk(m, root, 4, q).Leaf? && Walk(m, root, 4, q).level == 3 {
      assert Visited(jobs, q);
      var i: nat, k: nat :| Visits(jobs, i, k, q);
    }
  }

  /** Three one-page allocations in three 2 MiB regions of the kernel image range. */
  function Sparse(): seq<VirtAlloc> {
    var v := 0xFFFF_FFFF_8000_0000;
    [VirtAlloc(v, 0, PAGE_SIZE, Prot(true, true)), VirtAlloc(v + 0x20_0000, 0, PAGE_SIZE, Prot(true, true)),
     VirtAlloc(v + 0x40_0000, 0, PAGE_SIZE, Prot(true, true))]
  }

  lemma SparsePages()
    ensures Wanted(Sparse()) == Scattered()
  {
    hide SumLen;
    var jobs := Jobs(Place(Sparse(), PhysAddr(0, 0)));
    assert |jobs| == 3;
    forall i: nat | i < 3 ensures jobs[i].start == KASLR_START + 512 * i && jobs[i].count == 1 {
      SparseStart(i);
    }
    forall q: nat ensures Visited(jobs, q) <==> q in Scattered() {
      if Visited(jobs, q) {
        var i: nat, k: nat :| Visits(jobs, i, k, q);
        assert k == 0;
      }
      if q in Scattered() {
        var i: nat := (q - KASLR_START) / 512;
        assert Visits(jobs, i, 0, q);
      }
    }
  }

  lemma SparseStart(i: nat)
    requires i < 3
    ensures Sparse()[i].virtStart / PAGE_SIZE % PAGE_COUNT == KASLR_START + 512 * i
  {
    ModIs(Sparse()[i].virtStart / PAGE_SIZE, PAGE_COUNT, 0xFFFF, KASLR_START + 512 * i);
  }

  /** They need five tables, and the memslot has room for four. */
  lemma SparseOverflows(mem: Memory, root: nat)
    requires Walk(mem, root, 1, 511) == Missing
    ensures |NewSlots(mem, root, Wanted(Sparse()))| == 5 && Estimated(Sparse()) == 4
  {
    hide Walk, NewSlots, Wanted, Scattered;
    SparsePages();
    ScatteredNeedFive(mem, root);
    var s := Sparse();
    assert SumLen(s, 3) == SumLen(s, 2) + PAGE_SIZE && SumLen(s, 2) == SumLen(s, 1) + PAGE_SIZE;
    assert SumLen(s, 1) == PAGE_SIZE;
    assert PackedTables(3, 4) == 4;
  }

  /** New tables of compact allocations fit into the memslot behind the mapped memory. */
  lemma TablesFit(allocs: seq<VirtAlloc>, addr: PhysAddr, m: Memory, root: nat, slots: seq<(nat, nat)>)
    requires Compact(allocs) && addr.value % PAGE_SIZE == 0
    requires var ms := Place(allocs, addr);
             Hung(m, root, VisitedPages(Jobs(ms)), TableBase(ms), slots)
    ensures (TableBase(Place(allocs, addr)) + |slots|) * PAGE_SIZE <= addr.value + SlotSize(allocs)
  {
    hide Hung, Needed, PackedTables, SumLen, Place, VisitedPages;
    var first, t, total := FirstPage(allocs), PageTotal(allocs), SumLen(allocs, |allocs|);
    CompactJob(allocs, 0);
    forall q | q in VisitedPages(Jobs(Place(allocs, addr))) ensures first <= q <= first + t - 1 {
      CompactPages(allocs, addr, q);
    }
    SumLenAligned(allocs, |allocs|);
    PlacedBase(allocs, addr);
    NewTablesAtMost(m, root, VisitedPages(Jobs(Place(allocs, addr))), TableBase(Place(allocs, addr)), slots,
                    first, first + t - 1);
    EstimateSufficesInGib(first, t);
    assert Ceil(total, PAGE_SIZE) == t;
  }

  ghost predicate NonEmpty(allocs: seq<VirtAlloc>) {
    forall i | 0 <= i < |allocs| :: 0 < allocs[i].len
  }

  /** The end of the physical address space. */
  const PHYS_LIMIT: nat := FRAME_LIMIT * PAGE_SIZE

  /** The entries of all mapped pages keep their frame when they are packed into words. */
  ghost predicate EntriesFit(jobs: seq<Job>) {
    forall i: nat, k: nat, q: nat | Visits(jobs, i, k, q) :: Fits(LeafEntry(jobs[i].frame + k, jobs[i].prot))
  }

  lemma {:induction false} FramesFit(allocs: seq<VirtAlloc>, addr: PhysAddr)
    requires WellFormed(Place(allocs, addr)) && NonEmpty(allocs) && addr.value % PAGE_SIZE == 0
    requires addr.value + SumLen(allocs, |allocs|) <= PHYS_LIMIT
    ensures EntriesFit(Jobs(Place(allocs, addr)))
  {
    hide Nth, SumLen, WellFormed;
    PlacedWellFormed(allocs, addr);
    var jobs := Jobs(Place(allocs, addr));
    forall i: nat, k: nat, q: nat | Visits(jobs, i, k, q) ensures Fits(LeafEntry(jobs[i].frame + k, jobs[i].prot)) {
      FrameFits(allocs, addr, i, k);
    }
  }

  lemma {:induction false} FrameFits(allocs: seq<VirtAlloc>, addr: PhysAddr, i: nat, k: nat)
    requires (forall j | 0 <= j < |allocs| :: AllocAligned(allocs[j])) && NonEmpty(allocs)
    requires addr.value % PAGE_SIZE == 0 && i < |allocs| && k < Total(JobOf(Place(allocs, addr)[i]))
    requires addr.value + SumLen(allocs, |allocs|) <= PHYS_LIMIT
    ensures JobOf(Place(allocs, addr)[i]).frame + k < FRAME_LIMIT
  {
    hide SumLen;
    SumLenStep(allocs, i);
    SumLenMonotone(allocs, i + 1, |allocs|);
    SumLenAligned(allocs, i);
    assert AllocAligned(allocs[i]) && allocs[i].len > 0;
    var start := addr.value + SumLen(allocs, i);
    assert start / PAGE_SIZE + allocs[i].len / PAGE_SIZE == (start + allocs[i].len) / PAGE_SIZE;
  }

  method SumAll(allocs: seq<VirtAlloc>) returns (len: nat)
    ensures len == SumLen(allocs, |allocs|)
  {
    len := 0;
    for i := 0 to |allocs|
      invariant len == SumLen(allocs, i)
    {
      len := len + allocs[i].len;
    }
  }

  /** Builds the mapping list while advancing the next physical address. */
  method PlaceAll(allocs: seq<VirtAlloc>, addr: PhysAddr) returns (ms: seq<MappedMemory>)
    ensures ms == Place(allocs, addr)
  {
    ms := [];
    var nextAddr := addr;
    for i := 0 to |allocs|
      invariant ms == Place(allocs, addr)[..i]
      invariant nextAddr == addr.(value := addr.value + SumLen(allocs, i))
    {
      var a := allocs[i];
      ms := ms + [MappedMemory(nextAddr, a.virtStart, a.len, a.prot)];
      nextAddr := nextAddr.(value := nextAddr.value + a.len);
    }
  }

  /** The latest region of a sound state. */
  lemma SoundLatest(s: State, last: Option<SlotRange>, limit: nat)
    requires Sound(s, last, limit) && |s.regions| > 0
    ensures var r := s.regions[|s.regions| - 1];
            r.start % PAGE_SIZE == 0 && last.Some? && last.value.end < r.start && r.start + r.size <= limit
  {
  }

  lemma SlotHolds(allocs: seq<VirtAlloc>)
    ensures SumLen(allocs, |allocs|) <= SlotSize(allocs)
  {
    hide SumLen, PackedTables;
  }

  lemma TablesUnderMore(m: Memory, root: nat, a: nat, b: nat)
    requires TablesUnder(m, root, a) && a <= b
    ensures TablesUnder(m, root, b)
  {
  }

  lemma {:induction false} AllAligned(allocs: seq<VirtAlloc>, addr: PhysAddr)
    requires WellFormed(Place(allocs, addr)) && addr.value % PAGE_SIZE == 0
    ensures SumLen(allocs, |allocs|) % PAGE_SIZE == 0
  {
    PlacedWellFormed(allocs, addr);
    SumLenAligned(allocs, |allocs|);
  }

  /** The allocator for guest physical memory. */
  class Allocator {
    var nextAllocation: nat
    const last: Option<SlotRange>
    ghost const limit: nat
    ghost var regions: seq<Region>

    ghost predicate Valid()
      reads this
    {
      Sound(State(nextAllocation, regions), last, limit) && PageMultiple(last)
    }

    constructor (limit: nat, last: Option<SlotRange>)
      requires limit % PAGE_SIZE == 0 && PageMultiple(last)
      ensures Valid() && this.limit == limit && this.last == last
      ensures nextAllocation == limit && regions == []
    {
      nextAllocation, regions, this.limit, this.last := limit, [], limit, last;
    }

    /** `next_addr` */
    method NextAddress(size: nat) returns (r: Result<nat, AllocError>)
      modifies this`nextAllocation
      ensures r == NextAddr(old(nextAllocation), last, size)
      ensures nextAllocation == if r.Ok? then r.value else old(nextAllocation)
    {
      if nextAllocation < size {
        return Err(OutOfMemory);
      }
      var start := nextAllocation - size;
      if last.None? {
        return Err(NoMemory);
      }
      if start < last.value.end {
        return Err(Conflicts);
      }
      nextAllocation := start;
      return Ok(start);
    }

    /** `phys_alloc`; `accepted` is the hypervisor's answer to the new memslot. */
    method PhysAlloc(size: nat, accepted: bool) returns (r: Result<Region, AllocError>)
      requires Valid()
      modifies this`nextAllocation, this`regions
      ensures Valid()
      ensures State(nextAllocation, regions) ==
              Serve(State(old(nextAllocation), old(regions)), last, Request.Memory(size, accepted))
      ensures r.Ok? <==> accepted && NextAddr(old(nextAllocation), last, PageAlign(size)).Ok?
      ensures r.Ok? ==> r.value == Region(nextAllocation, PageAlign(size)) && regions == old(regions) + [r.value]
    {
      ServeKeepsSound(State(nextAllocation, regions), last, limit, Request.Memory(size, accepted));
      var oldStart := nextAllocation;
      var paddedSize := PageAlign(size);
      var start := NextAddress(paddedSize);
      if start.Err? {
        return Err(start.error);
      }
      if !accepted {
        nextAllocation := oldStart;
        return Err(AddFailed);
      }
      regions := regions + [Region(start.value, paddedSize)];
      return Ok(Region(start.value, paddedSize));
    }

    /** `alloc_mmio_range` */
    method AllocMmioRange(size: nat) returns (r: Result<Region, AllocError>)
      requires Valid() && size % PAGE_SIZE == 0
      modifies this`nextAllocation, this`regions
      ensures Valid()
      ensures State(nextAllocation, regions) ==
              Serve(State(old(nextAllocation), old(regions)), last, Request.Mmio(size))
      ensures r.Ok? <==> NextAddr(old(nextAllocation), last, size).Ok?
      ensures r.Ok? ==> r.value == Region(nextAllocation, size) && nextAllocation + size == old(nextAllocation)
    {
      ServeKeepsSound(State(nextAllocation, regions), last, limit, Request.Mmio(size));
      var start := NextAddress(size);
      if start.Err? {
        return Err(start.error);
      }
      regions := regions + [Region(start.value, size)];
      return Ok(Region(start.value, size));
    }

    /** The two MMIO ranges of `DeviceContext::new`.  They are adjacent, so the window test
        accepts exactly their addresses, except the last byte of the block range. */
    method DeviceWindow() returns (r: Result<(Region, Region), AllocError>)
      requires Valid()
      modifies this`nextAllocation, this`regions
      ensures Valid()
      ensures r.Ok? ==> var (block, console) := r.value;
                        && block.size == console.size == 0x1000 && DisjointRegions(block, console)
                        && forall addr: nat :: Intercepted(block, console, addr) <==>
                             (In(console, addr) || In(block, addr)) && addr != block.start + block.size - 1
    {
      var block := AllocMmioRange(0x1000);
      if block.Err? {
        return Err(block.error);
      }
      var console := AllocMmioRange(0x1000);
      if console.Err? {
        return Err(console.error);
      }
      return Ok((block.value, console.value));
    }

    /** `virt_alloc`: takes one memslot for the allocations and their tables and maps it.  The
        guest's tables lie in its memslots and so below the new one. */
    method VirtAllocate(guest: Guest, root: nat, allocs: seq<VirtAlloc>, accepted: bool, hostOffset: int,
                        transferred: nat)
      returns (r: Result<VirtMem, AllocError>, ghost region: Region)
      requires Valid() && |allocs| > 0 && forall i | 0 <= i < |allocs| :: allocs[i].len < WORD
      requires last.Some? ==> (forall f | f in guest.tables :: 0 <= f < (last.value.end + 1) / PAGE_SIZE)
                              && TablesUnder(guest.tables, root, (last.value.end + 1) / PAGE_SIZE)
      requires Unshared(guest.tables, root, Wanted(allocs))
      modifies this`nextAllocation, this`regions, guest
      ensures Valid()
      ensures r.Err? && r.error != MapFailed(WriteFailed) ==> guest.tables == old(guest.tables)
      ensures r.Ok? ==>
                && regions == old(regions) + [region] && region.size == SlotSize(allocs)
                && var ms := Place(allocs, PhysAddr(region.start, hostOffset));
                   && r.value.mappings == ms && WellFormed(ms) && Disjoint(Jobs(ms))
                   && MapsExactly(old(guest.tables), guest.tables, root, Jobs(ms))
                   && Undoes(old(guest.tables), guest.tables, r.value.saved, TableBase(ms))
                   && TablesFrom(old(guest.tables), guest.tables, region.start + SumLen(allocs, |allocs|))
                   && (Housed(old(guest.tables), guest.tables, region.start + region.size)
                       <==> |NewSlots(old(guest.tables), root, Wanted(allocs))| <= Estimated(allocs))
                   && (Compact(allocs) ==> Housed(old(guest.tables), guest.tables, region.start + region.size))
                   && (NonEmpty(allocs) && limit <= PHYS_LIMIT ==> EntriesFit(Jobs(ms)))
                   && (Housed(old(guest.tables), guest.tables, region.start + region.size) && limit <= PHYS_LIMIT ==>
                         forall f | f in guest.tables && f !in old(guest.tables) :: Fits(TableEntry(f)))
    {
      hide Unshared, TablesUnder, VisitedPages, MapsExactly, Hung, Grown, Undoes, Compact, PackedTables, Sound,
           Serve, Explains, AllMissing, Disjoint, Walk, Place, SumLen, PageAlign, Ceil, TableBase, EntriesFit,
           NonEmpty, WriteAll, NewSlots, Estimated, Jobs, WellFormed;
      region := Region(0, 0);
      var len := SumAll(allocs);
      var extra := EstimatePageTableSize(len);
      var slot := PhysAlloc(len + extra, accepted);
      if slot.Err? {
        return Err(slot.error), region;
      }
      region := slot.value;
      SoundLatest(State(nextAllocation, regions), last, limit);
      ghost var addr := PhysAddr(region.start, hostOffset);
      var ms := PlaceAll(allocs, PhysAddr(slot.value.start, hostOffset));
      PlacedBase(allocs, addr);
      PlacedWords(allocs, addr);
      PlacePages(allocs, PhysAddr(0, 0), addr);
      TablesUnderMore(guest.tables, root, (last.value.end + 1) / PAGE_SIZE, TableBase(ms));
      var mapped, slots, written := MapMemory(guest, root, ms, transferred);
      if mapped.Err? {
        return Err(MapFailed(mapped.error)), region;
      }
      AllAligned(allocs, addr);
      HousedExactly(allocs, addr, old(guest.tables), guest.tables, root, slots);
      if Compact(allocs) {
        TablesFit(allocs, addr, guest.tables, root, slots);
      }
      if NonEmpty(allocs) && limit <= PHYS_LIMIT {
        SlotHolds(allocs);
        FramesFit(allocs, addr);
      }
      return Ok(mapped.value), region;
    }
  }
}
