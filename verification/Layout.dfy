/** Where the loader puts the segments of the stage 1 library: whole pages in the order of their
    addresses, the strings of its arguments behind them, all of it in the kernel image range. */
module Layout {
  import opened Wrappers
  import opened PageMapping
  import opened PageMath
  import opened PhysMemAllocator
  import PageTableEditor
  import PageTableEntry
  import PageVisit
  import PageWalk

  /** A segment of the ELF file. */
  datatype Header = Header(virtualAddr: nat, memSize: nat, prot: PageTableEntry.Prot)

  datatype LayoutError = NoSegment | OutsideRange

  const KASLR_START := 0xFFFF_FFFF_8000_0000
  const KASLR_END := 0xFFFF_FFFF_C000_0000

  /** The whole pages that a segment occupies, and where in the first one it begins. */
  function AllocOf(vbase: nat, h: Header): VirtAlloc {
    var start := PageStart(h.virtualAddr);
    VirtAlloc(vbase + start, h.virtualAddr - start, PageAlign(h.virtualAddr + h.memSize) - start, h.prot)
  }

  function AllocsOf(vbase: nat, headers: seq<Header>): (r: seq<VirtAlloc>)
    ensures |r| == |headers| && forall i | 0 <= i < |r| :: r[i] == AllocOf(vbase, headers[i])
  {
    seq(|headers|, i requires 0 <= i < |headers| => AllocOf(vbase, headers[i]))
  }

  ghost predicate Ordered(allocs: seq<VirtAlloc>) {
    forall i, j | 0 <= i < j < |allocs| :: allocs[i].virtStart <= allocs[j].virtStart
  }

  /** Puts an allocation before the first one that does not begin below it. */
  function Insert(a: VirtAlloc, sorted: seq<VirtAlloc>): (r: seq<VirtAlloc>)
    ensures multiset(r) == multiset(sorted) + multiset{a}
  {
    if sorted == [] || a.virtStart <= sorted[0].virtStart then
      assert multiset([a] + sorted) == multiset([a]) + multiset(sorted);
      [a] + sorted
    else
      assert sorted == [sorted[0]] + sorted[1..];
      [sorted[0]] + Insert(a, sorted[1..])
  }

  ghost predicate AllFrom(allocs: seq<VirtAlloc>, low: nat) {
    forall i | 0 <= i < |allocs| :: low <= allocs[i].virtStart
  }

  lemma {:induction false} InsertFrom(a: VirtAlloc, sorted: seq<VirtAlloc>, low: nat)
    requires AllFrom(sorted, low) && low <= a.virtStart
    ensures AllFrom(Insert(a, sorted), low)
  {
    if sorted != [] && a.virtStart > sorted[0].virtStart {
      assert AllFrom(sorted[1..], low);
      InsertFrom(a, sorted[1..], low);
    }
  }

  lemma OrderedCons(a: VirtAlloc, rest: seq<VirtAlloc>)
    ensures Ordered([a] + rest) <==> AllFrom(rest, a.virtStart) && Ordered(rest)
  {
    var r := [a] + rest;
    if Ordered(r) {
      forall i | 0 <= i < |rest| ensures a.virtStart <= rest[i].virtStart {
        assert r[0].virtStart <= r[i + 1].virtStart;
      }
      forall i, j | 0 <= i < j < |rest| ensures rest[i].virtStart <= rest[j].virtStart {
        assert r[i + 1].virtStart <= r[j + 1].virtStart;
      }
    }
  }

  lemma {:induction false} InsertOrdered(a: VirtAlloc, sorted: seq<VirtAlloc>)
    requires Ordered(sorted)
    ensures Ordered(Insert(a, sorted))
  {
    if sorted != [] {
      var rest := sorted[1..];
      assert sorted == [sorted[0]] + rest;
      OrderedCons(sorted[0], rest);
      if a.virtStart <= sorted[0].virtStart {
        OrderedCons(a, sorted);
      } else {
        InsertOrdered(a, rest);
        InsertFrom(a, rest, sorted[0].virtStart);
        OrderedCons(sorted[0], Insert(a, rest));
      }
    }
  }

  /** The allocations in the order of their addresses. */
  function Sort(allocs: seq<VirtAlloc>): (r: seq<VirtAlloc>)
    ensures multiset(r) == multiset(allocs)
  {
    if allocs == [] then []
    else
      assert allocs == [allocs[0]] + allocs[1..];
      Insert(allocs[0], Sort(allocs[1..]))
  }

  lemma {:induction false} SortOrdered(allocs: seq<VirtAlloc>)
    ensures Ordered(Sort(allocs))
  {
    if allocs != [] {
      SortOrdered(allocs[1..]);
      InsertOrdered(allocs[0], Sort(allocs[1..]));
    }
  }

  /** What `allocate` asks the allocator for: the segments in order, and the strings behind them. */
  function Allocs(vbase: nat, headers: seq<Header>, stringSize: nat): Result<seq<VirtAlloc>, LayoutError> {
    var sorted := Sort(AllocsOf(vbase, headers));
    if sorted == [] then Err(NoSegment)
    else
      var last := sorted[|sorted| - 1];
      var strings := VirtAlloc(last.virtStart + last.len, 0, stringSize, PageTableEntry.Prot(true, false));
      if !(KASLR_START <= strings.virtStart + strings.len < KASLR_END) then Err(OutsideRange)
      else Ok(sorted + [strings])
  }

  /** The requests are sorted, begin at page boundaries and in the kernel image range, and all but
      the last one take whole pages. */
  ghost predicate InKernelRange(allocs: seq<VirtAlloc>) {
    && Ordered(allocs)
    && forall i | 0 <= i < |allocs| ::
         && allocs[i].virtStart % PAGE_SIZE == 0 && KASLR_START <= allocs[i].virtStart < KASLR_END
         && (i + 1 < |allocs| ==> allocs[i].len % PAGE_SIZE == 0)
  }

  lemma AllocOfPages(vbase: nat, h: Header)
    requires vbase % PAGE_SIZE == 0
    ensures var a := AllocOf(vbase, h);
            && a.virtStart % PAGE_SIZE == 0 && a.len % PAGE_SIZE == 0 && vbase <= a.virtStart
            && a.virtStart + a.virtOffset == vbase + h.virtualAddr && a.virtOffset + h.memSize <= a.len
  {
  }

  lemma SortedPages(vbase: nat, headers: seq<Header>)
    requires vbase % PAGE_SIZE == 0
    ensures var sorted := Sort(AllocsOf(vbase, headers));
            && Ordered(sorted)
            && forall i | 0 <= i < |sorted| ::
                 sorted[i].virtStart % PAGE_SIZE == 0 && sorted[i].len % PAGE_SIZE == 0 && vbase <= sorted[i].virtStart
  {
    hide AllocOf;
    var allocs := AllocsOf(vbase, headers);
    var sorted := Sort(allocs);
    SortOrdered(allocs);
    forall i | 0 <= i < |sorted|
      ensures sorted[i].virtStart % PAGE_SIZE == 0 && sorted[i].len % PAGE_SIZE == 0 && vbase <= sorted[i].virtStart
    {
      assert sorted[i] in multiset(sorted);
      assert sorted[i] in multiset(allocs);
      var k :| 0 <= k < |allocs| && allocs[k] == sorted[i];
      AllocOfPages(vbase, headers[k]);
    }
  }

  /** Every segment is among the requests. */
  lemma AllocsHave(vbase: nat, headers: seq<Header>, stringSize: nat, h: Header) returns (j: nat)
    requires Allocs(vbase, headers, stringSize).Ok? && h in headers
    ensures var allocs := Allocs(vbase, headers, stringSize).value;
            j + 1 < |allocs| && allocs[j] == AllocOf(vbase, h)
  {
    var all := AllocsOf(vbase, headers);
    var sorted := Sort(all);
    var k :| 0 <= k < |headers| && headers[k] == h;
    assert all[k] in multiset(all);
    assert all[k] in multiset(sorted);
    j :| 0 <= j < |sorted| && sorted[j] == all[k];
  }

  lemma AllocsInRange(vbase: nat, headers: seq<Header>, stringSize: nat)
    requires vbase % PAGE_SIZE == 0 && KASLR_START <= vbase && Allocs(vbase, headers, stringSize).Ok?
    ensures InKernelRange(Allocs(vbase, headers, stringSize).value)
  {
    hide Sort;
    SortedPages(vbase, headers);
    var sorted, allocs := Sort(AllocsOf(vbase, headers)), Allocs(vbase, headers, stringSize).value;
    assert forall i | 0 <= i < |sorted| :: allocs[i] == sorted[i];
  }

  /** A page address in the kernel image range, as a page number of the walk. */
  lemma KernelPage(v: nat)
    requires v % PAGE_SIZE == 0 && KASLR_START <= v < KASLR_END
    ensures var p := v / PAGE_SIZE % PageWalk.PAGE_COUNT;
            p == (v - KASLR_START) / PAGE_SIZE + PageVisit.KASLR_START && p < PageVisit.KASLR_END
  {
    var d := (v - KASLR_START) / PAGE_SIZE;
    assert v / PAGE_SIZE == 0xF_FFFF_FFF8_0000 + d;
    PageVisit.ModIs(v / PAGE_SIZE, PageWalk.PAGE_COUNT, 0xFFFF, PageVisit.KASLR_START + d);
  }

  /** A mapping in the kernel image range visits a page that begins behind it, unless it ends
      before that page. */
  lemma ReachesPage(a: MappedMemory, v: nat) returns (k: nat)
    requires a.virtStart % PAGE_SIZE == 0 && v % PAGE_SIZE == 0 && KASLR_START <= a.virtStart <= v < KASLR_END
    requires a.len / PAGE_SIZE == 0 || v < a.virtStart + a.len / PAGE_SIZE * PAGE_SIZE
    ensures k == (v - a.virtStart) / PAGE_SIZE && k < PageTableEditor.Total(JobOf(a))
    ensures PageVisit.Nth(JobOf(a).start, k) == v / PAGE_SIZE % PageWalk.PAGE_COUNT < PageWalk.PAGE_COUNT
  {
    hide PageVisit.Nth;
    KernelPage(a.virtStart);
    KernelPage(v);
    k := (v - a.virtStart) / PAGE_SIZE;
    PageVisit.KernelRangeIsContiguous(JobOf(a).start, k + 1);
  }

  /** The first allocation takes some pages and ends before the second one begins. */
  predicate EndsBefore(a: VirtAlloc, b: VirtAlloc) {
    0 < a.len && a.virtStart + a.len <= b.virtStart
  }

  /** Nothing overlaps: the segments have pages of their own, in the order of their addresses, and
      the strings lie behind all of them. */
  ghost predicate Stacked(allocs: seq<VirtAlloc>) {
    forall i, j | 0 <= i < j < |allocs| :: EndsBefore(allocs[i], allocs[j])
  }

  /** What a successful `virt_alloc` says about requests in the kernel image range: all but the
      last take whole pages, and every one ends before the next one begins. */
  lemma DisjointApart(allocs: seq<VirtAlloc>, addr: PhysAddr, i: nat, j: nat)
    requires InKernelRange(allocs) && Disjoint(Jobs(Place(allocs, addr))) && i < j < |allocs|
    ensures EndsBefore(allocs[i], allocs[j])
  {
    hide PageVisit.Nth, SumLen, Disjoint;
    var ms := Place(allocs, addr);
    if allocs[i].len == 0 || allocs[j].virtStart < allocs[i].virtStart + allocs[i].len {
      var k := ReachesPage(ms[i], allocs[j].virtStart);
      var q := allocs[j].virtStart / PAGE_SIZE % PageWalk.PAGE_COUNT;
      NthZero(JobOf(ms[j]).start);
      VisitedOnce(Jobs(ms), i, k, j, 0, q);
      assert false;
    }
  }

  lemma NthZero(start: nat)
    ensures PageVisit.Nth(start, 0) == start
  {
  }

  lemma VisitedOnce(jobs: seq<PageTableEditor.Job>, i: nat, k: nat, j: nat, l: nat, q: nat)
    requires Disjoint(jobs) && Visits(jobs, i, k, q) && Visits(jobs, j, l, q)
    ensures i == j
  {
  }

  /** Stacked allocations end in the kernel image range. */
  lemma AllocsEnd(vbase: nat, headers: seq<Header>, stringSize: nat, i: nat)
    requires vbase % PAGE_SIZE == 0 && KASLR_START <= vbase && Allocs(vbase, headers, stringSize).Ok?
    requires Stacked(Allocs(vbase, headers, stringSize).value) && i < |Allocs(vbase, headers, stringSize).value|
    ensures var a := Allocs(vbase, headers, stringSize).value[i]; a.virtStart + a.len <= KASLR_END
  {
    hide Sort;
    AllocsInRange(vbase, headers, stringSize);
    var allocs := Allocs(vbase, headers, stringSize).value;
    if i + 1 < |allocs| {
      assert EndsBefore(allocs[i], allocs[|allocs| - 1]);
    }
  }

  lemma AllocsStacked(vbase: nat, headers: seq<Header>, stringSize: nat, addr: PhysAddr)
    requires vbase % PAGE_SIZE == 0 && KASLR_START <= vbase && Allocs(vbase, headers, stringSize).Ok?
    requires Disjoint(Jobs(Place(Allocs(vbase, headers, stringSize).value, addr)))
    ensures Stacked(Allocs(vbase, headers, stringSize).value)
  {
    hide Allocs, Disjoint, Place, InKernelRange, EndsBefore;
    AllocsInRange(vbase, headers, stringSize);
    var allocs := Allocs(vbase, headers, stringSize).value;
    forall i, j | 0 <= i < j < |allocs| ensures EndsBefore(allocs[i], allocs[j]) {
      DisjointApart(allocs, addr, i, j);
    }
  }

  /** No two segments begin in the same page. */
  ghost predicate PagesApart(headers: seq<Header>) {
    forall i, j | 0 <= i < j < |headers| :: PageStart(headers[i].virtualAddr) != PageStart(headers[j].virtualAddr)
  }

  ghost predicate DistinctStarts(allocs: seq<VirtAlloc>) {
    forall i, j | 0 <= i < j < |allocs| :: allocs[i].virtStart != allocs[j].virtStart
  }

  ghost predicate NoneStarts(allocs: seq<VirtAlloc>, start: nat) {
    forall i | 0 <= i < |allocs| :: allocs[i].virtStart != start
  }

  lemma {:induction false} DistinctCons(a: VirtAlloc, rest: seq<VirtAlloc>)
    ensures DistinctStarts([a] + rest) <==> NoneStarts(rest, a.virtStart) && DistinctStarts(rest)
  {
    var r := [a] + rest;
    if DistinctStarts(r) {
      forall i | 0 <= i < |rest| ensures rest[i].virtStart != a.virtStart {
        assert r[0].virtStart != r[i + 1].virtStart;
      }
      forall i, j | 0 <= i < j < |rest| ensures rest[i].virtStart != rest[j].virtStart {
        assert r[i + 1].virtStart != r[j + 1].virtStart;
      }
    }
  }

  lemma {:induction false} NoneStartsInsert(a: VirtAlloc, sorted: seq<VirtAlloc>, start: nat)
    ensures NoneStarts(Insert(a, sorted), start) <==> a.virtStart != start && NoneStarts(sorted, start)
  {
    if sorted == [] || a.virtStart <= sorted[0].virtStart {
      NoneCons(a, sorted, start);
    } else {
      NoneStartsInsert(a, sorted[1..], start);
      NoneCons(sorted[0], Insert(a, sorted[1..]), start);
      assert sorted == [sorted[0]] + sorted[1..];
      NoneCons(sorted[0], sorted[1..], start);
    }
  }

  lemma {:induction false} NoneCons(a: VirtAlloc, rest: seq<VirtAlloc>, start: nat)
    ensures NoneStarts([a] + rest, start) <==> a.virtStart != start && NoneStarts(rest, start)
  {
    var r := [a] + rest;
    if NoneStarts(r, start) {
      assert r[0] == a;
      forall i | 0 <= i < |rest| ensures rest[i].virtStart != start {
        assert r[i + 1].virtStart != start;
      }
    }
  }

  lemma {:induction false} DistinctInsert(a: VirtAlloc, sorted: seq<VirtAlloc>)
    requires DistinctStarts(Insert(a, sorted))
    ensures NoneStarts(sorted, a.virtStart) && DistinctStarts(sorted)
  {
    hide DistinctStarts, NoneStarts;
    if sorted == [] || a.virtStart <= sorted[0].virtStart {
      DistinctCons(a, sorted);
    } else {
      var first, rest := sorted[0], sorted[1..];
      assert sorted == [first] + rest;
      DistinctCons(first, Insert(a, rest));
      NoneStartsInsert(a, rest, first.virtStart);
      DistinctInsert(a, rest);
      DistinctCons(first, rest);
      NoneCons(first, rest, a.virtStart);
    }
  }

  lemma {:induction false} NoneStartsSort(allocs: seq<VirtAlloc>, start: nat)
    ensures NoneStarts(Sort(allocs), start) <==> NoneStarts(allocs, start)
  {
    hide NoneStarts;
    if allocs != [] {
      assert allocs == [allocs[0]] + allocs[1..];
      NoneStartsSort(allocs[1..], start);
      NoneStartsInsert(allocs[0], Sort(allocs[1..]), start);
      NoneCons(allocs[0], allocs[1..], start);
    }
  }

  lemma {:induction false} DistinctSort(allocs: seq<VirtAlloc>)
    requires DistinctStarts(Sort(allocs))
    ensures DistinctStarts(allocs)
  {
    hide DistinctStarts, NoneStarts;
    if allocs == [] {
      NothingDistinct();
    } else {
      assert allocs == [allocs[0]] + allocs[1..];
      DistinctInsert(allocs[0], Sort(allocs[1..]));
      DistinctSort(allocs[1..]);
      NoneStartsSort(allocs[1..], allocs[0].virtStart);
      DistinctCons(allocs[0], allocs[1..]);
    }
  }

  lemma NothingDistinct()
    ensures DistinctStarts([])
  {
  }

  lemma {:induction false} HeadersApart(vbase: nat, headers: seq<Header>, stringSize: nat)
    requires Allocs(vbase, headers, stringSize).Ok? && Stacked(Allocs(vbase, headers, stringSize).value)
    ensures PagesApart(headers)
  {
    hide Sort;
    var all := AllocsOf(vbase, headers);
    var sorted, allocs := Sort(all), Allocs(vbase, headers, stringSize).value;
    forall i, j | 0 <= i < j < |sorted| ensures sorted[i].virtStart != sorted[j].virtStart {
      assert EndsBefore(allocs[i], allocs[j]);
    }
    DistinctSort(all);
    forall i, j | 0 <= i < j < |headers|
      ensures PageStart(headers[i].virtualAddr) != PageStart(headers[j].virtualAddr)
    {
      assert all[i].virtStart != all[j].virtStart;
    }
  }
}
