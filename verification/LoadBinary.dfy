/** Loading as a whole: after allocation, loading, relocation and upload, a walk of the guest's page
    tables leads from every relocated address to the bytes that the relocation requires. */
module LoadBinary {
  import opened Wrappers
  import opened Bytes
  import opened ProcessVm
  import opened PageMapping
  import opened PageMath
  import opened PhysMemAllocator
  import opened Layout
  import opened Loader
  import opened PageTableSize
  import PageTableEditor
  import PageTableEntry
  import PageVisit
  import PageWalk

  /** The byte that the hardware of the guest reads at a virtual address: the page tables give the
      frame, and the memslot gives its place in the hypervisor. */
  function HardwareByte(tables: PageWalk.Memory, root: nat, mem: Memory, hostOffset: int, v: nat): Option<Byte> {
    var w := PageWalk.Walk(tables, root, 4, v / PAGE_SIZE % PageWalk.PAGE_COUNT);
    if !w.Leaf? || w.level != 3 then None
    else
      var host := w.entry.frame * PAGE_SIZE + v % PAGE_SIZE + hostOffset;
      if host in mem then Some(mem[host]) else None
  }

  function HardwareBytes(tables: PageWalk.Memory, root: nat, mem: Memory, hostOffset: int, v: nat, n: nat)
    : Option<seq<Byte>>
    decreases n
  {
    if n == 0 then Some([])
    else
      var first := HardwareByte(tables, root, mem, hostOffset, v);
      var rest := HardwareBytes(tables, root, mem, hostOffset, v + 1, n - 1);
      if first.None? || rest.None? then None else Some([first.value] + rest.value)
  }

  /** What `virt_alloc` has done for the loader. */
  ghost predicate Installed(before: PageWalk.Memory, tables: PageWalk.Memory, root: nat, ms: seq<MappedMemory>) {
    WellFormed(ms) && PageMapping.Disjoint(Jobs(ms)) && MapsExactly(before, tables, root, Jobs(ms))
  }

  /** The walk of an address of a mapping ends at the frame that the mapping has for it. */
  lemma WalkFinds(before: PageWalk.Memory, tables: PageWalk.Memory, root: nat, ms: seq<MappedMemory>, i: nat, v: nat)
    requires Installed(before, tables, root, ms) && i < |ms| && KASLR_START <= ms[i].virtStart
    requires ms[i].virtStart <= v < ms[i].virtStart + ms[i].len <= KASLR_END
    ensures var m, k := ms[i], (v - ms[i].virtStart) / PAGE_SIZE;
            PageWalk.Walk(tables, root, 4, v / PAGE_SIZE % PageWalk.PAGE_COUNT)
            == PageWalk.Leaf(3, PageTableEntry.LeafEntry(m.phys.value / PAGE_SIZE + k, m.prot))
  {
    hide PageVisit.Nth, PageWalk.Walk, PageMapping.Disjoint, PageTableEntry.LeafEntry;
    var m := ms[i];
    assert Aligned(m);
    InPage(m, v);
    var k := ReachesPage(m, PageStart(v));
    assert Visits(Jobs(ms), i, k, v / PAGE_SIZE % PageWalk.PAGE_COUNT);
  }

  lemma InPage(m: MappedMemory, v: nat)
    requires Aligned(m) && m.virtStart <= v < m.virtStart + m.len
    ensures PageStart(v) % PAGE_SIZE == 0 && PageStart(v) / PAGE_SIZE == v / PAGE_SIZE
    ensures m.virtStart <= PageStart(v) < m.virtStart + m.len && m.len / PAGE_SIZE * PAGE_SIZE == m.len
    ensures (PageStart(v) - m.virtStart) / PAGE_SIZE == (v - m.virtStart) / PAGE_SIZE
    ensures (m.phys.value / PAGE_SIZE + (v - m.virtStart) / PAGE_SIZE) * PAGE_SIZE + v % PAGE_SIZE
            == m.phys.value + (v - m.virtStart)
  {
    var a, b, c := m.virtStart / PAGE_SIZE, v / PAGE_SIZE, m.phys.value / PAGE_SIZE;
    assert m.virtStart == a * PAGE_SIZE && m.phys.value == c * PAGE_SIZE;
    assert (v - m.virtStart) / PAGE_SIZE == b - a;
  }

  /** The mappings of the loader: the requests, placed, in the kernel image range. */
  ghost predicate Fixed(ms: seq<MappedMemory>, hostOffset: int) {
    forall i | 0 <= i < |ms| ::
      && KASLR_START <= ms[i].virtStart && ms[i].virtStart + ms[i].len <= KASLR_END
      && ms[i].phys.hostOffset == hostOffset
  }

  /** The hardware finds a byte where the loader has put it. */
  lemma HardwareFinds(before: PageWalk.Memory, tables: PageWalk.Memory, root: nat, ms: seq<MappedMemory>,
                      hostOffset: int, mem: Memory, v: nat)
    requires Installed(before, tables, root, ms) && Fixed(ms, hostOffset) && Translate(ms, v).Some?
    ensures var h := Translate(ms, v).value;
            HardwareByte(tables, root, mem, hostOffset, v) == if h in mem then Some(mem[h]) else None
  {
    hide PageWalk.Walk, Installed;
    var i := TranslateFinds(ms, v);
    AlignedAt(before, tables, root, ms, i);
    WalkFinds(before, tables, root, ms, i, v);
    InPage(ms[i], v);
  }

  lemma AlignedAt(before: PageWalk.Memory, tables: PageWalk.Memory, root: nat, ms: seq<MappedMemory>, i: nat)
    requires Installed(before, tables, root, ms) && i < |ms|
    ensures Aligned(ms[i])
  {
  }

  lemma {:induction false} TranslateFinds(ms: seq<MappedMemory>, v: nat) returns (i: nat)
    requires Translate(ms, v).Some?
    ensures i < |ms| && ms[i].virtStart <= v < ms[i].virtStart + ms[i].len
    ensures Translate(ms, v).value == Host(ms[i]) + (v - ms[i].virtStart)
  {
    if ms[0].virtStart <= v < ms[0].virtStart + ms[0].len {
      i := 0;
    } else {
      i := TranslateFinds(ms[1..], v);
      i := i + 1;
    }
  }

  lemma {:induction false} HardwareAgrees(before: PageWalk.Memory, tables: PageWalk.Memory, root: nat,
                                          ms: seq<MappedMemory>, hostOffset: int, mem: Memory, v: nat, n: nat)
    requires Installed(before, tables, root, ms) && Fixed(ms, hostOffset) && GuestBytes(mem, ms, v, n).Some?
    ensures HardwareBytes(tables, root, mem, hostOffset, v, n) == GuestBytes(mem, ms, v, n)
    decreases n
  {
    hide HardwareByte, Installed, Fixed, Translate;
    if n > 0 {
      HardwareFinds(before, tables, root, ms, hostOffset, mem, v);
      HardwareAgrees(before, tables, root, ms, hostOffset, mem, v + 1, n - 1);
    }
  }

  lemma PlacedFixed(vbase: nat, headers: seq<Header>, stringSize: nat, addr: PhysAddr)
    requires vbase % PAGE_SIZE == 0 && KASLR_START <= vbase && Allocs(vbase, headers, stringSize).Ok?
    requires Stacked(Allocs(vbase, headers, stringSize).value)
    ensures Fixed(Place(Allocs(vbase, headers, stringSize).value, addr), addr.hostOffset)
  {
    hide Allocs, Stacked, SumLen;
    var ms := Place(Allocs(vbase, headers, stringSize).value, addr);
    AllocsInRange(vbase, headers, stringSize);
    forall i | 0 <= i < |ms|
      ensures && KASLR_START <= ms[i].virtStart && ms[i].virtStart + ms[i].len <= KASLR_END
              && ms[i].phys.hostOffset == addr.hostOffset
    {
      AllocsEnd(vbase, headers, stringSize, i);
    }
  }

  /** The library as it is loaded: the segments, relocated. */
  function Linked(env: Env, headers: seq<Header>, stringSize: nat, addr: PhysAddr, regions: seq<seq<Byte>>,
                  es: seq<Entry>): Option<seq<Loadable>>
    requires |headers| == |regions|
  {
    var allocs := Allocs(env.vbase, headers, stringSize);
    if allocs.Err? then None
    else
      var ls := LoadAll(env.vbase, headers, regions, allocs.value, Place(allocs.value, addr));
      if ls.None? then None
      else
        var done := RelocateAll(env, ls.value, es);
        if done.Err? then None else Some(done.value)
  }

  /** The hardware reads the value that the relocation requires. */
  predicate Resolved(env: Env, tables: PageWalk.Memory, root: nat, mem: Memory, hostOffset: int, e: Entry) {
    var bytes := HardwareBytes(tables, root, mem, hostOffset, env.vbase + e.offset, 8);
    bytes.Some? && Target(env, e).Ok? && Target(env, e).value.Some?
    && FromLittleEndian(bytes.value) == Target(env, e).value.value
  }

  /** From the ELF file to the hardware: once everything has succeeded, every relocation that has a
      value and is not overwritten by a later one is read by the guest as that value. */
  lemma {:induction false} RelocationReached(env: Env, headers: seq<Header>, stringSize: nat, addr: PhysAddr,
                                             regions: seq<seq<Byte>>, es: seq<Entry>, j: nat, mem: Memory,
                                             before: PageWalk.Memory, tables: PageWalk.Memory, root: nat)
    requires env.vbase % PAGE_SIZE == 0 && KASLR_START <= env.vbase && addr.value + addr.hostOffset >= 0
    requires Allocs(env.vbase, headers, stringSize).Ok? && Segments(headers, regions)
    requires Installed(before, tables, root, Place(Allocs(env.vbase, headers, stringSize).value, addr))
    requires Linked(env, headers, stringSize, addr, regions, es).Some?
    requires Upload(mem, Linked(env, headers, stringSize, addr, regions, es).value).Some?
    requires Applies(env, es, j) && LaterApart(env, es, j)
    ensures var after := Upload(mem, Linked(env, headers, stringSize, addr, regions, es).value).value;
            Resolved(env, tables, root, after, addr.hostOffset, es[j])
  {
    hide Allocs, Place, Valid, AtHome, AllApart, Upload, MappedIn, Fixed, Target, GuestBytes, HardwareBytes, LaterApart,
         PageMapping.Disjoint, WellFormed, MapsExactly, Stacked, RelocateAll, LoadAll;
    var allocs := Allocs(env.vbase, headers, stringSize).value;
    var ms := Place(allocs, addr);
    var ls := LoadAll(env.vbase, headers, regions, allocs, ms).value;
    LoadedAtHome(env.vbase, headers, stringSize, addr, regions);
    HomeMapped(env.vbase, headers, regions, ms, ls);
    RelocationArrives(env, ls, es, j, mem, ms);
    AllocsStacked(env.vbase, headers, stringSize, addr);
    PlacedFixed(env.vbase, headers, stringSize, addr);
    HardwareAgrees(before, tables, root, ms, addr.hostOffset, Upload(mem, RelocateAll(env, ls, es).value).value,
                   env.vbase + es[j].offset, 8);
  }

  lemma HomeMapped(vbase: nat, headers: seq<Header>, regions: seq<seq<Byte>>, ms: seq<MappedMemory>, ls: seq<Loadable>)
    requires AtHome(vbase, headers, regions, ms, ls)
    ensures MappedIn(ls, ms)
  {
  }

  /** Every relocation that has a value and is not overwritten by a later one is resolved. */
  ghost predicate AllResolved(env: Env, tables: PageWalk.Memory, root: nat, mem: Memory, hostOffset: int,
                              es: seq<Entry>) {
    forall j: nat | Applies(env, es, j) && LaterApart(env, es, j) :: Resolved(env, tables, root, mem, hostOffset, es[j])
  }

  /** Bytes outside `start..end` are not touched. */
  ghost predicate Confined(mem: Memory, after: Memory, start: int, end: int) {
    forall h | h in mem && !(start <= h < end) :: h in after && after[h] == mem[h]
  }

  /** Byte `k` of the table in frame `f`, in the hypervisor. */
  function TableAddr(f: int, hostOffset: int, k: nat): int {
    f * PAGE_SIZE + hostOffset + k
  }

  /** No byte of a table that was added for the mappings is touched. */
  ghost predicate TablesSpared(before: PageWalk.Memory, tables: PageWalk.Memory, hostOffset: int, mem: Memory,
                               after: Memory) {
    forall f, k: nat | f in tables && f !in before && k < PAGE_SIZE && TableAddr(f, hostOffset, k) in mem ::
      TableAddr(f, hostOffset, k) in after && after[TableAddr(f, hostOffset, k)] == mem[TableAddr(f, hostOffset, k)]
  }

  lemma {:induction false} LoadableInside(allocs: seq<VirtAlloc>, addr: PhysAddr, ls: seq<Loadable>, i: nat)
    requires Valid(ls) && MappedIn(ls, Place(allocs, addr)) && i < |ls|
    ensures var start, iov := addr.value + addr.hostOffset, Iovs(ls)[i];
            start <= iov.base && iov.base + iov.len <= start + SumLen(allocs, |allocs|)
  {
    hide SumLen;
    var ms := Place(allocs, addr);
    assert ls[i].mapping in ms;
    var j :| 0 <= j < |ms| && ms[j] == ls[i].mapping;
    SumLenStep(allocs, j);
    SumLenMonotone(allocs, j + 1, |allocs|);
  }

  /** The upload writes into the mapped part of the memslot only. */
  lemma {:induction false} UploadConfined(mem: Memory, ls: seq<Loadable>, allocs: seq<VirtAlloc>, addr: PhysAddr)
    requires Valid(ls) && Upload(mem, ls).Some? && MappedIn(ls, Place(allocs, addr))
    ensures var start := addr.value + addr.hostOffset;
            Confined(mem, Upload(mem, ls).value, start, start + SumLen(allocs, |allocs|))
  {
    hide SumLen, Place, MappedIn, Valid, Scatter, Total, Reached, Join;
    var start, iovs := addr.value + addr.hostOffset, Iovs(ls);
    PartsTotal(iovs, Contents(ls));
    forall h | h in mem && !(start <= h < start + SumLen(allocs, |allocs|))
      ensures h in Upload(mem, ls).value && Upload(mem, ls).value[h] == mem[h]
    {
      forall i | 0 <= i < |iovs| ensures Apart(iovs[i], Iov(h, 1)) {
        LoadableInside(allocs, addr, ls, i);
      }
      ScatterSpares(mem, iovs, Join(Contents(ls)), h);
    }
  }

  lemma {:induction false} ScatterSpares(mem: Memory, iovs: seq<Iov>, data: seq<Byte>, h: nat)
    requires |data| == Total(iovs) && h in mem && forall i | 0 <= i < |iovs| :: Apart(iovs[i], Iov(h, 1))
    ensures h in Scatter(mem, iovs, data) && Scatter(mem, iovs, data)[h] == mem[h]
  {
    var one := Iov(h, 1);
    ScatterElsewhere(mem, iovs, data, one);
    assert ReadBytes(mem, one)[0] == mem[h];
    assert ReadBytes(Scatter(mem, iovs, data), one)[0] == Scatter(mem, iovs, data)[h];
  }

  /** The new tables lie behind the mapped part, so the upload leaves them alone. */
  lemma {:induction false} ConfinedSpares(before: PageWalk.Memory, tables: PageWalk.Memory, addr: PhysAddr, len: nat,
                                          mem: Memory,
                       after: Memory)
    requires TablesFrom(before, tables, addr.value + len)
    requires Confined(mem, after, addr.value + addr.hostOffset, addr.value + addr.hostOffset + len)
    ensures TablesSpared(before, tables, addr.hostOffset, mem, after)
  {
  }

  method LoadSegments(loader: Loader, headers: seq<Header>, regions: seq<seq<Byte>>, ghost allocs: seq<VirtAlloc>)
    returns (r: Option<ElfError>)
    requires |headers| == |regions| && loader.loadables == []
    requires |allocs| == |loader.mappings| == |loader.loadOffsets|
    requires forall i | 0 <= i < |allocs| :: loader.loadOffsets[i] == allocs[i].virtOffset
    modifies loader`loadables
    ensures var ls := LoadAll(loader.env.vbase, headers, regions, allocs, loader.mappings);
            if r.None? then ls == Some(loader.loadables) else ls == None
  {
    hide FindMapping, PageStart;
    var vbase := loader.env.vbase;
    for n := 0 to |headers|
      invariant LoadAll(vbase, headers[..n], regions[..n], allocs, loader.mappings) == Some(loader.loadables)
    {
      assert headers[..n + 1][..n] == headers[..n] && regions[..n + 1][..n] == regions[..n];
      r := loader.Load(headers[n].virtualAddr, regions[n]);
      if r.Some? {
        LoadStops(vbase, headers, regions, allocs, loader.mappings, n + 1);
        return;
      }
    }
    assert headers[..|headers|] == headers && regions[..|headers|] == regions;
    r := None;
  }

  lemma {:induction false} LoadStops(vbase: nat, headers: seq<Header>, regions: seq<seq<Byte>>, allocs: seq<VirtAlloc>,
                                     ms: seq<MappedMemory>, n: nat)
    requires n <= |headers| == |regions| && |allocs| == |ms|
    requires LoadAll(vbase, headers[..n], regions[..n], allocs, ms) == None
    ensures LoadAll(vbase, headers, regions, allocs, ms) == None
    decreases |headers|
  {
    hide FindMapping, PageStart;
    if n < |headers| {
      var k := |headers| - 1;
      assert headers[..k][..n] == headers[..n] && regions[..k][..n] == regions[..n];
      LoadStops(vbase, headers[..k], regions[..k], allocs, ms, n);
    } else {
      assert headers[..n] == headers && regions[..n] == regions;
    }
  }

  method RelocateSegments(loader: Loader, es: seq<Entry>) returns (r: Option<ElfError>)
    modifies loader`loadables
    ensures var done := RelocateAll(loader.env, old(loader.loadables), es);
            if r.None? then done == Ok(loader.loadables) else done == Err(r.value)
  {
    hide Relocate;
    ghost var all := RelocateAll(loader.env, loader.loadables, es);
    assert es[0..] == es;
    for j := 0 to |es|
      invariant RelocateAll(loader.env, loader.loadables, es[j..]) == all
    {
      assert es[j..][1..] == es[j + 1..];
      r := loader.RelocateEntry(es[j]);
      if r.Some? {
        return;
      }
    }
    r := None;
  }

  /** `load_binary`, without the arguments of stage 1: if every step succeeds, the guest reads every
      relocation as the value it requires. */
  method LoadWhole(loader: Loader, headers: seq<Header>, stringSize: nat, regions: seq<seq<Byte>>, es: seq<Entry>,
                   accepted: bool, hostOffset: int, transferred: nat, mem: Memory)
    returns (r: Result<Option<Memory>, ElfError>, ghost addr: PhysAddr)
    requires loader.Ready(headers, stringSize) && Segments(headers, regions) && loader.loadables == []
    requires loader.env.vbase % PAGE_SIZE == 0 && KASLR_START <= loader.env.vbase
    requires loader.allocator.last.Some? ==> loader.allocator.last.value.end + hostOffset >= 0
    modifies loader, loader.allocator, loader.guest
    ensures r.Ok? ==>
              && Linked(loader.env, headers, stringSize, addr, regions, es) == Some(loader.loadables)
              && r.value == Upload(mem, loader.loadables)
    ensures r.Ok? && r.value.Some? ==>
              && TablesSpared(old(loader.guest.tables), loader.guest.tables, hostOffset, mem, r.value.value)
              && AllResolved(loader.env, loader.guest.tables, loader.root, r.value.value, hostOffset, es)
  {
    hide Allocs, Place, WellFormed, PageMapping.Disjoint, MapsExactly, LoadAll, RelocateAll, Upload, Resolved, Stacked,
         Loader.Ready, Valid, AtHome, AllApart, Jobs, TablesFrom, Housed, NewSlots, Wanted, Estimated, SumLen, SlotSize,
         TablesSpared, Confined, MappedIn;
    ghost var env, before := loader.env, loader.guest.tables;
    var failed: Option<ElfError>;
    failed, addr := loader.Allocate(headers, stringSize, accepted, hostOffset, transferred);
    if failed.Some? {
      return Err(failed.value), addr;
    }
    ghost var allocs, tables := Allocs(env.vbase, headers, stringSize).value, loader.guest.tables;
    failed := LoadSegments(loader, headers, regions, allocs);
    if failed.Some? {
      return Err(failed.value), addr;
    }
    LoadedAtHome(env.vbase, headers, stringSize, addr, regions);
    ghost var ls := loader.loadables;
    failed := RelocateSegments(loader, es);
    if failed.Some? {
      return Err(failed.value), addr;
    }
    RelocateAllValid(env, ls, es);
    var after := loader.UploadBinary(mem);
    if after.Some? {
      SameMappings(env, ls, es, Place(allocs, addr)) by {
        HomeMapped(env.vbase, headers, regions, Place(allocs, addr), ls);
      }
      UploadConfined(mem, loader.loadables, allocs, addr);
      ConfinedSpares(before, tables, addr, SumLen(allocs, |allocs|), mem, after.value);
      forall j: nat | Applies(env, es, j) && LaterApart(env, es, j)
        ensures Resolved(env, tables, loader.root, after.value, hostOffset, es[j])
      {
        RelocationReached(env, headers, stringSize, addr, regions, es, j, mem, before, tables, loader.root);
      }
    }
    r := Ok(after);
  }
}
