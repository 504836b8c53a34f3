/** `map_memory` as a whole and the restore in `VirtMem::drop`: what a successful call maps,
    when a call succeeds, that a failed call changes nothing before the commit, and that
    dropping the mapping gives the guest its tables back. */
module PageMapping {
  import opened Wrappers
  import opened PageTableEntry
  import opened PageWalk
  import opened PageVisit
  import opened PageTableEditor
  import opened PageMath

  const WORD: nat := 0x1_0000_0000_0000_0000

  datatype PhysAddr = PhysAddr(value: nat, hostOffset: int)

  datatype MappedMemory = MappedMemory(phys: PhysAddr, virtStart: nat, len: nat, prot: Prot)

  predicate Aligned(m: MappedMemory) {
    m.len % PAGE_SIZE == 0 && m.virtStart % PAGE_SIZE == 0 && m.phys.value % PAGE_SIZE == 0
  }

  predicate Follows(m: MappedMemory, next: MappedMemory) {
    m.phys.(value := m.phys.value + m.len) == next.phys
  }

  predicate WellFormed(ms: seq<MappedMemory>) {
    && (forall i | 0 <= i < |ms| :: Aligned(ms[i]))
    && (forall i | 0 < i < |ms| :: Follows(ms[i - 1], ms[i]))
  }

  function JobOf(m: MappedMemory): Job {
    Job(m.virtStart / PAGE_SIZE % PAGE_COUNT, m.phys.value / PAGE_SIZE, m.len / PAGE_SIZE, m.prot)
  }

  function Jobs(ms: seq<MappedMemory>): (jobs: seq<Job>)
    ensures |jobs| == |ms| && forall i | 0 <= i < |ms| :: jobs[i] == JobOf(ms[i])
  {
    seq(|ms|, i requires 0 <= i < |ms| => JobOf(ms[i]))
  }

  /** The frame just behind the last mapping, where new tables go. */
  function TableBase(ms: seq<MappedMemory>): nat
    requires |ms| > 0
  {
    (ms[|ms| - 1].phys.value + ms[|ms| - 1].len) / PAGE_SIZE
  }

  // ----- what a list of jobs maps -----

  /** The k-th page visited for job `i` is `q`. */
  ghost predicate Visits(jobs: seq<Job>, i: nat, k: nat, q: nat) {
    i < |jobs| && k < Total(jobs[i]) && q == Nth(jobs[i].start, k) && q < PAGE_COUNT
  }

  ghost predicate Visited(jobs: seq<Job>, q: nat) {
    exists i: nat, k: nat :: Visits(jobs, i, k, q)
  }

  ghost function VisitedPages(jobs: seq<Job>): iset<nat> {
    iset q: nat | Visited(jobs, q)
  }

  /** No page is wanted twice. */
  ghost predicate Disjoint(jobs: seq<Job>) {
    forall i: nat, k: nat, i': nat, k': nat, q: nat | Visits(jobs, i, k, q) && Visits(jobs, i', k', q) ::
      i == i'
  }

  /** No wanted page translates to anything yet, and every table on its path is backed. */
  ghost predicate AllMissing(mem: Memory, root: nat, jobs: seq<Job>) {
    forall i: nat, k: nat, q: nat | Visits(jobs, i, k, q) :: Walk(mem, root, 4, q) == Missing
  }

  /** Every visited page translates to its frame with the flags of its mapping, and every
      other page translates as before. */
  ghost predicate MapsExactly(mem: Memory, m: Memory, root: nat, jobs: seq<Job>) {
    && (forall i: nat, k: nat, q: nat | Visits(jobs, i, k, q) ::
          Walk(m, root, 4, q) == Leaf(3, LeafEntry(jobs[i].frame + k, jobs[i].prot)))
    && (forall q: nat | q < PAGE_COUNT && !Visited(jobs, q) ::
          Walk(m, root, 4, q) == Walk(mem, root, 4, q))
  }

  /** The pages mapped after all jobs. */
  ghost function AddJobs(jobs: seq<Job>): map<int, Entry> {
    if |jobs| == 0 then map[]
    else
      var last := jobs[|jobs| - 1];
      AddPages(AddJobs(jobs[..|jobs| - 1]), last, Reach(last.start, Total(last)))
  }

  lemma {:induction false} ReachCovers(start: nat, total: nat, k: nat)
    ensures Reach(start, total) <= total
    ensures k < total && Nth(start, k) < PAGE_COUNT ==> k < Reach(start, total)
    ensures k < Reach(start, total) ==> Nth(start, k) < PAGE_COUNT
    decreases total
  {
    if total > 0 && Nth(start, total - 1) >= PAGE_COUNT {
      ReachCovers(start, total - 1, k);
    } else if k + 1 < total {
      NthIncreases(start, k, total - 1);
    }
  }

  lemma {:induction false} InAddJobs(jobs: seq<Job>, q: nat)
    ensures q in AddJobs(jobs) <==> Visited(jobs, q)
    decreases |jobs|
  {
    if |jobs| > 0 {
      var n := |jobs| - 1;
      var last, front := jobs[n], jobs[..n];
      var done, r := AddJobs(front), Reach(last.start, Total(last));
      InAddJobs(front, q);
      if q in done {
        AddPagesKeeps(done, last, r, q);
        var i: nat, k: nat :| Visits(front, i, k, q);
        assert Visits(jobs, i, k, q);
      } else if q in AddJobs(jobs) {
        var k := AddPagesOnly(done, last, r, q);
        ReachCovers(last.start, Total(last), k);
        assert Visits(jobs, n, k, q);
      } else if Visited(jobs, q) {
        var i: nat, k: nat :| Visits(jobs, i, k, q);
        if i < n { assert Visits(front, i, k, q); }
        ReachCovers(last.start, Total(last), k);
        AddPagesHas(done, last, r, k);
      }
    }
  }

  lemma {:induction false} AddPagesValue(done: map<int, Entry>, job: Job, n: nat, k: nat)
    requires k < n
    ensures Nth(job.start, k) in AddPages(done, job, n)
    ensures AddPages(done, job, n)[Nth(job.start, k)] == LeafEntry(job.frame + k, job.prot)
  {
    if k < n - 1 {
      AddPagesValue(done, job, n - 1, k);
      NthIncreases(job.start, k, n - 1);
    }
  }

  lemma {:induction false} AddPagesOther(done: map<int, Entry>, job: Job, n: nat, q: nat)
    requires q in done && forall j: nat | j < n :: Nth(job.start, j) != q
    ensures q in AddPages(done, job, n) && AddPages(done, job, n)[q] == done[q]
  {
    if n > 0 { AddPagesOther(done, job, n - 1, q); }
  }

  /** Disjoint jobs do not overwrite each other's pages. */
  lemma {:induction false} AddJobsValue(jobs: seq<Job>, i: nat, k: nat, q: nat)
    requires Disjoint(jobs) && Visits(jobs, i, k, q)
    ensures q in AddJobs(jobs) && AddJobs(jobs)[q] == LeafEntry(jobs[i].frame + k, jobs[i].prot)
    decreases |jobs|
  {
    var n := |jobs| - 1;
    var last, front := jobs[n], jobs[..n];
    var done, r := AddJobs(front), Reach(last.start, Total(last));
    ReachCovers(last.start, Total(last), k);
    if i == n {
      AddPagesValue(done, last, r, k);
    } else {
      FrontDisjoint(jobs);
      assert Visits(front, i, k, q);
      AddJobsValue(front, i, k, q);
      forall j: nat | j < r ensures Nth(last.start, j) != q {
        ReachCovers(last.start, Total(last), j);
        assert Visits(jobs, n, j, Nth(last.start, j));
      }
      AddPagesOther(done, last, r, q);
    }
  }

  lemma FrontDisjoint(jobs: seq<Job>)
    requires |jobs| > 0 && Disjoint(jobs)
    ensures Disjoint(jobs[..|jobs| - 1])
  {
    var front := jobs[..|jobs| - 1];
    forall i: nat, k: nat, i': nat, k': nat, q: nat | Visits(front, i, k, q) && Visits(front, i', k', q)
      ensures i == i'
    {
      assert Visits(jobs, i, k, q) && Visits(jobs, i', k', q);
    }
  }

  /** A job fits after the earlier ones exactly when the whole list is free and disjoint. */
  lemma FreeStep(mem: Memory, root: nat, jobs: seq<Job>)
    requires |jobs| > 0
    ensures var front, last := jobs[..|jobs| - 1], jobs[|jobs| - 1];
            AllMissing(mem, root, jobs) && Disjoint(jobs) <==>
              && AllMissing(mem, root, front) && Disjoint(front)
              && FreeFor(mem, root, AddJobs(front), last)
  {
    hide Walk, Nth, AddJobs, Total;
    var n := |jobs| - 1;
    var front, last := jobs[..n], jobs[n];
    forall i: nat, k: nat, q: nat ensures Visits(front, i, k, q) <==> Visits(jobs, i, k, q) && i < n {}
    forall q: nat ensures q in AddJobs(front) <==> Visited(front, q) { InAddJobs(front, q); }
    if AllMissing(mem, root, jobs) && Disjoint(jobs) {
      FrontDisjoint(jobs);
      forall k: nat | k < Total(last) && Nth(last.start, k) < PAGE_COUNT
        ensures Nth(last.start, k) !in AddJobs(front) && Walk(mem, root, 4, Nth(last.start, k)) == Missing
      {
        assert Visits(jobs, n, k, Nth(last.start, k));
      }
    }
    if AllMissing(mem, root, front) && Disjoint(front) && FreeFor(mem, root, AddJobs(front), last) {
      forall i: nat, k: nat, i': nat, k': nat, q: nat | Visits(jobs, i, k, q) && Visits(jobs, i', k', q)
        ensures i == i' && Walk(mem, root, 4, q) == Missing
      {
        if i < n { assert Visits(front, i, k, q); }
        if i' < n { assert Visits(front, i', k', q); }
      }
    }
  }

  lemma MappedIsExact(mem: Memory, m: Memory, root: nat, jobs: seq<Job>)
    requires Mapped(mem, m, root, AddJobs(jobs)) && Disjoint(jobs)
    ensures MapsExactly(mem, m, root, jobs)
  {
    hide Walk, Nth, AddJobs, Total;
    forall i: nat, k: nat, q: nat | Visits(jobs, i, k, q)
      ensures Walk(m, root, 4, q) == Leaf(3, LeafEntry(jobs[i].frame + k, jobs[i].prot))
    {
      AddJobsValue(jobs, i, k, q);
    }
    forall q: nat | q < PAGE_COUNT && !Visited(jobs, q)
      ensures Walk(m, root, 4, q) == Walk(mem, root, 4, q)
    {
      InAddJobs(jobs, q);
    }
  }

  // ----- commit and restore -----

  /** Memory after writing tables one after the other. */
  ghost function WriteAll(mem: Memory, ts: seq<Saved>): Memory {
    if |ts| == 0 then mem
    else WriteAll(mem, ts[..|ts| - 1])[ts[|ts| - 1].frame := ts[|ts| - 1].table]
  }

  /** The tables of `ts` are tables of `m`. */
  ghost predicate From(ts: seq<Saved>, m: Memory) {
    forall i | 0 <= i < |ts| :: ts[i].frame in m && ts[i].table == m[ts[i].frame]
  }

  ghost predicate Has(ts: seq<Saved>, f: int) {
    exists i :: 0 <= i < |ts| && ts[i].frame == f
  }

  /** Writing tables in any order puts each of them in its frame and touches no other. */
  lemma {:induction false} WriteAllAt(mem: Memory, ts: seq<Saved>, m: Memory, f: int)
    requires From(ts, m)
    ensures f in WriteAll(mem, ts) <==> f in mem || Has(ts, f)
    ensures f in WriteAll(mem, ts) ==> WriteAll(mem, ts)[f] == if Has(ts, f) then m[f] else mem[f]
    decreases |ts|
  {
    if |ts| > 0 {
      var n := |ts| - 1;
      WriteAllAt(mem, ts[..n], m, f);
      if Has(ts[..n], f) {
        var i :| 0 <= i < n && ts[..n][i].frame == f;
        assert ts[i].frame == f;
      }
      if Has(ts, f) && ts[n].frame != f {
        var i :| 0 <= i < |ts| && ts[i].frame == f;
        assert ts[..n][i].frame == f;
      }
    }
  }

  /** `commit_page_tables`; `transferred` is the number of tables the kernel writes. */
  method CommitPageTables(guest: Guest, ts: seq<Saved>, transferred: nat) returns (ok: bool)
    modifies guest
    ensures ok <==> transferred >= |ts|
    ensures guest.tables == WriteAll(old(guest.tables), if ok then ts else ts[..transferred])
  {
    var i := 0;
    while i < |ts| && i < transferred
      invariant 0 <= i <= |ts| && i <= transferred
      invariant guest.tables == WriteAll(old(guest.tables), ts[..i])
    {
      guest.tables := guest.tables[ts[i].frame := ts[i].table];
      i := i + 1;
      assert ts[..i][..i - 1] == ts[..i - 1];
    }
    assert ts[..|ts|] == ts;
    ok := i == |ts|;
  }

  /** The values of the cache; the order is immaterial, by `CommitIsOverlay`. */
  method TablesOf(m: Memory, limit: nat) returns (ts: seq<Saved>)
    requires forall f | f in m :: 0 <= f < limit
    ensures From(ts, m) && forall f | f in m :: Has(ts, f)
  {
    ts := [];
    for g := 0 to limit
      invariant From(ts, m) && forall f | f in m && f < g :: Has(ts, f)
    {
      if g in m {
        ghost var before := ts;
        ts := ts + [Saved(g, m[g])];
        assert ts[|before|].frame == g;
        forall f | f in m && f < g ensures Has(ts, f) {
          var i :| 0 <= i < |before| && before[i].frame == f;
          assert ts[i].frame == f;
        }
      }
    }
  }

  /** What `map_memory` keeps to undo the mapping. */
  datatype VirtMem = VirtMem(saved: seq<Saved>, mappings: seq<MappedMemory>)

  /** Mapping `i` is the first one that breaks a rule, and `e` names the rule. */
  ghost predicate FirstBad(ms: seq<MappedMemory>, i: int, e: MapError)
    requires 0 <= i < |ms|
  {
    && WellFormed(ms[..i])
    && if !Aligned(ms[i]) then e == NotAligned
       else i > 0 && !Follows(ms[i - 1], ms[i]) && e == NotConsecutive
  }

  /** The alignment and order checks of `map_memory`. */
  method CheckMappings(ms: seq<MappedMemory>) returns (r: Option<MapError>)
    ensures r.None? <==> WellFormed(ms)
    ensures r.Some? ==> exists i :: 0 <= i < |ms| && FirstBad(ms, i, r.value)
  {
    var i := 0;
    while i < |ms|
      invariant 0 <= i <= |ms| && WellFormed(ms[..i])
    {
      if !Aligned(ms[i]) {
        assert FirstBad(ms, i, NotAligned);
        return Some(NotAligned);
      }
      if i > 0 && !Follows(ms[i - 1], ms[i]) {
        assert FirstBad(ms, i, NotConsecutive);
        return Some(NotConsecutive);
      }
      i := i + 1;
    }
    assert ms[..i] == ms;
    return None;
  }

  /** The setting `map_memory` relies on: the guest's tables lie below the new memory, and the
      tables on the paths of the wanted pages are not shared with other paths. */
  ghost predicate Setting(mem: Memory, root: nat, ms: seq<MappedMemory>)
    requires |ms| > 0
  {
    && (forall f | f in mem :: 0 <= f < TableBase(ms))
    && TablesUnder(mem, root, TableBase(ms))
    && Unshared(mem, root, VisitedPages(Jobs(ms)))
    && forall i | 0 <= i < |ms| :: ms[i].len < WORD
  }

  /** Exactly the requests that `map_memory` accepts. */
  ghost predicate Accepts(mem: Memory, root: nat, ms: seq<MappedMemory>) {
    root in mem && WellFormed(ms) && AllMissing(mem, root, Jobs(ms)) && Disjoint(Jobs(ms))
  }

  /** Writing back the saved tables gives every frame of `mem` its old table; all it leaves
      behind are new tables in the frames from `base` on. */
  ghost predicate Undoes(mem: Memory, m: Memory, saved: seq<Saved>, base: nat) {
    && (forall f | f in mem :: f in WriteAll(m, saved) && WriteAll(m, saved)[f] == mem[f])
    && (forall f | f in WriteAll(m, saved) && f !in mem :: base <= f)
  }

  lemma UndoesFromCache(mem: Memory, base: nat, upsert: Memory, saved: seq<Saved>, ptAddr: nat, m: Memory)
    requires Cache(mem, base, upsert, saved, ptAddr) && m == mem + upsert
    requires forall f | f in mem :: f >= 0
    ensures Undoes(mem, m, saved, base)
    ensures forall f | f in m :: f in mem || base <= f < ptAddr
    ensures forall f | f in upsert :: 0 <= f < ptAddr
  {
    assert From(saved, mem);
    forall f | f in mem ensures f in WriteAll(m, saved) && WriteAll(m, saved)[f] == mem[f] {
      WriteAllAt(m, saved, mem, f);
    }
    forall f | f in WriteAll(m, saved) && f !in mem ensures base <= f {
      WriteAllAt(m, saved, mem, f);
    }
  }

  lemma CommitIsOverlay(mem: Memory, upsert: Memory, ts: seq<Saved>)
    requires From(ts, upsert) && forall f | f in upsert :: Has(ts, f)
    ensures WriteAll(mem, ts) == mem + upsert
  {
    forall f ensures f in WriteAll(mem, ts) <==> f in mem + upsert
             ensures f in WriteAll(mem, ts) ==> WriteAll(mem, ts)[f] == (mem + upsert)[f]
    {
      WriteAllAt(mem, ts, upsert, f);
    }
  }

  lemma NoJobs(mem: Memory, root: nat, jobs: seq<Job>)
    requires jobs == []
    ensures AllMissing(mem, root, jobs) && Disjoint(jobs) && AddJobs(jobs) == map[]
  {
  }

  lemma WantedPages(jobs: seq<Job>, i: nat)
    requires i < |jobs|
    ensures InPages(jobs[i], VisitedPages(jobs))
    ensures forall q | q in VisitedPages(jobs) :: q < PAGE_COUNT
  {
    hide Nth;
    forall k: nat | k < Total(jobs[i]) && Nth(jobs[i].start, k) < PAGE_COUNT
      ensures Nth(jobs[i].start, k) in VisitedPages(jobs)
    {
      assert Visits(jobs, i, k, Nth(jobs[i].start, k));
    }
  }

  lemma JobWord(m: MappedMemory)
    requires m.len < WORD
    ensures JobOf(m).start < PAGE_COUNT && JobOf(m).count < LEN_WRAP
  {
  }

  lemma AddJobsStep(jobs: seq<Job>, i: nat)
    requires i < |jobs|
    ensures AddJobs(jobs[..i + 1]) ==
            AddPages(AddJobs(jobs[..i]), jobs[i], Reach(jobs[i].start, Total(jobs[i])))
  {
    hide Reach, Total;
    assert jobs[..i + 1][..i] == jobs[..i];
  }

  lemma {:induction false} PrefixFree(mem: Memory, root: nat, jobs: seq<Job>, n: nat)
    requires n <= |jobs| && AllMissing(mem, root, jobs) && Disjoint(jobs)
    ensures AllMissing(mem, root, jobs[..n]) && Disjoint(jobs[..n])
    decreases |jobs|
  {
    if n == |jobs| {
      assert jobs[..n] == jobs;
    } else {
      FreeStep(mem, root, jobs);
      PrefixFree(mem, root, jobs[..|jobs| - 1], n);
      assert jobs[..|jobs| - 1][..n] == jobs[..n];
    }
  }

  /** A wanted page is in the way, and the error says how; jobs before it were mapped. */
  ghost predicate Explains(mem: Memory, root: nat, ms: seq<MappedMemory>, e: MapError) {
    if root !in mem then e == NotBacked
    else if !WellFormed(ms) then exists i :: 0 <= i < |ms| && FirstBad(ms, i, e)
    else exists i: nat, k: nat :: i < |ms| && ConflictAt(mem, root, AddJobs(Jobs(ms)[..i]), JobOf(ms[i]), k, e)
  }

  /** The method `map_memory`.  It accepts exactly the requests of `Accepts`; a rejected
      request changes nothing and the error names the obstacle; an accepted one maps exactly
      the visited pages, can be undone, and puts its new tables behind the mapped memory.
      `transferred` is how many tables the kernel writes at the commit.  If it writes fewer than
      there are to be `written`, the call fails, and these stay in the guest. */
  method MapMemory(guest: Guest, root: nat, ms: seq<MappedMemory>, transferred: nat)
    returns (r: Result<VirtMem, MapError>, ghost slots: seq<(nat, nat)>, ghost written: seq<Saved>)
    requires |ms| > 0 && Setting(guest.tables, root, ms)
    modifies guest
    ensures r.Ok? || r.error == WriteFailed <==> Accepts(old(guest.tables), root, ms)
    ensures Accepts(old(guest.tables), root, ms) ==>
              && (r.Ok? <==> transferred >= |written|)
              && guest.tables == WriteAll(old(guest.tables), if r.Ok? then written else written[..transferred])
              && MapsExactly(old(guest.tables), WriteAll(old(guest.tables), written), root, Jobs(ms))
    ensures r.Err? && r.error != WriteFailed ==>
              guest.tables == old(guest.tables) && Explains(old(guest.tables), root, ms, r.error)
    ensures r.Ok? ==> MapsExactly(old(guest.tables), guest.tables, root, Jobs(ms))
    ensures r.Ok? ==> Undoes(old(guest.tables), guest.tables, r.value.saved, TableBase(ms))
    ensures r.Ok? ==> r.value.mappings == ms
    ensures r.Ok? ==> Hung(guest.tables, root, VisitedPages(Jobs(ms)), TableBase(ms), slots)
    ensures r.Ok? ==> Grown(old(guest.tables), guest.tables, root, slots)
    ensures r.Ok? ==> forall f | f in guest.tables ::
                        f in old(guest.tables) || TableBase(ms) <= f < TableBase(ms) + |slots|
  {
    hide Walk, Up, Slots, Nth, Total, Reach, Mapped, Hung, Grown, Unshared, TablesUnder, MapsExactly,
         Disjoint, AllMissing, AddJobs, FreeFor, InPages, Cache, ConflictAt, WriteAll, Undoes, From,
         Has, VisitedPages;
    slots, written := [], [];
    if root !in guest.tables {
      return Err(NotBacked), slots, written;
    }
    var bad := CheckMappings(ms);
    if bad.Some? {
      return Err(bad.value), slots, written;
    }
    ghost var jobs := Jobs(ms);
    ghost var mem: Memory := guest.tables;
    WantedPages(jobs, 0);
    var editor := new Editor(guest, root, TableBase(ms), VisitedPages(jobs));
    NoJobs(mem, root, jobs[..0]);
    var i := 0;
    while i < |ms|
      invariant 0 <= i <= |ms| && editor.Valid() && guest.tables == mem
      invariant editor.done == AddJobs(jobs[..i])
      invariant AllMissing(mem, root, jobs[..i]) && Disjoint(jobs[..i])
    {
      WantedPages(jobs, i);
      JobWord(ms[i]);
      assert jobs[..i + 1][..i] == jobs[..i];
      FreeStep(mem, root, jobs[..i + 1]);
      var one := editor.MapSingle(JobOf(ms[i]));
      if one.Err? {
        if AllMissing(mem, root, jobs) && Disjoint(jobs) { PrefixFree(mem, root, jobs, i + 1); }
        return Err(one.error), slots, written;
      }
      AddJobsStep(jobs, i);
      i := i + 1;
    }
    assert jobs[..i] == jobs;
    ghost var view: Memory := editor.View();
    MappedIsExact(mem, view, root, jobs);
    UndoesFromCache(mem, TableBase(ms), editor.upsert, editor.saved, editor.ptAddr, view);
    var tables := TablesOf(editor.upsert, editor.ptAddr);
    CommitIsOverlay(mem, editor.upsert, tables);
    written := tables;
    var ok := CommitPageTables(guest, tables, transferred);
    if !ok {
      return Err(WriteFailed), slots, written;
    }
    slots := editor.hung;
    return Ok(VirtMem(editor.saved, ms)), slots, written;
  }

  /** `VirtMem::drop` writes the saved tables back. */
  method Drop(guest: Guest, vm: VirtMem, transferred: nat) returns (ok: bool)
    modifies guest
    ensures ok <==> transferred >= |vm.saved|
    ensures ok ==> guest.tables == WriteAll(old(guest.tables), vm.saved)
  {
    ok := CommitPageTables(guest, vm.saved, transferred);
  }

  /** Memory that agrees with `mem` below `base` walks like `mem`. */
  lemma {:induction false} AgreeWalk(mem: Memory, m: Memory, root: nat, base: nat, l: nat, y: nat)
    requires TablesUnder(mem, root, base) && l <= 4 && y < Slots(l)
    requires forall f | f in mem :: f in m && m[f] == mem[f]
    requires forall f | f in m && f !in mem :: base <= f
    ensures Walk(m, root, l, y) == Walk(mem, root, l, y)
    decreases l
  {
    if l > 0 {
      AgreeWalk(mem, m, root, base, l - 1, y / 512);
      if Walk(mem, root, l - 1, y / 512).At? {
        assert Walk(mem, root, l - 1, y / 512).table < base;
      }
    }
  }

  /** Mapping and dropping without guest writes in between: every frame of the guest has its
      old table again and every page its old translation. */
  method MapThenDrop(guest: Guest, root: nat, ms: seq<MappedMemory>, transferred: nat)
    returns (mapped: bool)
    requires |ms| > 0 && Setting(guest.tables, root, ms)
    modifies guest
    ensures mapped ==> forall f | f in old(guest.tables) ::
                         f in guest.tables && guest.tables[f] == old(guest.tables)[f]
    ensures mapped ==> forall q: nat | q < PAGE_COUNT ::
                         Walk(guest.tables, root, 4, q) == Walk(old(guest.tables), root, 4, q)
  {
    hide Walk, Slots, TablesUnder, Unshared, MapsExactly, Hung, Grown, Accepts, Explains, WriteAll;
    ghost var mem: Memory := guest.tables;
    var r, slots, written := MapMemory(guest, root, ms, transferred);
    if r.Err? {
      return false;
    }
    mapped := Drop(guest, r.value, transferred);
    if mapped {
      forall q: nat | q < PAGE_COUNT ensures Walk(guest.tables, root, 4, q) == Walk(mem, root, 4, q) {
        SlotsOfPages();
        AgreeWalk(mem, guest.tables, root, TableBase(ms), 4, q);
      }
    }
  }

  /** Page `q` is one of the pages a job asks for. */
  ghost predicate Wants(job: Job, q: nat) {
    job.start <= q < job.start + job.count
  }

  /** The pages a job asks for translate to its frames. */
  ghost predicate Delivers(m: Memory, root: nat, job: Job) {
    forall q: nat | Wants(job, q) ::
      Walk(m, root, 4, q) == Leaf(3, LeafEntry(job.frame + (q - job.start), job.prot))
  }

  /** After a successful call, a range inside the address space whose pages were free and
      wanted by no other mapping is mapped as asked for if and only if it has no bad crossing.
      (`CrossingSkipsPages` is an input for which it is not.) */
  lemma DeliversExactly(mem: Memory, m: Memory, root: nat, jobs: seq<Job>, i: nat)
    requires i < |jobs| && jobs[i].count > 0 && jobs[i].start + jobs[i].count <= PAGE_COUNT
    requires MapsExactly(mem, m, root, jobs)
    requires forall q: nat | Wants(jobs[i], q) :: Walk(mem, root, 4, q) == Missing
    requires forall q: nat, i': nat, k': nat | Wants(jobs[i], q) && Visits(jobs, i', k', q) :: i' == i
    ensures Delivers(m, root, jobs[i]) <==> NoBadCrossing(jobs[i].start, jobs[i].count)
  {
    hide Walk, Nth;
    var job := jobs[i];
    ContiguousExactly(job.start, job.count);
    if Contiguous(job.start, job.count) {
      forall q: nat | Wants(job, q)
        ensures Walk(m, root, 4, q) == Leaf(3, LeafEntry(job.frame + (q - job.start), job.prot))
      {
        assert Visits(jobs, i, q - job.start, q);
      }
    }
    if Delivers(m, root, job) {
      forall k: nat | k < job.count ensures Nth(job.start, k) == job.start + k {
        var q := job.start + k;
        assert Wants(job, q);
        assert Visited(jobs, q);
        var i': nat, k': nat :| Visits(jobs, i', k', q);
      }
    }
  }
}
