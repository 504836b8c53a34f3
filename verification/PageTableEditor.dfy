/** The page table editor of `map_memory`: the table cache, the nested loops, the commit and
    the restore, proved against the reference walk. */
module PageTableEditor {
  import opened Wrappers
  import opened PageTableEntry
  import opened PageWalk
  import opened PageVisit

  datatype MapError = NotAligned | NotConsecutive | NotBacked | HugeTable | AlreadyMapped | WriteFailed

  /** A table as it was read from the guest. */
  datatype Saved = Saved(frame: nat, table: Table)

  /** A mapping in units of pages: `count` frames from `frame` on, wanted at the pages from
      `start` on. */
  datatype Job = Job(start: nat, frame: nat, count: nat, prot: Prot)

  /** The error the editor reports for a page whose walk does not end at a free entry. */
  function Conflict(w: Cursor): MapError {
    match w
    case Leaf(level, _) => if level == 3 then AlreadyMapped else HugeTable
    case _ => NotBacked
  }

  // ----- the state of an edit -----

  ghost predicate OldExact(mem: Memory, upsert: Memory, saved: seq<Saved>) {
    && (forall i | 0 <= i < |saved| :: saved[i].frame in mem && saved[i].table == mem[saved[i].frame])
    && (forall i, j | 0 <= i < j < |saved| :: saved[i].frame != saved[j].frame)
    && (forall i | 0 <= i < |saved| :: saved[i].frame in upsert)
    && (forall f | f in upsert && f in mem :: exists i :: 0 <= i < |saved| && saved[i].frame == f)
  }

  /** The cache holds guest tables, each saved once, and the new tables `base..ptAddr`. */
  ghost predicate Cache(mem: Memory, base: nat, upsert: Memory, saved: seq<Saved>, ptAddr: nat) {
    && base <= ptAddr
    && (forall f | f in mem :: f < base)
    && (forall f | f in upsert :: f in mem || base <= f < ptAddr)
    && (forall f | base <= f < ptAddr :: f in upsert)
    && OldExact(mem, upsert, saved)
  }

  /** Every table a walk can reach lies below `limit`. */
  ghost predicate TablesUnder(m: Memory, root: nat, limit: nat) {
    forall l: nat, x: nat | l <= 3 && x < Slots(l) && Walk(m, root, l, x).At? ::
      Walk(m, root, l, x).table < limit
  }

  ghost predicate Shape(m: Memory, root: nat, pages: iset<nat>, ptAddr: nat) {
    && Unshared(m, root, pages)
    && (forall q | q in pages :: q < PAGE_COUNT)
    && TablesUnder(m, root, ptAddr)
  }

  /** Memory `m` translates the pages of `done` to their new entries, all of which were free
      in `mem`, and every other page as `mem` does. */
  ghost predicate Mapped(mem: Memory, m: Memory, root: nat, done: map<int, Entry>) {
    && (forall q | q in done :: 0 <= q < PAGE_COUNT && Walk(mem, root, 4, q) == Missing)
    && (forall q: nat | q < PAGE_COUNT ::
          Walk(m, root, 4, q) == if q in done then Leaf(3, done[q]) else Walk(mem, root, 4, q))
  }

  /** The slot lies on the path of a page of `pages`. */
  ghost predicate OnPath(pages: iset<nat>, slot: (nat, nat)) {
    exists q: nat :: q in pages && Up(4, q, slot.0) == slot.1
  }

  /** The slots of the new tables, in the order of their frames; each lies on the path of a
      page of `pages`. */
  ghost predicate Hung(m: Memory, root: nat, pages: iset<nat>, base: nat, hung: seq<(nat, nat)>) {
    forall j | 0 <= j < |hung| ::
      && 1 <= hung[j].0 <= 3 && hung[j].1 < Slots(hung[j].0)
      && Walk(m, root, hung[j].0, hung[j].1) == At(base + j)
      && OnPath(pages, hung[j])
  }

  /** Slots that lead to a table in `m` lead to the same table in `h`. */
  ghost predicate Stays(m: Memory, h: Memory, root: nat) {
    forall l: nat, y: nat | l <= 3 && y < Slots(l) && Walk(m, root, l, y).At? ::
      Walk(h, root, l, y) == Walk(m, root, l, y)
  }

  /** `m` has the tables of `mem`, and every further table is one of the new ones. */
  ghost predicate Grown(mem: Memory, m: Memory, root: nat, hung: seq<(nat, nat)>) {
    && Stays(mem, m, root)
    && forall l: nat, x: nat | 1 <= l <= 3 && x < Slots(l) && Walk(m, root, l, x).At? ::
         Walk(mem, root, l, x).At? || (l, x) in hung
  }

  /** The invariant of an edit; `m` is guest memory as the cache overlays it. */
  ghost predicate Inv(mem: Memory, m: Memory, root: nat, base: nat, pages: iset<nat>, upsert: Memory,
                      saved: seq<Saved>, ptAddr: nat, done: map<int, Entry>, hung: seq<(nat, nat)>) {
    && m == mem + upsert
    && Cache(mem, base, upsert, saved, ptAddr)
    && Shape(m, root, pages, ptAddr)
    && Mapped(mem, m, root, done)
    && Hung(m, root, pages, base, hung)
    && Grown(mem, m, root, hung)
    && |hung| == ptAddr - base
  }

  /** A table slot on the path of a page of `pages` is the only way to its table. */
  lemma SoleOnPath(m: Memory, root: nat, pages: iset<nat>, q: nat, l: nat, t: nat)
    requires Unshared(m, root, pages) && q in pages && l <= 3
    requires Walk(m, root, l, Up(4, q, l)) == At(t)
    ensures Sole(m, root, t, l, Up(4, q, l))
  {
  }

  /** Reading a guest table into the cache. */
  lemma ReadKeepsCache(mem: Memory, base: nat, upsert: Memory, saved: seq<Saved>, ptAddr: nat, f: nat)
    requires Cache(mem, base, upsert, saved, ptAddr) && f in mem && f !in upsert
    ensures mem + upsert[f := mem[f]] == mem + upsert
    ensures Cache(mem, base, upsert[f := mem[f]], saved + [Saved(f, mem[f])], ptAddr)
  {
    var upsert', saved' := upsert[f := mem[f]], saved + [Saved(f, mem[f])];
    forall g | g in upsert' && g in mem
      ensures exists i :: 0 <= i < |saved'| && saved'[i].frame == g
    {
      if g == f {
        assert saved'[|saved|].frame == g;
      } else {
        var i :| 0 <= i < |saved| && saved[i].frame == g;
        assert saved'[i].frame == g;
      }
    }
  }

  /** Changing one entry of a cached table. */
  lemma EditKeepsCache(mem: Memory, base: nat, upsert: Memory, saved: seq<Saved>, ptAddr: nat,
                       t: nat, i: nat, e: Entry)
    requires Cache(mem, base, upsert, saved, ptAddr) && t in upsert && i < 512
    ensures Cache(mem, base, upsert[t := upsert[t][i := e]], saved, ptAddr)
    ensures mem + upsert[t := upsert[t][i := e]] ==
            (mem + upsert)[t := (mem + upsert)[t][i := e]]
  {
  }

  /** Adding the next new table. */
  lemma AllocateKeepsCache(mem: Memory, base: nat, upsert: Memory, saved: seq<Saved>, ptAddr: nat)
    requires Cache(mem, base, upsert, saved, ptAddr)
    ensures Cache(mem, base, upsert[ptAddr := EmptyTable()], saved, ptAddr + 1)
    ensures mem + upsert[ptAddr := EmptyTable()] == (mem + upsert)[ptAddr := EmptyTable()]
  {
  }

  /** `h` walks like `m`, except that slot `y0` of level `l0` leads to the table `f`. */
  ghost predicate HangsAt(m: Memory, h: Memory, root: nat, l0: nat, y0: nat, f: nat) {
    forall l: nat, y: nat | l <= 4 && y < Slots(l) ::
      Walk(h, root, l, y) == if l == l0 && y == y0 then At(f) else Walk(m, root, l, y)
  }

  lemma HangKeepsShape(m: Memory, root: nat, pages: iset<nat>, ptAddr: nat,
                       t: nat, i: nat, l: nat, x: nat, q: nat)
    requires Shape(m, root, pages, ptAddr)
    requires l < 3 && x < Slots(l) && Walk(m, root, l, x) == At(t)
    requires t in m && i < 512 && !Present(m[t][i])
    requires q in pages && Up(4, q, l + 1) == x * 512 + i
    ensures HangsAt(m, Hang(m, t, i, ptAddr), root, l + 1, x * 512 + i, ptAddr)
    ensures Walk(m, root, l + 1, x * 512 + i) == Missing && x * 512 + i < Slots(l + 1)
    ensures Shape(Hang(m, t, i, ptAddr), root, pages, ptAddr + 1)
  {
    hide Hang;
    var h: Memory := Hang(m, t, i, ptAddr);
    assert Sole(m, root, t, l, x) by {
      UpStep(4, q, l + 1);
      SoleOnPath(m, root, pages, q, l, t);
    }
    StepDown(m, root, l, x, t, i);
    forall l': nat, y: nat | l' <= 4 && y < Slots(l')
      ensures Walk(h, root, l', y) ==
              if l' == l + 1 && y == x * 512 + i then At(ptAddr) else Walk(m, root, l', y)
    {
      HangEffect(m, root, t, i, ptAddr, l, x, l', y);
    }
    HangKeepsUnshared(m, root, t, i, ptAddr, l, x, pages);
  }

  lemma HangKeepsMapped(mem: Memory, m: Memory, h: Memory, root: nat, done: map<int, Entry>,
                        l0: nat, y0: nat, f: nat)
    requires Mapped(mem, m, root, done) && HangsAt(m, h, root, l0, y0, f) && l0 <= 3
    ensures Mapped(mem, h, root, done)
  {
    assert Slots(4) == PAGE_COUNT;
  }

  function Extend(hung: seq<(nat, nat)>, l: nat, y: nat): seq<(nat, nat)> {
    hung + [(l, y)]
  }

  lemma HangKeepsHung(m: Memory, h: Memory, root: nat, pages: iset<nat>, base: nat,
                      hung: seq<(nat, nat)>, l0: nat, y0: nat, q: nat)
    requires Hung(m, root, pages, base, hung)
    requires HangsAt(m, h, root, l0, y0, base + |hung|) && Walk(m, root, l0, y0) == Missing
    requires 1 <= l0 <= 3 && y0 < Slots(l0) && q in pages && Up(4, q, l0) == y0
    ensures Hung(h, root, pages, base, Extend(hung, l0, y0))
  {
    var hung' := Extend(hung, l0, y0);
    forall j | 0 <= j < |hung'|
      ensures Walk(h, root, hung'[j].0, hung'[j].1) == At(base + j)
      ensures OnPath(pages, hung'[j])
    {
      if j < |hung| {
        assert hung'[j] == hung[j];
      }
    }
  }

  lemma StaysAt(m: Memory, h: Memory, root: nat, l: nat, y: nat, t: nat)
    requires Stays(m, h, root) && l <= 3 && y < Slots(l) && Walk(m, root, l, y) == At(t)
    ensures Walk(h, root, l, y) == At(t)
  {
  }

  lemma StaysTransitive(m1: Memory, m2: Memory, m3: Memory, root: nat)
    requires Stays(m1, m2, root) && Stays(m2, m3, root)
    ensures Stays(m1, m3, root)
  {
  }

  lemma HangStays(m: Memory, h: Memory, root: nat, l0: nat, y0: nat, f: nat)
    requires HangsAt(m, h, root, l0, y0, f) && Walk(m, root, l0, y0) == Missing
    ensures Stays(m, h, root)
  {
  }

  lemma StaysReflexive(m: Memory, root: nat)
    ensures Stays(m, m, root)
  {
  }

  lemma HangsThere(m: Memory, h: Memory, root: nat, l0: nat, y0: nat, f: nat)
    requires HangsAt(m, h, root, l0, y0, f) && l0 <= 4 && y0 < Slots(l0)
    ensures Walk(h, root, l0, y0) == At(f)
  {
  }

  /** The cache with an empty table `f` behind entry `i` of table `t`. */
  function Hooked(upsert: Memory, t: nat, i: nat, f: nat): Memory
    requires t in upsert && i < 512
  {
    upsert[t := upsert[t][i := TableEntry(f)]][f := EmptyTable()]
  }

  lemma HangKeepsCache(mem: Memory, m: Memory, base: nat, upsert: Memory, saved: seq<Saved>,
                       ptAddr: nat, t: nat, i: nat, upsert': Memory)
    requires Cache(mem, base, upsert, saved, ptAddr) && t in upsert && i < 512 && m == mem + upsert
    requires upsert' == Hooked(upsert, t, i, ptAddr)
    ensures Cache(mem, base, upsert', saved, ptAddr + 1)
    ensures mem + upsert' == Hang(m, t, i, ptAddr) && m[t] == upsert[t]
  {
    var e := TableEntry(ptAddr);
    EditKeepsCache(mem, base, upsert, saved, ptAddr, t, i, e);
    AllocateKeepsCache(mem, base, upsert[t := upsert[t][i := e]], saved, ptAddr);
  }

  lemma HangKeepsGrown(mem: Memory, m: Memory, h: Memory, root: nat, hung: seq<(nat, nat)>,
                       l0: nat, y0: nat, f: nat)
    requires Grown(mem, m, root, hung) && HangsAt(m, h, root, l0, y0, f)
    requires Walk(m, root, l0, y0) == Missing
    ensures Grown(mem, h, root, Extend(hung, l0, y0))
  {
    HangStays(m, h, root, l0, y0, f);
    StaysTransitive(mem, m, h, root);
    assert (l0, y0) in Extend(hung, l0, y0);
  }

  /** Allocating a new table for an entry that is not present. */
  lemma HangKeepsInv(mem: Memory, m: Memory, root: nat, base: nat, pages: iset<nat>, upsert: Memory,
                     saved: seq<Saved>, ptAddr: nat, done: map<int, Entry>, hung: seq<(nat, nat)>,
                     t: nat, i: nat, l: nat, x: nat, q: nat, upsert': Memory, h: Memory)
    requires l < 3 && x < Slots(l) && Walk(m, root, l, x) == At(t)
    requires t in upsert && i < 512 && !Present(upsert[t][i])
    requires q in pages && Up(4, q, l + 1) == x * 512 + i
    requires upsert' == Hooked(upsert, t, i, ptAddr)
    requires h == mem + upsert'
    requires Inv(mem, m, root, base, pages, upsert, saved, ptAddr, done, hung)
    ensures Walk(h, root, l + 1, x * 512 + i) == At(ptAddr) && Stays(m, h, root)
    ensures Inv(mem, h, root, base, pages, upsert', saved, ptAddr + 1, done,
                Extend(hung, l + 1, x * 512 + i))
  {
    hide Cache, Shape, Mapped, Hung, Grown, HangsAt, Walk, Up, Slots, Hang, Stays, Hooked;
    HangKeepsCache(mem, m, base, upsert, saved, ptAddr, t, i, upsert');
    HangKeepsShape(m, root, pages, ptAddr, t, i, l, x, q);
    HangKeepsMapped(mem, m, h, root, done, l + 1, x * 512 + i, ptAddr);
    HangKeepsHung(m, h, root, pages, base, hung, l + 1, x * 512 + i, q);
    HangKeepsGrown(mem, m, h, root, hung, l + 1, x * 512 + i, ptAddr);
    HangStays(m, h, root, l + 1, x * 512 + i, ptAddr);
    HangsThere(m, h, root, l + 1, x * 512 + i, ptAddr);
  }

  /** `h` walks like `m`, except that page `q` leads to the leaf `e`. */
  ghost predicate LeafAt(m: Memory, h: Memory, root: nat, q: nat, e: Entry) {
    forall l: nat, y: nat | l <= 4 && y < Slots(l) ::
      Walk(h, root, l, y) == if l == 4 && y == q then Leaf(3, e) else Walk(m, root, l, y)
  }

  lemma LeafKeepsShape(m: Memory, root: nat, pages: iset<nat>, ptAddr: nat,
                       t: nat, i: nat, x: nat, e: Entry, h: Memory)
    requires Shape(m, root, pages, ptAddr)
    requires x < Slots(3) && Walk(m, root, 3, x) == At(t) && t in m && i < 512 && Present(e)
    requires x * 512 + i in pages && h == m[t := m[t][i := e]]
    ensures Shape(h, root, pages, ptAddr)
    ensures LeafAt(m, h, root, x * 512 + i, e)
  {
    assert Up(4, x * 512 + i, 3) == x;
    SoleOnPath(m, root, pages, x * 512 + i, 3, t);
    forall l: nat, y: nat | l <= 4 && y < Slots(l)
      ensures Walk(h, root, l, y) ==
              if l == 4 && y == x * 512 + i then Leaf(3, e) else Walk(m, root, l, y)
    {
      LeafEdit(m, root, t, i, e, x, l, y);
    }
    LeafEditKeepsUnshared(m, root, t, i, e, x, pages);
  }

  lemma LeafKeepsMapped(mem: Memory, m: Memory, h: Memory, root: nat, done: map<int, Entry>,
                        q: nat, e: Entry)
    requires Mapped(mem, m, root, done) && LeafAt(m, h, root, q, e)
    requires q < PAGE_COUNT && Walk(m, root, 4, q) == Missing
    ensures Mapped(mem, h, root, done[q := e])
  {
    hide Walk, Slots;
    SlotsOfPages();
  }

  lemma LeafKeepsHung(m: Memory, h: Memory, root: nat, pages: iset<nat>, base: nat,
                      hung: seq<(nat, nat)>, q: nat, e: Entry)
    requires Hung(m, root, pages, base, hung) && LeafAt(m, h, root, q, e)
    ensures Hung(h, root, pages, base, hung)
  {
  }

  lemma LeafStays(m: Memory, h: Memory, root: nat, q: nat, e: Entry)
    requires LeafAt(m, h, root, q, e)
    ensures Stays(m, h, root)
  {
  }

  lemma LeafKeepsGrown(mem: Memory, m: Memory, h: Memory, root: nat, hung: seq<(nat, nat)>,
                       q: nat, e: Entry)
    requires Grown(mem, m, root, hung) && LeafAt(m, h, root, q, e)
    ensures Grown(mem, h, root, hung)
  {
    LeafStays(m, h, root, q, e);
    StaysTransitive(mem, m, h, root);
  }

  /** Installing a leaf. */
  lemma LeafKeepsInv(mem: Memory, m: Memory, root: nat, base: nat, pages: iset<nat>, upsert: Memory,
                     saved: seq<Saved>, ptAddr: nat, done: map<int, Entry>, hung: seq<(nat, nat)>,
                     t: nat, i: nat, x: nat, e: Entry, q: nat, upsert': Memory, h: Memory)
    requires Inv(mem, m, root, base, pages, upsert, saved, ptAddr, done, hung)
    requires x < Slots(3) && Walk(m, root, 3, x) == At(t)
    requires t in upsert && i < 512 && !Present(upsert[t][i]) && Present(e)
    requires q == x * 512 + i && q in pages
    requires upsert' == upsert[t := upsert[t][i := e]] && h == mem + upsert'
    ensures Stays(m, h, root)
    ensures Inv(mem, h, root, base, pages, upsert', saved, ptAddr, done[q := e], hung)
  {
    hide Cache, Shape, Mapped, Hung, Grown, LeafAt, Stays, Walk, Slots;
    SlotsOfPages();
    StepDown(m, root, 3, x, t, i);
    EditKeepsCache(mem, base, upsert, saved, ptAddr, t, i, e);
    LeafKeepsShape(m, root, pages, ptAddr, t, i, x, e, h);
    LeafKeepsMapped(mem, m, h, root, done, q, e);
    LeafKeepsHung(m, h, root, pages, base, hung, q, e);
    LeafStays(m, h, root, q, e);
    LeafKeepsGrown(mem, m, h, root, hung, q, e);
  }

  /** A walk that cannot continue at an entry decides the whole page. */
  lemma BlockedPage(m: Memory, root: nat, l: nat, x: nat, t: nat, i: nat, q: nat)
    requires l < 3 && Walk(m, root, l, x) == At(t) && t in m && i < 512 && Present(m[t][i])
    requires Up(4, q, l + 1) == x * 512 + i
    ensures Huge(m[t][i]) ==> Walk(m, root, 4, q) == Leaf(l, m[t][i])
    ensures !Huge(m[t][i]) ==> Walk(m, root, l + 1, x * 512 + i) == At(m[t][i].frame)
    ensures !Huge(m[t][i]) && m[t][i].frame !in m ==> Walk(m, root, 4, q) == Unbacked
  {
    StepDown(m, root, l, x, t, i);
    if Huge(m[t][i]) {
      WalkStops(m, root, 4, q, l + 1);
    } else if m[t][i].frame !in m {
      UpStep(4, q, l + 2);
      WalkStops(m, root, 4, q, l + 2);
    }
  }

  /** Guest physical memory. */
  class Guest {
    var tables: Memory
  }

  /** The length in pages is a machine word: 2^64 bytes are 2^52 pages. */
  const LEN_WRAP: nat := 0x10_0000_0000_0000

  /** The number of pages a job asks for.  The length is decremented before it is compared
      with zero, so a job of length zero asks for the whole address space. */
  function Total(job: Job): nat {
    if job.count == 0 then LEN_WRAP else job.count
  }

  /** The pages mapped after `k` iterations of the innermost loop. */
  ghost function AddPages(done: map<int, Entry>, job: Job, k: nat): map<int, Entry> {
    if k == 0 then done
    else AddPages(done, job, k - 1)[Nth(job.start, k - 1) := LeafEntry(job.frame + k - 1, job.prot)]
  }

  /** The first `k` pages of the job are mapped, none of which was mapped before. */
  ghost predicate Progress(job: Job, done0: map<int, Entry>, done: map<int, Entry>,
                           physFrame: nat, len: nat, k: nat) {
    && k <= Total(job) <= LEN_WRAP
    && physFrame == job.frame + k
    && len == (Total(job) - k) % LEN_WRAP
    && done == AddPages(done0, job, k)
    && forall j: nat | j < k :: Nth(job.start, j) !in done0
  }

  lemma {:induction false} AddPagesKeeps(done: map<int, Entry>, job: Job, k: nat, q: int)
    requires q in done
    ensures q in AddPages(done, job, k)
  {
    if k > 0 { AddPagesKeeps(done, job, k - 1, q); }
  }

  lemma {:induction false} AddPagesHas(done: map<int, Entry>, job: Job, k: nat, j: nat)
    requires j < k
    ensures Nth(job.start, j) in AddPages(done, job, k)
  {
    if j < k - 1 { AddPagesHas(done, job, k - 1, j); }
  }

  lemma {:induction false} AddPagesOnly(done: map<int, Entry>, job: Job, k: nat, q: int) returns (j: nat)
    requires q in AddPages(done, job, k) && q !in done
    ensures j < k && q == Nth(job.start, j)
  {
    if q == Nth(job.start, k - 1) {
      j := k - 1;
    } else {
      j := AddPagesOnly(done, job, k - 1, q);
    }
  }

  lemma ProgressStep(job: Job, done0: map<int, Entry>, done: map<int, Entry>,
                     physFrame: nat, len: nat, k: nat, q: nat)
    requires Progress(job, done0, done, physFrame, len, k) && k < Total(job)
    requires q == Nth(job.start, k) && q !in done
    ensures var len' := (len + LEN_WRAP - 1) % LEN_WRAP;
            && Progress(job, done0, done[q := LeafEntry(physFrame, job.prot)], physFrame + 1, len', k + 1)
            && (len' == 0 <==> k + 1 == Total(job))
  {
    hide Nth;
    if q in done0 { AddPagesKeeps(done0, job, k, q); }
  }

  /** A free entry is not among the pages mapped so far. */
  lemma FreeIsNew(mem: Memory, m: Memory, root: nat, done: map<int, Entry>, q: nat)
    requires Mapped(mem, m, root, done) && q < PAGE_COUNT && Walk(m, root, 4, q) == Missing
    ensures q !in done
  {
  }

  /** The state of one `map_memory` call: the cache of new and modified tables, the tables
      to restore later, and the address of the next new table. */
  class Editor {
    const guest: Guest
    const root: nat
    var upsert: Memory
    var saved: seq<Saved>
    var ptAddr: nat
    /** Next frame to map and remaining length of the current job, in pages. */
    var physFrame: nat
    var len: nat

    ghost const base: nat
    ghost const pages: iset<nat>
    ghost var done: map<int, Entry>
    ghost var hung: seq<(nat, nat)>

    ghost function View(): Memory
      reads this, guest
    {
      guest.tables + upsert
    }

    ghost predicate Valid()
      reads this, guest
    {
      && Inv(guest.tables, View(), root, base, pages, upsert, saved, ptAddr, done, hung)
      && root in upsert
    }

    /** Starts an edit by reading the root table. */
    constructor (guest: Guest, root: nat, base: nat, ghost pages: iset<nat>)
      requires root in guest.tables && forall f | f in guest.tables :: f < base
      requires Shape(guest.tables, root, pages, base)
      ensures Valid() && this.guest == guest && this.root == root
      ensures this.base == base && this.pages == pages && ptAddr == base
      ensures done == map[] && View() == guest.tables
    {
      this.guest, this.root, this.base, this.pages := guest, root, base, pages;
      upsert, saved, ptAddr := map[root := guest.tables[root]], [Saved(root, guest.tables[root])], base;
      physFrame, len, done, hung := 0, 0, map[], [];
      new;
      assert View() == guest.tables;
      assert saved[0].frame == root;
    }

    /** `read_page_table` */
    method ReadPageTable(f: nat) returns (r: Result<nat, MapError>)
      requires Valid() && f !in upsert
      modifies this`upsert, this`saved
      ensures Valid() && View() == old(View())
      ensures r == if f in guest.tables then Ok(f) else Err(NotBacked)
      ensures r.Ok? ==> f in upsert
      ensures forall g | g in old(upsert) :: g in upsert
    {
      hide Shape, Mapped, Hung, Grown;
      if f !in guest.tables {
        return Err(NotBacked);
      }
      ReadKeepsCache(guest.tables, base, upsert, saved, ptAddr, f);
      saved := saved + [Saved(f, guest.tables[f])];
      upsert := upsert[f := guest.tables[f]];
      return Ok(f);
    }

    /** `get_page_table` for entry `i` of table `t`, which is slot `x` of level `l`; page `q`
        lies below the entry. */
    method GetPageTable(l: nat, t: nat, i: nat, ghost x: nat, ghost q: nat)
      returns (r: Result<nat, MapError>)
      requires Valid() && l < 3 && x < Slots(l) && Walk(View(), root, l, x) == At(t)
      requires t in upsert && i < 512 && q in pages && Up(4, q, l + 1) == x * 512 + i
      modifies this`upsert, this`saved, this`ptAddr, this`hung
      ensures Valid() && Stays(old(View()), View(), root)
      ensures forall g | g in old(upsert) :: g in upsert
      ensures r.Ok? ==> Walk(View(), root, l + 1, x * 512 + i) == At(r.value) && r.value in upsert
      ensures r.Err? ==> Walk(View(), root, 4, q) != Missing
                         && r.error == Conflict(Walk(View(), root, 4, q))
    {
      hide Inv, HangsAt, Walk, Up, Slots, Stays;
      var e := upsert[t][i];
      ghost var m: Memory := View();
      assert m[t] == upsert[t];
      if Present(e) {
        BlockedPage(m, root, l, x, t, i, q);
        StaysReflexive(m, root);
      }
      if Huge(e) && Present(e) {
        return Err(HugeTable);
      }
      if Present(e) {
        if e.frame in upsert {
          return Ok(e.frame);
        }
        r := ReadPageTable(e.frame);
        return;
      }
      ghost var upsert': Memory := Hooked(upsert, t, i, ptAddr);
      HangKeepsInv(guest.tables, m, root, base, pages, upsert, saved, ptAddr, done, hung,
                   t, i, l, x, q, upsert', guest.tables + upsert');
      upsert := upsert[t := upsert[t][i := TableEntry(ptAddr)]];
      upsert := upsert[ptAddr := EmptyTable()];
      hung := Extend(hung, l + 1, x * 512 + i);
      ptAddr := ptAddr + 1;
      return Ok(ptAddr - 1);
    }

    /** The innermost loop body: installs the next page of the job in entry `i` of the
        last-level table `t`. */
    method InstallPage(t: nat, i: nat, job: Job, ghost x: nat, ghost k: nat, ghost done0: map<int, Entry>)
      returns (r: Result<bool, MapError>)
      requires Valid() && x < Slots(3) && Walk(View(), root, 3, x) == At(t)
      requires t in upsert && i < 512 && x * 512 + i == Nth(job.start, k) < PAGE_COUNT
      requires x * 512 + i in pages
      requires Progress(job, done0, done, physFrame, len, k) && k < Total(job)
      modifies this`upsert, this`physFrame, this`len, this`done
      ensures Valid() && Stays(old(View()), View(), root)
      ensures forall g | g in old(upsert) :: g in upsert
      ensures r.Ok? ==> Progress(job, done0, done, physFrame, len, k + 1)
                        && (r.value <==> k + 1 == Total(job))
      ensures r.Err? ==> Progress(job, done0, done, physFrame, len, k)
                         && Walk(View(), root, 4, x * 512 + i) != Missing
                         && r.error == Conflict(Walk(View(), root, 4, x * 512 + i))
    {
      hide Cache, Shape, Mapped, Hung, Grown, LeafAt, Walk, Up, Slots, Stays, Nth, Progress, Total;
      ghost var m: Memory := View();
      assert m[t] == upsert[t];
      StepDown(m, root, 3, x, t, i);
      if Present(upsert[t][i]) {
        StaysReflexive(m, root);
        return Err(AlreadyMapped);
      }
      var e := LeafEntry(physFrame, job.prot);
      ghost var upsert': Memory := upsert[t := upsert[t][i := e]];
      LeafKeepsInv(guest.tables, m, root, base, pages, upsert, saved, ptAddr, done, hung,
                   t, i, x, e, x * 512 + i, upsert', guest.tables + upsert');
      FreeIsNew(guest.tables, m, root, done, x * 512 + i);
      ProgressStep(job, done0, done, physFrame, len, k, x * 512 + i);
      upsert := upsert[t := upsert[t][i := e]];
      done := done[x * 512 + i := e];
      physFrame := physFrame + 1;
      len := (len + LEN_WRAP - 1) % LEN_WRAP;
      return Ok(len == 0);
    }

    lemma NotBorrowedNow(l: nat, x: nat, t: nat, q: nat, borrowed: set<nat>, child: nat)
      requires Valid() && q in pages && l < 3 && x < Slots(l)
      requires Borrowed(View(), root, l, borrowed) && Walk(View(), root, l, x) == At(t)
      requires Walk(View(), root, l + 1, Up(4, q, l + 1)) == At(child)
      ensures child !in borrowed + {t} && Borrowed(View(), root, l + 1, borrowed + {t})
    {
      NotBorrowed(View(), root, pages, l, x, t, q, borrowed, child);
    }

    lemma MappedNow()
      requires Valid()
      ensures Mapped(guest.tables, View(), root, done) && Walk(View(), root, 0, 0) == At(root)
    {
    }

    /** One of the four nested loops of `map_memory_single`: the loop over the table `t` of
        level `l`, from entry `idx` on.  The result says whether the job is complete. */
    method MapTable(l: nat, t: nat, idx: nat, job: Job, ghost x: nat, ghost k0: nat,
                    ghost done0: map<int, Entry>, ghost borrowed: set<nat>)
      returns (r: Result<bool, MapError>, ghost k: nat)
      requires Valid() && l <= 3 && x < Slots(l) && Walk(View(), root, l, x) == At(t)
      requires t in upsert && idx < 512 && job.start < PAGE_COUNT
      requires Progress(job, done0, done, physFrame, len, k0) && k0 < Total(job)
      requires Nth(job.start, k0) == First(job.start, l + 1, x * 512 + idx, true)
      requires InPages(job, pages) && Borrowed(View(), root, l, borrowed)
      modifies this`upsert, this`saved, this`ptAddr, this`hung, this`physFrame, this`len, this`done
      ensures Valid() && Stays(old(View()), View(), root)
      ensures forall g | g in old(upsert) :: g in upsert
      ensures k0 <= k && Progress(job, done0, done, physFrame, len, k)
      ensures r.Ok? && r.value ==> k == Total(job)
      ensures r.Ok? && !r.value ==> k < Total(job) && Nth(job.start, k) == Next(job.start, Last(l, x))
      ensures r.Err? ==> k < Total(job) && Nth(job.start, k) < PAGE_COUNT
                         && Walk(View(), root, 4, Nth(job.start, k)) != Missing
                         && r.error == Conflict(Walk(View(), root, 4, Nth(job.start, k)))
      decreases 4 - l, 1
    {
      hide Inv, Walk, Up, Slots, Stays, Nth, Progress, First, Last, Next, Index, InPages, Borrowed;
      k := k0;
      ghost var m0: Memory := View();
      StaysReflexive(m0, root);
      var i := idx;
      while i < 512
        invariant idx <= i <= 512 && k0 <= k < Total(job)
        invariant Valid() && Stays(m0, View(), root) && t in upsert
        invariant Walk(View(), root, l, x) == At(t)
        invariant forall g | g in old(upsert) :: g in upsert
        invariant Progress(job, done0, done, physFrame, len, k)
        invariant i < 512 ==> Nth(job.start, k) == First(job.start, l + 1, x * 512 + i, i == idx)
        invariant i == 512 ==> Nth(job.start, k) == Next(job.start, Last(l, x))
      {
        ghost var m1: Memory := View();
        BorrowedStays(m0, m1, root, l, borrowed);
        var stop;
        stop, k := MapSlot(l, t, i, i - idx, job, x, k, done0, borrowed);
        StaysTransitive(m0, m1, View(), root);
        if stop.Err? || stop.value {
          return stop, k;
        }
        StaysAt(m1, View(), root, l, x, t);
        AdvanceSlot(job.start, l, x, i);
        i := i + 1;
      }
      return Ok(false), k;
    }

    /** One round of that loop, for entry `i`, which is `ahead` of the first one: it installs a page or
        goes on in the table behind the entry. */
    method MapSlot(l: nat, t: nat, i: nat, ahead: nat, job: Job, ghost x: nat, ghost k0: nat,
                   ghost done0: map<int, Entry>, ghost borrowed: set<nat>)
      returns (r: Result<bool, MapError>, ghost k: nat)
      requires Valid() && l <= 3 && x < Slots(l) && Walk(View(), root, l, x) == At(t)
      requires t in upsert && i < 512 && job.start < PAGE_COUNT
      requires Progress(job, done0, done, physFrame, len, k0) && k0 < Total(job)
      requires Nth(job.start, k0) == First(job.start, l + 1, x * 512 + i, ahead == 0)
      requires InPages(job, pages) && Borrowed(View(), root, l, borrowed)
      modifies this`upsert, this`saved, this`ptAddr, this`hung, this`physFrame, this`len, this`done
      ensures Valid() && Stays(old(View()), View(), root)
      ensures forall g | g in old(upsert) :: g in upsert
      ensures k0 <= k && Progress(job, done0, done, physFrame, len, k)
      ensures r.Ok? && r.value ==> k == Total(job)
      ensures r.Ok? && !r.value ==> k < Total(job) && Nth(job.start, k) == Next(job.start, Last(l + 1, x * 512 + i))
      ensures r.Err? ==> k < Total(job) && Nth(job.start, k) < PAGE_COUNT
                         && Walk(View(), root, 4, Nth(job.start, k)) != Missing
                         && r.error == Conflict(Walk(View(), root, 4, Nth(job.start, k)))
      decreases 4 - l, 0
    {
      hide Inv, Walk, Up, Slots, Stays, Nth, Progress, First, Last, Next, Index, InPages, Borrowed;
      k := k0;
      ghost var y, q := x * 512 + i, Nth(job.start, k);
      ghost var m1: Memory := View();
      PageBelow(job, pages, k, l, x, i, ahead == 0);
      if l == 3 {
        r := InstallPage(t, i, job, x, k, done0);
        AfterPage(job.start, k, y);
        if r.Ok? { k := k + 1; }
      } else {
        var child := GetPageTable(l, t, i, x, q);
        if child.Err? {
          return Err(child.error), k;
        }
        ghost var m2: Memory := View();
        BorrowedStays(m1, m2, root, l, borrowed);
        StaysAt(m1, m2, root, l, x, t);
        NotBorrowedNow(l, x, t, q, borrowed, child.value);
        assert child.value !in borrowed + {t};
        r, k := MapTable(l + 1, child.value, StartIndex(job.start, ahead, l + 1), job, y, k, done0, borrowed + {t});
        StaysTransitive(m1, m2, View(), root);
      }
    }

    /** `map_memory_single`: succeeds exactly when every page it visits is free, and then
        maps exactly these pages. */
    method MapSingle(job: Job) returns (r: Result<(), MapError>)
      requires Valid() && job.start < PAGE_COUNT && job.count < LEN_WRAP && InPages(job, pages)
      modifies this`upsert, this`saved, this`ptAddr, this`hung, this`physFrame, this`len, this`done
      ensures Valid()
      ensures r.Ok? ==> done == AddPages(old(done), job, Reach(job.start, Total(job)))
      ensures r.Ok? <==> FreeFor(guest.tables, root, old(done), job)
      ensures r.Err? ==> r.error != WriteFailed
      ensures r.Err? ==> exists k: nat :: ConflictAt(guest.tables, root, old(done), job, k, r.error)
    {
      hide Inv, Walk, Up, Slots, Stays, Nth, First, Last, Next, InPages, Mapped, Reach, Progress,
           Borrowed, FreeFor, ConflictAt;
      physFrame, len := job.frame, job.count;
      ghost var done0 := done;
      MappedNow();
      RootSlot(job.start);
      JobStart(View(), root, job, done0);
      var stop, k := MapTable(0, root, Index(job.start, 0), job, 0, 0, done0, {});
      MappedNow();
      if stop.Err? {
        ConflictFound(guest.tables, View(), root, done0, done, job, k, physFrame, len);
        return Err(stop.error);
      }
      AllReached(guest.tables, View(), root, done0, done, job, k, physFrame, len);
      return Ok(());
    }
  }

  lemma JobStart(m: Memory, root: nat, job: Job, done: map<int, Entry>)
    requires job.count < LEN_WRAP
    ensures Progress(job, done, done, job.frame, job.count, 0) && Borrowed(m, root, 0, {})
  {
  }

  lemma RootSlot(start: nat)
    requires start < PAGE_COUNT
    ensures Slots(0) == 1 && Nth(start, 0) == First(start, 1, Index(start, 0), true)
    ensures Next(start, Last(0, 0)) >= PAGE_COUNT
  {
    FirstIsStart(start);
    LastBelow(1, 511);
  }

  /** How many of the first `total` visited pages lie inside the address space. */
  ghost function Reach(start: nat, total: nat): nat {
    if total == 0 || Nth(start, total - 1) < PAGE_COUNT then total else Reach(start, total - 1)
  }

  lemma {:induction false} ReachIs(start: nat, total: nat, k: nat)
    requires k <= total && (forall j: nat | j < k :: Nth(start, j) < PAGE_COUNT)
    requires k < total ==> Nth(start, k) >= PAGE_COUNT
    ensures Reach(start, total) == k
    decreases total
  {
    if k < total {
      if k < total - 1 { NthIncreases(start, k, total - 1); }
      ReachIs(start, total - 1, k);
    }
  }

  /** Every page the job visits is free in guest memory and not mapped by an earlier job. */
  ghost predicate FreeFor(mem: Memory, root: nat, done: map<int, Entry>, job: Job) {
    forall k: nat | k < Total(job) && Nth(job.start, k) < PAGE_COUNT ::
      Nth(job.start, k) !in done && Walk(mem, root, 4, Nth(job.start, k)) == Missing
  }

  /** The k-th page the job visits is in the way, and `error` says how. */
  ghost predicate ConflictAt(mem: Memory, root: nat, done: map<int, Entry>, job: Job, k: nat,
                             error: MapError) {
    && k < Total(job) && Nth(job.start, k) < PAGE_COUNT
    && if Nth(job.start, k) in done then error == AlreadyMapped
       else Walk(mem, root, 4, Nth(job.start, k)) != Missing
            && error == Conflict(Walk(mem, root, 4, Nth(job.start, k)))
  }

  lemma ConflictFound(mem: Memory, m: Memory, root: nat, done0: map<int, Entry>,
                      done: map<int, Entry>, job: Job, k: nat, physFrame: nat, len: nat)
    requires Mapped(mem, m, root, done) && Progress(job, done0, done, physFrame, len, k)
    requires k < Total(job) && Nth(job.start, k) < PAGE_COUNT
    requires Walk(m, root, 4, Nth(job.start, k)) != Missing
    ensures !FreeFor(mem, root, done0, job)
    ensures ConflictAt(mem, root, done0, job, k, Conflict(Walk(m, root, 4, Nth(job.start, k))))
  {
    var q := Nth(job.start, k);
    if q in done0 {
      AddPagesKeeps(done0, job, k, q);
    } else if q in done {
      var j := AddPagesOnly(done0, job, k, q);
      NthIncreases(job.start, j, k);
    }
  }

  lemma AllReached(mem: Memory, m: Memory, root: nat, done0: map<int, Entry>,
                   done: map<int, Entry>, job: Job, k: nat, physFrame: nat, len: nat)
    requires Mapped(mem, m, root, done) && Progress(job, done0, done, physFrame, len, k)
    requires k < Total(job) ==> Nth(job.start, k) >= PAGE_COUNT
    ensures FreeFor(mem, root, done0, job)
    ensures done == AddPages(done0, job, Reach(job.start, Total(job)))
  {
    hide Walk;
    forall j: nat | j < k
      ensures Nth(job.start, j) < PAGE_COUNT && Walk(mem, root, 4, Nth(job.start, j)) == Missing
    {
      AddPagesHas(done0, job, k, j);
    }
    ReachIs(job.start, Total(job), k);
    forall j: nat | j < Total(job) && Nth(job.start, j) < PAGE_COUNT ensures j < k {
      if j > k { NthIncreases(job.start, k, j); }
    }
  }

  /** The tables held by the enclosing loops: all of them lie above level `l`. */
  ghost predicate Borrowed(m: Memory, root: nat, l: nat, borrowed: set<nat>) {
    forall f | f in borrowed ::
      exists l': nat, y: nat :: l' < l && y < Slots(l') && Walk(m, root, l', y) == At(f)
  }

  lemma BorrowedStays(m: Memory, h: Memory, root: nat, l: nat, borrowed: set<nat>)
    requires Borrowed(m, root, l, borrowed) && Stays(m, h, root) && l <= 3
    ensures Borrowed(h, root, l, borrowed)
  {
    forall f | f in borrowed
      ensures exists l': nat, y: nat :: l' < l && y < Slots(l') && Walk(h, root, l', y) == At(f)
    {
      var l': nat, y: nat :| l' < l && y < Slots(l') && Walk(m, root, l', y) == At(f);
      assert Walk(h, root, l', y) == At(f);
    }
  }

  /** A table on the path of a page is none of the tables above it, so the nested loops never
      hold the same table twice. */
  lemma NotBorrowed(m: Memory, root: nat, pages: iset<nat>, l: nat, x: nat, t: nat, q: nat,
                    borrowed: set<nat>, child: nat)
    requires Unshared(m, root, pages) && q in pages && l < 3 && x < Slots(l)
    requires Borrowed(m, root, l, borrowed) && Walk(m, root, l, x) == At(t)
    requires Walk(m, root, l + 1, Up(4, q, l + 1)) == At(child)
    ensures child !in borrowed + {t} && Borrowed(m, root, l + 1, borrowed + {t})
  {
    SoleOnPath(m, root, pages, q, l + 1, child);
  }

  /** Every page the job visits is a page of `pages`. */
  ghost predicate InPages(job: Job, pages: iset<nat>) {
    forall k: nat | k < Total(job) && Nth(job.start, k) < PAGE_COUNT :: Nth(job.start, k) in pages
  }

  /** The next page of the job lies below the entry the loop is at. */
  lemma PageBelow(job: Job, pages: iset<nat>, k: nat, l: nat, x: nat, i: nat, top: bool)
    requires InPages(job, pages) && k < Total(job) && l <= 3 && x < Slots(l) && i < 512
    requires Nth(job.start, k) == First(job.start, l + 1, x * 512 + i, top)
    ensures x * 512 + i < Slots(l + 1)
    ensures Up(4, Nth(job.start, k), l + 1) == x * 512 + i
    ensures Nth(job.start, k) < PAGE_COUNT && Nth(job.start, k) in pages
    ensures l == 3 ==> Nth(job.start, k) == x * 512 + i
    ensures l < 3 ==>
              var idx := StartIndex(job.start, if top then 0 else 1, l + 1);
              Nth(job.start, k) == First(job.start, l + 2, (x * 512 + i) * 512 + idx, true)
  {
    hide Nth, Index, Slots, Up;
    FirstBelow(job.start, l + 1, x * 512 + i, top);
    SlotInRange(l, x, i);
    InRangeBelow(4, Nth(job.start, k), l + 1);
    SlotsOfPages();
  }

  lemma SlotInRange(l: nat, x: nat, i: nat)
    requires x < Slots(l) && i < 512
    ensures x * 512 + i < Slots(l + 1)
  {
  }

  lemma SlotsOfPages()
    ensures Slots(4) == PAGE_COUNT
  {
  }

  lemma AfterPage(start: nat, k: nat, y: nat)
    requires Nth(start, k) == y
    ensures Nth(start, k + 1) == Next(start, Last(4, y))
  {
  }

  /** After an entry is done, the loop goes on at the next entry or the table is done. */
  lemma AdvanceSlot(start: nat, l: nat, x: nat, i: nat)
    requires start < PAGE_COUNT && l <= 3 && i < 512
    ensures i + 1 < 512 ==> Next(start, Last(l + 1, x * 512 + i)) == First(start, l + 1, x * 512 + (i + 1), false)
    ensures i + 1 == 512 ==> Last(l + 1, x * 512 + i) == Last(l, x)
  {
    if i + 1 < 512 {
      NextSlot(start, l + 1, x * 512 + i);
    }
  }
}
