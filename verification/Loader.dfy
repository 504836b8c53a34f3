/** The loader of the stage 1 library: segments are placed into freshly mapped guest memory,
    relocated in local buffers, and uploaded into the memory of the hypervisor. */
module Loader {
  import opened Wrappers
  import opened Bytes
  import opened ProcessVm
  import opened PageMapping
  import opened PageMath
  import opened PhysMemAllocator
  import opened Layout
  import opened PageTableSize
  import PageTableEditor
  import PageTableEntry
  import PageVisit
  import PageWalk

  /** File content to be put at an offset into a mapping. */
  datatype Loadable = Loadable(content: seq<Byte>, mapping: MappedMemory, virtOffset: nat)

  datatype Kind = Relative | GlobDat | Unsupported

  datatype Entry = Entry(kind: Kind, offset: nat, addend: Option<nat>, symbol: nat)

  datatype Symbol = Symbol(name: string, weak: bool)

  datatype Env = Env(vbase: nat, syms: map<string, nat>, libSyms: map<string, nat>, dynSyms: seq<Symbol>)

  datatype ElfError = NoLoadable | UnsupportedEntry | UnknownSymbol | OutOfRange | BadLayout(e: LayoutError)
                    | AllocFailed(cause: AllocError) | NotAllocated

  // ----- where things are -----

  /** The address of the mapping in the memory of the hypervisor. */
  function Host(m: MappedMemory): int {
    m.phys.value + m.phys.hostOffset
  }

  /** The virtual address of the first byte of the content. */
  function Base(l: Loadable): nat {
    l.mapping.virtStart + l.virtOffset
  }

  predicate VirtApart(a: MappedMemory, b: MappedMemory) {
    a.virtStart + a.len <= b.virtStart || b.virtStart + b.len <= a.virtStart
  }

  predicate HostApart(a: MappedMemory, b: MappedMemory) {
    Host(a) + a.len <= Host(b) || Host(b) + b.len <= Host(a)
  }

  predicate Valid(ls: seq<Loadable>) {
    && (forall i | 0 <= i < |ls| :: Host(ls[i].mapping) >= 0 && ls[i].virtOffset + |ls[i].content| <= ls[i].mapping.len)
    && (forall i, j | 0 <= i < j < |ls| ::
          VirtApart(ls[i].mapping, ls[j].mapping) && HostApart(ls[i].mapping, ls[j].mapping))
  }

  /** `MappedMemory::contains`, which excludes the first address. */
  predicate Contains(m: MappedMemory, addr: nat) {
    m.virtStart < addr < m.virtStart + m.len
  }

  /** The index of the first loadable whose mapping contains the address, or their number. */
  function FindLoadable(ls: seq<Loadable>, addr: nat): (r: nat)
    ensures r <= |ls|
    ensures r < |ls| ==> Contains(ls[r].mapping, addr)
    ensures forall i | 0 <= i < r :: !Contains(ls[i].mapping, addr)
  {
    if ls == [] || Contains(ls[0].mapping, addr) then 0 else 1 + FindLoadable(ls[1..], addr)
  }

  /** The loadable that an address belongs to is found exactly if the address is not the first
      one of its mapping. */
  lemma FindLoadableExactly(ls: seq<Loadable>, addr: nat, i: nat)
    requires Valid(ls) && i < |ls| && ls[i].mapping.virtStart <= addr < ls[i].mapping.virtStart + ls[i].mapping.len
    ensures FindLoadable(ls, addr) == i <==> addr != ls[i].mapping.virtStart
  {
    var r := FindLoadable(ls, addr);
    if r < |ls| && r != i {
      assert VirtApart(ls[r].mapping, ls[i].mapping);
    }
  }

  function ResolveSymbol(name: string, syms: map<string, nat>, libSyms: map<string, nat>): Option<nat> {
    if name in syms then Some(syms[name])
    else if name in libSyms then Some(libSyms[name])
    else if name == "usleep_range_state" && "usleep_range" in syms then Some(syms["usleep_range"])
    else if name == "_printk" && "printk" in syms then Some(syms["printk"])
    else None
  }

  /** The value that a relocation requires at its address, or nothing for a weak symbol. */
  function Target(env: Env, e: Entry): Result<Option<nat>, ElfError> {
    if e.kind == Unsupported || e.addend.None? then Err(UnsupportedEntry)
    else if e.kind == Relative then Ok(Some((env.vbase + e.addend.value) % WORD))
    else if e.symbol >= |env.dynSyms| then Err(OutOfRange)
    else
      var symbol := env.dynSyms[e.symbol];
      if symbol.weak then Ok(None)
      else
        var address := ResolveSymbol(symbol.name, env.syms, env.libSyms);
        if address.None? then Err(UnknownSymbol) else Ok(Some((address.value + e.addend.value) % WORD))
  }

  /** One relocation in the local buffers. */
  function Relocate(env: Env, ls: seq<Loadable>, e: Entry): Result<seq<Loadable>, ElfError> {
    var addr := env.vbase + e.offset;
    var i := FindLoadable(ls, addr);
    if i == |ls| then Err(NoLoadable)
    else
      var target := Target(env, e);
      if target.Err? then Err(target.error)
      else if target.value.None? then Ok(ls)
      else if addr < Base(ls[i]) || addr + 8 > Base(ls[i]) + |ls[i].content| then Err(OutOfRange)
      else
        var bytes := LittleEndian(target.value.value, 8);
        Ok(ls[i := ls[i].(content := Overwrite(ls[i].content, addr - Base(ls[i]), bytes))])
  }

  /** The content of the loadables has byte `b` for virtual address `v`. */
  ghost predicate Holds(ls: seq<Loadable>, v: nat, b: Byte) {
    exists i | 0 <= i < |ls| :: Inside(ls[i], v) && ByteAt(ls[i], v) == b
  }

  predicate Inside(l: Loadable, v: nat) {
    Base(l) <= v < Base(l) + |l.content|
  }

  function ByteAt(l: Loadable, v: nat): Byte
    requires Inside(l, v)
  {
    l.content[v - Base(l)]
  }

  /** In disjoint mappings an address belongs to one loadable. */
  lemma HoldsOnly(ls: seq<Loadable>, i: nat, v: nat, b: Byte)
    requires Valid(ls) && i < |ls| && Inside(ls[i], v)
    ensures Holds(ls, v, b) <==> ByteAt(ls[i], v) == b
  {
    if Holds(ls, v, b) {
      var j :| 0 <= j < |ls| && Inside(ls[j], v) && ByteAt(ls[j], v) == b;
      assert i < j ==> VirtApart(ls[i].mapping, ls[j].mapping);
      assert j < i ==> VirtApart(ls[j].mapping, ls[i].mapping);
    }
  }

  lemma HoldsElsewhere(ls: seq<Loadable>, after: seq<Loadable>, i: nat, v: nat, b: Byte)
    requires i < |ls| == |after| && after == ls[i := after[i]] && !Inside(ls[i], v) && !Inside(after[i], v)
    ensures Holds(after, v, b) <==> Holds(ls, v, b)
  {
    if Holds(after, v, b) {
      var j :| 0 <= j < |after| && Inside(after[j], v) && ByteAt(after[j], v) == b;
      assert Inside(ls[j], v);
    }
    if Holds(ls, v, b) {
      var j :| 0 <= j < |ls| && Inside(ls[j], v) && ByteAt(ls[j], v) == b;
      assert Inside(after[j], v);
    }
  }

  lemma RelocateValid(env: Env, ls: seq<Loadable>, e: Entry)
    requires Valid(ls) && Relocate(env, ls, e).Ok?
    ensures var after := Relocate(env, ls, e).value;
            && Valid(after) && |after| == |ls|
            && forall i | 0 <= i < |ls| ::
                 after[i] == ls[i].(content := after[i].content) && |after[i].content| == |ls[i].content|
  {
  }

  /** A relocation sets the eight bytes at its address to its value and no other byte. */
  lemma RelocateHolds(env: Env, ls: seq<Loadable>, e: Entry, v: nat, b: Byte)
    requires Valid(ls) && Relocate(env, ls, e).Ok?
    ensures var addr := env.vbase + e.offset;
            var target := Target(env, e).value;
            Holds(Relocate(env, ls, e).value, v, b)
            <==> if target.Some? && addr <= v < addr + 8 then b == LittleEndian(target.value, 8)[v - addr]
                 else Holds(ls, v, b)
  {
    var addr := env.vbase + e.offset;
    var i := FindLoadable(ls, addr);
    var after := Relocate(env, ls, e).value;
    RelocateValid(env, ls, e);
    hide Valid, Holds, FindLoadable, Target, LittleEndian, Overwrite, ByteAt;
    if Target(env, e).value.Some? {
      LittleEndianLength(Target(env, e).value.value, 8);
      if Inside(ls[i], v) {
        OverwrittenAt(ls[i], addr, LittleEndian(Target(env, e).value.value, 8), v);
        HoldsOnly(ls, i, v, b);
        HoldsOnly(after, i, v, b);
      } else {
        HoldsElsewhere(ls, after, i, v, b);
      }
    }
  }

  lemma OverwrittenAt(l: Loadable, addr: nat, data: seq<Byte>, v: nat)
    requires Base(l) <= addr && addr + |data| <= Base(l) + |l.content| && Inside(l, v)
    ensures var after := l.(content := Overwrite(l.content, addr - Base(l), data));
            Inside(after, v) && ByteAt(after, v) == if addr <= v < addr + |data| then data[v - addr] else ByteAt(l, v)
  {
  }

  /** A relocation against a weak symbol succeeds, although its value is not put in place, even if
      the symbol can be resolved. */
  lemma WeakIsIgnored(env: Env, ls: seq<Loadable>, e: Entry)
    requires FindLoadable(ls, env.vbase + e.offset) < |ls|
    requires e.kind == GlobDat && e.addend.Some? && e.symbol < |env.dynSyms| && env.dynSyms[e.symbol].weak
    ensures Relocate(env, ls, e) == Ok(ls)
  {
    hide LittleEndian, Overwrite, ResolveSymbol, FindLoadable;
  }

  /** A segment that begins at a page boundary with a word to be relocated: the relocation is not
      found. */
  lemma FirstWordNotFound(l: Loadable, env: Env, e: Entry)
    requires env.vbase + e.offset == l.mapping.virtStart && l.virtOffset == 0 && |l.content| >= 8
    ensures Relocate(env, [l], e) == Err(NoLoadable)
  {
    assert FindLoadable([l], env.vbase + e.offset) == 1 + FindLoadable([l][1..], env.vbase + e.offset);
  }

  function RelocateAll(env: Env, ls: seq<Loadable>, es: seq<Entry>): Result<seq<Loadable>, ElfError>
    decreases |es|
  {
    if es == [] then Ok(ls)
    else
      var r := Relocate(env, ls, es[0]);
      if r.Err? then r else RelocateAll(env, r.value, es[1..])
  }

  /** The relocation does not touch the byte at `v`. */
  predicate Spares(env: Env, e: Entry, v: nat) {
    Target(env, e).Ok? && Target(env, e).value.Some? ==> v < env.vbase + e.offset || env.vbase + e.offset + 8 <= v
  }

  /** Bytes that no relocation touches stay what they are in the file. */
  lemma {:induction false} RelocateAllSpares(env: Env, ls: seq<Loadable>, es: seq<Entry>, v: nat, b: Byte)
    requires Valid(ls) && RelocateAll(env, ls, es).Ok? && forall i | 0 <= i < |es| :: Spares(env, es[i], v)
    ensures Holds(RelocateAll(env, ls, es).value, v, b) <==> Holds(ls, v, b)
    ensures Valid(RelocateAll(env, ls, es).value)
    decreases |es|
  {
    hide Valid, Holds, Target, LittleEndian;
    if es != [] {
      var next := Relocate(env, ls, es[0]).value;
      RelocateValid(env, ls, es[0]);
      RelocateHolds(env, ls, es[0], v, b);
      RelocateAllSpares(env, next, es[1..], v, b);
    }
  }

  /** Relocation `j` has a value to write. */
  predicate Applies(env: Env, es: seq<Entry>, j: nat) {
    j < |es| && Target(env, es[j]).Ok? && Target(env, es[j]).value.Some?
  }

  /** No relocation behind number `j` touches the byte at `v`. */
  predicate LaterSpare(env: Env, es: seq<Entry>, j: nat, v: nat) {
    forall i | j < i < |es| :: Spares(env, es[i], v)
  }

  /** Every relocation that is not overwritten by a later one has its value in place at the end. */
  lemma {:induction false} RelocateAllHolds(env: Env, ls: seq<Loadable>, es: seq<Entry>, j: nat, k: nat)
    requires Valid(ls) && RelocateAll(env, ls, es).Ok? && Applies(env, es, j) && k < 8
    requires LaterSpare(env, es, j, env.vbase + es[j].offset + k)
    ensures Holds(RelocateAll(env, ls, es).value, env.vbase + es[j].offset + k,
                  LittleEndian(Target(env, es[j]).value.value, 8)[k])
    decreases |es|
  {
    hide Valid, Holds, Target, LittleEndian;
    LittleEndianLength(Target(env, es[j]).value.value, 8);
    var next := Relocate(env, ls, es[0]).value;
    RelocateValid(env, ls, es[0]);
    if j == 0 {
      var v, b := env.vbase + es[0].offset + k, LittleEndian(Target(env, es[0]).value.value, 8)[k];
      RelocateHolds(env, ls, es[0], v, b);
      RelocateAllSpares(env, next, es[1..], v, b);
    } else {
      RelocateAllHolds(env, next, es[1..], j - 1, k);
    }
  }

  // ----- upload -----

  function Iovs(ls: seq<Loadable>): (r: seq<Iov>)
    requires Valid(ls)
    ensures |r| == |ls|
  {
    seq(|ls|, i requires 0 <= i < |ls| => Iov(Host(ls[i].mapping) + ls[i].virtOffset, |ls[i].content|))
  }

  function Contents(ls: seq<Loadable>): seq<seq<Byte>> {
    seq(|ls|, i requires 0 <= i < |ls| => ls[i].content)
  }

  /** The memory of the hypervisor after the upload, unless it was short. */
  function Upload(mem: Memory, ls: seq<Loadable>): Option<Memory> {
    if !Valid(ls) || Total(Reached(mem, Iovs(ls))) != Total(Iovs(ls)) then None
    else
      PartsTotal(Iovs(ls), Contents(ls));
      Some(Scatter(mem, Iovs(ls), Join(Contents(ls))))
  }

  /** The hypervisor address of a guest virtual address. */
  function Translate(ms: seq<MappedMemory>, v: nat): Option<int> {
    if ms == [] then None
    else if ms[0].virtStart <= v < ms[0].virtStart + ms[0].len then Some(Host(ms[0]) + (v - ms[0].virtStart))
    else Translate(ms[1..], v)
  }

  ghost predicate AllApart(ms: seq<MappedMemory>) {
    forall i, j | 0 <= i < j < |ms| :: VirtApart(ms[i], ms[j])
  }

  predicate MappedIn(ls: seq<Loadable>, ms: seq<MappedMemory>) {
    forall i | 0 <= i < |ls| :: ls[i].mapping in ms
  }

  lemma {:induction false} TranslateIn(ms: seq<MappedMemory>, m: MappedMemory, v: nat)
    requires AllApart(ms) && m in ms && m.virtStart <= v < m.virtStart + m.len
    ensures Translate(ms, v) == Some(Host(m) + (v - m.virtStart))
  {
    if ms[0] != m {
      assert m in ms[1..];
      var i :| 0 <= i < |ms| && ms[i] == m;
      assert VirtApart(ms[0], ms[i]);
      TranslateIn(ms[1..], m, v);
    }
  }

  lemma IovsDisjoint(ls: seq<Loadable>)
    requires Valid(ls)
    ensures ProcessVm.Disjoint(Iovs(ls))
  {
    var iovs := Iovs(ls);
    forall i, j | 0 <= i < j < |iovs| ensures Apart(iovs[i], iovs[j]) {
      assert HostApart(ls[i].mapping, ls[j].mapping);
    }
  }

  /** After the upload, every byte of the loadables is at the translation of its address. */
  lemma UploadHolds(mem: Memory, ls: seq<Loadable>, ms: seq<MappedMemory>, v: nat, b: Byte)
    requires Valid(ls) && Upload(mem, ls).Some? && Holds(ls, v, b)
    requires AllApart(ms) && MappedIn(ls, ms)
    ensures var h := Translate(ms, v);
            h.Some? && h.value in Upload(mem, ls).value && Upload(mem, ls).value[h.value] == b
  {
    hide Upload, Valid, Translate, AllApart;
    var i :| 0 <= i < |ls| && Inside(ls[i], v) && ByteAt(ls[i], v) == b;
    LoadableFits(ls, i);
    TranslateIn(ms, ls[i].mapping, v);
    UploadAt(mem, ls, i, v);
  }

  lemma LoadableFits(ls: seq<Loadable>, i: nat)
    requires Valid(ls) && i < |ls|
    ensures Host(ls[i].mapping) >= 0 && ls[i].virtOffset + |ls[i].content| <= ls[i].mapping.len
  {
  }

  lemma UploadAt(mem: Memory, ls: seq<Loadable>, i: nat, v: nat)
    requires Valid(ls) && Upload(mem, ls).Some? && i < |ls| && Inside(ls[i], v)
    ensures var h := Host(ls[i].mapping) + (v - ls[i].mapping.virtStart);
            h in Upload(mem, ls).value && Upload(mem, ls).value[h] == ByteAt(ls[i], v)
  {
    hide Total, Reached, Scatter, Join, AllMapped, ProcessVm.Disjoint;
    var iovs, parts := Iovs(ls), Contents(ls);
    IovsDisjoint(ls);
    ReachedAll(mem, iovs);
    ScatterAt(mem, iovs, parts, i);
    var k := v - Base(ls[i]);
    assert ReadBytes(Upload(mem, ls).value, iovs[i])[k] == Upload(mem, ls).value[iovs[i].base + k];
  }

  /** Bytes of guest virtual memory. */
  function GuestBytes(mem: Memory, ms: seq<MappedMemory>, v: nat, n: nat): Option<seq<Byte>>
    decreases n
  {
    if n == 0 then Some([])
    else
      var h, rest := Translate(ms, v), GuestBytes(mem, ms, v + 1, n - 1);
      if h.None? || h.value !in mem || rest.None? then None else Some([mem[h.value]] + rest.value)
  }

  /** Two relocations that do not overlap; a weak one changes nothing. */
  predicate EntriesApart(env: Env, e: Entry, later: Entry) {
    Target(env, later).Ok? && Target(env, later).value.Some? ==>
      e.offset + 8 <= later.offset || later.offset + 8 <= e.offset
  }

  predicate LaterApart(env: Env, es: seq<Entry>, j: nat)
    requires j < |es|
  {
    forall i | j < i < |es| :: EntriesApart(env, es[j], es[i])
  }

  /** After a successful upload the eight bytes at the address of a relocation, read as a
      little-endian number from guest memory, are the value that the relocation requires. */
  lemma {:induction false} RelocationArrives(env: Env, ls: seq<Loadable>, es: seq<Entry>, j: nat, mem: Memory,
                                             ms: seq<MappedMemory>)
    requires Valid(ls) && AllApart(ms) && MappedIn(ls, ms)
    requires RelocateAll(env, ls, es).Ok? && Applies(env, es, j)
    requires LaterApart(env, es, j)
    requires Upload(mem, RelocateAll(env, ls, es).value).Some?
    ensures var after := Upload(mem, RelocateAll(env, ls, es).value).value;
            var bytes := GuestBytes(after, ms, env.vbase + es[j].offset, 8);
            bytes.Some? && FromLittleEndian(bytes.value) == Target(env, es[j]).value.value
  {
    hide Valid, Upload, Target, GuestBytes, AllApart, LittleEndian, FromLittleEndian, EntriesApart;
    var x := Target(env, es[j]).value.value;
    ArrivesFrom(env, ls, es, j, mem, ms, 0);
    assert LittleEndian(x, 8)[0..] == LittleEndian(x, 8);
    TargetFits(env, es[j]);
    LittleEndianReadsBack(x, 8);
  }

  lemma {:induction false} ArrivesFrom(env: Env, ls: seq<Loadable>, es: seq<Entry>, j: nat, mem: Memory,
                                       ms: seq<MappedMemory>, k: nat)
    requires Valid(ls) && AllApart(ms) && MappedIn(ls, ms)
    requires RelocateAll(env, ls, es).Ok? && Applies(env, es, j)
    requires LaterApart(env, es, j)
    requires Upload(mem, RelocateAll(env, ls, es).value).Some? && k <= 8
    ensures GuestBytes(Upload(mem, RelocateAll(env, ls, es).value).value, ms, env.vbase + es[j].offset + k, 8 - k)
            == Some(LittleEndian(Target(env, es[j]).value.value, 8)[k..])
    decreases 8 - k
  {
    hide Valid, Upload, Holds, Target, Translate, AllApart, LittleEndian;
    var fin, v := RelocateAll(env, ls, es).value, env.vbase + es[j].offset + k;
    var bytes := LittleEndian(Target(env, es[j]).value.value, 8);
    LittleEndianLength(Target(env, es[j]).value.value, 8);
    if k < 8 {
      assert LaterSpare(env, es, j, v) by {
        forall i | j < i < |es| ensures Spares(env, es[i], v) {
          assert EntriesApart(env, es[j], es[i]);
        }
      }
      RelocateAllHolds(env, ls, es, j, k);
      RelocateAllValid(env, ls, es);
      SameMappings(env, ls, es, ms);
      UploadHolds(mem, fin, ms, v, bytes[k]);
      ArrivesFrom(env, ls, es, j, mem, ms, k + 1);
      assert bytes[k..] == [bytes[k]] + bytes[k + 1..];
    } else {
      assert bytes[k..] == [];
    }
  }

  /** Relocations keep the loadables valid. */
  lemma {:induction false} RelocateAllValid(env: Env, ls: seq<Loadable>, es: seq<Entry>)
    requires Valid(ls) && RelocateAll(env, ls, es).Ok?
    ensures Valid(RelocateAll(env, ls, es).value)
    decreases |es|
  {
    hide Valid, Relocate;
    if es != [] {
      RelocateValid(env, ls, es[0]);
      RelocateAllValid(env, Relocate(env, ls, es[0]).value, es[1..]);
    }
  }

  lemma {:induction false} SameMappings(env: Env, ls: seq<Loadable>, es: seq<Entry>, ms: seq<MappedMemory>)
    requires Valid(ls) && RelocateAll(env, ls, es).Ok? && MappedIn(ls, ms)
    ensures var after := RelocateAll(env, ls, es).value;
            |after| == |ls| && MappedIn(after, ms)
    decreases |es|
  {
    hide Valid, Relocate;
    if es != [] {
      RelocateValid(env, ls, es[0]);
      SameMappings(env, Relocate(env, ls, es[0]).value, es[1..], ms);
    }
  }

  lemma TargetFits(env: Env, e: Entry)
    requires Target(env, e).Ok? && Target(env, e).value.Some?
    ensures Target(env, e).value.value < Pow256(8)
  {
    assert Pow256(8) == WORD;
  }

  // ----- loading -----

  /** The index of the first mapping that starts at the address, or their number. */
  function FindMapping(ms: seq<MappedMemory>, start: nat): (r: nat)
    ensures r <= |ms|
    ensures r < |ms| ==> ms[r].virtStart == start
    ensures forall i | 0 <= i < r :: ms[i].virtStart != start
  {
    if ms == [] || ms[0].virtStart == start then 0 else 1 + FindMapping(ms[1..], start)
  }

  lemma PageStartShift(vbase: nat, v: nat)
    requires vbase % PAGE_SIZE == 0
    ensures PageStart(vbase + v) == vbase + PageStart(v)
  {
  }

  lemma StackedFind(allocs: seq<VirtAlloc>, addr: PhysAddr, j: nat)
    requires Stacked(allocs) && j < |allocs|
    ensures FindMapping(Place(allocs, addr), allocs[j].virtStart) == j
  {
    hide SumLen;
    var ms := Place(allocs, addr);
    var i := FindMapping(ms, allocs[j].virtStart);
    assert ms[j].virtStart == allocs[j].virtStart;
    if i < j {
      assert false;
    }
  }

  /** After a successful `virt_alloc` the loader finds for every segment its own mapping and its
      own offset into it, so that the content comes to lie at the address that the ELF file asks
      for. */
  lemma LoadAgrees(vbase: nat, headers: seq<Header>, stringSize: nat, addr: PhysAddr, h: Header, region: seq<Byte>)
    requires vbase % PAGE_SIZE == 0 && KASLR_START <= vbase && h in headers && |region| <= h.memSize
    requires Allocs(vbase, headers, stringSize).Ok?
    requires PageMapping.Disjoint(Jobs(Place(Allocs(vbase, headers, stringSize).value, addr)))
    ensures var allocs := Allocs(vbase, headers, stringSize).value;
            var ms := Place(allocs, addr);
            var i := FindMapping(ms, PageStart(vbase + h.virtualAddr));
            && i < |ms|
            && var l := Loadable(region, ms[i], allocs[i].virtOffset);
               Base(l) == vbase + h.virtualAddr && l.virtOffset + |l.content| <= l.mapping.len
  {
    hide Sort, Allocs, PageMapping.Disjoint, Stacked, SumLen;
    var allocs := Allocs(vbase, headers, stringSize).value;
    AllocsStacked(vbase, headers, stringSize, addr);
    var j := AllocsHave(vbase, headers, stringSize, h);
    AllocOfPages(vbase, h);
    PageStartShift(vbase, h.virtualAddr);
    StackedFind(allocs, addr, j);
  }

  lemma StackedApart(allocs: seq<VirtAlloc>, addr: PhysAddr)
    requires Stacked(allocs)
    ensures AllApart(Place(allocs, addr))
  {
    hide SumLen;
    var ms := Place(allocs, addr);
    forall i, j | 0 <= i < j < |ms| ensures VirtApart(ms[i], ms[j]) {
      assert EndsBefore(allocs[i], allocs[j]);
    }
  }

  lemma PlaceApart(allocs: seq<VirtAlloc>, addr: PhysAddr, i: nat, j: nat)
    requires i < j < |allocs|
    ensures HostApart(Place(allocs, addr)[i], Place(allocs, addr)[j])
    ensures Host(Place(allocs, addr)[i]) >= addr.value + addr.hostOffset
  {
    SumLenMonotone(allocs, i + 1, j);
    assert SumLen(allocs, i + 1) == SumLen(allocs, i) + allocs[i].len;
  }

  /** The loadables that result from loading every segment. */
  function LoadAll(vbase: nat, headers: seq<Header>, regions: seq<seq<Byte>>, allocs: seq<VirtAlloc>,
                   ms: seq<MappedMemory>): Option<seq<Loadable>>
    requires |headers| == |regions| && |allocs| == |ms|
  {
    if headers == [] then Some([])
    else
      var rest := LoadAll(vbase, headers[..|headers| - 1], regions[..|headers| - 1], allocs, ms);
      var i := FindMapping(ms, PageStart(vbase + headers[|headers| - 1].virtualAddr));
      if rest.None? || i == |ms| then None
      else Some(rest.value + [Loadable(regions[|headers| - 1], ms[i], allocs[i].virtOffset)])
  }

  /** The file content of a segment is not larger than the segment. */
  ghost predicate Segments(headers: seq<Header>, regions: seq<seq<Byte>>) {
    |headers| == |regions| && forall i | 0 <= i < |headers| :: |regions[i]| <= headers[i].memSize
  }

  /** The content of every segment, in its own mapping, at the virtual address that the ELF file
      gives it. */
  ghost predicate AtHome(vbase: nat, headers: seq<Header>, regions: seq<seq<Byte>>, ms: seq<MappedMemory>,
                         ls: seq<Loadable>) {
    && |ls| == |headers| == |regions|
    && forall i | 0 <= i < |ls| ::
         && ls[i].content == regions[i] && ls[i].mapping in ms
         && ls[i].mapping.virtStart == vbase + PageStart(headers[i].virtualAddr)
         && Base(ls[i]) == vbase + headers[i].virtualAddr
  }

  /** After a successful `virt_alloc`, loading succeeds for every segment and puts every one at its
      address, in memory of its own. */
  lemma {:induction false} LoadedAtHome(vbase: nat, headers: seq<Header>, stringSize: nat, addr: PhysAddr,
                                        regions: seq<seq<Byte>>)
    requires vbase % PAGE_SIZE == 0 && KASLR_START <= vbase && addr.value + addr.hostOffset >= 0
    requires Allocs(vbase, headers, stringSize).Ok? && Segments(headers, regions)
    requires PageMapping.Disjoint(Jobs(Place(Allocs(vbase, headers, stringSize).value, addr)))
    ensures var allocs := Allocs(vbase, headers, stringSize).value;
            var ms, r := Place(allocs, addr), LoadAll(vbase, headers, regions, allocs, Place(allocs, addr));
            r.Some? && Valid(r.value) && AtHome(vbase, headers, regions, ms, r.value) && AllApart(ms)
  {
    hide Allocs, Place, AllApart, Valid, PageStart, AtHome, PageMapping.Disjoint, Stacked, LoadAll, PagesApart;
    var allocs := Allocs(vbase, headers, stringSize).value;
    AllocsStacked(vbase, headers, stringSize, addr);
    StackedApart(allocs, addr);
    HeadersApart(vbase, headers, stringSize);
    LoadedPrefix(vbase, headers, stringSize, addr, headers, regions);
  }

  lemma {:induction false} LoadedPrefix(vbase: nat, all: seq<Header>, stringSize: nat, addr: PhysAddr,
                                        headers: seq<Header>, regions: seq<seq<Byte>>)
    requires vbase % PAGE_SIZE == 0 && KASLR_START <= vbase && addr.value + addr.hostOffset >= 0
    requires Allocs(vbase, all, stringSize).Ok? && Segments(headers, regions)
    requires PagesApart(headers) && forall i | 0 <= i < |headers| :: headers[i] in all
    requires PageMapping.Disjoint(Jobs(Place(Allocs(vbase, all, stringSize).value, addr)))
    requires AllApart(Place(Allocs(vbase, all, stringSize).value, addr))
    ensures var allocs := Allocs(vbase, all, stringSize).value;
            var r := LoadAll(vbase, headers, regions, allocs, Place(allocs, addr));
            r.Some? && Valid(r.value) && AtHome(vbase, headers, regions, Place(allocs, addr), r.value)
    decreases |headers|
  {
    hide Allocs, Place, AllApart, FindMapping, Valid, PageStart, AtHome, PageMapping.Disjoint;
    if headers == [] {
      NothingValid(vbase, Place(Allocs(vbase, all, stringSize).value, addr));
    } else {
      var n := |headers| - 1;
      var allocs := Allocs(vbase, all, stringSize).value;
      var ms := Place(allocs, addr);
      assert Segments(headers[..n], regions[..n]);
      LoadedPrefix(vbase, all, stringSize, addr, headers[..n], regions[..n]);
      LoadAgrees(vbase, all, stringSize, addr, headers[n], regions[n]);
      PageStartShift(vbase, headers[n].virtualAddr);
      var rest := LoadAll(vbase, headers[..n], regions[..n], allocs, ms).value;
      var k := FindMapping(ms, PageStart(vbase + headers[n].virtualAddr));
      FoundMapping(ms, PageStart(vbase + headers[n].virtualAddr));
      var l := Loadable(regions[n], ms[k], allocs[k].virtOffset);
      AppendAtHome(vbase, headers, regions, ms, rest, l);
      AppendValid(rest, l, ms, allocs, addr);
    }
  }

  lemma {:induction false} AppendAtHome(vbase: nat, headers: seq<Header>, regions: seq<seq<Byte>>,
                                        ms: seq<MappedMemory>, rest: seq<Loadable>, l: Loadable)
    requires Segments(headers, regions) && PagesApart(headers) && |headers| > 0
    requires AtHome(vbase, headers[..|headers| - 1], regions[..|headers| - 1], ms, rest)
    requires l.content == regions[|headers| - 1] && l.mapping in ms
    requires l.mapping.virtStart == vbase + PageStart(headers[|headers| - 1].virtualAddr)
    requires Base(l) == vbase + headers[|headers| - 1].virtualAddr
    ensures AtHome(vbase, headers, regions, ms, rest + [l])
    ensures forall i | 0 <= i < |rest| :: rest[i].mapping in ms && rest[i].mapping.virtStart != l.mapping.virtStart
  {
    hide PageStart;
    var n := |headers| - 1;
    var ls := rest + [l];
    forall i | 0 <= i < |rest| ensures rest[i].mapping in ms && rest[i].mapping.virtStart != l.mapping.virtStart {
      assert headers[..n][i] == headers[i];
      assert PageStart(headers[i].virtualAddr) != PageStart(headers[n].virtualAddr);
    }
    forall i | 0 <= i < |ls|
      ensures && ls[i].content == regions[i] && ls[i].mapping in ms
              && ls[i].mapping.virtStart == vbase + PageStart(headers[i].virtualAddr)
              && Base(ls[i]) == vbase + headers[i].virtualAddr
    {
      if i < n {
        assert ls[i] == rest[i] && headers[..n][i] == headers[i] && regions[..n][i] == regions[i];
      }
    }
  }

  lemma NothingValid(vbase: nat, ms: seq<MappedMemory>)
    ensures Valid([]) && AtHome(vbase, [], [], ms, [])
  {
  }

  lemma FoundMapping(ms: seq<MappedMemory>, start: nat)
    requires FindMapping(ms, start) < |ms|
    ensures ms[FindMapping(ms, start)].virtStart == start
  {
  }

  lemma AppendValid(rest: seq<Loadable>, l: Loadable, ms: seq<MappedMemory>, allocs: seq<VirtAlloc>, addr: PhysAddr)
    requires Valid(rest) && ms == Place(allocs, addr) && AllApart(ms) && addr.value + addr.hostOffset >= 0
    requires l.mapping in ms && l.virtOffset + |l.content| <= l.mapping.len
    requires forall i | 0 <= i < |rest| :: rest[i].mapping in ms && rest[i].mapping.virtStart != l.mapping.virtStart
    ensures Valid(rest + [l])
  {
    hide SumLen;
    var k :| 0 <= k < |ms| && ms[k] == l.mapping;
    assert Host(ms[k]) >= addr.value + addr.hostOffset;
    forall i | 0 <= i < |rest|
      ensures VirtApart(rest[i].mapping, l.mapping) && HostApart(rest[i].mapping, l.mapping)
    {
      var j :| 0 <= j < |ms| && ms[j] == rest[i].mapping;
      if j < k {
        PlaceApart(allocs, addr, j, k);
        assert VirtApart(ms[j], ms[k]);
      } else {
        PlaceApart(allocs, addr, k, j);
        assert VirtApart(ms[k], ms[j]);
      }
    }
  }

  /** The loader itself. */
  class Loader {
    const env: Env
    const allocator: Allocator
    const guest: PageTableEditor.Guest
    const root: nat
    var mappings: seq<MappedMemory>
    var loadOffsets: seq<nat>
    var loadables: seq<Loadable>

    constructor (env: Env, allocator: Allocator, guest: PageTableEditor.Guest, root: nat)
      ensures this.env == env && this.allocator == allocator && this.guest == guest && this.root == root
      ensures mappings == [] && loadOffsets == [] && loadables == []
    {
      this.env, this.allocator, this.guest, this.root := env, allocator, guest, root;
      mappings, loadOffsets, loadables := [], [], [];
    }

    /** What `virt_alloc` relies on: the guest's tables lie in its memslots, and those on the paths of
        the wanted pages are not shared. */
    ghost predicate Ready(headers: seq<Header>, stringSize: nat)
      reads this, allocator, guest
    {
      && allocator.Valid()
      && (allocator.last.Some? ==>
            && (forall f | f in guest.tables :: 0 <= f < (allocator.last.value.end + 1) / PAGE_SIZE)
            && PageTableEditor.TablesUnder(guest.tables, root, (allocator.last.value.end + 1) / PAGE_SIZE))
      && var allocs := Allocs(env.vbase, headers, stringSize);
      allocs.Ok? ==>
        && (forall i | 0 <= i < |allocs.value| :: allocs.value[i].len < PageMapping.WORD)
        && PageWalk.Unshared(guest.tables, root, Wanted(allocs.value))
    }

    /** Places and maps the segments and the strings; the answers of the hypervisor and of the kernel
        are parameters. */
    method Allocate(headers: seq<Header>, stringSize: nat, accepted: bool, hostOffset: int, transferred: nat)
      returns (r: Option<ElfError>, ghost addr: PhysAddr)
      requires Ready(headers, stringSize)
      modifies this`mappings, this`loadOffsets, allocator`nextAllocation, allocator`regions, guest
      ensures var allocs := Allocs(env.vbase, headers, stringSize);
              && (allocs.Err? ==> r == Some(BadLayout(allocs.error)) && guest.tables == old(guest.tables))
              && (r.None? ==>
                    && allocs.Ok? && addr.hostOffset == hostOffset
                    && allocator.last.Some? && allocator.last.value.end < addr.value
                    && mappings == Place(allocs.value, addr) && |loadOffsets| == |mappings|
                    && (forall i | 0 <= i < |loadOffsets| :: loadOffsets[i] == allocs.value[i].virtOffset)
                    && WellFormed(mappings) && PageMapping.Disjoint(Jobs(mappings))
                    && MapsExactly(old(guest.tables), guest.tables, root, Jobs(mappings))
                    && TablesFrom(old(guest.tables), guest.tables, addr.value + SumLen(allocs.value, |allocs.value|))
                    && (Housed(old(guest.tables), guest.tables, addr.value + SlotSize(allocs.value))
                        <==> |NewSlots(old(guest.tables), root, Wanted(allocs.value))| <= Estimated(allocs.value)))
      ensures r.Some? ==> mappings == old(mappings) && loadOffsets == old(loadOffsets)
      ensures r.Some? && r.value != AllocFailed(MapFailed(PageTableEditor.WriteFailed)) ==>
                guest.tables == old(guest.tables)
      ensures r.None? && env.vbase % PAGE_SIZE == 0 && KASLR_START <= env.vbase ==>
                Stacked(Allocs(env.vbase, headers, stringSize).value)
    {
      hide Sort, SumLen, Stacked, Place, MapsExactly, PageMapping.Disjoint, WellFormed, Undoes, VisitedPages,
           PageWalk.Unshared, PageTableEditor.TablesUnder, Compact, NonEmpty, EntriesFit, SlotSize, Jobs, Sound,
           TablesFrom, Housed, NewSlots, Wanted, Estimated;
      addr := PhysAddr(0, 0);
      var allocs := Sort(AllocsOf(env.vbase, headers));
      if allocs == [] {
        return Some(BadLayout(NoSegment)), addr;
      }
      var lastAddr := allocs[|allocs| - 1].virtStart + allocs[|allocs| - 1].len;
      if !(KASLR_START <= lastAddr + stringSize < KASLR_END) {
        return Some(BadLayout(OutsideRange)), addr;
      }
      allocs := allocs + [VirtAlloc(lastAddr, 0, stringSize, PageTableEntry.Prot(true, false))];
      var mem, region := allocator.VirtAllocate(guest, root, allocs, accepted, hostOffset, transferred);
      if mem.Err? {
        return Some(AllocFailed(mem.error)), addr;
      }
      addr := PhysAddr(region.start, hostOffset);
      SoundLatest(State(allocator.nextAllocation, allocator.regions), allocator.last, allocator.limit);
      mappings := mem.value.mappings;
      loadOffsets := seq(|allocs|, i requires 0 <= i < |allocs| => allocs[i].virtOffset);
      r := None;
      if env.vbase % PAGE_SIZE == 0 && KASLR_START <= env.vbase {
        AllocsStacked(env.vbase, headers, stringSize, addr);
      }
    }

    method Load(base: nat, region: seq<Byte>) returns (r: Option<ElfError>)
      requires |loadOffsets| == |mappings|
      modifies this`loadables
      ensures var i := FindMapping(mappings, PageStart(env.vbase + base));
              if i == |mappings| then r == Some(NotAllocated) && loadables == old(loadables)
              else r == None && loadables == old(loadables) + [Loadable(region, mappings[i], loadOffsets[i])]
    {
      var i := FindMapping(mappings, PageStart(env.vbase + base));
      if i == |mappings| {
        return Some(NotAllocated);
      }
      loadables := loadables + [Loadable(region, mappings[i], loadOffsets[i])];
      r := None;
    }

    /** Applies a relocation in place in the buffer of the loadable it falls into. */
    method RelocateEntry(e: Entry) returns (r: Option<ElfError>)
      modifies this`loadables
      ensures var after := Relocate(env, old(loadables), e);
              if after.Err? then r == Some(after.error) && loadables == old(loadables)
              else r == None && loadables == after.value
    {
      hide LittleEndian, FindLoadable;
      var addr := env.vbase + e.offset;
      var i := FindLoaded(addr);
      if i == |loadables| {
        return Some(NoLoadable);
      }
      var target := Target(env, e);
      if target.Err? {
        return Some(target.error);
      }
      if target.value.Some? {
        var l := loadables[i];
        var start := addr - Base(l);
        if start < 0 || start + 8 > |l.content| {
          return Some(OutOfRange);
        }
        LittleEndianLength(target.value.value, 8);
        loadables := loadables[i := l.(content := Overwrite(l.content, start, LittleEndian(target.value.value, 8)))];
      }
      r := None;
    }

    method FindLoaded(addr: nat) returns (i: nat)
      ensures i == FindLoadable(loadables, addr) && i <= |loadables|
    {
      i := FindLoadable(loadables, addr);
    }

    /** Writes all content into the memory of the hypervisor in one call. */
    method UploadBinary(mem: Memory) returns (r: Option<Memory>)
      requires Valid(loadables)
      ensures r == Upload(mem, loadables)
    {
      hide Scatter, Total, Reached, Join;
      var remote: seq<Iov>, local: seq<seq<Byte>> := [], [];
      for i := 0 to |loadables|
        invariant remote == Iovs(loadables)[..i] && local == Contents(loadables)[..i]
      {
        var l := loadables[i];
        local := local + [l.content];
        remote := remote + [Iov(Host(l.mapping) + l.virtOffset, |l.content|)];
      }
      assert remote == Iovs(loadables) && local == Contents(loadables);
      PartsTotal(remote, local);
      if Total(Reached(mem, remote)) != Total(remote) {
        return None;
      }
      r := Some(Scatter(mem, remote, Join(local)));
    }
  }
}
