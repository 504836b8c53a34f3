/** The executor of the block device: requests move sectors between the mapped disk image and
    scattered buffers in the memory of the hypervisor, and chains are returned in the order in
    which they arrive. */
module BlockDevice {
  import opened Wrappers
  import opened Bytes
  import opened ProcessVm
  import opened GuestMemory
  import opened PageMath

  const SECTOR_SIZE := 512
  const WORD := 0x1_0000_0000_0000_0000
  const U32_LIMIT := 0x1_0000_0000

  datatype Kind = In | Out | Flush | Other

  datatype Request = Request(kind: Kind, sector: nat, data: seq<Iov>, statusAddr: nat)

  datatype Error = InvalidAccess | InvalidDataLength | GuestMemory | Transfer | FlushFailed | Unsupported

  datatype Chain = Chain(head: nat, request: Option<Request>)

  datatype Used = Used(head: nat, len: nat)

  /** The access test, with its checked 64-bit addition. */
  predicate InBounds(sectors: nat, count: nat, sector: nat) {
    count + sector < WORD && count + sector <= sectors
  }

  /** `sector << 9` in 64 bits: bits that are shifted out are lost. */
  function Offset(sector: nat): nat {
    sector * SECTOR_SIZE % WORD
  }

  /** The shift is right exactly for sectors below 2^55, which the access test guarantees. */
  lemma OffsetExactly(sector: nat)
    ensures Offset(sector) == sector * SECTOR_SIZE <==> sector < 0x80_0000_0000_0000
  {
  }

  /** Sector 2^55 wraps around to the beginning of the disk, but the access test rejects it. */
  lemma OffsetWraps()
    ensures Offset(0x80_0000_0000_0000) == 0
    ensures forall size: nat | size < WORD :: !InBounds(size / SECTOR_SIZE, 0, 0x80_0000_0000_0000)
  {
  }

  lemma InBoundsOffset(sectors: nat, size: nat, count: nat, sector: nat)
    requires sectors == size / SECTOR_SIZE && size < WORD && InBounds(sectors, count, sector)
    ensures Offset(sector) == sector * SECTOR_SIZE
    ensures Offset(sector) + count * SECTOR_SIZE <= sectors * SECTOR_SIZE <= size
  {
    OffsetExactly(sector);
  }

  datatype Effect = Effect(disk: seq<Byte>, memory: Memory, result: Result<nat, Error>)

  /** Flushing takes a page-aligned address, and only mapped pages. */
  predicate CanFlush(size: nat, r: Request) {
    Offset(r.sector) % PAGE_SIZE == 0 && Offset(r.sector) + Total(r.data) <= PageAlign(size)
  }

  /** Why a request for a disk of `size` bytes is refused before anything is transferred;
      `translatable` says whether all its buffers begin in guest memory. */
  function Refusal(size: nat, translatable: bool, r: Request): Option<Error> {
    var total := Total(r.data);
    if r.kind == Other then Some(Unsupported)
    else if r.kind != Flush && total % SECTOR_SIZE != 0 then Some(InvalidDataLength)
    else if !InBounds(size / SECTOR_SIZE, total / SECTOR_SIZE, r.sector) then Some(InvalidAccess)
    else if r.kind == Flush then if CanFlush(size, r) then None else Some(FlushFailed)
    else if r.kind == In && total >= U32_LIMIT then Some(InvalidDataLength)
    else if !translatable then Some(GuestMemory)
    else None
  }

  /** What `execute` does to the disk and to the memory. */
  function Execute(regions: seq<Region>, disk: seq<Byte>, mem: Memory, r: Request): (e: Effect)
    requires |disk| < WORD
    ensures |e.disk| == |disk| && e.memory.Keys == mem.Keys
  {
    var sectors, total := |disk| / SECTOR_SIZE, Total(r.data);
    var refusal := Refusal(|disk|, Translatable(regions, r.data), r);
    if refusal.Some? then Effect(disk, mem, Err(refusal.value))
    else if r.kind == Flush then Effect(disk, mem, Ok(0))
    else
      var iovs := Reached(mem, Remote(regions, r.data));
      var n, offset := Total(iovs), Offset(r.sector);
      InBoundsOffset(sectors, |disk|, total / SECTOR_SIZE, r.sector);
      RemoteTotal(regions, r.data);
      ReachedMapped(mem, Remote(regions, r.data));
      if n == 0 && total > 0 then Effect(disk, mem, Err(Transfer))
      else if r.kind == In then Effect(disk, Scatter(mem, iovs, disk[offset..offset + n]), Ok(n))
      else Effect(Overwrite(disk, offset, Gather(mem, iovs)), mem, Ok(n % U32_LIMIT))
  }

  /** The disk as an array of whole sectors. */
  function Sectors(disk: seq<Byte>): (r: seq<seq<Byte>>)
    ensures |r| == |disk| / SECTOR_SIZE
    ensures forall i | 0 <= i < |r| :: |r[i]| == SECTOR_SIZE
  {
    seq(|disk| / SECTOR_SIZE,
        i requires 0 <= i < |disk| / SECTOR_SIZE => disk[i * SECTOR_SIZE..i * SECTOR_SIZE + SECTOR_SIZE])
  }

  function Flatten(ss: seq<seq<Byte>>): seq<Byte> {
    if ss == [] then [] else ss[0] + Flatten(ss[1..])
  }

  /** All buffers of the request are backed by memory of the hypervisor. */
  predicate Backed(regions: seq<Region>, mem: Memory, r: Request) {
    Translatable(regions, r.data) ==> AllMapped(mem, Remote(regions, r.data))
  }

  /** The same requests on a plain array of sectors and on guest memory. */
  datatype Array = Array(sectors: seq<seq<Byte>>, guest: Memory, result: Result<nat, Error>)

  predicate WholeSectors(sectors: seq<seq<Byte>>) {
    forall i | 0 <= i < |sectors| :: |sectors[i]| == SECTOR_SIZE
  }

  predicate BeginsIn(guest: Memory, data: seq<Iov>) {
    forall i | 0 <= i < |data| :: data[i].base in guest
  }

  /** All buffers that begin in guest memory lie in guest memory. */
  predicate Contained(guest: Memory, r: Request) {
    BeginsIn(guest, r.data) ==> AllMapped(guest, r.data)
  }

  function OnArray(size: nat, sectors: seq<seq<Byte>>, guest: Memory, r: Request): Array
    requires |sectors| == size / SECTOR_SIZE && WholeSectors(sectors) && Contained(guest, r)
  {
    var refusal := Refusal(size, BeginsIn(guest, r.data), r);
    if refusal.Some? then Array(sectors, guest, Err(refusal.value))
    else if r.kind == Flush then Array(sectors, guest, Ok(0))
    else
      var total := Total(r.data);
      var count := total / SECTOR_SIZE;
      FlattenLength(sectors[r.sector..r.sector + count]);
      if r.kind == In then
        Array(sectors, Scatter(guest, r.data, Flatten(sectors[r.sector..r.sector + count])), Ok(total))
      else
        Array(sectors[..r.sector] + Sectors(Gather(guest, r.data)) + sectors[r.sector + count..], guest,
              Ok(total % U32_LIMIT))
  }

  lemma {:induction false} FlattenLength(ss: seq<seq<Byte>>)
    requires forall i | 0 <= i < |ss| :: |ss[i]| == SECTOR_SIZE
    ensures |Flatten(ss)| == |ss| * SECTOR_SIZE
  {
    if ss != [] {
      FlattenLength(ss[1..]);
    }
  }

  /** Consecutive sectors are consecutive bytes. */
  lemma {:induction false} SectorsSlice(disk: seq<Byte>, first: nat, count: nat)
    requires first + count <= |disk| / SECTOR_SIZE
    ensures Flatten(Sectors(disk)[first..first + count]) == disk[first * SECTOR_SIZE..(first + count) * SECTOR_SIZE]
    decreases count
  {
    var ss := Sectors(disk)[first..first + count];
    if count > 0 {
      SectorsSlice(disk, first + 1, count - 1);
      assert ss[1..] == Sectors(disk)[first + 1..first + count];
      assert ss[0] == disk[first * SECTOR_SIZE..first * SECTOR_SIZE + SECTOR_SIZE];
      assert Flatten(ss) == ss[0] + Flatten(ss[1..]);
      Adjoin(disk, first * SECTOR_SIZE, (first + 1) * SECTOR_SIZE, (first + count) * SECTOR_SIZE);
    } else {
      assert ss == [];
    }
  }

  lemma Adjoin(s: seq<Byte>, a: nat, b: nat, c: nat)
    requires a <= b <= c <= |s|
    ensures s[a..b] + s[b..c] == s[a..c]
  {
  }

  lemma OverwriteSlice(disk: seq<Byte>, offset: nat, data: seq<Byte>, x: nat, y: nat)
    requires offset + |data| <= |disk| && x <= y <= |disk|
    ensures y <= offset || x >= offset + |data| ==> Overwrite(disk, offset, data)[x..y] == disk[x..y]
    ensures offset <= x && y <= offset + |data| ==> Overwrite(disk, offset, data)[x..y] == data[x - offset..y - offset]
  {
    var r := Overwrite(disk, offset, data);
    forall k | 0 <= k < y - x ensures r[x..y][k] == r[x + k] {
    }
  }

  /** Writing whole sectors replaces whole sectors. */
  lemma SectorsPatch(disk: seq<Byte>, first: nat, data: seq<Byte>)
    requires |data| % SECTOR_SIZE == 0 && first + |data| / SECTOR_SIZE <= |disk| / SECTOR_SIZE
    ensures var count := |data| / SECTOR_SIZE;
            && first * SECTOR_SIZE + |data| <= |disk|
            && Sectors(Overwrite(disk, first * SECTOR_SIZE, data))
               == Sectors(disk)[..first] + Sectors(data) + Sectors(disk)[first + count..]
  {
    var count, patched := |data| / SECTOR_SIZE, Overwrite(disk, first * SECTOR_SIZE, data);
    var a, b := Sectors(patched), Sectors(disk)[..first] + Sectors(data) + Sectors(disk)[first + count..];
    hide Overwrite;
    forall i | 0 <= i < |a| ensures a[i] == b[i] {
      OverwriteSlice(disk, first * SECTOR_SIZE, data, i * SECTOR_SIZE, i * SECTOR_SIZE + SECTOR_SIZE);
      assert a[i] == patched[i * SECTOR_SIZE..i * SECTOR_SIZE + SECTOR_SIZE];
      if first <= i < first + count {
        assert b[i] == Sectors(data)[i - first];
      } else {
        assert b[i] == Sectors(disk)[i];
      }
    }
  }

  /** A request is accepted on guest memory exactly if it is accepted by the executor. */
  lemma BeginsView(regions: seq<Region>, mem: Memory, data: seq<Iov>)
    requires Wired(regions, mem)
    ensures BeginsIn(View(regions, mem), data) <==> Translatable(regions, data)
  {
    hide View, Translate, Wired;
    forall i | 0 <= i < |data|
      ensures data[i].base in View(regions, mem) <==> Translate(regions, data[i].base).Some?
    {
      ViewAt(regions, mem, data[i].base);
    }
  }

  predicate StraightRequest(regions: seq<Region>, r: Request) {
    Translatable(regions, r.data) ==> AllStraight(regions, r.data)
  }

  lemma StraightContained(regions: seq<Region>, mem: Memory, r: Request)
    requires Wired(regions, mem) && StraightRequest(regions, r)
    ensures Contained(View(regions, mem), r)
  {
    hide View, Wired, AllStraight, AllMapped, Translatable, BeginsIn;
    BeginsView(regions, mem, r.data);
    if Translatable(regions, r.data) {
      GatherView(regions, mem, r.data);
    }
  }

  /** The executor refines the array of sectors on guest physical memory, and leaves the bytes
      behind the last whole sector alone. */
  lemma RefinesArray(regions: seq<Region>, disk: seq<Byte>, mem: Memory, r: Request)
    requires |disk| < WORD && Wired(regions, mem) && StraightRequest(regions, r)
    ensures Contained(View(regions, mem), r) && WholeSectors(Sectors(disk))
    ensures var e := Execute(regions, disk, mem, r);
            && Array(Sectors(e.disk), View(regions, e.memory), e.result)
               == OnArray(|disk|, Sectors(disk), View(regions, mem), r)
            && e.disk[|Sectors(disk)| * SECTOR_SIZE..] == disk[|Sectors(disk)| * SECTOR_SIZE..]
  {
    hide *;
    SectorCount(disk);
    StraightContained(regions, mem, r);
    BeginsView(regions, mem, r.data);
    ExecuteRefused(regions, disk, mem, r);
    ArrayRefused(disk, View(regions, mem), r);
    if Refusal(|disk|, Translatable(regions, r.data), r).None? && r.kind != Flush {
      AcceptedStraight(regions, |disk|, r);
      GatherView(regions, mem, r.data);
      ExecuteBacked(regions, disk, mem, r);
      ArrayAccepted(disk, View(regions, mem), r);
      if r.kind == In {
        ScatterView(regions, mem, r.data, disk[Offset(r.sector)..Offset(r.sector) + Total(r.data)]);
      }
    }
  }

  lemma AcceptedStraight(regions: seq<Region>, size: nat, r: Request)
    requires Refusal(size, Translatable(regions, r.data), r).None? && r.kind != Flush && StraightRequest(regions, r)
    ensures Translatable(regions, r.data) && AllStraight(regions, r.data)
  {
  }

  lemma ArrayRefused(disk: seq<Byte>, guest: Memory, r: Request)
    requires WholeSectors(Sectors(disk)) && Contained(guest, r)
    ensures var refusal := Refusal(|disk|, BeginsIn(guest, r.data), r);
            && (refusal.Some? ==>
                  OnArray(|disk|, Sectors(disk), guest, r) == Array(Sectors(disk), guest, Err(refusal.value)))
            && (refusal.None? && r.kind == Flush ==>
                  OnArray(|disk|, Sectors(disk), guest, r) == Array(Sectors(disk), guest, Ok(0)))
  {
  }

  /** The array of sectors, by the bytes of the disk. */
  lemma ArrayAccepted(disk: seq<Byte>, guest: Memory, r: Request)
    requires |disk| < WORD && WholeSectors(Sectors(disk)) && Contained(guest, r)
    requires Refusal(|disk|, BeginsIn(guest, r.data), r).None? && r.kind != Flush
    ensures var offset, total := Offset(r.sector), Total(r.data);
            && offset + total <= |disk| && AllMapped(guest, r.data)
            && var after := Overwrite(disk, offset, Gather(guest, r.data));
            && OnArray(|disk|, Sectors(disk), guest, r)
               == (if r.kind == In then
                     Array(Sectors(disk), Scatter(guest, r.data, disk[offset..offset + total]), Ok(total))
                   else Array(Sectors(after), guest, Ok(total % U32_LIMIT)))
            && after[|disk| / SECTOR_SIZE * SECTOR_SIZE..] == disk[|disk| / SECTOR_SIZE * SECTOR_SIZE..]
  {
    hide Gather, Scatter, AllMapped, BeginsIn, Total, Sectors, Flatten, Overwrite, WholeSectors;
    var total := Total(r.data);
    InBoundsOffset(|disk| / SECTOR_SIZE, |disk|, total / SECTOR_SIZE, r.sector);
    GatherTotal(guest, r.data);
    WritesSectors(disk, r.sector, Gather(guest, r.data));
    SectorsSlice(disk, r.sector, total / SECTOR_SIZE);
  }

  lemma ExecuteRefused(regions: seq<Region>, disk: seq<Byte>, mem: Memory, r: Request)
    requires |disk| < WORD
    ensures var refusal := Refusal(|disk|, Translatable(regions, r.data), r);
            && (refusal.Some? ==> Execute(regions, disk, mem, r) == Effect(disk, mem, Err(refusal.value)))
            && (refusal.None? && r.kind == Flush ==> Execute(regions, disk, mem, r) == Effect(disk, mem, Ok(0)))
  {
  }

  /** A request with backed buffers is served completely. */
  lemma ExecuteBacked(regions: seq<Region>, disk: seq<Byte>, mem: Memory, r: Request)
    requires |disk| < WORD && Refusal(|disk|, Translatable(regions, r.data), r).None? && r.kind != Flush
    requires AllMapped(mem, Remote(regions, r.data))
    ensures var iovs, offset, total := Remote(regions, r.data), Offset(r.sector), Total(r.data);
            && offset + total <= |disk| && Total(iovs) == total
            && Execute(regions, disk, mem, r)
               == if r.kind == In then Effect(disk, Scatter(mem, iovs, disk[offset..offset + total]), Ok(total))
                  else Effect(Overwrite(disk, offset, Gather(mem, iovs)), mem, Ok(total % U32_LIMIT))
  {
    hide Gather, Scatter, Reached, Remote, Mapped, AllMapped, Translatable, Total, Offset, InBounds, Overwrite;
    InBoundsOffset(|disk| / SECTOR_SIZE, |disk|, Total(r.data) / SECTOR_SIZE, r.sector);
    RemoteTotal(regions, r.data);
    ReachedMapped(mem, Remote(regions, r.data));
  }

  /** Writing whole sectors, and nothing behind the last whole sector of the disk. */
  lemma WritesSectors(disk: seq<Byte>, first: nat, data: seq<Byte>)
    requires |data| % SECTOR_SIZE == 0 && first + |data| / SECTOR_SIZE <= |disk| / SECTOR_SIZE
    ensures first * SECTOR_SIZE + |data| <= |disk|
    ensures var after, count := Overwrite(disk, first * SECTOR_SIZE, data), |data| / SECTOR_SIZE;
            && |after| == |disk|
            && Sectors(after) == Sectors(disk)[..first] + Sectors(data) + Sectors(disk)[first + count..]
            && after[|disk| / SECTOR_SIZE * SECTOR_SIZE..] == disk[|disk| / SECTOR_SIZE * SECTOR_SIZE..]
  {
    hide Sectors;
    SectorsPatch(disk, first, data);
    OverwriteSlice(disk, first * SECTOR_SIZE, data, |disk| / SECTOR_SIZE * SECTOR_SIZE, |disk|);
  }

  lemma SectorCount(disk: seq<Byte>)
    ensures |Sectors(disk)| == |disk| / SECTOR_SIZE && WholeSectors(Sectors(disk))
  {
  }

  /** An accepted request reports a complete transfer exactly if all its buffers are backed;
      otherwise it is short or fails, and is not undone. */
  lemma TransfersAllExactly(regions: seq<Region>, disk: seq<Byte>, mem: Memory, r: Request)
    requires |disk| < WORD && Refusal(|disk|, Translatable(regions, r.data), r).None? && r.kind != Flush
    requires Total(r.data) < U32_LIMIT
    ensures Execute(regions, disk, mem, r).result == Ok(Total(r.data)) <==> Backed(regions, mem, r)
  {
    hide Total, AllMapped, Translatable, Remote, Reached, Mapped, Scatter, Gather, Overwrite, Offset;
    RemoteTotal(regions, r.data);
    ReachedAll(mem, Remote(regions, r.data));
    ReachedMapped(mem, Remote(regions, r.data));
  }

  /** A request whose second buffer is not backed reports a success with half of its bytes. */
  lemma ShortTransfer(disk: seq<Byte>)
    requires |disk| == 1024
    ensures var regions, mem := [Region(0, 1024, 0)], OneAt(512, 512);
            var r := Request(In, 0, [Iov(0, 512), Iov(512, 512)], 0);
            && Refusal(1024, Translatable(regions, r.data), r).None? && Total(r.data) == 1024
            && Execute(regions, disk, mem, r).result == Ok(512)
  {
    var regions, mem := [Region(0, 1024, 0)], OneAt(512, 512);
    var data := [Iov(0, 512), Iov(512, 512)];
    assert data[1..] == [Iov(512, 512)];
    var remote := Remote(regions, data);
    assert remote == data;
    assert 512 !in mem && !Mapped(mem, data[1]);
    assert Reached(mem, data) == [data[0]];
    assert Total([data[0]]) == 512 && Total(data) == 1024;
  }

  /** Byte by byte: a read leaves at every guest address of its disjoint buffers the byte of the
      disk, and a write puts on the disk what every guest address held. */
  lemma MovesBytes(regions: seq<Region>, disk: seq<Byte>, mem: Memory, r: Request, i: nat, k: nat)
    requires |disk| < WORD && Wired(regions, mem) && AllStraight(regions, r.data)
    requires Refusal(|disk|, Translatable(regions, r.data), r).None? && r.kind != Flush
    requires i < |r.data| && k < r.data[i].len
    ensures var e, a := Execute(regions, disk, mem, r), r.data[i].base + k;
            var b := Offset(r.sector) + Position(r.data, i, k);
            && b < |disk|
            && (r.kind == In && Disjoint(r.data) ==> GuestByte(regions, e.memory, a) == Some(disk[b]))
            && (r.kind == Out ==> GuestByte(regions, mem, a) == Some(e.disk[b]))
  {
    hide *;
    AcceptedTranslates(regions, |disk|, r);
    GatherView(regions, mem, r.data);
    ExecuteBacked(regions, disk, mem, r);
    PositionInside(r.data, i, k);
    var offset, total, e := Offset(r.sector), Total(r.data), Execute(regions, disk, mem, r);
    if r.kind == Out {
      GatherAt(View(regions, mem), r.data, i, k);
      ViewAt(regions, mem, r.data[i].base + k);
      OverwriteAt(disk, offset, Gather(View(regions, mem), r.data), Position(r.data, i, k));
    } else if Disjoint(r.data) {
      ExecuteKeys(regions, disk, mem, r);
      WiredKeys(regions, mem, e.memory);
      var bytes := disk[offset..offset + total];
      ScatterView(regions, mem, r.data, bytes);
      GatherScatter(View(regions, mem), r.data, bytes);
      GatherAt(View(regions, e.memory), r.data, i, k);
      ViewAt(regions, e.memory, r.data[i].base + k);
    }
  }

  lemma AcceptedTranslates(regions: seq<Region>, size: nat, r: Request)
    requires Refusal(size, Translatable(regions, r.data), r).None? && r.kind != Flush
    ensures Translatable(regions, r.data) && r.kind != Other
  {
  }

  lemma OverwriteAt(disk: seq<Byte>, offset: nat, data: seq<Byte>, p: nat)
    requires offset + |data| <= |disk| && p < |data|
    ensures offset + p < |Overwrite(disk, offset, data)| && Overwrite(disk, offset, data)[offset + p] == data[p]
  {
  }

  /** The device: the disk, the memory, and the used ring. */
  datatype State = State(disk: seq<Byte>, memory: Memory, used: seq<Used>)

  function Status(result: Result<nat, Error>): Byte {
    match result
    case Ok(_) => 0
    case Err(e) => if e == Unsupported then 2 else 1
  }

  /** The length in the used ring counts the status byte. */
  function UsedLen(result: Result<nat, Error>): nat {
    match result
    case Ok(n) => if n + 1 < U32_LIMIT then n + 1 else U32_LIMIT - 1
    case Err(_) => 1
  }

  predicate HasStatus(regions: seq<Region>, mem: Memory, r: Request) {
    var host := Translate(regions, r.statusAddr);
    host.Some? && host.value in mem
  }

  /** One chain: it is used unless its status byte cannot be written. */
  function ServeChain(regions: seq<Region>, s: State, c: Chain): (r: (State, bool))
    requires |s.disk| < WORD
    ensures |r.0.disk| == |s.disk| && r.0.memory.Keys == s.memory.Keys
  {
    if c.request.None? then (s.(used := s.used + [Used(c.head, 0)]), true)
    else
      var request := c.request.value;
      var e := Execute(regions, s.disk, s.memory, request);
      if !HasStatus(regions, e.memory, request) then (State(e.disk, e.memory, s.used), false)
      else
        (State(e.disk, e.memory[Translate(regions, request.statusAddr).value := Status(e.result)],
               s.used + [Used(c.head, UsedLen(e.result))]), true)
  }

  /** Chains in the order of their arrival, up to the first failure, and how many are done. */
  function ServeAll(regions: seq<Region>, s: State, chains: seq<Chain>): (r: (State, nat))
    requires |s.disk| < WORD
    ensures |r.0.disk| == |s.disk| && r.0.memory.Keys == s.memory.Keys && r.1 <= |chains|
    decreases |chains|
  {
    if chains == [] then (s, 0)
    else
      var (next, ok) := ServeChain(regions, s, chains[0]);
      if !ok then (next, 0)
      else
        var (end, done) := ServeAll(regions, next, chains[1..]);
        (end, done + 1)
  }

  function Heads(used: seq<Used>): seq<nat> {
    seq(|used|, i requires 0 <= i < |used| => used[i].head)
  }

  function ChainHeads(chains: seq<Chain>): seq<nat> {
    seq(|chains|, i requires 0 <= i < |chains| => chains[i].head)
  }

  /** Chains are returned once each, in the order of their arrival, and all of them unless a
      status byte could not be written. */
  lemma {:induction false} InOrder(regions: seq<Region>, s: State, chains: seq<Chain>)
    requires |s.disk| < WORD
    ensures var (end, done) := ServeAll(regions, s, chains);
            && Heads(end.used) == Heads(s.used) + ChainHeads(chains[..done])
            && (done < |chains| ==>
                  chains[done].request.Some? && !HasStatus(regions, s.memory, chains[done].request.value))
    decreases |chains|
  {
    hide Execute, Translate;
    if chains != [] {
      var (next, ok) := ServeChain(regions, s, chains[0]);
      if ok {
        InOrder(regions, next, chains[1..]);
        var done := ServeAll(regions, next, chains[1..]).1;
        assert next.used[..|s.used|] == s.used;
        assert ChainHeads(chains[..done + 1]) == [chains[0].head] + ChainHeads(chains[1..][..done]);
        assert Heads(next.used) == Heads(s.used) + [chains[0].head];
      }
    }
  }

  /** The array of sectors and guest memory with the same chains. */
  datatype ArrayState = ArrayState(sectors: seq<seq<Byte>>, guest: Memory, used: seq<Used>)

  /** What the device has done, as the guest sees it. */
  function Seen(regions: seq<Region>, s: State): ArrayState {
    ArrayState(Sectors(s.disk), View(regions, s.memory), s.used)
  }

  /** The buffers of the chain are straight and its status byte is in guest memory. */
  predicate ChainStraight(regions: seq<Region>, c: Chain) {
    c.request.Some? ==>
      StraightRequest(regions, c.request.value) && Translate(regions, c.request.value.statusAddr).Some?
  }

  predicate ChainContained(guest: Memory, c: Chain) {
    c.request.Some? ==> Contained(guest, c.request.value) && c.request.value.statusAddr in guest
  }

  function ArrayServe(size: nat, s: ArrayState, c: Chain): ArrayState
    requires |s.sectors| == size / SECTOR_SIZE && WholeSectors(s.sectors) && ChainContained(s.guest, c)
  {
    if c.request.None? then s.(used := s.used + [Used(c.head, 0)])
    else
      var e := OnArray(size, s.sectors, s.guest, c.request.value);
      ArrayState(e.sectors, e.guest[c.request.value.statusAddr := Status(e.result)],
                 s.used + [Used(c.head, UsedLen(e.result))])
  }

  lemma ServeRefines(regions: seq<Region>, s: State, c: Chain)
    requires |s.disk| < WORD && Wired(regions, s.memory) && ChainStraight(regions, c)
    ensures |Seen(regions, s).sectors| == |s.disk| / SECTOR_SIZE && WholeSectors(Seen(regions, s).sectors)
    ensures ChainContained(View(regions, s.memory), c)
    ensures var (next, ok) := ServeChain(regions, s, c);
            ok && Wired(regions, next.memory) && Seen(regions, next) == ArrayServe(|s.disk|, Seen(regions, s), c)
  {
    SectorCount(s.disk);
    ServeKeys(regions, s, c);
    WiredKeys(regions, s.memory, ServeChain(regions, s, c).0.memory);
    hide Sectors, WholeSectors, Execute, OnArray, Contained, StraightRequest, Translate, View, Wired;
    if c.request.Some? {
      var r := c.request.value;
      var e := Execute(regions, s.disk, s.memory, r);
      RefinesArray(regions, s.disk, s.memory, r);
      ExecuteKeys(regions, s.disk, s.memory, r);
      WiredKeys(regions, s.memory, e.memory);
      WriteByteView(regions, e.memory, r.statusAddr, Status(e.result));
      WriteByteView(regions, s.memory, r.statusAddr, Status(e.result));
    }
  }

  lemma ExecuteKeys(regions: seq<Region>, disk: seq<Byte>, mem: Memory, r: Request)
    requires |disk| < WORD
    ensures Execute(regions, disk, mem, r).memory.Keys == mem.Keys
  {
  }

  function ArrayServeAll(size: nat, s: ArrayState, chains: seq<Chain>): Option<ArrayState>
    decreases |chains|
  {
    if chains == [] then Some(s)
    else if |s.sectors| != size / SECTOR_SIZE || !WholeSectors(s.sectors) || !ChainContained(s.guest, chains[0])
    then None
    else ArrayServeAll(size, ArrayServe(size, s, chains[0]), chains[1..])
  }

  /** Any sequence of chains with straight buffers has the effect that it has on an array of
      sectors and on guest memory. */
  lemma {:induction false} QueueRefines(regions: seq<Region>, s: State, chains: seq<Chain>)
    requires |s.disk| < WORD && Wired(regions, s.memory)
    requires forall i | 0 <= i < |chains| :: ChainStraight(regions, chains[i])
    ensures var (end, done) := ServeAll(regions, s, chains);
            && done == |chains|
            && ArrayServeAll(|s.disk|, Seen(regions, s), chains) == Some(Seen(regions, end))
    decreases |chains|
  {
    hide ChainStraight, ChainContained, ServeChain, ArrayServe, Sectors, WholeSectors, View, Wired;
    if chains != [] {
      ServeRefines(regions, s, chains[0]);
      ServeKeys(regions, s, chains[0]);
      assert forall i | 0 <= i < |chains[1..]| :: chains[1..][i] == chains[i + 1];
      QueueRefines(regions, ServeChain(regions, s, chains[0]).0, chains[1..]);
    }
  }

  lemma ServeKeys(regions: seq<Region>, s: State, c: Chain)
    requires |s.disk| < WORD
    ensures var next := ServeChain(regions, s, c).0; |next.disk| == |s.disk| && next.memory.Keys == s.memory.Keys
  {
  }

  class InOrderQueueHandler {
    const regions: seq<Region>
    var disk: seq<Byte>
    var memory: Memory
    var used: seq<Used>
    var remoteIovs: seq<Iov>

    ghost function Value(): State
      reads this
    {
      State(disk, memory, used)
    }

    /** Translates the buffers of a request; the list is kept between requests. */
    method PrepareIovs(data: seq<Iov>) returns (ok: bool)
      modifies this`remoteIovs
      ensures ok <==> Translatable(regions, data)
      ensures ok ==> remoteIovs == Remote(regions, data)
    {
      remoteIovs := [];
      var i := 0;
      while i < |data|
        invariant 0 <= i <= |data| && |remoteIovs| == i
        invariant forall j | 0 <= j < i ::
                    var host := Translate(regions, data[j].base);
                    host.Some? && remoteIovs[j] == Iov(host.value, data[j].len)
      {
        var host := Translate(regions, data[i].base);
        if host.None? {
          return false;
        }
        remoteIovs := remoteIovs + [Iov(host.value, data[i].len)];
        i := i + 1;
      }
      ok := true;
    }

    method ExecuteRequest(r: Request) returns (result: Result<nat, Error>)
      requires |disk| < WORD
      modifies this`disk, this`memory, this`remoteIovs
      ensures Effect(disk, memory, result) == Execute(regions, old(disk), old(memory), r)
    {
      hide Mapped, ReadBytes, WriteBytes, Scatter, Gather, Reached, Total, AllMapped, Translate, Offset, InBounds;
      var offset, total, sectors := Offset(r.sector), Total(r.data), |disk| / SECTOR_SIZE;
      if (r.kind == In || r.kind == Out) && total % SECTOR_SIZE != 0 {
        return Err(InvalidDataLength);
      }
      if r.kind == Other {
        return Err(Unsupported);
      }
      if !InBounds(sectors, total / SECTOR_SIZE, r.sector) {
        return Err(InvalidAccess);
      }
      InBoundsOffset(sectors, |disk|, total / SECTOR_SIZE, r.sector);
      if r.kind == Flush {
        return if CanFlush(|disk|, r) then Ok(0) else Err(FlushFailed);
      }
      if r.kind == In && total >= U32_LIMIT {
        return Err(InvalidDataLength);
      }
      var prepared := PrepareIovs(r.data);
      if !prepared {
        return Err(GuestMemory);
      }
      RemoteTotal(regions, r.data);
      ReachedMapped(memory, remoteIovs);
      var iovs := Reached(memory, remoteIovs);
      var n := Total(iovs);
      if n == 0 && total > 0 {
        return Err(Transfer);
      }
      if r.kind == In {
        memory := Scatter(memory, iovs, disk[offset..offset + n]);
        result := Ok(n);
      } else {
        GatherTotal(memory, iovs);
        disk := Overwrite(disk, offset, Gather(memory, iovs));
        result := Ok(n % U32_LIMIT);
      }
    }

    method ProcessChain(c: Chain) returns (ok: bool)
      requires |disk| < WORD
      modifies this`disk, this`memory, this`remoteIovs, this`used
      ensures (Value(), ok) == ServeChain(regions, old(Value()), c)
      ensures |disk| == |old(disk)|
    {
      hide Execute, Translate;
      var len := 0;
      if c.request.Some? {
        var request := c.request.value;
        var result := ExecuteRequest(request);
        len := UsedLen(result);
        var host := Translate(regions, request.statusAddr);
        if host.None? || host.value !in memory {
          return false;
        }
        memory := memory[host.value := Status(result)];
      }
      used := used + [Used(c.head, len)];
      ok := true;
    }

    /** Serves one batch of available chains. */
    method ProcessBatch(chains: seq<Chain>) returns (ok: bool)
      requires |disk| < WORD
      modifies this`disk, this`memory, this`remoteIovs, this`used
      ensures (Value(), ok) == (var r := ServeAll(regions, old(Value()), chains); (r.0, r.1 == |chains|))
      ensures |disk| == |old(disk)|
    {
      hide ServeChain;
      ghost var all := ServeAll(regions, Value(), chains);
      assert chains[0..] == chains;
      for i := 0 to |chains|
        invariant |disk| == |old(disk)|
        invariant var rest := ServeAll(regions, Value(), chains[i..]); all == (rest.0, i + rest.1)
      {
        assert chains[i..][1..] == chains[i + 1..];
        ok := ProcessChain(chains[i]);
        if !ok {
          return;
        }
      }
      ok := true;
    }

    /** Serves the chains that are available, and again those that arrive before notifications
        are back on, until none are left. */
    method ProcessQueue(batches: seq<seq<Chain>>) returns (ok: bool)
      requires |disk| < WORD
      modifies this`disk, this`memory, this`remoteIovs, this`used
      ensures (Value(), ok) == (var r := ServeAll(regions, old(Value()), Concat(batches));
                                (r.0, r.1 == |Concat(batches)|))
    {
      hide ServeAll;
      ghost var all := ServeAll(regions, Value(), Concat(batches));
      ghost var before := 0;
      assert batches[0..] == batches;
      for b := 0 to |batches|
        invariant |disk| == |old(disk)| && before + |Concat(batches[b..])| == |Concat(batches)|
        invariant var rest := ServeAll(regions, Value(), Concat(batches[b..])); all == (rest.0, before + rest.1)
      {
        assert batches[b..][1..] == batches[b + 1..];
        ServeConcat(regions, Value(), batches[b], Concat(batches[b + 1..]));
        ok := ProcessBatch(batches[b]);
        if !ok {
          return;
        }
        before := before + |batches[b]|;
      }
      ServeNone(regions, Value());
      ok := true;
    }
  }

  lemma ServeNone(regions: seq<Region>, s: State)
    requires |s.disk| < WORD
    ensures ServeAll(regions, s, []) == (s, 0)
  {
  }

  /** Chains can be served in two parts; a failure in the first part ends both. */
  lemma {:induction false} ServeConcat(regions: seq<Region>, s: State, a: seq<Chain>, b: seq<Chain>)
    requires |s.disk| < WORD
    ensures var (mid, n) := ServeAll(regions, s, a);
            && n <= |a| && |mid.disk| == |s.disk|
            && ServeAll(regions, s, a + b)
               == if n < |a| then (mid, n) else var (end, m) := ServeAll(regions, mid, b); (end, n + m)
    decreases |a|
  {
    hide ServeChain;
    if a == [] {
      assert a + b == b;
    } else {
      ServeKeys(regions, s, a[0]);
      assert (a + b)[1..] == a[1..] + b;
      var (next, ok) := ServeChain(regions, s, a[0]);
      if ok {
        ServeConcat(regions, next, a[1..], b);
      }
    }
  }

  function Concat(batches: seq<seq<Chain>>): seq<Chain> {
    if batches == [] then [] else batches[0] + Concat(batches[1..])
  }
}
