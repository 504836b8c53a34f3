/** Guest physical memory: slots of the memory of the hypervisor, and buffers that are addressed
    by the guest and accessed through the hypervisor. */
module GuestMemory {
  import opened Wrappers
  import opened Bytes
  import opened ProcessVm

  datatype Region = Region(start: nat, len: nat, host: nat)

  function Translate(regions: seq<Region>, a: nat): Option<nat> {
    if regions == [] then None
    else if regions[0].start <= a < regions[0].start + regions[0].len then
      Some(regions[0].host + (a - regions[0].start))
    else Translate(regions[1..], a)
  }

  predicate Translatable(regions: seq<Region>, data: seq<Iov>) {
    forall i | 0 <= i < |data| :: Translate(regions, data[i].base).Some?
  }

  /** The buffers of a request in the memory of the hypervisor. */
  function Remote(regions: seq<Region>, data: seq<Iov>): seq<Iov>
    requires Translatable(regions, data)
  {
    seq(|data|, i requires 0 <= i < |data| => Iov(Translate(regions, data[i].base).value, data[i].len))
  }

  lemma {:induction false} RemoteTotal(regions: seq<Region>, data: seq<Iov>)
    requires Translatable(regions, data)
    ensures Total(Remote(regions, data)) == Total(data)
  {
    if data != [] {
      assert Remote(regions, data)[1..] == Remote(regions, data[1..]);
      RemoteTotal(regions, data[1..]);
    }
  }

  predicate InRegion(g: Region, a: nat) {
    g.start <= a < g.start + g.len
  }

  predicate RegionsApart(a: Region, b: Region) {
    && (a.start + a.len <= b.start || b.start + b.len <= a.start)
    && (a.host + a.len <= b.host || b.host + b.len <= a.host)
  }

  /** The guest's memory slots are disjoint for the guest and in the hypervisor. */
  predicate Slots(regions: seq<Region>) {
    forall i, j | 0 <= i < j < |regions| :: RegionsApart(regions[i], regions[j])
  }

  /** The slots of the guest are mapped in the hypervisor. */
  predicate Wired(regions: seq<Region>, mem: Memory) {
    && Slots(regions)
    && forall i | 0 <= i < |regions| :: Mapped(mem, Iov(regions[i].host, regions[i].len))
  }

  /** The byte of guest physical address `a`, where there is one. */
  function GuestByte(regions: seq<Region>, mem: Memory, a: nat): Option<Byte> {
    var h := Translate(regions, a);
    if h.Some? && h.value in mem then Some(mem[h.value]) else None
  }

  /** Guest physical memory as the guest sees it. */
  function View(regions: seq<Region>, mem: Memory): Memory {
    if regions == [] then map[]
    else
      var g := regions[0];
      View(regions[1..], mem)
      + map a: nat | g.start <= a < g.start + g.len && InRegion(g, a) && g.host + (a - g.start) in mem
          :: mem[g.host + (a - g.start)]
  }

  lemma {:induction false} TranslateFinds(regions: seq<Region>, a: nat)
    ensures Translate(regions, a).Some? ==>
              exists i | 0 <= i < |regions| ::
                InRegion(regions[i], a) && Translate(regions, a).value == regions[i].host + (a - regions[i].start)
    ensures Translate(regions, a).None? ==> forall i | 0 <= i < |regions| :: !InRegion(regions[i], a)
  {
    if regions != [] && !InRegion(regions[0], a) {
      var rest := regions[1..];
      TranslateFinds(rest, a);
      assert forall i | 0 <= i < |rest| :: rest[i] == regions[i + 1];
      if Translate(rest, a).Some? {
        var i :| 0 <= i < |rest| && InRegion(rest[i], a)
                 && Translate(rest, a).value == rest[i].host + (a - rest[i].start);
        assert InRegion(regions[i + 1], a);
      } else {
        forall i | 0 <= i < |regions| ensures !InRegion(regions[i], a) {
          if i > 0 {
            assert !InRegion(rest[i - 1], a);
          }
        }
      }
    }
  }

  /** An address of a slot translates to its place in the memory of the slot. */
  lemma TranslateInRegion(regions: seq<Region>, mem: Memory, i: nat, a: nat)
    requires Wired(regions, mem) && i < |regions| && InRegion(regions[i], a)
    ensures Translate(regions, a) == Some(regions[i].host + (a - regions[i].start))
    ensures regions[i].host + (a - regions[i].start) in mem
  {
    TranslateFinds(regions, a);
    assert Mapped(mem, Iov(regions[i].host, regions[i].len));
    if Translate(regions, a).Some? {
      var j :| 0 <= j < |regions| && InRegion(regions[j], a)
               && Translate(regions, a).value == regions[j].host + (a - regions[j].start);
      assert i == j;
    }
  }

  /** Two guest addresses share no byte, and every translated address is backed. */
  lemma TranslateInjective(regions: seq<Region>, mem: Memory, a: nat, b: nat)
    requires Wired(regions, mem) && Translate(regions, a).Some? && Translate(regions, b).Some?
    ensures Translate(regions, a) == Translate(regions, b) ==> a == b
    ensures Translate(regions, a).value in mem
  {
    TranslateFinds(regions, a);
    TranslateFinds(regions, b);
    var i :| 0 <= i < |regions| && InRegion(regions[i], a)
             && Translate(regions, a).value == regions[i].host + (a - regions[i].start);
    var j :| 0 <= j < |regions| && InRegion(regions[j], b)
             && Translate(regions, b).value == regions[j].host + (b - regions[j].start);
    TranslateInRegion(regions, mem, i, a);
    assert i < j ==> RegionsApart(regions[i], regions[j]);
    assert j < i ==> RegionsApart(regions[j], regions[i]);
  }

  /** The buffer lies as straight in the hypervisor as it does in the guest. */
  predicate Straight(regions: seq<Region>, iov: Iov) {
    Translate(regions, iov.base).Some? ==>
      forall k: nat | k < iov.len :: Lies(regions, iov.base, k)
  }

  /** The translation of the address `k` bytes behind `base` lies `k` bytes behind that of `base`. */
  predicate Lies(regions: seq<Region>, base: nat, k: nat) {
    && Translate(regions, base).Some?
    && Translate(regions, base + k) == Some(Translate(regions, base).value + k)
  }

  /** A buffer inside one slot is straight. */
  lemma InsideIsStraight(regions: seq<Region>, mem: Memory, i: nat, iov: Iov)
    requires Wired(regions, mem) && i < |regions| && InRegion(regions[i], iov.base)
    requires iov.base + iov.len <= regions[i].start + regions[i].len
    ensures Straight(regions, iov)
  {
    hide Translate, Wired;
    TranslateInRegion(regions, mem, i, iov.base);
    forall k: nat | k < iov.len ensures Lies(regions, iov.base, k) {
      TranslateInRegion(regions, mem, i, iov.base + k);
    }
  }

  lemma {:induction false} ViewAt(regions: seq<Region>, mem: Memory, a: nat)
    requires Wired(regions, mem)
    ensures var byte := GuestByte(regions, mem, a);
            if byte.Some? then a in View(regions, mem) && View(regions, mem)[a] == byte.value
            else a !in View(regions, mem) && Translate(regions, a).None?
  {
    hide Wired;
    if regions != [] {
      WiredRest(regions, mem);
      ViewAt(regions[1..], mem, a);
      if InRegion(regions[0], a) {
        FirstBacked(regions, mem, a);
      }
    }
  }

  lemma FirstBacked(regions: seq<Region>, mem: Memory, a: nat)
    requires Wired(regions, mem) && regions != [] && InRegion(regions[0], a)
    ensures regions[0].host + (a - regions[0].start) in mem
  {
    assert Mapped(mem, Iov(regions[0].host, regions[0].len));
  }

  lemma WiredRest(regions: seq<Region>, mem: Memory)
    requires Wired(regions, mem) && regions != []
    ensures Wired(regions[1..], mem)
  {
    var rest := regions[1..];
    assert forall i | 0 <= i < |rest| :: rest[i] == regions[i + 1];
  }

  lemma WiredKeys(regions: seq<Region>, mem: Memory, after: Memory)
    requires Wired(regions, mem) && mem.Keys == after.Keys
    ensures Wired(regions, after)
  {
    assert forall iov :: Mapped(mem, iov) ==> Mapped(after, iov);
  }

  /** Guest memory is the memory of the hypervisor, seen through the slots. */
  lemma ViewIs(regions: seq<Region>, mem: Memory, guest: Memory)
    requires Wired(regions, mem)
    requires forall a: nat :: GuestByte(regions, mem, a) == if a in guest then Some(guest[a]) else None
    ensures View(regions, mem) == guest
  {
    hide View, Translate, Wired;
    forall a: nat ensures a in View(regions, mem) <==> a in guest {
      ViewAt(regions, mem, a);
    }
    forall a | a in guest ensures View(regions, mem)[a] == guest[a] {
      ViewAt(regions, mem, a);
    }
  }

  /** A byte of a straight buffer is the same byte in the hypervisor and in the guest. */
  lemma ByteView(regions: seq<Region>, mem: Memory, iov: Iov, k: nat)
    requires Wired(regions, mem) && Straight(regions, iov) && Translate(regions, iov.base).Some? && k < iov.len
    ensures var host, guest := Translate(regions, iov.base).value, View(regions, mem);
            && Translate(regions, iov.base + k) == Some(host + k)
            && host + k in mem && iov.base + k in guest && guest[iov.base + k] == mem[host + k]
  {
    assert Lies(regions, iov.base, k);
    hide View, Translate, Wired;
    TranslateInjective(regions, mem, iov.base + k, iov.base + k);
    ViewAt(regions, mem, iov.base + k);
  }

  lemma BufferMapped(regions: seq<Region>, mem: Memory, iov: Iov)
    requires Wired(regions, mem) && Straight(regions, iov) && Translate(regions, iov.base).Some?
    ensures Mapped(mem, Iov(Translate(regions, iov.base).value, iov.len)) && Mapped(View(regions, mem), iov)
  {
    hide View, Translate, Wired, Straight;
    var host := Translate(regions, iov.base).value;
    forall h: nat | host <= h < host + iov.len ensures h in mem {
      ByteView(regions, mem, iov, h - host);
    }
    forall a: nat | iov.base <= a < iov.base + iov.len ensures a in View(regions, mem) {
      ByteView(regions, mem, iov, a - iov.base);
    }
  }

  /** A straight buffer is backed, and holds in the hypervisor what it holds in the guest. */
  lemma BufferView(regions: seq<Region>, mem: Memory, iov: Iov)
    requires Wired(regions, mem) && Straight(regions, iov) && Translate(regions, iov.base).Some?
    ensures ReadsRight(regions, mem, iov)
  {
    hide View, Translate, Wired, Straight;
    BufferMapped(regions, mem, iov);
    var a := ReadBytes(mem, Iov(Translate(regions, iov.base).value, iov.len));
    var b := ReadBytes(View(regions, mem), iov);
    forall k | 0 <= k < iov.len ensures a[k] == b[k] {
      ByteView(regions, mem, iov, k);
    }
  }

  /** Reading the buffer in the hypervisor reads it in the guest. */
  predicate ReadsRight(regions: seq<Region>, mem: Memory, iov: Iov)
    requires Translate(regions, iov.base).Some?
  {
    var remote := Iov(Translate(regions, iov.base).value, iov.len);
    && Mapped(mem, remote) && Mapped(View(regions, mem), iov)
    && ReadBytes(mem, remote) == ReadBytes(View(regions, mem), iov)
  }

  lemma WrittenByte(regions: seq<Region>, mem: Memory, iov: Iov, bytes: seq<Byte>, a: nat)
    requires Wired(regions, mem) && Straight(regions, iov) && Translate(regions, iov.base).Some? && |bytes| == iov.len
    ensures var after := WriteBytes(mem, Translate(regions, iov.base).value, bytes);
            var guest := WriteBytes(View(regions, mem), iov.base, bytes);
            GuestByte(regions, after, a) == if a in guest then Some(guest[a]) else None
  {
    hide View, Translate, Wired, Straight;
    ViewAt(regions, mem, a);
    var host, h := Translate(regions, iov.base).value, Translate(regions, a);
    if h.Some? {
      TranslateInjective(regions, mem, a, a);
      if iov.base <= a < iov.base + iov.len {
        ByteView(regions, mem, iov, a - iov.base);
      } else if host <= h.value < host + iov.len {
        ByteView(regions, mem, iov, h.value - host);
        TranslateInjective(regions, mem, a, iov.base + (h.value - host));
      }
    }
  }

  /** Writing a straight buffer in the hypervisor writes it in the guest. */
  lemma WriteView(regions: seq<Region>, mem: Memory, iov: Iov, bytes: seq<Byte>)
    requires Wired(regions, mem) && Straight(regions, iov) && Translate(regions, iov.base).Some? && |bytes| == iov.len
    ensures Wired(regions, WriteBytes(mem, Translate(regions, iov.base).value, bytes))
    ensures View(regions, WriteBytes(mem, Translate(regions, iov.base).value, bytes))
            == WriteBytes(View(regions, mem), iov.base, bytes)
  {
    var host := Translate(regions, iov.base).value;
    var after, guest := WriteBytes(mem, host, bytes), WriteBytes(View(regions, mem), iov.base, bytes);
    WiredKeys(regions, mem, after);
    hide View, Translate, Wired, WriteBytes, GuestByte;
    forall a: nat ensures GuestByte(regions, after, a) == if a in guest then Some(guest[a]) else None {
      WrittenByte(regions, mem, iov, bytes, a);
    }
    ViewIs(regions, after, guest);
  }

  predicate AllStraight(regions: seq<Region>, data: seq<Iov>) {
    forall i | 0 <= i < |data| :: Straight(regions, data[i])
  }

  lemma RemoteRest(regions: seq<Region>, data: seq<Iov>)
    requires Translatable(regions, data) && AllStraight(regions, data) && data != []
    ensures Translatable(regions, data[1..]) && AllStraight(regions, data[1..])
    ensures Remote(regions, data)[1..] == Remote(regions, data[1..])
    ensures Straight(regions, data[0]) && Translate(regions, data[0].base).Some?
    ensures Remote(regions, data)[0] == Iov(Translate(regions, data[0].base).value, data[0].len)
  {
    var rest := data[1..];
    assert forall i | 0 <= i < |rest| :: rest[i] == data[i + 1];
  }

  /** What the kernel collects for a request is what the guest has in its buffers. */
  lemma {:induction false} GatherView(regions: seq<Region>, mem: Memory, data: seq<Iov>)
    requires Wired(regions, mem) && Translatable(regions, data) && AllStraight(regions, data)
    ensures AllMapped(mem, Remote(regions, data)) && AllMapped(View(regions, mem), data)
    ensures Gather(mem, Remote(regions, data)) == Gather(View(regions, mem), data)
    decreases |data|
  {
    hide View, Wired, Translate, Straight, Mapped, ReadBytes;
    if data != [] {
      RemoteRest(regions, data);
      BufferView(regions, mem, data[0]);
      GatherView(regions, mem, data[1..]);
      AllMappedCons(mem, Remote(regions, data));
      AllMappedCons(View(regions, mem), data);
      GatherUnfold(mem, Remote(regions, data));
      GatherUnfold(View(regions, mem), data);
    }
  }

  lemma AllMappedCons(mem: Memory, iovs: seq<Iov>)
    requires iovs != [] && Mapped(mem, iovs[0]) && AllMapped(mem, iovs[1..])
    ensures AllMapped(mem, iovs)
  {
    hide Mapped;
    forall i | 0 <= i < |iovs| ensures Mapped(mem, iovs[i]) {
      if i > 0 {
        assert iovs[1..][i - 1] == iovs[i];
      }
    }
  }

  /** What the kernel distributes for a request is in the buffers of the guest. */
  lemma {:induction false} ScatterView(regions: seq<Region>, mem: Memory, data: seq<Iov>, bytes: seq<Byte>)
    requires Wired(regions, mem) && Translatable(regions, data) && AllStraight(regions, data) && |bytes| == Total(data)
    ensures Total(Remote(regions, data)) == Total(data)
    ensures View(regions, Scatter(mem, Remote(regions, data), bytes)) == Scatter(View(regions, mem), data, bytes)
    decreases |data|
  {
    RemoteTotal(regions, data);
    hide View, Wired, Translate, Straight, WriteBytes;
    if data == [] {
      assert Remote(regions, data) == [];
    } else {
      RemoteRest(regions, data);
      var head, tail := bytes[..data[0].len], bytes[data[0].len..];
      WriteView(regions, mem, data[0], head);
      ScatterView(regions, WriteBytes(mem, Translate(regions, data[0].base).value, head), data[1..], tail);
      ScatterUnfold(mem, Remote(regions, data), bytes);
      ScatterUnfold(View(regions, mem), data, bytes);
    }
  }

  /** Writing one byte of guest memory, by its address in the hypervisor. */
  lemma WriteByteView(regions: seq<Region>, mem: Memory, a: nat, byte: Byte)
    requires Wired(regions, mem) && Translate(regions, a).Some?
    ensures a in View(regions, mem) && Translate(regions, a).value in mem
    ensures View(regions, mem[Translate(regions, a).value := byte]) == View(regions, mem)[a := byte]
  {
    hide View, Wired, Translate, Straight, WriteBytes;
    var h, iov := Translate(regions, a).value, Iov(a, 1);
    OneByteStraight(regions, a);
    ByteView(regions, mem, iov, 0);
    WriteView(regions, mem, iov, [byte]);
    OneByte(mem, h, byte);
    OneByte(View(regions, mem), a, byte);
  }

  lemma OneByteStraight(regions: seq<Region>, a: nat)
    ensures Straight(regions, Iov(a, 1))
  {
  }

  lemma OneByte(mem: Memory, a: nat, byte: Byte)
    requires a in mem
    ensures WriteBytes(mem, a, [byte]) == mem[a := byte]
  {
  }

  // ----- exactly the straight buffers -----

  /** The buffers of a request are collected as the guest filled them. */
  predicate CollectsRight(regions: seq<Region>, mem: Memory, data: seq<Iov>)
    requires Translatable(regions, data)
  {
    var guest, remote := View(regions, mem), Remote(regions, data);
    AllMapped(mem, remote) && AllMapped(guest, data) && Gather(mem, remote) == Gather(guest, data)
  }

  /** The buffers of a request are filled as the guest will find them. */
  predicate DistributesRight(regions: seq<Region>, mem: Memory, data: seq<Iov>, bytes: seq<Byte>)
    requires Translatable(regions, data) && |bytes| == Total(data)
  {
    RemoteTotal(regions, data);
    var guest := View(regions, mem);
    AllMapped(guest, data) && View(regions, Scatter(mem, Remote(regions, data), bytes)) == Scatter(guest, data, bytes)
  }

  /** An address behind all slots. */
  function HostEnd(regions: seq<Region>): nat {
    if regions == [] then 0
    else
      var rest, end := HostEnd(regions[1..]), regions[0].host + regions[0].len;
      if rest < end then end else rest
  }

  lemma {:induction false} HostEndBounds(regions: seq<Region>, i: nat)
    requires i < |regions|
    ensures regions[i].host + regions[i].len <= HostEnd(regions)
  {
    if i > 0 {
      HostEndBounds(regions[1..], i - 1);
    }
  }

  lemma OneAtWired(regions: seq<Region>, limit: nat, at: nat)
    requires Slots(regions) && HostEnd(regions) <= limit
    ensures Wired(regions, OneAt(limit, at))
  {
    forall i | 0 <= i < |regions| ensures Mapped(OneAt(limit, at), Iov(regions[i].host, regions[i].len)) {
      HostEndBounds(regions, i);
    }
  }

  /** A byte of a gathered list, by the buffer it comes from. */
  lemma {:induction false} GatherAt(mem: Memory, iovs: seq<Iov>, i: nat, k: nat)
    requires AllMapped(mem, iovs) && i < |iovs| && k < iovs[i].len
    ensures Position(iovs, i, k) < |Gather(mem, iovs)| && iovs[i].base + k in mem
    ensures Gather(mem, iovs)[Position(iovs, i, k)] == mem[iovs[i].base + k]
    decreases i
  {
    GatherUnfold(mem, iovs);
    assert Mapped(mem, iovs[i]);
    if i > 0 {
      GatherAt(mem, iovs[1..], i - 1, k);
    }
  }

  /** Where byte `k` of buffer `i` is in the gathered list. */
  function Position(iovs: seq<Iov>, i: nat, k: nat): (p: nat)
    requires i < |iovs|
    ensures k < iovs[i].len ==> p < Total(iovs)
    decreases i
  {
    if i == 0 then k else iovs[0].len + Position(iovs[1..], i - 1, k)
  }

  lemma PositionInside(iovs: seq<Iov>, i: nat, k: nat)
    requires i < |iovs| && k < iovs[i].len
    ensures Position(iovs, i, k) < Total(iovs)
  {
  }

  lemma {:induction false} RemotePosition(regions: seq<Region>, data: seq<Iov>, i: nat, k: nat)
    requires Translatable(regions, data) && i < |data|
    ensures Position(Remote(regions, data), i, k) == Position(data, i, k)
    decreases i
  {
    if i > 0 {
      assert forall j | 0 <= j < |data[1..]| :: data[1..][j] == data[j + 1];
      assert Remote(regions, data)[1..] == Remote(regions, data[1..]);
      RemotePosition(regions, data[1..], i - 1, k);
    }
  }

  lemma RemoteAt(regions: seq<Region>, data: seq<Iov>, i: nat)
    requires Translatable(regions, data) && i < |data|
    ensures i < |Remote(regions, data)| && Translate(regions, data[i].base).Some?
    ensures Remote(regions, data)[i] == Iov(Translate(regions, data[i].base).value, data[i].len)
  {
  }

  lemma CollectsFacts(regions: seq<Region>, mem: Memory, data: seq<Iov>)
    requires Translatable(regions, data) && CollectsRight(regions, mem, data)
    ensures AllMapped(mem, Remote(regions, data)) && AllMapped(View(regions, mem), data)
    ensures Gather(mem, Remote(regions, data)) == Gather(View(regions, mem), data)
  {
  }

  lemma DistributesFacts(regions: seq<Region>, mem: Memory, data: seq<Iov>, bytes: seq<Byte>)
    requires Translatable(regions, data) && |bytes| == Total(data) && DistributesRight(regions, mem, data, bytes)
    ensures AllMapped(View(regions, mem), data) && Total(Remote(regions, data)) == Total(data)
    ensures View(regions, Scatter(mem, Remote(regions, data), bytes)) == Scatter(View(regions, mem), data, bytes)
  {
    RemoteTotal(regions, data);
  }

  /** What collecting rightly says of one byte. */
  lemma CollectedByte(regions: seq<Region>, mem: Memory, data: seq<Iov>, i: nat, k: nat)
    requires Wired(regions, mem) && Translatable(regions, data) && CollectsRight(regions, mem, data)
    requires i < |data| && k < data[i].len
    ensures Translate(regions, data[i].base).Some? && Translate(regions, data[i].base).value + k in mem
    ensures GuestByte(regions, mem, data[i].base + k) == Some(mem[Translate(regions, data[i].base).value + k])
  {
    hide *;
    CollectsFacts(regions, mem, data);
    RemoteAt(regions, data, i);
    GatherAt(mem, Remote(regions, data), i, k);
    GatherAt(View(regions, mem), data, i, k);
    RemotePosition(regions, data, i, k);
    ViewAt(regions, mem, data[i].base + k);
  }

  lemma OneAtByte(regions: seq<Region>, limit: nat, at: nat, a: nat)
    requires GuestByte(regions, OneAt(limit, at), a) == Some(1)
    ensures Translate(regions, a) == Some(at)
  {
  }

  /** A crooked buffer is collected wrongly from some memory. */
  lemma CrookedCollects(regions: seq<Region>, data: seq<Iov>, i: nat, k: nat) returns (mem: Memory)
    requires Slots(regions) && Translatable(regions, data) && i < |data| && k < data[i].len
    requires !Lies(regions, data[i].base, k)
    ensures Wired(regions, mem) && !CollectsRight(regions, mem, data)
  {
    hide Wired, View, HostEnd, GuestByte, CollectsRight, Translate, Remote, Slots, Gather;
    RemoteAt(regions, data, i);
    var at := Translate(regions, data[i].base).value + k;
    mem := OneAt(HostEnd(regions) + at + 1, at);
    OneAtWired(regions, HostEnd(regions) + at + 1, at);
    if CollectsRight(regions, mem, data) {
      CollectedByte(regions, mem, data, i, k);
      OneAtByte(regions, HostEnd(regions) + at + 1, at, data[i].base + k);
      assert false;
    }
  }

  /** The bytes to distribute hold a single one at most, for byte `k` of buffer `i`. */
  predicate OnlyFor(iovs: seq<Iov>, bytes: seq<Byte>, i: nat, k: nat) {
    && (i < |iovs| ==> k < iovs[i].len)
    && forall q | 0 <= q < |bytes| :: bytes[q] != 0 ==> i < |iovs| && q == Position(iovs, i, k)
  }

  /** The one that is distributed reaches its own address only. */
  lemma {:induction false} ScatterQuiet(mem: Memory, iovs: seq<Iov>, bytes: seq<Byte>, i: nat, k: nat, a: nat)
    requires |bytes| == Total(iovs) && OnlyFor(iovs, bytes, i, k) && a in mem && mem[a] == 0
    requires i < |iovs| ==> a != iovs[i].base + k
    ensures a in Scatter(mem, iovs, bytes) && Scatter(mem, iovs, bytes)[a] == 0
    decreases |iovs|
  {
    if iovs != [] {
      var n, rest := iovs[0].len, iovs[1..];
      var next := WriteBytes(mem, iovs[0].base, bytes[..n]);
      assert next[a] == 0;
      var j := if i == 0 then |rest| else i - 1;
      assert OnlyFor(rest, bytes[n..], j, k);
      ScatterQuiet(next, rest, bytes[n..], j, k, a);
    }
  }

  function Unit(n: nat, p: nat): (r: seq<Byte>) {
    seq(n, q requires 0 <= q < n => Mark(q, p))
  }

  lemma UnitReaches(guest: Memory, data: seq<Iov>, i: nat, k: nat)
    requires AllMapped(guest, data) && Disjoint(data) && i < |data| && k < data[i].len
    ensures var after := Scatter(guest, data, Unit(Total(data), Position(data, i, k)));
            data[i].base + k in after && after[data[i].base + k] == 1
  {
    var bytes := Unit(Total(data), Position(data, i, k));
    GatherScatter(guest, data, bytes);
    GatherAt(Scatter(guest, data, bytes), data, i, k);
  }

  lemma UnitLength(n: nat, p: nat)
    ensures |Unit(n, p)| == n
  {
  }

  lemma UnitIsOnlyFor(iovs: seq<Iov>, i: nat, k: nat)
    requires i < |iovs| && k < iovs[i].len
    ensures OnlyFor(iovs, Unit(Total(iovs), Position(iovs, i, k)), i, k)
  {
  }

  lemma ZeroByte(limit: nat, a: nat)
    requires a in OneAt(limit, limit)
    ensures OneAt(limit, limit)[a] == 0
  {
  }

  lemma QuietByte(regions: seq<Region>, limit: nat, iovs: seq<Iov>, bytes: seq<Byte>, i: nat, k: nat, a: nat)
    requires |bytes| == Total(iovs) && OnlyFor(iovs, bytes, i, k) && i < |iovs|
    requires GuestByte(regions, Scatter(OneAt(limit, limit), iovs, bytes), a) == Some(1)
    ensures Translate(regions, a) == Some(iovs[i].base + k)
  {
    hide Scatter, OnlyFor, Translate, OneAt;
    var mem, h := OneAt(limit, limit), Translate(regions, a).value;
    ScatterUnfold(mem, iovs, bytes);
    ZeroByte(limit, h);
    if h != iovs[i].base + k {
      ScatterQuiet(mem, iovs, bytes, i, k, h);
      assert false;
    }
  }

  /** What distributing a single one rightly says of its place. */
  lemma DistributedByte(regions: seq<Region>, mem: Memory, data: seq<Iov>, i: nat, k: nat)
    requires Wired(regions, mem) && Translatable(regions, data) && Disjoint(data) && i < |data| && k < data[i].len
    requires DistributesRight(regions, mem, data, Unit(Total(data), Position(data, i, k)))
    ensures var bytes := Unit(Total(data), Position(data, i, k));
            && |bytes| == Total(Remote(regions, data))
            && GuestByte(regions, Scatter(mem, Remote(regions, data), bytes), data[i].base + k) == Some(1)
  {
    hide *;
    var bytes, remote := Unit(Total(data), Position(data, i, k)), Remote(regions, data);
    UnitLength(Total(data), Position(data, i, k));
    DistributesFacts(regions, mem, data, bytes);
    var after := Scatter(mem, remote, bytes);
    ScatterUnfold(mem, remote, bytes);
    WiredKeys(regions, mem, after);
    UnitReaches(View(regions, mem), data, i, k);
    ViewAt(regions, after, data[i].base + k);
  }

  /** A crooked buffer is filled wrongly in some memory and with some data. */
  lemma CrookedDistributes(regions: seq<Region>, data: seq<Iov>, i: nat, k: nat) returns (mem: Memory, bytes: seq<Byte>)
    requires Slots(regions) && Translatable(regions, data) && Disjoint(data) && i < |data| && k < data[i].len
    requires !Lies(regions, data[i].base, k)
    ensures Wired(regions, mem) && |bytes| == Total(data) && !DistributesRight(regions, mem, data, bytes)
  {
    hide Wired, View, HostEnd, Translate, GuestByte, Unit, OnlyFor, DistributesRight, Scatter, Position, OneAt,
         Disjoint, Remote, Slots, Translatable;
    RemoteAt(regions, data, i);
    var remote, limit, a := Remote(regions, data), HostEnd(regions), data[i].base + k;
    mem, bytes := OneAt(limit, limit), Unit(Total(data), Position(data, i, k));
    OneAtWired(regions, limit, limit);
    RemoteTotal(regions, data);
    RemotePosition(regions, data, i, k);
    UnitIsOnlyFor(remote, i, k);
    UnitLength(Total(data), Position(data, i, k));
    if DistributesRight(regions, mem, data, bytes) {
      DistributedByte(regions, mem, data, i, k);
      QuietByte(regions, limit, remote, bytes, i, k, a);
      assert false;
    }
  }

  /** Whatever the guest has in its buffers is collected rightly, and whatever is to be put into
      disjoint buffers is distributed rightly, exactly if all buffers are straight. */
  lemma StraightExactly(regions: seq<Region>, data: seq<Iov>)
    requires Slots(regions) && Translatable(regions, data)
    ensures AllStraight(regions, data) <==>
              forall mem: Memory | Wired(regions, mem) :: CollectsRight(regions, mem, data)
    ensures Disjoint(data) ==>
              (AllStraight(regions, data) <==>
                 forall mem: Memory, bytes: seq<Byte> | Wired(regions, mem) && |bytes| == Total(data) ::
                   DistributesRight(regions, mem, data, bytes))
  {
    hide *;
    if AllStraight(regions, data) {
      forall mem: Memory | Wired(regions, mem) ensures CollectsRight(regions, mem, data) {
        StraightCollects(regions, mem, data);
      }
      forall mem: Memory, bytes: seq<Byte> | Wired(regions, mem) && |bytes| == Total(data)
        ensures DistributesRight(regions, mem, data, bytes)
      {
        StraightDistributes(regions, mem, data, bytes);
      }
    } else {
      var i, k := Crooked(regions, data);
      var mem := CrookedCollects(regions, data, i, k);
      if Disjoint(data) {
        var zero, bytes := CrookedDistributes(regions, data, i, k);
      }
    }
  }

  lemma StraightCollects(regions: seq<Region>, mem: Memory, data: seq<Iov>)
    requires Wired(regions, mem) && Translatable(regions, data) && AllStraight(regions, data)
    ensures CollectsRight(regions, mem, data)
  {
    GatherView(regions, mem, data);
  }

  lemma StraightDistributes(regions: seq<Region>, mem: Memory, data: seq<Iov>, bytes: seq<Byte>)
    requires Wired(regions, mem) && Translatable(regions, data) && AllStraight(regions, data) && |bytes| == Total(data)
    ensures DistributesRight(regions, mem, data, bytes)
  {
    GatherView(regions, mem, data);
    ScatterView(regions, mem, data, bytes);
  }

  lemma Crooked(regions: seq<Region>, data: seq<Iov>) returns (i: nat, k: nat)
    requires Translatable(regions, data) && !AllStraight(regions, data)
    ensures i < |data| && k < data[i].len && !Lies(regions, data[i].base, k)
  {
    i :| i < |data| && !Straight(regions, data[i]);
    k :| k < data[i].len && !Lies(regions, data[i].base, k);
  }

  lemma ReadByte(regions: seq<Region>, mem: Memory, iov: Iov, k: nat)
    requires Wired(regions, mem) && Translate(regions, iov.base).Some? && ReadsRight(regions, mem, iov) && k < iov.len
    ensures Translate(regions, iov.base).value + k in mem
    ensures GuestByte(regions, mem, iov.base + k) == Some(mem[Translate(regions, iov.base).value + k])
  {
    hide View, Translate, Wired;
    ViewAt(regions, mem, iov.base + k);
    assert ReadBytes(mem, Iov(Translate(regions, iov.base).value, iov.len))[k] == ReadBytes(View(regions, mem), iov)[k];
  }

  /** Two slots that adjoin for the guest and not in the hypervisor. */
  const ADJOINING := [Region(0, 4096, 0), Region(4096, 4096, 8192)]

  lemma AdjoiningTranslates()
    ensures Slots(ADJOINING) && Translate(ADJOINING, 3584) == Some(3584) && Translate(ADJOINING, 4096) == Some(8192)
  {
    assert ADJOINING[1..] == [Region(4096, 4096, 8192)];
  }

  /** Memory whose only one is the byte behind the first slot. */
  lemma AdjoiningWired(mem: Memory)
    requires mem == OneAt(12288, 4096)
    ensures Wired(ADJOINING, mem) && Mapped(mem, Iov(3584, 1024))
    ensures 4096 in mem && mem[4096] == 1 && 8192 in mem && mem[8192] == 0
  {
    hide View, Translate;
  }

  lemma AdjoiningReadsWrong(mem: Memory)
    requires mem == OneAt(12288, 4096) && Translate(ADJOINING, 3584).Some?
    ensures !ReadsRight(ADJOINING, mem, Iov(3584, 1024))
  {
    hide View, Translate, Wired, Mapped, Slots, ReadsRight, OneAt;
    AdjoiningTranslates();
    AdjoiningWired(mem);
    if ReadsRight(ADJOINING, mem, Iov(3584, 1024)) {
      ReadByte(ADJOINING, mem, Iov(3584, 1024), 512);
      assert false;
    }
  }

  /** A buffer across the end of the first slot: its second half is taken from the wrong bytes of
      the hypervisor, which are mapped. */
  lemma CrossingReadsWrong()
    ensures Slots(ADJOINING) && Translate(ADJOINING, 3584) == Some(3584) && !Straight(ADJOINING, Iov(3584, 1024))
    ensures exists mem: Memory | Wired(ADJOINING, mem) && Mapped(mem, Iov(3584, 1024)) ::
              !ReadsRight(ADJOINING, mem, Iov(3584, 1024))
  {
    hide View, Translate, Wired, Mapped, Slots, ReadsRight, OneAt;
    var mem := OneAt(12288, 4096);
    AdjoiningTranslates();
    AdjoiningWired(mem);
    AdjoiningReadsWrong(mem);
    assert !Lies(ADJOINING, 3584, 512);
  }
}
