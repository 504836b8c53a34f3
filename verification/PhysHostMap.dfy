/** The index from guest physical addresses to the memory of the hypervisor: a merged, sorted
    list of ranges with inclusive ends, searched by bisection. */
module PhysHostMap {
  import opened Wrappers
  import PageMapping

  const WORD := 0x1_0000_0000_0000_0000
  const HALF := 0x8000_0000_0000_0000

  /** The addresses `start..=end` lie at an offset from their physical address. */
  datatype Slot = Slot(start: nat, end: nat, offset: int)

  datatype Overlap = Overlap

  predicate Contains(s: Slot, a: nat) {
    s.start <= a <= s.end
  }

  predicate NonEmpty(slots: seq<Slot>) {
    forall i | 0 <= i < |slots| :: slots[i].start <= slots[i].end < WORD
  }

  predicate SortedByStart(slots: seq<Slot>) {
    forall i, j | 0 <= i < j < |slots| :: slots[i].start <= slots[j].start
  }

  /** Some address is in two of the first `n` slots, with different offsets. */
  ghost predicate Conflict(slots: seq<Slot>, n: nat) {
    exists i, j | 0 <= i < j < n <= |slots| ::
      slots[j].start <= slots[i].end && slots[i].offset != slots[j].offset
  }

  ghost predicate Maps(slots: seq<Slot>, a: nat, offset: int) {
    exists i | 0 <= i < |slots| :: Contains(slots[i], a) && slots[i].offset == offset
  }

  /** Sorted, and no two slots touch. */
  predicate Separate(slots: seq<Slot>) {
    && NonEmpty(slots)
    && forall i, j | 0 <= i < j < |slots| :: slots[i].end < slots[j].start
  }

  /** The offset of the first slot that contains the address. */
  function Scan(slots: seq<Slot>, a: nat): Option<int> {
    if slots == [] then None
    else if Contains(slots[0], a) then Some(slots[0].offset)
    else Scan(slots[1..], a)
  }

  lemma {:induction false} ScanMaps(slots: seq<Slot>, a: nat)
    ensures Scan(slots, a).Some? ==> Maps(slots, a, Scan(slots, a).value)
    ensures forall offset | Maps(slots, a, offset) :: Scan(slots, a).Some?
  {
    if slots != [] && !Contains(slots[0], a) {
      var rest := slots[1..];
      ScanMaps(rest, a);
      if Scan(rest, a).Some? {
        var i :| 0 <= i < |rest| && Contains(rest[i], a) && rest[i].offset == Scan(rest, a).value;
        assert slots[i + 1] == rest[i];
      }
      forall offset | Maps(slots, a, offset) ensures Maps(rest, a, offset) {
        var i :| 0 <= i < |slots| && Contains(slots[i], a) && slots[i].offset == offset;
        assert rest[i - 1] == slots[i];
      }
    }
  }

  /** Two lists that map the same have the same scan, if an address has only one offset. */
  lemma SameScan(s: seq<Slot>, t: seq<Slot>, a: nat)
    requires forall offset :: Maps(s, a, offset) <==> Maps(t, a, offset)
    requires forall x, y | Maps(s, a, x) && Maps(s, a, y) :: x == y
    ensures Scan(s, a) == Scan(t, a)
  {
    ScanMaps(s, a);
    ScanMaps(t, a);
  }

  function SaturatingNext(x: nat): nat {
    if x + 1 < WORD then x + 1 else x
  }

  /** Adds a slot that starts behind the start of the last one. */
  function Merge(slots: seq<Slot>, s: Slot): Result<seq<Slot>, Overlap> {
    if slots == [] then Ok([s])
    else
      var last := slots[|slots| - 1];
      if s.start <= last.end && s.offset != last.offset then Err(Overlap)
      else if s.start <= SaturatingNext(last.end) && s.offset == last.offset then
        Ok(slots[..|slots| - 1] + [last.(end := if s.end > last.end then s.end else last.end)])
      else Ok(slots + [s])
  }

  /** The first `n` slots merged, in the order in which they come. */
  function MergeAll(slots: seq<Slot>, n: nat): Result<seq<Slot>, Overlap>
    requires n <= |slots|
  {
    if n == 0 then Ok([])
    else
      var before := MergeAll(slots, n - 1);
      if before.Err? then before else Merge(before.value, slots[n - 1])
  }

  lemma {:induction false} MergeStops(slots: seq<Slot>, n: nat, m: nat)
    requires n <= m <= |slots| && MergeAll(slots, n).Err?
    ensures MergeAll(slots, m).Err?
    decreases m
  {
    if n < m {
      MergeStops(slots, n, m - 1);
    }
  }

  /** Slots that do not come in the order of their addresses can get lost: the second one is taken
      for a part of the first. */
  lemma UnsortedLoses()
    ensures var slots := [Slot(10, 20, 0), Slot(0, 5, 0)];
            && MergeAll(slots, 2) == Ok([Slot(10, 20, 0)])
            && Scan(slots, 0) == Some(0) && Scan([Slot(10, 20, 0)], 0) == None
  {
    var slots := [Slot(10, 20, 0), Slot(0, 5, 0)];
    var one := [slots[0]];
    assert MergeAll(slots, 1) == Merge([], slots[0]) == Ok(one);
    assert MergeAll(slots, 2) == Merge(one, slots[1]);
    assert one[..0] + [one[0].(end := 20)] == one;
    assert slots[1..] == [slots[1]];
    assert [Slot(10, 20, 0)][1..] == [];
  }

  lemma MergeSeparate(slots: seq<Slot>, s: Slot)
    requires Separate(slots) && s.start <= s.end < WORD
    ensures Merge(slots, s).Ok? ==> Separate(Merge(slots, s).value)
  {
  }

  lemma {:induction false} MergeAllSeparate(slots: seq<Slot>, n: nat)
    requires NonEmpty(slots) && n <= |slots| && MergeAll(slots, n).Ok?
    ensures Separate(MergeAll(slots, n).value)
  {
    if n > 0 {
      MergeAllSeparate(slots, n - 1);
      MergeSeparate(MergeAll(slots, n - 1).value, slots[n - 1]);
    }
  }

  /** An address of slot `k` that the merged list has once the slot is added: it lies from the start
      of the last merged range on, or it was there before. */
  ghost predicate KeepsAddress(slots: seq<Slot>, k: nat, a: nat)
    requires k < |slots| && MergeAll(slots, k).Ok?
  {
    var before, s := MergeAll(slots, k).value, slots[k];
    Contains(s, a) && before != [] && a < before[|before| - 1].start ==> Maps(before, a, s.offset)
  }

  /** What `Merge` makes of one address of a non-empty slot. */
  lemma MergeAddress(slots: seq<Slot>, s: Slot, a: nat, offset: int)
    requires Separate(slots) && s.start <= s.end < WORD && Merge(slots, s).Ok?
    ensures var low := slots != [] && a < slots[|slots| - 1].start;
            Maps(Merge(slots, s).value, a, offset)
            <==> Maps(slots, a, offset) || (!low && Contains(s, a) && s.offset == offset)
  {
    hide Maps;
    var merged, n := Merge(slots, s).value, |slots|;
    if slots != [] && |merged| == n {
      var init, last := slots[..n - 1], slots[n - 1];
      MapsAppend(init, last, a, offset);
      MapsAppend(init, merged[n - 1], a, offset);
      assert init + [last] == slots && init + [merged[n - 1]] == merged;
    } else {
      MapsAppend(slots, s, a, offset);
      assert merged == slots + [s];
    }
  }

  /** An accepted list never maps more than the given slots do, and it maps no less exactly if every
      step keeps the address. */
  lemma {:induction false} MergeAllAddress(slots: seq<Slot>, n: nat, a: nat, offset: int)
    requires NonEmpty(slots) && n <= |slots| && MergeAll(slots, n).Ok?
    ensures Maps(MergeAll(slots, n).value, a, offset) ==> Maps(slots[..n], a, offset)
    ensures (forall k | 0 <= k < n :: MergeAll(slots, k).Ok? && KeepsAddress(slots, k, a)) ==>
              (Maps(slots[..n], a, offset) ==> Maps(MergeAll(slots, n).value, a, offset))
  {
    hide Maps;
    if n == 0 {
      MapsNothing(a, offset);
    } else {
      MergeAllSeparate(slots, n - 1);
      MergeAllAddress(slots, n - 1, a, offset);
      MergeAddress(MergeAll(slots, n - 1).value, slots[n - 1], a, offset);
      assert slots[..n] == slots[..n - 1] + [slots[n - 1]];
      MapsAppend(slots[..n - 1], slots[n - 1], a, offset);
    }
  }

  lemma MapsNothing(a: nat, offset: int)
    ensures !Maps([], a, offset)
  {
  }

  /** An address that one step loses does not come back. */
  lemma {:induction false} LostStays(slots: seq<Slot>, k: nat, n: nat, a: nat)
    requires NonEmpty(slots) && k < n <= |slots| && MergeAll(slots, n).Ok? && MergeAll(slots, k).Ok?
    requires !KeepsAddress(slots, k, a)
    ensures var merged := MergeAll(slots, n).value;
            merged != [] && a < merged[|merged| - 1].start && !Maps(merged, a, slots[k].offset)
    decreases n
  {
    hide Maps, Merge, MergeAll, Separate, NonEmpty;
    PrefixesOk(slots, n);
    MergeAllStep(slots, n);
    MergeAllSeparate(slots, n - 1);
    SlotOk(slots, n - 1);
    if k < n - 1 {
      LostStays(slots, k, n - 1, a);
    }
    MergeLast(MergeAll(slots, n - 1).value, slots[n - 1]);
    MergeAddress(MergeAll(slots, n - 1).value, slots[n - 1], a, slots[k].offset);
  }

  lemma SlotOk(slots: seq<Slot>, k: nat)
    requires NonEmpty(slots) && k < |slots|
    ensures slots[k].start <= slots[k].end < WORD
  {
  }

  lemma MergeAllStep(slots: seq<Slot>, n: nat)
    requires 0 < n <= |slots| && MergeAll(slots, n).Ok?
    ensures MergeAll(slots, n - 1).Ok? && MergeAll(slots, n) == Merge(MergeAll(slots, n - 1).value, slots[n - 1])
  {
  }

  /** The last range of the merged list never begins before the one that was last. */
  lemma MergeLast(slots: seq<Slot>, s: Slot)
    requires Separate(slots) && s.start <= s.end < WORD && Merge(slots, s).Ok?
    ensures var merged := Merge(slots, s).value;
            merged != [] && (slots != [] ==> slots[|slots| - 1].start <= merged[|merged| - 1].start)
  {
  }

  /** Every step of the merge keeps every address of its slot. */
  ghost predicate KeepsAll(slots: seq<Slot>) {
    forall k: nat, a: nat | k < |slots| && MergeAll(slots, k).Ok? :: KeepsAddress(slots, k, a)
  }

  /** An accepted list, sorted or not, loses nothing if and only if no slot is merged into a range
      that begins behind one of its addresses, unless that address was mapped already. */
  lemma {:induction false} LosesNothingExactly(slots: seq<Slot>)
    requires NonEmpty(slots) && MergeAll(slots, |slots|).Ok?
    ensures (forall a: nat, offset :: Maps(MergeAll(slots, |slots|).value, a, offset) <==> Maps(slots, a, offset))
            <==> KeepsAll(slots)
  {
    hide Maps;
    var n, merged := |slots|, MergeAll(slots, |slots|).value;
    assert slots[..n] == slots;
    if KeepsAll(slots) {
      forall a: nat, offset ensures Maps(merged, a, offset) <==> Maps(slots, a, offset) {
        PrefixesOk(slots, n);
        MergeAllAddress(slots, n, a, offset);
      }
    } else {
      var k: nat, a: nat :| k < n && MergeAll(slots, k).Ok? && !KeepsAddress(slots, k, a);
      LostStays(slots, k, n, a);
      MapsOwn(slots, k, a);
    }
  }

  lemma MapsOwn(slots: seq<Slot>, k: nat, a: nat)
    requires k < |slots| && Contains(slots[k], a)
    ensures Maps(slots, a, slots[k].offset)
  {
  }

  lemma {:induction false} PrefixesOk(slots: seq<Slot>, n: nat)
    requires n <= |slots| && MergeAll(slots, n).Ok?
    ensures forall k | 0 <= k <= n :: MergeAll(slots, k).Ok?
  {
    if n > 0 {
      PrefixesOk(slots, n - 1);
    }
  }

  lemma MergeMaps(slots: seq<Slot>, s: Slot, a: nat, offset: int)
    requires Separate(slots) && s.start <= s.end < WORD && Merge(slots, s).Ok?
    requires slots != [] ==> slots[|slots| - 1].start <= s.start
    ensures Maps(Merge(slots, s).value, a, offset) <==> Maps(slots + [s], a, offset)
  {
    hide Maps;
    var merged, n := Merge(slots, s).value, |slots|;
    MapsAppend(slots, s, a, offset);
    if |merged| == n {
      var init, last := slots[..n - 1], slots[n - 1];
      MapsAppend(init, last, a, offset);
      MapsAppend(init, merged[n - 1], a, offset);
      assert init + [last] == slots && init + [merged[n - 1]] == merged;
    } else {
      assert merged == slots + [s];
    }
  }

  /** What the loop of `new` has built from the first `n` slots. */
  ghost predicate Built(slots: seq<Slot>, n: nat, memslots: seq<Slot>) {
    && n <= |slots| && Separate(memslots) && !Conflict(slots, n)
    && (forall a: nat, offset :: Maps(memslots, a, offset) <==> Maps(slots[..n], a, offset))
    && (n == 0 ==> memslots == [])
    && (n > 0 ==> memslots != [] && memslots[|memslots| - 1].start <= slots[n - 1].start)
  }

  lemma BuiltStep(slots: seq<Slot>, n: nat, memslots: seq<Slot>)
    requires NonEmpty(slots) && SortedByStart(slots) && Built(slots, n, memslots) && n < |slots|
    ensures var r := Merge(memslots, slots[n]);
            if r.Ok? then Built(slots, n + 1, r.value) else Conflict(slots, n + 1)
  {
    var s, r := slots[n], Merge(memslots, slots[n]);
    if n > 0 {
      LastEnds(slots, n, memslots);
    }
    if r.Ok? {
      MergeSeparate(memslots, s);
      forall a: nat, offset ensures Maps(r.value, a, offset) <==> Maps(slots[..n + 1], a, offset) {
        MergeMaps(memslots, s, a, offset);
        MapsAppend(memslots, s, a, offset);
        MapsAppend(slots[..n], s, a, offset);
        assert slots[..n] + [s] == slots[..n + 1];
      }
      NoConflict(slots, n, memslots);
    }
  }

  lemma MapsAppend(slots: seq<Slot>, s: Slot, a: nat, offset: int)
    ensures Maps(slots + [s], a, offset) <==> Maps(slots, a, offset) || (Contains(s, a) && s.offset == offset)
  {
    var t := slots + [s];
    assert t[|slots|] == s;
    if Maps(slots, a, offset) {
      var i :| 0 <= i < |slots| && Contains(slots[i], a) && slots[i].offset == offset;
      assert t[i] == slots[i];
    }
  }

  /** The last merged slot ends where one of the given slots ends. */
  lemma LastEnds(slots: seq<Slot>, n: nat, memslots: seq<Slot>)
    requires Built(slots, n, memslots) && n > 0 && n < |slots| && SortedByStart(slots)
    ensures Merge(memslots, slots[n]).Err? ==> Conflict(slots, n + 1)
  {
    var last := memslots[|memslots| - 1];
    assert Maps(memslots, last.end, last.offset);
    var i :| 0 <= i < |slots[..n]| && Contains(slots[..n][i], last.end) && slots[..n][i].offset == last.offset;
    assert slots[i] == slots[..n][i] && last.end <= slots[i].end;
  }

  lemma NoConflict(slots: seq<Slot>, n: nat, memslots: seq<Slot>)
    requires NonEmpty(slots) && SortedByStart(slots) && Built(slots, n, memslots) && n < |slots|
    requires Merge(memslots, slots[n]).Ok?
    ensures !Conflict(slots, n + 1)
  {
    if Conflict(slots, n + 1) {
      var i, j :| 0 <= i < j < n + 1 <= |slots| && slots[j].start <= slots[i].end && slots[i].offset != slots[j].offset;
      assert j == n;
      assert Contains(slots[..n][i], slots[n].start);
      assert Maps(slots[..n], slots[n].start, slots[i].offset);
    }
  }

  class PhysHostMap {
    var memslots: seq<Slot>

    constructor ()
      ensures memslots == []
    {
      memslots := [];
    }

    /** Fills the map from slots in any order.  Slots in the order of their addresses are rejected
        exactly if two of them overlap with different offsets, and otherwise none gets lost. */
    method New(slots: seq<Slot>) returns (ok: bool)
      requires memslots == []
      modifies this
      ensures ok <==> MergeAll(slots, |slots|).Ok?
      ensures ok ==> memslots == MergeAll(slots, |slots|).value
      ensures ok && NonEmpty(slots) ==> Separate(memslots)
      ensures ok && NonEmpty(slots) ==>
                ((forall a: nat, offset :: Maps(memslots, a, offset) <==> Maps(slots, a, offset)) <==> KeepsAll(slots))
      ensures NonEmpty(slots) && SortedByStart(slots) ==>
                && (ok <==> !Conflict(slots, |slots|))
                && (ok ==> forall a: nat, offset :: Maps(memslots, a, offset) <==> Maps(slots, a, offset))
    {
      hide Maps, Separate, Conflict, NonEmpty, SortedByStart, KeepsAll;
      BuiltNothing(slots);
      var n := 0;
      while n < |slots|
        invariant n <= |slots| && MergeAll(slots, n) == Ok(memslots)
        invariant NonEmpty(slots) && SortedByStart(slots) ==> Built(slots, n, memslots)
      {
        var s := slots[n];
        if NonEmpty(slots) && SortedByStart(slots) {
          BuiltStep(slots, n, memslots);
        }
        if memslots != [] {
          var last := memslots[|memslots| - 1];
          if s.start <= last.end && s.offset != last.offset {
            MergeStops(slots, n + 1, |slots|);
            if NonEmpty(slots) && SortedByStart(slots) {
              ConflictGrows(slots, n + 1);
            }
            return false;
          }
          if s.start <= SaturatingNext(last.end) && s.offset == last.offset {
            assert Merge(memslots, s).value
                   == memslots[|memslots| - 1 := last.(end := if s.end > last.end then s.end else last.end)];
            memslots := memslots[|memslots| - 1 := last.(end := if s.end > last.end then s.end else last.end)];
            n := n + 1;
            continue;
          }
        }
        assert Merge(memslots, s).value == memslots + [s];
        memslots := memslots + [s];
        n := n + 1;
      }
      assert slots[..n] == slots;
      ok := true;
      if NonEmpty(slots) {
        MergeAllSeparate(slots, n);
        LosesNothingExactly(slots);
      }
    }

    /** Bisection for the slot that contains an address. */
    method GetRange(a: nat) returns (r: Option<Slot>)
      requires Separate(memslots)
      ensures r.Some? ==> r.value in memslots && Contains(r.value, a)
      ensures r.None? ==> forall i | 0 <= i < |memslots| :: !Contains(memslots[i], a)
    {
      var left, right := 0, |memslots|;
      while left < right
        invariant 0 <= left <= right <= |memslots|
        invariant forall i | 0 <= i < left :: memslots[i].end < a
        invariant forall i | right <= i < |memslots| :: a < memslots[i].start
      {
        var mid := left + (right - left) / 2;
        if memslots[mid].end < a {
          left := mid + 1;
        } else if memslots[mid].start > a {
          right := mid;
        } else {
          return Some(memslots[mid]);
        }
      }
      r := None;
    }

    /** The offset of an address is what a scan of the list finds. */
    method Get(a: nat) returns (r: Option<int>)
      requires Separate(memslots)
      ensures r == Scan(memslots, a)
    {
      var range := GetRange(a);
      r := if range.Some? then Some(range.value.offset) else None;
      if range.Some? {
        SeparateScan(memslots, range.value, a);
      } else {
        ScanMaps(memslots, a);
      }
    }

    method LastRange() returns (r: Option<Slot>)
      requires Separate(memslots)
      ensures r.None? <==> memslots == []
      ensures r.Some? ==> r.value in memslots && forall s | s in memslots :: s.end <= r.value.end
    {
      r := if memslots == [] then None else Some(memslots[|memslots| - 1]);
    }
  }

  lemma SeparateScan(slots: seq<Slot>, s: Slot, a: nat)
    requires Separate(slots) && s in slots && Contains(s, a)
    ensures Scan(slots, a) == Some(s.offset)
  {
    ScanMaps(slots, a);
    var j :| 0 <= j < |slots| && slots[j] == s;
    assert Maps(slots, a, s.offset);
    var i :| 0 <= i < |slots| && Contains(slots[i], a) && slots[i].offset == Scan(slots, a).value;
  }

  lemma BuiltNothing(slots: seq<Slot>)
    ensures Built(slots, 0, [])
  {
  }

  lemma ConflictGrows(slots: seq<Slot>, n: nat)
    requires Conflict(slots, n)
    ensures Conflict(slots, |slots|)
  {
  }

  /** Without a conflict an address has one offset. */
  lemma OneOffset(slots: seq<Slot>, a: nat, x: int, y: int)
    requires NonEmpty(slots) && SortedByStart(slots) && !Conflict(slots, |slots|)
    requires Maps(slots, a, x) && Maps(slots, a, y)
    ensures x == y
  {
    var i :| 0 <= i < |slots| && Contains(slots[i], a) && slots[i].offset == x;
    var j :| 0 <= j < |slots| && Contains(slots[j], a) && slots[j].offset == y;
    assert i < j ==> slots[i].start <= slots[j].start;
  }

  /** The merged map finds for every address what a scan of the given slots finds. */
  lemma MergedScan(slots: seq<Slot>, memslots: seq<Slot>, a: nat)
    requires NonEmpty(slots) && SortedByStart(slots) && !Conflict(slots, |slots|)
    requires forall b: nat, offset :: Maps(memslots, b, offset) <==> Maps(slots, b, offset)
    ensures Scan(memslots, a) == Scan(slots, a)
  {
    hide Maps, Conflict;
    forall x, y | Maps(slots, a, x) && Maps(slots, a, y) ensures x == y {
      OneOffset(slots, a, x, y);
    }
    SameScan(slots, memslots, a);
  }

  /** A signed view of a 64-bit word. */
  function AsSigned(x: nat): int
    requires x < WORD
  {
    if x < HALF then x else x - WORD
  }

  function Wrap(x: int): nat {
    x % WORD
  }

  /** The offset from a physical address to a host address, negated in 64 bits where the host
      address is lower. */
  function ComputeHostOffset(host: nat, phys: nat): int
    requires host < WORD && phys < WORD
  {
    if host > phys then AsSigned(host - phys) else AsSigned(Wrap(-AsSigned(phys - host)))
  }

  /** The host address of a physical address; the absolute value of the least offset wraps to
      itself. */
  function HostAddr(p: PageMapping.PhysAddr): nat
    requires -HALF <= p.hostOffset < HALF
  {
    if p.hostOffset < 0 then Wrap(p.value - Wrap(-p.hostOffset)) else Wrap(p.value + p.hostOffset)
  }

  /** `host_addr` inverts `compute_host_offset` across a whole memory slot, whatever the order
      and the distance of its two addresses. */
  lemma HostAddrInverts(host: nat, phys: nat, size: nat, a: nat)
    requires host + size <= WORD && phys + size <= WORD && phys <= a < phys + size
    ensures -HALF <= ComputeHostOffset(host, phys) < HALF
    ensures HostAddr(PageMapping.PhysAddr(a, ComputeHostOffset(host, phys))) == host + (a - phys)
  {
    hide Wrap;
    var d := if host > phys then host - phys else phys - host;
    WrapOnce(-AsSigned(d));
    var offset := ComputeHostOffset(host, phys);
    WrapOnce(-offset);
    WrapOnce(a - Wrap(-offset));
    WrapOnce(a + offset);
  }

  lemma WrapOnce(x: int)
    ensures -WORD <= x < 0 ==> Wrap(x) == x + WORD
    ensures 0 <= x < WORD ==> Wrap(x) == x
    ensures WORD <= x < 2 * WORD ==> Wrap(x) == x - WORD
  {
  }

  /** A memory slot of the hypervisor. */
  datatype Mapping = Mapping(phys: nat, host: nat, size: nat)

  predicate Fits(m: Mapping) {
    m.size > 0 && m.phys + m.size <= WORD && m.host + m.size <= WORD
  }

  function SlotOf(m: Mapping): Slot
    requires Fits(m)
  {
    Slot(m.phys, m.phys + m.size - 1, ComputeHostOffset(m.host, m.phys))
  }

  /** Every address of every memory slot is found, and translated to its place in the slot. */
  lemma TranslatesSlots(ms: seq<Mapping>, slots: seq<Slot>, memslots: seq<Slot>, i: nat, a: nat)
    requires |slots| == |ms| && forall j | 0 <= j < |ms| :: Fits(ms[j]) && slots[j] == SlotOf(ms[j])
    requires SortedByStart(slots) && !Conflict(slots, |slots|)
    requires forall b: nat, offset :: Maps(memslots, b, offset) <==> Maps(slots, b, offset)
    requires i < |ms| && ms[i].phys <= a < ms[i].phys + ms[i].size
    ensures var r := Scan(memslots, a);
            && r.Some? && -HALF <= r.value < HALF
            && HostAddr(PageMapping.PhysAddr(a, r.value)) == ms[i].host + (a - ms[i].phys)
  {
    hide HostAddr, ComputeHostOffset, Conflict;
    assert NonEmpty(slots);
    MergedScan(slots, memslots, a);
    ScanMaps(slots, a);
    assert Contains(slots[i], a);
    assert Maps(slots, a, slots[i].offset);
    OneOffset(slots, a, slots[i].offset, Scan(slots, a).value);
    HostAddrInverts(ms[i].host, ms[i].phys, ms[i].size, a);
  }
}
