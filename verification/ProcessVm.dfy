/** Transfers between two processes: `process_vm_readv` and `process_vm_writev` move bytes between
    one local buffer and a list of remote buffers, up to the first one that is not mapped. */
module ProcessVm {
  import opened Bytes

  type Memory = map<nat, Byte>

  /** A buffer in the memory of a process. */
  datatype Iov = Iov(base: nat, len: nat)

  function Total(iovs: seq<Iov>): nat {
    if iovs == [] then 0 else iovs[0].len + Total(iovs[1..])
  }

  predicate Mapped(mem: Memory, iov: Iov) {
    forall k: nat | iov.base <= k < iov.base + iov.len :: k in mem
  }

  /** The buffers before the first one that is not mapped: what the kernel transfers. */
  function Reached(mem: Memory, iovs: seq<Iov>): seq<Iov> {
    if iovs == [] || !Mapped(mem, iovs[0]) then [] else [iovs[0]] + Reached(mem, iovs[1..])
  }

  /** Memory up to `limit` that holds a single one, at `at`. */
  function OneAt(limit: nat, at: nat): Memory {
    map a: nat | 0 <= a < limit :: Mark(a, at)
  }

  function Mark(a: nat, at: nat): Byte {
    if a == at then 1 else 0
  }

  function ReadBytes(mem: Memory, iov: Iov): (r: seq<Byte>)
    requires Mapped(mem, iov)
    ensures |r| == iov.len
  {
    seq(iov.len, i requires 0 <= i < iov.len => mem[iov.base + i])
  }

  function WriteBytes(mem: Memory, base: nat, data: seq<Byte>): (r: Memory)
    ensures r.Keys == mem.Keys
  {
    map k | k in mem :: if base <= k < base + |data| then data[k - base] else mem[k]
  }

  predicate AllMapped(mem: Memory, iovs: seq<Iov>) {
    forall i | 0 <= i < |iovs| :: Mapped(mem, iovs[i])
  }

  function Gather(mem: Memory, iovs: seq<Iov>): (r: seq<Byte>)
    requires AllMapped(mem, iovs)
    ensures |r| == Total(iovs)
  {
    if iovs == [] then []
    else
      assert forall i | 0 <= i < |iovs[1..]| :: iovs[1..][i] == iovs[i + 1];
      ReadBytes(mem, iovs[0]) + Gather(mem, iovs[1..])
  }

  function Scatter(mem: Memory, iovs: seq<Iov>, data: seq<Byte>): (r: Memory)
    requires |data| == Total(iovs)
    ensures r.Keys == mem.Keys
    decreases |iovs|
  {
    if iovs == [] then mem
    else Scatter(WriteBytes(mem, iovs[0].base, data[..iovs[0].len]), iovs[1..], data[iovs[0].len..])
  }

  lemma {:induction false} ReachedMapped(mem: Memory, iovs: seq<Iov>)
    ensures AllMapped(mem, Reached(mem, iovs)) && Total(Reached(mem, iovs)) <= Total(iovs)
    ensures AllMapped(mem, iovs) ==> Reached(mem, iovs) == iovs
  {
    if iovs != [] && Mapped(mem, iovs[0]) {
      ReachedMapped(mem, iovs[1..]);
      assert forall i | 0 <= i < |iovs[1..]| :: iovs[1..][i] == iovs[i + 1];
      var r := Reached(mem, iovs);
      assert r[1..] == Reached(mem, iovs[1..]);
      assert iovs == [iovs[0]] + iovs[1..];
    }
  }

  /** The transfer ends exactly at the first buffer that is not mapped. */
  lemma {:induction false} ReachedPrefix(mem: Memory, iovs: seq<Iov>)
    ensures var n := |Reached(mem, iovs)|;
            && n <= |iovs| && Reached(mem, iovs) == iovs[..n] && AllMapped(mem, iovs[..n])
            && (n < |iovs| ==> !Mapped(mem, iovs[n]))
  {
    ReachedMapped(mem, iovs);
    if iovs != [] && Mapped(mem, iovs[0]) {
      ReachedPrefix(mem, iovs[1..]);
      var n := |Reached(mem, iovs[1..])|;
      assert iovs[..n + 1] == [iovs[0]] + iovs[1..][..n];
    }
  }

  lemma GatherTotal(mem: Memory, iovs: seq<Iov>)
    requires AllMapped(mem, iovs)
    ensures |Gather(mem, iovs)| == Total(iovs)
  {
  }

  lemma {:induction false} ReachedAll(mem: Memory, iovs: seq<Iov>)
    ensures Total(Reached(mem, iovs)) == Total(iovs) <==> AllMapped(mem, iovs)
  {
    if iovs != [] {
      ReachedAll(mem, iovs[1..]);
      ReachedMapped(mem, iovs);
      assert forall i | 0 <= i < |iovs[1..]| :: iovs[1..][i] == iovs[i + 1];
      if Mapped(mem, iovs[0]) {
        assert Reached(mem, iovs)[1..] == Reached(mem, iovs[1..]);
      }
    }
  }

  predicate Apart(a: Iov, b: Iov) {
    a.base + a.len <= b.base || b.base + b.len <= a.base
  }

  predicate Disjoint(iovs: seq<Iov>) {
    forall i, j | 0 <= i < j < |iovs| :: Apart(iovs[i], iovs[j])
  }

  /** A read changes no byte outside the buffers of the request. */
  lemma {:induction false} ScatterElsewhere(mem: Memory, iovs: seq<Iov>, data: seq<Byte>, other: Iov)
    requires |data| == Total(iovs) && Mapped(mem, other) && forall i | 0 <= i < |iovs| :: Apart(iovs[i], other)
    ensures Mapped(Scatter(mem, iovs, data), other)
    ensures ReadBytes(Scatter(mem, iovs, data), other) == ReadBytes(mem, other)
    decreases |iovs|
  {
    if iovs != [] {
      var next := WriteBytes(mem, iovs[0].base, data[..iovs[0].len]);
      assert Apart(iovs[0], other);
      assert ReadBytes(next, other) == ReadBytes(mem, other);
      assert forall i | 0 <= i < |iovs[1..]| :: iovs[1..][i] == iovs[i + 1];
      ScatterElsewhere(next, iovs[1..], data[iovs[0].len..], other);
    }
  }

  /** What a read scatters into disjoint buffers is what the buffers hold, one after the other. */
  lemma {:induction false} GatherScatter(mem: Memory, iovs: seq<Iov>, data: seq<Byte>)
    requires |data| == Total(iovs) && AllMapped(mem, iovs) && Disjoint(iovs)
    ensures AllMapped(Scatter(mem, iovs, data), iovs) && Gather(Scatter(mem, iovs, data), iovs) == data
    decreases |iovs|
  {
    ScatterUnfold(mem, iovs, data);
    SameKeys(mem, Scatter(mem, iovs, data), iovs);
    GatherUnfold(Scatter(mem, iovs, data), iovs);
    hide AllMapped, Mapped, Disjoint, Apart, WriteBytes, ReadBytes, Gather, Scatter;
    if iovs != [] {
      var first, rest := iovs[0], iovs[1..];
      var head, tail := data[..first.len], data[first.len..];
      var next := WriteBytes(mem, first.base, head);
      TailFacts(mem, iovs);
      WriteReads(mem, first, head);
      SameKeys(mem, next, rest);
      GatherScatter(next, rest, tail);
      ScatterElsewhere(next, rest, tail, first);
      assert head + tail == data;
    }
  }

  lemma ScatterUnfold(mem: Memory, iovs: seq<Iov>, data: seq<Byte>)
    requires |data| == Total(iovs)
    ensures Scatter(mem, iovs, data).Keys == mem.Keys
    ensures iovs != [] ==>
              Scatter(mem, iovs, data)
              == Scatter(WriteBytes(mem, iovs[0].base, data[..iovs[0].len]), iovs[1..], data[iovs[0].len..])
  {
  }

  lemma GatherUnfold(mem: Memory, iovs: seq<Iov>)
    requires AllMapped(mem, iovs)
    ensures iovs == [] ==> Gather(mem, iovs) == []
    ensures iovs != [] ==>
              && Mapped(mem, iovs[0]) && AllMapped(mem, iovs[1..])
              && Gather(mem, iovs) == ReadBytes(mem, iovs[0]) + Gather(mem, iovs[1..])
  {
    if iovs != [] {
      assert forall i | 0 <= i < |iovs[1..]| :: iovs[1..][i] == iovs[i + 1];
    }
  }

  lemma TailFacts(mem: Memory, iovs: seq<Iov>)
    requires AllMapped(mem, iovs) && Disjoint(iovs) && iovs != []
    ensures Mapped(mem, iovs[0]) && AllMapped(mem, iovs[1..]) && Disjoint(iovs[1..])
    ensures forall i | 0 <= i < |iovs[1..]| :: Apart(iovs[1..][i], iovs[0])
  {
    var rest := iovs[1..];
    assert forall i | 0 <= i < |rest| :: rest[i] == iovs[i + 1];
  }

  lemma WriteReads(mem: Memory, iov: Iov, data: seq<Byte>)
    requires Mapped(mem, iov) && |data| == iov.len
    ensures var next := WriteBytes(mem, iov.base, data);
            next.Keys == mem.Keys && Mapped(next, iov) && ReadBytes(next, iov) == data
  {
  }

  lemma SameKeys(mem: Memory, after: Memory, iovs: seq<Iov>)
    requires AllMapped(mem, iovs) && mem.Keys == after.Keys
    ensures AllMapped(after, iovs)
  {
    assert forall iov :: Mapped(mem, iov) ==> Mapped(after, iov);
  }

  function Join(parts: seq<seq<Byte>>): seq<Byte> {
    if parts == [] then [] else parts[0] + Join(parts[1..])
  }

  predicate Fill(iovs: seq<Iov>, parts: seq<seq<Byte>>) {
    |iovs| == |parts| && forall i | 0 <= i < |iovs| :: iovs[i].len == |parts[i]|
  }

  lemma {:induction false} PartsTotal(iovs: seq<Iov>, parts: seq<seq<Byte>>)
    requires Fill(iovs, parts)
    ensures |Join(parts)| == Total(iovs)
  {
    if parts != [] {
      assert Fill(iovs[1..], parts[1..]);
      PartsTotal(iovs[1..], parts[1..]);
    }
  }

  /** A list of local buffers written to disjoint remote buffers of the same sizes. */
  lemma ScatterAt(mem: Memory, iovs: seq<Iov>, parts: seq<seq<Byte>>, j: nat)
    requires Fill(iovs, parts) && AllMapped(mem, iovs) && Disjoint(iovs) && j < |iovs|
    ensures |Join(parts)| == Total(iovs)
    ensures var after := Scatter(mem, iovs, Join(parts));
            Mapped(after, iovs[j]) && ReadBytes(after, iovs[j]) == parts[j]
  {
    PartsTotal(iovs, parts);
    GatherScatter(mem, iovs, Join(parts));
    GatherPart(Scatter(mem, iovs, Join(parts)), iovs, parts, j);
  }

  lemma {:induction false} GatherPart(mem: Memory, iovs: seq<Iov>, parts: seq<seq<Byte>>, j: nat)
    requires Fill(iovs, parts) && AllMapped(mem, iovs) && Gather(mem, iovs) == Join(parts) && j < |iovs|
    ensures Mapped(mem, iovs[j]) && ReadBytes(mem, iovs[j]) == parts[j]
  {
    var first := ReadBytes(mem, iovs[0]);
    assert forall i | 0 <= i < |iovs[1..]| :: iovs[1..][i] == iovs[i + 1];
    assert first == (first + Gather(mem, iovs[1..]))[..|first|];
    assert parts[0] == (parts[0] + Join(parts[1..]))[..|parts[0]|];
    if j > 0 {
      assert Gather(mem, iovs[1..]) == Gather(mem, iovs)[|first|..];
      assert Join(parts[1..]) == Join(parts)[|parts[0]|..];
      GatherPart(mem, iovs[1..], parts[1..], j - 1);
    }
  }
}
