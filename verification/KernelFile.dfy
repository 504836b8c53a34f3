/** Files from inside the guest kernel: the loops around `kernel_write` and `kernel_read`, which
    move at most a part of the data per call, may be interrupted or fail, and take the position
    by value in old kernels but advance it themselves in new ones. */
module KernelFile {
  import opened Wrappers
  import opened Bytes

  const EINTR := 4
  const EAGAIN := 11

  /** No call moves more than this. */
  const MAX_RW_COUNT := 0x7fff_f000

  /** How a call of the kernel ends: it moves up to `n` bytes, or fails with an error number. */
  datatype Outcome = Moves(n: nat) | Fails(errno: nat)

  /** The end of a loop: all data moved, a call that moved nothing, an error, or a call that has
      not returned yet. */
  datatype End = Complete | Stopped | Failed(errno: nat) | Pending

  function Min(a: nat, b: nat): nat {
    if a < b then a else b
  }

  /** The number of bytes a call moves. */
  function Moved(n: nat, count: nat): nat {
    Min(Min(n, count), MAX_RW_COUNT)
  }

  predicate Transient(errno: nat) {
    errno == EINTR || errno == EAGAIN
  }

  /** The bytes that a sequence of calls moves in all, and how the loop ends. */
  function Progress(count: nat, outcomes: seq<Outcome>): (r: (nat, End))
    ensures r.0 <= count && (r.1 == Complete <==> r.0 == count)
    decreases |outcomes|
  {
    if count == 0 then (0, Complete)
    else if outcomes == [] then (0, Pending)
    else match outcomes[0] {
      case Moves(n) =>
        var k := Moved(n, count);
        if k == 0 then (0, Stopped)
        else
          var (m, end) := Progress(count - k, outcomes[1..]);
          (k + m, end)
      case Fails(e) => if Transient(e) then Progress(count, outcomes[1..]) else (0, Failed(e))
    }
  }

  /** The same for reads, whose loop ends at a call that moves nothing. */
  function ReadProgress(count: nat, outcomes: seq<Outcome>): (r: (nat, End))
    ensures r.0 <= count && r.1 != Complete
    decreases |outcomes|
  {
    if outcomes == [] then (0, Pending)
    else match outcomes[0] {
      case Moves(n) =>
        var k := Moved(n, count);
        if k == 0 then (0, Stopped)
        else
          var (m, end) := ReadProgress(count - k, outcomes[1..]);
          (k + m, end)
      case Fails(e) => if Transient(e) then ReadProgress(count, outcomes[1..]) else (0, Failed(e))
    }
  }

  /** The file with bytes put at a position, behind a hole of zeros if it is too short. */
  function Put(file: seq<Byte>, pos: nat, bytes: seq<Byte>): (r: seq<Byte>)
    ensures |r| >= |file|
  {
    if bytes == [] then file
    else
      var base := if |file| < pos then file + seq(pos - |file|, i => 0) else file;
      base[..pos] + bytes + (if pos + |bytes| <= |base| then base[pos + |bytes|..] else [])
  }

  /** The bytes are in the file, and nothing else has changed. */
  lemma PutMeans(file: seq<Byte>, pos: nat, bytes: seq<Byte>)
    requires bytes != []
    ensures var r := Put(file, pos, bytes);
            && pos + |bytes| <= |r| && r[pos..pos + |bytes|] == bytes
            && forall i | 0 <= i < |r| && !(pos <= i < pos + |bytes|) :: r[i] == if i < |file| then file[i] else 0
  {
  }

  lemma PutTwice(file: seq<Byte>, pos: nat, a: seq<Byte>, b: seq<Byte>)
    ensures Put(Put(file, pos, a), pos + |a|, b) == Put(file, pos, a + b)
  {
    if b == [] {
      assert a + b == a;
    } else if a == [] {
      assert a + b == b;
    }
  }

  lemma PutNothing(file: seq<Byte>, pos: nat)
    ensures Put(file, pos, []) == file
  {
  }

  class KFile {
    /** The kernel is older than 4.13. */
    const linux413: bool
    var file: seq<Byte>

    constructor (linux413: bool, file: seq<Byte>)
      ensures this.linux413 == linux413 && this.file == file
    {
      this.linux413, this.file := linux413, file;
    }

    /** One call of `kernel_write` with either interface: the position that the caller holds
        afterwards is advanced by the new one only. */
    method KernelWrite(buf: seq<Byte>, pos: nat, outcome: Outcome) returns (rv: int, pos': nat)
      requires outcome.Fails? ==> outcome.errno > 0
      modifies this`file
      ensures outcome.Fails? ==> rv == 0 - outcome.errno && file == old(file) && pos' == pos
      ensures outcome.Moves? ==>
                && rv == Moved(outcome.n, |buf|) && file == Put(old(file), pos, buf[..rv])
                && pos' == if linux413 then pos else pos + rv
    {
      pos' := pos;
      match outcome
      case Fails(e) => rv := 0 - e;
      case Moves(n) =>
        rv := Moved(n, |buf|);
        file := Put(file, pos, buf[..rv]);
        if !linux413 {
          pos' := pos + rv;
        }
    }

    /** Writes the data at a position.  The result and the file do not depend on the interface of
        the kernel. */
    method WriteAll(data: seq<Byte>, pos: nat, outcomes: seq<Outcome>) returns (r: Result<nat, nat>, pending: bool)
      requires forall i | 0 <= i < |outcomes| && outcomes[i].Fails? :: outcomes[i].errno > 0
      modifies this`file
      ensures var (n, end) := Progress(|data|, outcomes);
              && file == Put(old(file), pos, data[..n])
              && pending == end.Pending?
              && r == if end.Failed? && n == 0 then Err(end.errno) else Ok(n)
    {
      hide Put;
      PutNothing(file, pos);
      assert data[..0] == [];
      var out: nat, count: nat, lpos: nat, calls: nat := 0, |data|, pos, 0;
      ghost var goal := Progress(|data|, outcomes);
      pending := false;
      assert outcomes[0..] == outcomes;
      while count != 0
        invariant out + count == |data| && calls <= |outcomes| && !pending
        invariant lpos == pos + out && file == Put(old(file), pos, data[..out])
        invariant var (m, end) := Progress(count, outcomes[calls..]); goal == (out + m, end)
        decreases |outcomes| - calls
      {
        if calls == |outcomes| {
          return Ok(out), true;
        }
        var outcome := outcomes[calls];
        assert outcomes[calls..][0] == outcome && outcomes[calls..][1..] == outcomes[calls + 1..];
        var rv, pos' := KernelWrite(data[out..], lpos, outcome);
        calls := calls + 1;
        lpos := pos';
        if rv == 0 {
          assert data[out..][..0] == [];
          PutNothing(Put(old(file), pos, data[..out]), pos + out);
          break;
        } else if -rv == EINTR || -rv == EAGAIN {
          continue;
        } else if -rv > 0 {
          return if out == 0 then Err(-rv) else Ok(out), false;
        }
        PutTwice(old(file), pos, data[..out], data[out..][..rv]);
        assert data[..out] + data[out..][..rv] == data[..out + rv];
        out := out + rv;
        count := count - rv;
        if linux413 {
          lpos := lpos + rv;
        }
      }
      r := Ok(out);
    }

    /** One call of `kernel_read`; it moves nothing only at the end of the file. */
    method KernelRead(buf: array<Byte>, at: nat, pos: nat, outcome: Outcome) returns (rv: int, pos': nat)
      requires at <= buf.Length && (outcome.Fails? ==> outcome.errno > 0)
      modifies buf
      ensures outcome.Fails? ==>
                rv == 0 - outcome.errno && pos' == pos && forall i | 0 <= i < buf.Length :: buf[i] == old(buf[i])
      ensures outcome.Moves? ==>
                && rv == Moved(outcome.n, Available(|file|, pos, buf.Length - at))
                && (forall i | 0 <= i < buf.Length ::
                      buf[i] == if at <= i < at + rv then file[pos + (i - at)] else old(buf[i]))
                && pos' == if linux413 then pos else pos + rv
    {
      pos' := pos;
      match outcome
      case Fails(e) => rv := 0 - e;
      case Moves(n) =>
        rv := Moved(n, Available(|file|, pos, buf.Length - at));
        forall i | 0 <= i < rv {
          buf[at + i] := file[pos + i];
        }
        if !linux413 {
          pos' := pos + rv;
        }
    }

    /** Fills the buffer from a position of the file on: what is reported is what the file has
        there, and the rest of the buffer is untouched. */
    method ReadAll(data: array<Byte>, pos: nat, outcomes: seq<Outcome>) returns (r: Result<nat, nat>, pending: bool)
      requires forall i | 0 <= i < |outcomes| && outcomes[i].Fails? :: outcomes[i].errno > 0
      modifies data
      ensures var (n, end) := ReadProgress(Available(|file|, pos, data.Length), outcomes);
              && (forall i | 0 <= i < data.Length :: data[i] == if i < n then file[pos + i] else old(data[i]))
              && pending == end.Pending?
              && (r == if end.Failed? && n == 0 then Err(end.errno) else Ok(n))
    {
      hide Moved, Available;
      var out: nat, lpos: nat, calls: nat := 0, pos, 0;
      ghost var total := Available(|file|, pos, data.Length);
      ghost var goal := ReadProgress(total, outcomes);
      AvailableRest(|file|, pos, data.Length, 0);
      pending := false;
      assert outcomes[0..] == outcomes;
      while true
        invariant out <= total && calls <= |outcomes| && !pending && lpos == pos + out
        invariant out > 0 ==> pos + out <= |file|
        invariant forall i | 0 <= i < data.Length :: data[i] == if i < out then file[pos + i] else old(data[i])
        invariant var (m, end) := ReadProgress(total - out, outcomes[calls..]); goal == (out + m, end)
        decreases |outcomes| - calls
      {
        if calls == |outcomes| {
          return Ok(out), true;
        }
        var outcome := outcomes[calls];
        assert outcomes[calls..][0] == outcome && outcomes[calls..][1..] == outcomes[calls + 1..];
        AvailableRest(|file|, pos, data.Length, out);
        var rv, pos' := KernelRead(data, out, lpos, outcome);
        if outcome.Moves? {
          MovedBound(outcome.n, total - out);
        }
        calls := calls + 1;
        lpos := pos';
        if rv == 0 {
          break;
        } else if -rv == EINTR || -rv == EAGAIN {
          continue;
        } else if -rv > 0 {
          return if out == 0 then Err(-rv) else Ok(out), false;
        }
        assert outcome.Moves? && rv == Moved(outcome.n, total - out);
        out := out + rv;
        if linux413 {
          lpos := lpos + rv;
        }
      }
      r := Ok(out);
    }
  }

  /** How many bytes a read can deliver. */
  function Available(size: nat, pos: nat, count: nat): nat {
    if pos >= size then 0 else Min(size - pos, count)
  }

  lemma AvailableRest(size: nat, pos: nat, count: nat, out: nat)
    requires out <= Available(size, pos, count)
    ensures out <= count && Available(size, pos + out, count - out) == Available(size, pos, count) - out
    ensures Available(size, pos, count) <= count
    ensures Available(size, pos, count) > 0 ==> pos + Available(size, pos, count) <= size
  {
  }

  lemma MovedBound(n: nat, count: nat)
    ensures Moved(n, count) <= count
  {
  }
}
