/** The wrapper around `ioctl(KVM_RUN)`: it lets the threads of the hypervisor run from one
    system-call stop to the next and picks the exits of virtual CPUs that access device memory.
    The kernel's view of the threads is a ghost map that the reported stops are checked
    against. */
module WrapSyscall {
  import opened Wrappers

  type Pid = nat
  type ThreadId = nat

  const SYS_IOCTL := 16
  const KVM_RUN := 0xae80
  const KVM_EXIT_MMIO := 6
  const MMIO_RW_DATA_MAX := 8

  datatype Call = Call(nr: nat, fd: nat, request: nat)

  /** A traced thread in the kernel: whether it runs, and the system call it is in. */
  datatype Task = Task(running: bool, inside: Option<Call>)

  type Kernel = map<Pid, Task>

  /** The shared page of a virtual CPU. */
  datatype KvmRun = KvmRun(exitReason: nat, addr: nat, data: seq<nat>, len: nat, isWrite: bool)

  /** What `waitpid` reports.  A system-call stop comes with the registers of the thread and with
      the page of the virtual CPU as it is at that time. */
  datatype Status =
    | SyscallStop(pid: Pid, call: Call, ret: int, page: KvmRun)
    | Exited(pid: Pid)
    | OtherStop(pid: Pid)

  datatype VCpu = VCpu(fdNum: int, vcpuMap: Option<nat>)

  datatype MmioRw = MmioRw(addr: nat, isWrite: bool, data: seq<nat>, len: nat, pid: Pid, vcpuMap: nat)

  datatype Thread = Thread(tid: Pid, isRunning: bool, inSyscall: bool)

  datatype Failure = WrongOwner | NoMap | NoEvent | BadAnswer | DeviceFailed

  /** `fd as i32` for a 64-bit register. */
  function AsI32(x: nat): int {
    var low := x % 0x1_0000_0000;
    if low < 0x8000_0000 then low else low - 0x1_0000_0000
  }

  predicate InIoctl(t: Task) {
    t.inside.Some? && t.inside.value.nr == SYS_IOCTL
  }

  /** A stop that the kernel can report: the thread runs, and it leaves the call it is in. */
  predicate Legal(k: Kernel, e: Status) {
    e.pid in k ==>
      && k[e.pid].running
      && (e.SyscallStop? && k[e.pid].inside.Some? ==> k[e.pid].inside.value == e.call)
  }

  function Report(k: Kernel, e: Status): Kernel {
    if e.pid !in k then k
    else match e {
      case Exited(pid) => k - {pid}
      case OtherStop(pid) => k[pid := k[pid].(running := false)]
      case SyscallStop(pid, call, _, _) =>
        k[pid := Task(false, if k[pid].inside.Some? then None else Some(call))]
    }
  }

  function Resumed(k: Kernel): Kernel {
    map pid | pid in k :: k[pid].(running := true)
  }

  function FindVCpu(vcpus: seq<VCpu>, fd: int): Option<VCpu> {
    if vcpus == [] then None
    else if vcpus[0].fdNum == fd then Some(vcpus[0])
    else FindVCpu(vcpus[1..], fd)
  }

  /** The thread has just left a successful `ioctl(KVM_RUN)`. */
  predicate LeavesKvmRun(k: Kernel, e: Status) {
    && e.SyscallStop? && e.pid in k && k[e.pid].inside == Some(e.call)
    && e.call.nr == SYS_IOCTL && e.call.request == KVM_RUN && e.ret == 0
  }

  /** The device access that a stop stands for, if any: the exit of a known virtual CPU because
      of an access to device memory. */
  function Access(k: Kernel, vcpus: seq<VCpu>, e: Status): Option<MmioRw> {
    if !LeavesKvmRun(k, e) then None
    else
      var vcpu := FindVCpu(vcpus, AsI32(e.call.fd));
      if vcpu.None? || vcpu.value.vcpuMap.None? || e.page.exitReason != KVM_EXIT_MMIO then None
      else Some(MmioRw(e.page.addr, e.page.isWrite, e.page.data, e.page.len, e.pid, vcpu.value.vcpuMap.value))
  }

  /** The page of the virtual CPU cannot be found. */
  predicate Unmapped(k: Kernel, vcpus: seq<VCpu>, e: Status) {
    LeavesKvmRun(k, e) && var vcpu := FindVCpu(vcpus, AsI32(e.call.fd)); vcpu.Some? && vcpu.value.vcpuMap.None?
  }

  predicate LegalTrace(k: Kernel, events: seq<Status>)
    decreases |events|
  {
    events != [] ==> Legal(k, events[0]) && LegalTrace(Resumed(Report(k, events[0])), events[1..])
  }

  /** The kernel reports accesses of at most eight bytes. */
  predicate PagesFit(events: seq<Status>) {
    forall e | e in events && e.SyscallStop? ::
      |e.page.data| == MMIO_RW_DATA_MAX && e.page.len <= MMIO_RW_DATA_MAX
  }

  /** All device accesses of a trace in which every stopped thread is let run again. */
  function Accesses(k: Kernel, vcpus: seq<VCpu>, events: seq<Status>): seq<MmioRw>
    decreases |events|
  {
    if events == [] then []
    else
      var first := Access(k, vcpus, events[0]);
      (if first.Some? then [first.value] else [])
      + Accesses(Resumed(Report(k, events[0])), vcpus, events[1..])
  }

  ghost predicate Distinct(threads: seq<Thread>) {
    forall i, j | 0 <= i < j < |threads| :: threads[i].tid != threads[j].tid
  }

  ghost predicate Matches(threads: seq<Thread>, k: Kernel) {
    forall i | 0 <= i < |threads| ::
      && threads[i].tid in k
      && threads[i].isRunning == k[threads[i].tid].running
      && threads[i].inSyscall == InIoctl(k[threads[i].tid])
  }

  ghost predicate Covered(threads: seq<Thread>, k: Kernel) {
    forall pid | pid in k :: HasThread(threads, pid)
  }

  /** The flags of the wrapper agree with the kernel. */
  ghost predicate Agrees(threads: seq<Thread>, k: Kernel) {
    Distinct(threads) && Matches(threads, k) && Covered(threads, k)
  }

  predicate HasThread(threads: seq<Thread>, pid: Pid) {
    exists i | 0 <= i < |threads| :: threads[i].tid == pid
  }

  /** `process_idx` names the main thread, as long as it lives. */
  predicate NamesMain(threads: seq<Thread>, processIdx: nat, main: Pid) {
    HasThread(threads, main) ==> processIdx < |threads| && threads[processIdx].tid == main
  }

  /** The index of a thread, or the number of threads. */
  function Position(threads: seq<Thread>, pid: Pid): (r: nat)
    ensures r <= |threads|
    ensures r < |threads| ==> threads[r].tid == pid
    ensures forall i | 0 <= i < r :: threads[i].tid != pid
  {
    if threads == [] then 0
    else if threads[0].tid == pid then 0
    else 1 + Position(threads[1..], pid)
  }

  lemma PositionFinds(threads: seq<Thread>, pid: Pid)
    ensures HasThread(threads, pid) <==> Position(threads, pid) < |threads|
  {
  }

  /** A thread and its task change together. */
  lemma AgreesUpdate(threads: seq<Thread>, k: Kernel, i: nat, thread: Thread, task: Task)
    requires Agrees(threads, k) && i < |threads| && thread.tid == threads[i].tid
    requires thread.isRunning == task.running && thread.inSyscall == InIoctl(task)
    ensures Agrees(threads[i := thread], k[thread.tid := task])
  {
    hide InIoctl;
    var after := threads[i := thread];
    assert Distinct(after);
    forall pid | pid in k ensures HasThread(after, pid) {
      var j :| 0 <= j < |threads| && threads[j].tid == pid;
      assert after[j].tid == pid;
    }
  }

  function Without(threads: seq<Thread>, i: nat): (r: seq<Thread>)
    requires i < |threads|
    ensures |r| == |threads| - 1
    ensures forall j | 0 <= j < |r| :: r[j] == if j < i then threads[j] else threads[j + 1]
  {
    threads[..i] + threads[i + 1..]
  }

  /** A thread and its task disappear together. */
  lemma AgreesRemove(threads: seq<Thread>, k: Kernel, i: nat)
    requires Agrees(threads, k) && i < |threads|
    ensures Agrees(Without(threads, i), k - {threads[i].tid})
  {
    hide InIoctl, Matches;
    var after := Without(threads, i);
    MatchesRemove(threads, k, i);
    forall pid | pid in k && pid != threads[i].tid ensures HasThread(after, pid) {
      var j :| 0 <= j < |threads| && threads[j].tid == pid;
      assert after[if j < i then j else j - 1].tid == pid;
    }
  }

  lemma MatchesRemove(threads: seq<Thread>, k: Kernel, i: nat)
    requires Matches(threads, k) && Distinct(threads) && i < |threads|
    ensures Matches(Without(threads, i), k - {threads[i].tid})
  {
    hide InIoctl;
    var after := Without(threads, i);
    forall j | 0 <= j < |after| ensures after[j] in threads && after[j].tid != threads[i].tid {
    }
  }

  /** Removing another thread moves `process_idx` with the main thread. */
  lemma NamesMainRemove(threads: seq<Thread>, processIdx: nat, main: Pid, i: nat)
    requires NamesMain(threads, processIdx, main) && i < |threads| && Distinct(threads)
    ensures NamesMain(Without(threads, i), if i < processIdx then processIdx - 1 else processIdx, main)
  {
    var after := Without(threads, i);
    if HasThread(after, main) {
      var j :| 0 <= j < |after| && after[j].tid == main;
      var was := if j < i then j else j + 1;
      assert threads[was].tid == main;
      assert HasThread(threads, main);
      assert was == processIdx;
    }
  }

  predicate InWindow(m: MmioRw, first: nat, last: nat) {
    first <= m.addr < last
  }

  /** The accesses of a list that belong to the devices. */
  function Window(ms: seq<MmioRw>, first: nat, last: nat): seq<MmioRw> {
    if ms == [] then []
    else
      var m := ms[|ms| - 1];
      Window(ms[..|ms| - 1], first, last) + if InWindow(m, first, last) then [m] else []
  }

  lemma WindowNone(first: nat, last: nat)
    ensures Window([], first, last) == []
  {
  }

  lemma WindowStep(ms: seq<MmioRw>, m: MmioRw, first: nat, last: nat)
    ensures Window(ms + [m], first, last) == Window(ms, first, last) + if InWindow(m, first, last) then [m] else []
  {
    assert (ms + [m])[..|ms|] == ms;
  }

  /** The devices on the bus: what they return for an access, given all accesses before it; nothing
      if the access fails. */
  type Devices = (seq<MmioRw>, MmioRw) -> Option<seq<nat>>

  /** A read fills the buffer it is given. */
  ghost predicate Fills(devices: Devices) {
    forall log: seq<MmioRw>, m: MmioRw ::
      !m.isWrite && devices(log, m).Some? ==> |devices(log, m).value| == m.len
  }

  /** The page of the virtual CPU after an answer: the data, and an access the hypervisor
      ignores. */
  predicate IsAnswer(m: MmioRw, data: seq<nat>, page: KvmRun) {
    && page.isWrite && |m.data| == |page.data| == MMIO_RW_DATA_MAX && |data| == m.len <= MMIO_RW_DATA_MAX
    && page.data[..m.len] == data && page.data[m.len..] == m.data[m.len..]
  }

  /** Access `i` of the log went to the devices after those before it; a read was answered with what
      they returned, and the page of a write was left alone. */
  ghost predicate Served(devices: Devices, log: seq<MmioRw>, i: nat, page: Option<KvmRun>)
    requires i < |log|
  {
    var m, data := log[i], devices(log[..i], log[i]);
    data.Some? && if m.isWrite then page.None? else page.Some? && IsAnswer(m, data.value, page.value)
  }

  ghost predicate AllServed(devices: Devices, log: seq<MmioRw>, pages: seq<Option<KvmRun>>) {
    |pages| == |log| && forall i | 0 <= i < |log| :: Served(devices, log, i, pages[i])
  }

  lemma ServedMore(devices: Devices, log: seq<MmioRw>, pages: seq<Option<KvmRun>>, m: MmioRw, page: Option<KvmRun>)
    requires AllServed(devices, log, pages) && Served(devices, log + [m], |log|, page)
    ensures AllServed(devices, log + [m], pages + [page])
  {
    var more := log + [m];
    forall i | 0 <= i < |more| ensures Served(devices, more, i, (pages + [page])[i]) {
      if i < |log| {
        assert Served(devices, log, i, pages[i]);
        assert more[..i] == log[..i];
      }
    }
  }

  class KvmRunWrapper {
    var processIdx: nat
    var threads: seq<Thread>
    var owner: Option<ThreadId>
    var vcpus: seq<VCpu>
    ghost var kernel: Kernel
    ghost var main: Pid

    ghost predicate Valid()
      reads this
    {
      Agrees(threads, kernel) && NamesMain(threads, processIdx, main)
    }

    /** The wrapper over freshly attached or handed-over threads, all of them stopped: its flags
        are right exactly if none of the threads is inside an `ioctl`. */
    constructor FromTracer(tids: seq<Pid>, processIdx: nat, owner: Option<ThreadId>, vcpus: seq<VCpu>,
                           ghost kernel: Kernel)
      requires processIdx < |tids| && forall i, j | 0 <= i < j < |tids| :: tids[i] != tids[j]
      requires forall pid :: pid in kernel <==> pid in tids
      requires forall pid | pid in kernel :: !kernel[pid].running
      ensures Valid() <==> forall pid | pid in kernel :: !InIoctl(kernel[pid])
      ensures this.owner == owner && this.vcpus == vcpus && this.kernel == kernel && main == tids[processIdx]
    {
      this.processIdx, this.owner, this.vcpus, this.kernel := processIdx, owner, vcpus, kernel;
      threads := seq(|tids|, i requires 0 <= i < |tids| => Thread(tids[i], false, false));
      main := tids[processIdx];
      new;
      FreshAgrees(tids, threads, kernel);
    }

    /** Lets every stopped thread run to its next system-call stop. */
    method StopOnSyscall()
      requires Valid()
      modifies this`threads, this`kernel
      ensures Valid() && kernel == Resumed(old(kernel))
      ensures |threads| == |old(threads)|
      ensures forall i | 0 <= i < |threads| :: threads[i] == old(threads)[i].(isRunning := true)
    {
      hide InIoctl, Distinct, Covered, NamesMain;
      var i := 0;
      while i < |threads|
        invariant 0 <= i <= |threads| == |old(threads)|
        invariant forall j | 0 <= j < i :: threads[j] == old(threads)[j].(isRunning := true)
        invariant forall j | i <= j < |threads| :: threads[j] == old(threads)[j]
        invariant Agrees(threads, kernel)
        invariant kernel.Keys == old(kernel).Keys
        invariant forall pid | pid in kernel :: kernel[pid].inside == old(kernel)[pid].inside
      {
        if !threads[i].isRunning {
          // `ptrace` resumes stopped threads only.
          assert !kernel[threads[i].tid].running;
          ghost var task := kernel[threads[i].tid].(running := true);
          AgreesResume(threads, kernel, i);
          kernel := kernel[threads[i].tid := task];
          threads := threads[i := threads[i].(isRunning := true)];
        }
        i := i + 1;
      }
      AllResumed(threads, kernel);
      assert kernel == Resumed(old(kernel));
      SameNames(old(threads), threads, processIdx, main);
    }

    /** Notes that a thread has stopped. */
    method Halt(i: nat)
      requires Valid() && i < |threads|
      modifies this`threads, this`kernel
      ensures Valid() && |threads| == |old(threads)|
      ensures threads[i].tid in old(kernel) && threads[i].tid == old(threads)[i].tid
      ensures kernel == old(kernel)[threads[i].tid := old(kernel)[threads[i].tid].(running := false)]
    {
      hide NamesMain;
      var t := threads[i].(isRunning := false);
      assert t.tid in kernel && t.inSyscall == InIoctl(kernel[t.tid]);
      ghost var task := kernel[t.tid].(running := false);
      hide Agrees;
      AgreesUpdate(threads, kernel, i, t, task);
      SameNames(threads, threads[i := t], processIdx, main);
      kernel := kernel[t.tid := task];
      threads := threads[i := t];
    }

    /** Waits for the first report about one of the threads; `n` reports are about others. */
    method WaitPid(events: seq<Status>) returns (n: nat)
      requires Valid() && LegalTrace(kernel, events) && Resumed(kernel) == kernel
      modifies this`threads, this`kernel
      ensures n <= |events| && forall i | 0 <= i < n :: events[i].pid !in old(kernel)
      ensures Valid()
      ensures n == |events| ==> kernel == old(kernel) && threads == old(threads)
      ensures n < |events| ==>
                var e := events[n];
                && e.pid in old(kernel) && LegalTrace(old(kernel), events[n..])
                && kernel == old(kernel)[e.pid := old(kernel)[e.pid].(running := false)]
    {
      hide Matches, Distinct, NamesMain;
      n := 0;
      while n < |events|
        invariant n <= |events| && forall i | 0 <= i < n :: events[i].pid !in kernel
        invariant LegalTrace(kernel, events[n..])
        invariant kernel == old(kernel) && threads == old(threads) && Valid()
      {
        var e := events[n];
        var i := Position(threads, e.pid);
        PositionFinds(threads, e.pid);
        assert events[n..][0] == e && events[n..][1..] == events[n + 1..];
        if i < |threads| {
          Halt(i);
          return;
        }
        assert e.pid !in kernel;
        n := n + 1;
      }
    }

    method FindThread(tid: Pid) returns (i: nat)
      requires Valid() && tid in kernel
      ensures i < |threads| && threads[i].tid == tid
    {
      hide Matches, Distinct, NamesMain;
      i := Position(threads, tid);
      PositionFinds(threads, tid);
    }

    /** Forgets a thread that has exited. */
    method DropThread(tid: Pid)
      requires Valid() && tid in kernel
      modifies this`threads, this`processIdx, this`kernel
      ensures Valid() && kernel == old(kernel) - {tid}
      ensures !HasThread(threads, tid)
      ensures forall i | 0 <= i < |old(threads)| && old(threads)[i].tid != tid :: old(threads)[i] in threads
    {
      hide Matches, NamesMain, Position, Distinct, Covered, HasThread, Without;
      var idx := FindThread(tid);
      AgreesRemove(threads, kernel, idx);
      NamesMainRemove(threads, processIdx, main, idx);
      kernel := kernel - {tid};
      threads := Without(threads, idx);
      if idx < processIdx {
        processIdx := processIdx - 1;
      }
      StillThere(old(threads), idx);
    }

    /** Handles a system-call stop: the flag of the thread follows its `ioctl` calls, and the exit
        of a virtual CPU is looked up. */
    method Stopped(e: Status) returns (r: Result<Option<MmioRw>, Failure>)
      requires Valid() && e.SyscallStop? && e.pid in kernel && !kernel[e.pid].running
      requires kernel[e.pid].inside.Some? ==> kernel[e.pid].inside.value == e.call
      modifies this`threads, this`kernel
      ensures Valid() && kernel == Report(old(kernel), e)
      ensures r == if Unmapped(old(kernel), vcpus, e) then Err(NoMap) else Ok(Access(old(kernel), vcpus, e))
    {
      var i := FindThread(e.pid);
      hide Covered, NamesMain, Position;
      var t := threads[i];
      // Registers can be read from stopped threads only.
      assert !t.isRunning;
      if e.call.nr == SYS_IOCTL {
        t := t.(inSyscall := !t.inSyscall);
      }
      AgreesUpdate(threads, kernel, i, t, Report(kernel, e)[e.pid]);
      SameNames(threads, threads[i := t], processIdx, main);
      kernel := Report(kernel, e);
      threads := threads[i := t];
      if e.call.nr != SYS_IOCTL || e.call.request != KVM_RUN || t.inSyscall || e.ret != 0 {
        return Ok(None);
      }
      var vcpu := FindVCpu(vcpus, AsI32(e.call.fd));
      if vcpu.None? {
        return Ok(None);
      }
      if vcpu.value.vcpuMap.None? {
        return Err(NoMap);
      }
      if e.page.exitReason != KVM_EXIT_MMIO {
        return Ok(None);
      }
      r := Ok(Some(MmioRw(e.page.addr, e.page.isWrite, e.page.data, e.page.len, e.pid, vcpu.value.vcpuMap.value)));
    }

    method ProcessStatus(e: Status) returns (r: Result<Option<MmioRw>, Failure>)
      requires Valid() && e.pid in kernel && !kernel[e.pid].running
      requires e.SyscallStop? && kernel[e.pid].inside.Some? ==> kernel[e.pid].inside.value == e.call
      modifies this`threads, this`processIdx, this`kernel
      ensures Valid() && kernel == Report(old(kernel), e)
      ensures r == if Unmapped(old(kernel), vcpus, e) then Err(NoMap) else Ok(Access(old(kernel), vcpus, e))
    {
      hide Agrees, NamesMain;
      match e
      case SyscallStop(_, _, _, _) =>
        r := Stopped(e);
      case Exited(tid) =>
        DropThread(tid);
        r := Ok(None);
      case OtherStop(_) =>
        r := Ok(None);
    }

    /** Lets all threads run and handles the next report about one of them. */
    method WaitForIoctl(current: ThreadId, events: seq<Status>) returns (r: Result<Option<MmioRw>, Failure>, n: nat)
      requires Valid() && LegalTrace(Resumed(kernel), events)
      modifies this`threads, this`processIdx, this`kernel
      ensures Valid() && n <= |events| && forall i | 0 <= i < n :: events[i].pid !in old(kernel)
      ensures owner != Some(current) ==> r == Err(WrongOwner) && kernel == old(kernel)
      ensures owner == Some(current) && n == |events| ==> r == Err(NoEvent) && kernel == Resumed(old(kernel))
      ensures owner == Some(current) && n < |events| ==>
                var k := Resumed(old(kernel));
                && events[n].pid in k && LegalTrace(k, events[n..]) && kernel == Report(k, events[n])
                && r == if Unmapped(k, vcpus, events[n]) then Err(NoMap) else Ok(Access(k, vcpus, events[n]))
    {
      hide Agrees, NamesMain;
      if owner != Some(current) {
        return Err(WrongOwner), 0;
      }
      StopOnSyscall();
      ghost var k := kernel;
      n := WaitPid(events);
      if n == |events| {
        return Err(NoEvent), n;
      }
      assert events[n..][0] == events[n];
      SameReport(k, vcpus, events[n]);
      r := ProcessStatus(events[n]);
    }

    /** Answers a read from device memory: the data of the shared page is replaced, and the access
        is turned into a write so that the hypervisor ignores it.  The thread of the virtual CPU
        must not run meanwhile. */
    method AnswerRead(m: MmioRw, data: seq<nat>, page: KvmRun) returns (r: Result<KvmRun, Failure>)
      requires Valid() && m.pid in kernel && !kernel[m.pid].running
      requires |m.data| == MMIO_RW_DATA_MAX && m.len <= MMIO_RW_DATA_MAX
      ensures r.Ok? <==> !m.isWrite && |data| == m.len
      ensures r.Ok? ==> r.value == page.(data := r.value.data, isWrite := true) && IsAnswer(m, data, r.value)
    {
      if m.isWrite || |data| != m.len {
        return Err(BadAnswer);
      }
      r := Ok(page.(data := data + m.data[m.len..]).(isWrite := true));
    }

    /** Forwards an access to the devices, and answers it if it is a read. */
    method HandleMmioRw(m: MmioRw, page: KvmRun, devices: Devices, log: seq<MmioRw>)
      returns (r: Result<Option<KvmRun>, Failure>)
      requires Valid() && m.pid in kernel && !kernel[m.pid].running && Fills(devices)
      requires |m.data| == MMIO_RW_DATA_MAX && m.len <= MMIO_RW_DATA_MAX
      ensures r == Err(DeviceFailed) <==> devices(log, m).None?
      ensures r.Ok? <==> devices(log, m).Some?
      ensures r.Ok? ==> Served(devices, log + [m], |log|, r.value)
    {
      assert (log + [m])[..|log|] == log;
      var data := devices(log, m);
      if data.None? {
        return Err(DeviceFailed);
      }
      if m.isWrite {
        return Ok(None);
      }
      var answer := AnswerRead(m, data.value, page);
      r := Ok(Some(answer.value));
    }

    /** One round of the event loop: the next report, and what becomes of the access it stands for. */
    method HandleOne(current: ThreadId, events: seq<Status>, first: nat, last: nat, devices: Devices, log: seq<MmioRw>)
      returns (r: Result<Option<MmioRw>, Failure>, rest: seq<Status>, page: Option<KvmRun>, rejected: Option<MmioRw>)
      requires Valid() && LegalTrace(Resumed(kernel), events) && PagesFit(events) && Fills(devices)
      modifies this`threads, this`processIdx, this`kernel
      ensures Valid()
      ensures r == Err(WrongOwner) <==> owner != Some(current)
      ensures r.Ok? ==>
                && LegalTrace(Resumed(kernel), rest) && PagesFit(rest)
                && Accesses(Resumed(old(kernel)), vcpus, events)
                   == (if r.value.Some? then [r.value.value] else []) + Accesses(Resumed(kernel), vcpus, rest)
      ensures r == Err(NoEvent) ==> Accesses(Resumed(old(kernel)), vcpus, events) == []
      ensures if r.Ok? && r.value.Some? && InWindow(r.value.value, first, last) then
                Served(devices, log + [r.value.value], |log|, page)
              else page.None?
      ensures rejected.Some? <==> r == Err(DeviceFailed)
      ensures rejected.Some? ==>
                && InWindow(rejected.value, first, last) && devices(log, rejected.value).None?
                && Accesses(Resumed(old(kernel)), vcpus, events)
                   == [rejected.value] + Accesses(Resumed(kernel), vcpus, rest)
    {
      hide Agrees, NamesMain, Access, Unmapped, Report, Served;
      ghost var k := Resumed(kernel);
      var n: nat;
      r, n := WaitForIoctl(current, events);
      rest, page, rejected := [], None, None;
      if owner == Some(current) {
        ResumedTwice(old(kernel));
        SkipForeign(k, vcpus, events, n);
        if n == |events| {
          assert events[n..] == [];
        } else {
          assert events[n..][0] == events[n] && events[n..][1..] == events[n + 1..];
          rest := events[n + 1..];
          if r.Ok? && r.value.Some? {
            var m := r.value.value;
            AccessFrom(k, vcpus, events[n]);
            if InWindow(m, first, last) {
              var handled := HandleMmioRw(m, events[n].page, devices, log);
              if handled.Err? {
                r, rejected := Err(DeviceFailed), Some(m);
              } else {
                page := handled.value;
              }
            }
          }
        }
      }
    }

    /** The event loop: handles up to `rounds` reports.  The accesses to device memory that it sees are
        those of the trace, in order; those in `first..last`, reads and writes, go to the devices in
        this order, and each read is answered with what the devices return.  A failing device ends
        the loop. */
    method HandleMmioExits(current: ThreadId, events: seq<Status>, rounds: nat, first: nat, last: nat, devices: Devices)
      returns (seen: seq<MmioRw>, log: seq<MmioRw>, pages: seq<Option<KvmRun>>, rest: seq<Status>,
               failure: Option<Failure>, rejected: Option<MmioRw>)
      requires Valid() && LegalTrace(Resumed(kernel), events) && PagesFit(events) && Fills(devices)
      modifies this`threads, this`processIdx, this`kernel
      ensures Valid()
      ensures failure == None ==>
                Accesses(Resumed(old(kernel)), vcpus, events) == seen + Accesses(Resumed(kernel), vcpus, rest)
      ensures failure == Some(NoEvent) ==> Accesses(Resumed(old(kernel)), vcpus, events) == seen
      ensures failure == Some(WrongOwner) <==> owner != Some(current) && rounds > 0
      ensures failure == Some(DeviceFailed) <==> rejected.Some?
      ensures rejected.Some? ==>
                && InWindow(rejected.value, first, last) && devices(log, rejected.value).None?
                && Accesses(Resumed(old(kernel)), vcpus, events)
                   == seen + [rejected.value] + Accesses(Resumed(kernel), vcpus, rest)
      ensures log == Window(seen, first, last) && AllServed(devices, log, pages)
    {
      hide Agrees, NamesMain, Accesses, LegalTrace, PagesFit, Served, Fills, Window;
      StopOnSyscall();
      ResumedTwice(old(kernel));
      hide Resumed;
      seen, log, pages, rest, failure, rejected := [], [], [], events, None, None;
      WindowNone(first, last);
      ghost var all := Accesses(Resumed(kernel), vcpus, events);
      var round := 0;
      while round < rounds
        invariant round <= rounds && Valid() && failure == None && rejected == None
        invariant round > 0 ==> owner == Some(current)
        invariant LegalTrace(Resumed(kernel), rest) && PagesFit(rest)
        invariant all == seen + Accesses(Resumed(kernel), vcpus, rest)
        invariant log == Window(seen, first, last) && AllServed(devices, log, pages)
      {
        var r, rest', page, rejected' := HandleOne(current, rest, first, last, devices, log);
        rest, rejected := rest', rejected';
        if r.Err? {
          failure := Some(r.error);
          return;
        }
        if r.value.Some? {
          var m := r.value.value;
          WindowStep(seen, m, first, last);
          if InWindow(m, first, last) {
            ServedMore(devices, log, pages, m, page);
            log, pages := log + [m], pages + [page];
          }
          seen := seen + [m];
        }
        round := round + 1;
      }
    }

    /** Interrupts every running thread and waits for it; `reports` has the threads that stop at
        a system call first. */
    method PrepareDetach(reports: map<Pid, Call>)
      requires Valid()
      modifies this`kernel
      ensures kernel == Interrupted(old(kernel), reports)
    {
      hide NamesMain, HasThread;
      assert forall j | 0 <= j < |threads| :: threads[j].tid in kernel;
      ghost var goal := Interrupted(kernel, reports);
      var i := 0;
      while i < |threads|
        invariant 0 <= i <= |threads| && kernel.Keys == old(kernel).Keys
        invariant forall j | 0 <= j < i :: kernel[threads[j].tid] == goal[threads[j].tid]
        invariant forall j | i <= j < |threads| :: kernel[threads[j].tid] == old(kernel)[threads[j].tid]
      {
        var tid := threads[i].tid;
        if threads[i].isRunning {
          kernel := kernel[tid := goal[tid]];
        }
        i := i + 1;
      }
      EveryTask(threads, kernel, goal);
    }

    /** Gives the threads back, all of them stopped, in their order. */
    method IntoTracer(reports: map<Pid, Call>) returns (idx: nat, tids: seq<Pid>)
      requires Valid()
      modifies this`threads, this`kernel
      ensures kernel == Interrupted(old(kernel), reports) && threads == []
      ensures |tids| == |old(threads)| && forall i | 0 <= i < |tids| :: tids[i] == old(threads)[i].tid
      ensures idx == processIdx && (main in tids ==> idx < |tids| && tids[idx] == main)
      ensures forall pid :: pid in kernel <==> pid in tids
    {
      PrepareDetach(reports);
      idx := processIdx;
      ghost var before := threads;
      tids := seq(|threads|, j requires 0 <= j < |threads| reads this => threads[j].tid);
      threads := [];
      TidsCover(before, old(kernel), tids);
      if main in tids {
        assert HasThread(before, main);
      }
    }
  }

  lemma EveryTask(threads: seq<Thread>, k: Kernel, goal: Kernel)
    requires Covered(threads, k) && k.Keys == goal.Keys
    requires forall i | 0 <= i < |threads| :: threads[i].tid in k && k[threads[i].tid] == goal[threads[i].tid]
    ensures k == goal
  {
    forall pid | pid in k ensures k[pid] == goal[pid] {
      assert HasThread(threads, pid);
    }
  }

  lemma TidsCover(threads: seq<Thread>, k: Kernel, tids: seq<Pid>)
    requires Agrees(threads, k) && |tids| == |threads| && forall i | 0 <= i < |tids| :: tids[i] == threads[i].tid
    ensures forall pid :: pid in k <==> pid in tids
    ensures forall pid | pid in tids :: HasThread(threads, pid)
  {
    forall pid | pid in k ensures pid in tids {
      assert HasThread(threads, pid);
      var i :| 0 <= i < |threads| && threads[i].tid == pid;
      assert tids[i] == pid;
    }
  }

  function Halted(t: Task, report: Option<Call>): Task {
    if report.None? then t.(running := false)
    else Task(false, if t.inside.Some? then None else report)
  }

  function Interrupted(k: Kernel, reports: map<Pid, Call>): Kernel {
    map pid | pid in k ::
      if !k[pid].running then k[pid] else Halted(k[pid], if pid in reports then Some(reports[pid]) else None)
  }

  lemma FreshAgrees(tids: seq<Pid>, threads: seq<Thread>, k: Kernel)
    requires |threads| == |tids| && forall i, j | 0 <= i < j < |tids| :: tids[i] != tids[j]
    requires forall i | 0 <= i < |tids| :: threads[i] == Thread(tids[i], false, false)
    requires forall pid :: pid in k <==> pid in tids
    requires forall pid | pid in k :: !k[pid].running
    ensures Agrees(threads, k) <==> forall pid | pid in k :: !InIoctl(k[pid])
  {
    hide InIoctl;
    forall pid | pid in k ensures HasThread(threads, pid) {
      assert pid in tids;
      var i :| 0 <= i < |tids| && tids[i] == pid;
      assert threads[i].tid == pid;
    }
    assert forall i | 0 <= i < |tids| :: threads[i].tid in tids;
  }

  lemma ResumedTwice(k: Kernel)
    ensures Resumed(Resumed(k)) == Resumed(k)
  {
  }

  /** An access belongs to a stopped thread and carries the page of its virtual CPU. */
  lemma AccessFrom(k: Kernel, vcpus: seq<VCpu>, e: Status)
    requires Access(k, vcpus, e).Some?
    ensures var m := Access(k, vcpus, e).value;
            && e.SyscallStop? && m.pid == e.pid && m.data == e.page.data && m.len == e.page.len
            && m.pid in Report(k, e) && !Report(k, e)[m.pid].running
  {
  }

  /** Reports about other processes do not matter. */
  lemma {:induction false} SkipForeign(k: Kernel, vcpus: seq<VCpu>, events: seq<Status>, n: nat)
    requires n <= |events| && Resumed(k) == k && forall i | 0 <= i < n :: events[i].pid !in k
    ensures Accesses(k, vcpus, events) == Accesses(k, vcpus, events[n..])
  {
    if n == 0 {
      assert events[0..] == events;
    } else {
      assert events[1..][n - 1..] == events[n..];
      SkipForeign(k, vcpus, events[1..], n - 1);
    }
  }

  /** The stop of a thread changes only whether it runs. */
  lemma SameReport(k: Kernel, vcpus: seq<VCpu>, e: Status)
    requires e.pid in k
    ensures var stopped := k[e.pid := k[e.pid].(running := false)];
            && Report(stopped, e) == Report(k, e) && Access(stopped, vcpus, e) == Access(k, vcpus, e)
            && Unmapped(stopped, vcpus, e) == Unmapped(k, vcpus, e)
  {
  }

  lemma StillThere(threads: seq<Thread>, idx: nat)
    requires idx < |threads| && Distinct(threads)
    ensures !HasThread(Without(threads, idx), threads[idx].tid)
    ensures forall i | 0 <= i < |threads| && threads[i].tid != threads[idx].tid :: threads[i] in Without(threads, idx)
  {
    var after := Without(threads, idx);
    forall i | 0 <= i < |threads| && threads[i].tid != threads[idx].tid ensures threads[i] in after {
      assert after[if i < idx then i else i - 1] == threads[i];
    }
  }

  lemma AgreesResume(threads: seq<Thread>, k: Kernel, i: nat)
    requires Agrees(threads, k) && i < |threads|
    ensures var tid := threads[i].tid;
            Agrees(threads[i := threads[i].(isRunning := true)], k[tid := k[tid].(running := true)])
  {
    AgreesUpdate(threads, k, i, threads[i].(isRunning := true), k[threads[i].tid].(running := true));
  }

  lemma AllResumed(threads: seq<Thread>, k: Kernel)
    requires Agrees(threads, k) && forall i | 0 <= i < |threads| :: threads[i].isRunning
    ensures forall pid | pid in k :: k[pid].running
  {
    forall pid | pid in k ensures k[pid].running {
      assert HasThread(threads, pid);
      var i :| 0 <= i < |threads| && threads[i].tid == pid;
    }
  }

  lemma SameNames(before: seq<Thread>, after: seq<Thread>, processIdx: nat, main: Pid)
    requires NamesMain(before, processIdx, main) && |before| == |after|
    requires forall i | 0 <= i < |after| :: before[i].tid == after[i].tid
    ensures NamesMain(after, processIdx, main)
  {
    if HasThread(after, main) {
      var i :| 0 <= i < |after| && after[i].tid == main;
      assert before[i].tid == main;
    }
  }

  /** The flag of one thread over its system-call stops. */
  function FlagAfter(flag: bool, calls: seq<Call>): bool
    decreases |calls|
  {
    if calls == [] then flag
    else FlagAfter(if calls[0].nr == SYS_IOCTL then !flag else flag, calls[1..])
  }

  function InsideAfter(inside: Option<Call>, calls: seq<Call>): Option<Call>
    decreases |calls|
  {
    if calls == [] then inside
    else InsideAfter(if inside.Some? then None else Some(calls[0]), calls[1..])
  }

  /** Stops alternate between entering a call and leaving the same call. */
  predicate Alternates(inside: Option<Call>, calls: seq<Call>)
    decreases |calls|
  {
    calls != [] ==>
      && (inside.Some? ==> inside.value == calls[0])
      && Alternates(if inside.Some? then None else Some(calls[0]), calls[1..])
  }

  /** A flag that starts right stays right, and one that starts wrong stays wrong: the wrapper
      tells entering from leaving exactly if the thread was attached outside an `ioctl`. */
  lemma {:induction false} FlagRightExactly(flag: bool, inside: Option<Call>, calls: seq<Call>)
    requires Alternates(inside, calls)
    ensures (FlagAfter(flag, calls) == InIoctl(Task(true, InsideAfter(inside, calls))))
            <==> (flag == InIoctl(Task(true, inside)))
    decreases |calls|
  {
    if calls != [] {
      FlagRightExactly(if calls[0].nr == SYS_IOCTL then !flag else flag,
                       if inside.Some? then None else Some(calls[0]), calls[1..]);
    }
  }

  /** A thread attached inside `ioctl(KVM_RUN)`: when it leaves the call, its flag says that it is
      inside, and the exit is missed. */
  lemma AttachedInsideMissesExit(fd: nat)
    ensures var run := Call(SYS_IOCTL, fd, KVM_RUN);
            Alternates(Some(run), [run]) && InsideAfter(Some(run), [run]) == None && FlagAfter(false, [run])
  {
    var run := Call(SYS_IOCTL, fd, KVM_RUN);
    assert [run][1..] == [];
    assert FlagAfter(false, [run]) == FlagAfter(true, []);
    assert InsideAfter(Some(run), [run]) == InsideAfter(None, []);
  }
}
