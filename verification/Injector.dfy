/** The syscall injector: while it is attached, the main thread of the hypervisor is stopped, its
    registers are saved and the word at its instruction pointer is a `syscall` instruction.  The
    injector is handed from thread to thread, and lent to the wrapper that lets the hypervisor
    run under control of `ptrace`. */
module Injector {
  import opened Wrappers
  import opened Bytes
  import opened ProcessVm

  type ThreadId = nat
  type Word = w: seq<Byte> | |w| == WORD_SIZE witness [0, 0, 0, 0, 0, 0, 0, 0]

  const WORD_SIZE := 8
  const SYSCALL_SIZE := 2
  const SYSCALL_TEXT: Word := [0x0f, 0x05, 0, 0, 0, 0, 0, 0]

  datatype Regs = Regs(ip: nat, others: seq<int>)

  /** The hypervisor process as the kernel sees it: the registers of its main thread, its
      memory, and the thread that traces it. */
  datatype Inferior = Inferior(regs: Regs, memory: Memory, tracer: Option<ThreadId>)

  /** An attached or disowned injector. */
  datatype Process = Process(savedRegs: Regs, savedText: Word, threads: bool, owner: Option<ThreadId>)

  /** The wrapper that the injector is lent to, and whether there was an injector before. */
  datatype Wrapper = Wrapper(owner: Option<ThreadId>, wasAttached: bool)

  predicate WordMapped(memory: Memory, a: nat) {
    Mapped(memory, Iov(a, WORD_SIZE))
  }

  function ReadWord(memory: Memory, a: nat): Word
    requires WordMapped(memory, a)
  {
    ReadBytes(memory, Iov(a, WORD_SIZE))
  }

  function WriteWord(memory: Memory, a: nat, w: Word): Memory
    requires WordMapped(memory, a)
  {
    WriteBytes(memory, a, w)
  }

  /** The word can be read back, and putting the old word back undoes the write. */
  lemma WriteBack(memory: Memory, a: nat, w: Word)
    requires WordMapped(memory, a)
    ensures var patched := WriteWord(memory, a, w);
            && WordMapped(patched, a) && ReadWord(patched, a) == w
            && WriteWord(patched, a, ReadWord(memory, a)) == memory
  {
    WriteReads(memory, Iov(a, WORD_SIZE), w);
    WriteTwice(memory, a, w);
  }

  lemma WriteTwice(memory: Memory, a: nat, w: Word)
    requires WordMapped(memory, a) && WordMapped(WriteWord(memory, a, w), a)
    ensures WriteWord(WriteWord(memory, a, w), a, ReadWord(memory, a)) == memory
  {
    var back := WriteWord(WriteWord(memory, a, w), a, ReadWord(memory, a));
    assert back.Keys == memory.Keys;
    forall k | k in memory ensures back[k] == memory[k] {
      if a <= k < a + WORD_SIZE {
        assert ReadWord(memory, a)[k - a] == memory[k];
      }
    }
  }

  datatype Sys = Sys(
    inferior: Inferior,
    proc: Option<Process>,
    wrapper: Option<Wrapper>,
    // The registers and the memory of the hypervisor without the patch of the injector.
    clean: Inferior
  )

  datatype Op =
    | Stop | Resume | Disown | Adopt | Syscall(result: seq<int>, memory: Memory) | Enter | Leave
    | Progress(regs: Regs, memory: Memory)

  datatype Outcome = Done | Refused | PtraceError

  predicate Attached(s: Sys) {
    s.proc.Some? && s.proc.value.owner.Some?
  }

  predicate Readable(inferior: Inferior) {
    WordMapped(inferior.memory, inferior.regs.ip)
  }

  /** A hypervisor traced by `t`, with the `syscall` instruction at its instruction pointer. */
  function Patched(inferior: Inferior, t: ThreadId): Inferior
    requires Readable(inferior)
  {
    Inferior(inferior.regs, WriteWord(inferior.memory, inferior.regs.ip, SYSCALL_TEXT), Some(t))
  }

  function Saved(inferior: Inferior, owner: Option<ThreadId>): Process
    requires Readable(inferior)
  {
    Process(inferior.regs, ReadWord(inferior.memory, inferior.regs.ip), true, owner)
  }

  /** What is left of the two writes of `deinit` when thread `t` makes them. */
  function Restored(inferior: Inferior, p: Process, t: ThreadId): Inferior {
    if !p.threads || inferior.tracer != Some(t) then inferior
    else if !WordMapped(inferior.memory, p.savedRegs.ip) then inferior.(regs := p.savedRegs)
    else Inferior(p.savedRegs, WriteWord(inferior.memory, p.savedRegs.ip, p.savedText), Some(t))
  }

  function Untraced(inferior: Inferior, t: ThreadId): Inferior {
    if inferior.tracer == Some(t) then inferior.(tracer := None) else inferior
  }

  /** What one operation by thread `t` does, and whether it was refused or one of its `ptrace`
      calls failed. */
  function Step(s: Sys, t: ThreadId, op: Op): (Sys, Outcome) {
    match op
    case Stop => StepStop(s, t)
    case Resume => StepResume(s, t)
    case Disown => StepDisown(s, t)
    case Adopt => StepAdopt(s, t)
    case Syscall(result, memory) => StepSyscall(s, t, result, memory)
    case Enter => StepEnter(s, t)
    case Leave => StepLeave(s, t)
    case Progress(regs, memory) =>
      if s.inferior.tracer.Some? && s.wrapper.None? then (s, Refused)
      else (s.(inferior := s.inferior.(regs := regs, memory := memory),
               clean := s.clean.(regs := regs, memory := memory)), Done)
  }

  function StepStop(s: Sys, t: ThreadId): (Sys, Outcome) {
    if s.proc.Some? then (s, Done)
    else if s.inferior.tracer.Some? || !Readable(s.inferior) then (s, PtraceError)
    else (s.(inferior := Patched(s.inferior, t), proc := Some(Saved(s.inferior, Some(t)))), Done)
  }

  function StepResume(s: Sys, t: ThreadId): (Sys, Outcome) {
    if s.proc.None? then (s, Done)
    else
      var p := s.proc.value;
      (s.(proc := None, inferior := if p.threads then Untraced(Restored(s.inferior, p, t), t) else s.inferior),
       if p.owner.Some? && s.inferior.tracer != Some(t) then PtraceError else Done)
  }

  function StepDisown(s: Sys, t: ThreadId): (Sys, Outcome) {
    if s.proc.None? || s.proc.value.owner.None? then (s, Refused)
    else
      var p := s.proc.value;
      if p.threads && s.inferior.tracer == Some(t) then
        (s.(proc := Some(p.(owner := None)), inferior := Untraced(Restored(s.inferior, p, t), t)), Done)
      else (s.(proc := Some(p.(threads := false))), PtraceError)
  }

  function StepAdopt(s: Sys, t: ThreadId): (Sys, Outcome) {
    if s.proc.None? || s.proc.value.owner.Some? then (s, Refused)
    else if !s.proc.value.threads then (s.(proc := Some(s.proc.value.(owner := Some(t)))), Done)
    else if s.inferior.tracer.Some? || !Readable(s.inferior) then
      (s.(proc := Some(s.proc.value.(threads := false))), PtraceError)
    else (s.(proc := Some(Saved(s.inferior, Some(t))), inferior := Patched(s.inferior, t)), Done)
  }

  predicate HasSyscall(inferior: Inferior, a: nat) {
    WordMapped(inferior.memory, a) && ReadWord(inferior.memory, a)[..SYSCALL_SIZE] == SYSCALL_TEXT[..SYSCALL_SIZE]
  }

  /** The injected call left the patched instruction mapped and intact. */
  predicate Intact(memory: Memory, ip: nat) {
    WordMapped(memory, ip) && ReadWord(memory, ip) == SYSCALL_TEXT
  }

  /** Memory with the saved word in place of the patch, where there is one. */
  function Unpatched(memory: Memory, p: Process): Memory {
    if WordMapped(memory, p.savedRegs.ip) then WriteWord(memory, p.savedRegs.ip, p.savedText) else memory
  }

  /** An injected system call leaves the result in the registers, behind the instruction, and
      memory as the kernel left it: it maps and unmaps pages and fills buffers. */
  function StepSyscall(s: Sys, t: ThreadId, result: seq<int>, memory: Memory): (Sys, Outcome) {
    if s.proc.None? || s.proc.value.owner != Some(t) then (s, Refused)
    else
      var p := s.proc.value;
      if !p.threads || s.inferior.tracer != Some(t) || !HasSyscall(s.inferior, p.savedRegs.ip) then (s, PtraceError)
      else (s.(inferior := s.inferior.(regs := Regs(p.savedRegs.ip + SYSCALL_SIZE, result), memory := memory),
               clean := s.clean.(memory := Unpatched(memory, p))), Done)
  }

  /** An injected call by `t`, if there is one, leaves the patched instruction alone. */
  predicate Gentle(s: Sys, t: ThreadId, op: Op) {
    op.Syscall? && s.proc.Some? && s.proc.value.owner == Some(t) ==> Intact(op.memory, s.proc.value.savedRegs.ip)
  }

  /** The first half of `kvmrun_wrapped`: the injector becomes a wrapper. */
  function StepEnter(s: Sys, t: ThreadId): (Sys, Outcome) {
    if s.proc.Some? then
      var p := s.proc.value;
      (s.(proc := None, inferior := Restored(s.inferior, p, t), wrapper := Some(Wrapper(p.owner, true))),
       if p.owner == Some(t) && p.threads && s.inferior.tracer == Some(t) then Done else PtraceError)
    else if s.inferior.tracer.Some? then (s, PtraceError)
    else (s.(inferior := s.inferior.(tracer := Some(t)), wrapper := Some(Wrapper(Some(t), false))), Done)
  }

  /** The second half of `kvmrun_wrapped`: the wrapper becomes an injector again, if it was one. */
  function StepLeave(s: Sys, t: ThreadId): (Sys, Outcome) {
    if s.wrapper.None? then (s, Refused)
    else
      var w := s.wrapper.value;
      if !w.wasAttached then
        (s.(wrapper := None, inferior := Untraced(s.inferior, t)),
         if s.inferior.tracer == Some(t) then Done else PtraceError)
      else if s.inferior.tracer != Some(t) || !Readable(s.inferior) then
        (s.(wrapper := None, inferior := Untraced(s.inferior, t)), PtraceError)
      else if s.proc.Some? then (s.(wrapper := None, inferior := Untraced(s.inferior, t)), PtraceError)
      else (s.(wrapper := None, proc := Some(Saved(s.inferior, w.owner)), inferior := Patched(s.inferior, t)), Done)
  }

  /** The injector is transparent: while it is not attached, the hypervisor is as it would be
      without it, and while it is, the saved registers and the saved word are. */
  predicate Inv(s: Sys) {
    if Attached(s) then
      var p := s.proc.value;
      && s.wrapper.None? && p.threads && s.inferior.tracer == p.owner && Readable(s.clean)
      && p == Saved(s.clean, p.owner)
      && s.inferior.memory == Patched(s.clean, p.owner.value).memory
    else
      && s.inferior.regs == s.clean.regs && s.inferior.memory == s.clean.memory
      && (s.proc.Some? ==> s.proc.value.threads && s.wrapper.None?)
      && (s.wrapper.Some? ==> s.wrapper.value.owner.Some?)
      && s.inferior.tracer == Owner(s)
  }

  /** The one thread that may control the hypervisor. */
  function Owner(s: Sys): Option<ThreadId> {
    if s.wrapper.Some? then s.wrapper.value.owner
    else if s.proc.Some? then s.proc.value.owner
    else None
  }

  lemma Restores(s: Sys, t: ThreadId)
    requires Inv(s) && Attached(s) && s.inferior.tracer == Some(t)
    ensures Restored(s.inferior, s.proc.value, t) == Inferior(s.clean.regs, s.clean.memory, Some(t))
  {
    WriteBack(s.clean.memory, s.clean.regs.ip, SYSCALL_TEXT);
  }

  /** Both memories have the same byte at `k`, or none. */
  predicate SameAt(a: Memory, b: Memory, k: nat) {
    (k in a <==> k in b) && (k in a ==> a[k] == b[k])
  }

  predicate InText(regs: Regs, k: nat) {
    regs.ip <= k < regs.ip + WORD_SIZE
  }

  /** Release by the owner puts back the registers and the word that were saved, and leaves every
      other byte as the injected calls left it. */
  lemma ReleaseRestores(s: Sys, t: ThreadId, op: Op)
    requires Inv(s) && Attached(s) && Owner(s) == Some(t) && (op.Resume? || op.Disown? || op.Enter?)
    ensures var p, after := s.proc.value, Step(s, t, op).0;
            && !Attached(after) && Inv(after) && after.inferior.regs == p.savedRegs
            && WordMapped(after.inferior.memory, p.savedRegs.ip)
            && ReadWord(after.inferior.memory, p.savedRegs.ip) == p.savedText
            && forall k: nat | !InText(p.savedRegs, k) :: SameAt(s.inferior.memory, after.inferior.memory, k)
  {
    Restores(s, t);
    hide Restored;
  }

  /** Every operation without a failed `ptrace` call keeps the invariant. */
  lemma StepKeeps(s: Sys, t: ThreadId, op: Op)
    requires Inv(s) && Step(s, t, op).1 != PtraceError && Gentle(s, t, op)
    ensures Inv(Step(s, t, op).0)
  {
    hide WordMapped, ReadWord, WriteWord, Intact, Unpatched;
    if op.Syscall? {
      if Attached(s) && Owner(s) == Some(t) {
        SyscallKeepsExactly(s, t, op.result, op.memory);
      }
    } else if Attached(s) && s.inferior.tracer == Some(t) {
      Restores(s, t);
      hide Restored;
    }
  }

  /** Putting the saved word into the memory and the patch back gives the memory exactly if the
      patch was there. */
  lemma RepatchExactly(memory: Memory, a: nat, saved: Word, patch: Word)
    requires WordMapped(memory, a)
    ensures var clean := WriteWord(memory, a, saved);
            && WordMapped(clean, a) && ReadWord(clean, a) == saved
            && (WriteWord(clean, a, patch) == memory <==> ReadWord(memory, a) == patch)
  {
    var clean := WriteWord(memory, a, saved);
    WriteBack(memory, a, saved);
    WriteBack(clean, a, patch);
  }

  /** An attached injector finds its instruction in place. */
  lemma SyscallStep(s: Sys, t: ThreadId, result: seq<int>, memory: Memory)
    requires Inv(s) && Attached(s) && Owner(s) == Some(t)
    ensures Step(s, t, Syscall(result, memory))
            == (s.(inferior := s.inferior.(regs := Regs(s.clean.regs.ip + SYSCALL_SIZE, result), memory := memory),
                   clean := s.clean.(memory := Unpatched(memory, s.proc.value))), Done)
  {
    hide WordMapped, ReadWord, WriteWord, Unpatched;
    WriteBack(s.clean.memory, s.clean.regs.ip, SYSCALL_TEXT);
  }

  /** An injected call keeps the injector transparent exactly if it leaves the instruction it
      was made from alone. */
  lemma SyscallKeepsExactly(s: Sys, t: ThreadId, result: seq<int>, memory: Memory)
    requires Inv(s) && Attached(s) && Owner(s) == Some(t)
    ensures Inv(Step(s, t, Syscall(result, memory)).0) <==> Intact(memory, s.proc.value.savedRegs.ip)
  {
    hide WordMapped, ReadWord, WriteWord, Step;
    var p := s.proc.value;
    SyscallStep(s, t, result, memory);
    if WordMapped(memory, p.savedRegs.ip) {
      RepatchExactly(memory, p.savedRegs.ip, p.savedText, SYSCALL_TEXT);
    }
  }

  /** The calls of `ptrace` that fail, given the invariant. */
  predicate Fails(s: Sys, t: ThreadId, op: Op) {
    match op
    case Stop => s.wrapper.Some? || (s.proc.None? && !Readable(s.inferior))
    case Resume | Disown => Attached(s) && Owner(s) != Some(t)
    case Adopt => s.proc.Some? && !Attached(s) && !Readable(s.inferior)
    case Enter => s.wrapper.Some? || (s.proc.Some? && Owner(s) != Some(t))
    case Leave =>
      s.wrapper.Some? && (Owner(s) != Some(t) || (s.wrapper.value.wasAttached && !Readable(s.inferior)))
    case Syscall(_, _) | Progress(_, _) => false
  }

  /** Exactly the operations of a thread that does not own the tracer fail, the ones that need
      the tracer while the wrapper has it, and those that cannot read the instruction. */
  lemma FailsExactly(s: Sys, t: ThreadId, op: Op)
    requires Inv(s)
    ensures Step(s, t, op).1 == PtraceError <==> Fails(s, t, op)
  {
    if op.Syscall? && Attached(s) {
      WriteBack(s.clean.memory, s.clean.regs.ip, SYSCALL_TEXT);
    }
    hide Restored, Saved, Patched, WriteWord, ReadWord;
  }

  /** While one thread owns the tracer, the others change nothing. */
  lemma OnlyOwnerActs(s: Sys, t: ThreadId, op: Op)
    requires Inv(s) && Owner(s).Some? && Owner(s) != Some(t) && !op.Progress?
    requires Step(s, t, op).1 != PtraceError
    ensures Step(s, t, op).0 == s
  {
    hide WordMapped, ReadWord, WriteWord;
  }

  /** An attached injector can always inject: the instruction is in place, and the registers
      that the next call starts from are the saved ones. */
  lemma SyscallWorks(s: Sys, t: ThreadId, result: seq<int>, memory: Memory)
    requires Inv(s) && Attached(s)
    ensures Step(s, t, Syscall(result, memory)).1 == if Owner(s) == Some(t) then Done else Refused
  {
    FailsExactly(s, t, Syscall(result, memory));
  }

  /** The state after a sequence of operations, or nothing if a `ptrace` call failed or an
      injected call overwrote the instruction it was made from. */
  function Exec(s: Sys, ops: seq<(ThreadId, Op)>): Option<Sys>
    decreases |ops|
  {
    if ops == [] then Some(s)
    else
      var (next, outcome) := Step(s, ops[0].0, ops[0].1);
      if outcome == PtraceError || !Gentle(s, ops[0].0, ops[0].1) then None else Exec(next, ops[1..])
  }

  lemma {:induction false} ExecKeeps(s: Sys, ops: seq<(ThreadId, Op)>)
    requires Inv(s) && Exec(s, ops).Some?
    ensures Inv(Exec(s, ops).value)
    decreases |ops|
  {
    hide Inv, Step, Gentle;
    if ops != [] {
      StepKeeps(s, ops[0].0, ops[0].1);
      ExecKeeps(Step(s, ops[0].0, ops[0].1).0, ops[1..]);
    }
  }

  lemma {:induction false} ExecSplit(s: Sys, first: seq<(ThreadId, Op)>, second: seq<(ThreadId, Op)>)
    requires Exec(s, first + second).Some?
    ensures Exec(s, first).Some? && Exec(s, first + second) == Exec(Exec(s, first).value, second)
    decreases |first|
  {
    hide Step, Gentle;
    if first == [] {
      assert first + second == second;
    } else {
      assert (first + second)[1..] == first[1..] + second;
      ExecSplit(Step(s, first[0].0, first[0].1).0, first[1..], second);
    }
  }

  /** No call that is injected in the run changes the byte at `k`. */
  predicate Untouched(s: Sys, ops: seq<(ThreadId, Op)>, k: nat)
    decreases |ops|
  {
    ops != [] ==>
      var (next, outcome) := Step(s, ops[0].0, ops[0].1);
      && (ops[0].1.Syscall? && outcome == Done ==> SameAt(s.inferior.memory, ops[0].1.memory, k))
      && Untouched(next, ops[1..], k)
  }

  /** One operation changes the memory without the patch only where an injected call does. */
  lemma StepKeepsByte(s: Sys, t: ThreadId, op: Op, k: nat)
    requires Inv(s) && Step(s, t, op).1 != PtraceError && Gentle(s, t, op) && !op.Progress?
    requires op.Syscall? && Step(s, t, op).1 == Done ==>
               InText(s.clean.regs, k) || SameAt(s.inferior.memory, op.memory, k)
    ensures Step(s, t, op).0.clean.regs == s.clean.regs
    ensures SameAt(s.clean.memory, Step(s, t, op).0.clean.memory, k)
  {
    hide Restored, Untraced, Patched, Saved, WordMapped, ReadWord, WriteWord, Intact, SameAt, InText;
    if op.Syscall? && Step(s, t, op).1 == Done {
      SyscallKeepsByte(s, t, op.result, op.memory, k);
    } else {
      SameAsItself(s.clean.memory, k);
    }
  }

  lemma SameAsItself(memory: Memory, k: nat)
    ensures SameAt(memory, memory, k)
  {
  }

  /** Patching, any change beside the patch, and putting the word back. */
  lemma UnpatchedByte(before: Memory, after: Memory, ip: nat, saved: Word, k: nat)
    requires WordMapped(before, ip) && WordMapped(after, ip) && saved == ReadWord(before, ip)
    requires ip <= k < ip + WORD_SIZE || SameAt(WriteWord(before, ip, SYSCALL_TEXT), after, k)
    ensures SameAt(before, WriteWord(after, ip, saved), k)
  {
    if ip <= k < ip + WORD_SIZE {
      assert saved[k - ip] == before[k];
    }
  }

  lemma SyscallKeepsByte(s: Sys, t: ThreadId, result: seq<int>, memory: Memory, k: nat)
    requires Inv(s) && Attached(s) && Owner(s) == Some(t) && Intact(memory, s.proc.value.savedRegs.ip)
    requires InText(s.clean.regs, k) || SameAt(s.inferior.memory, memory, k)
    ensures SameAt(s.clean.memory, Step(s, t, Syscall(result, memory)).0.clean.memory, k)
  {
    hide Step, WordMapped, ReadWord, WriteWord, SameAt;
    var ip := s.clean.regs.ip;
    SyscallStep(s, t, result, memory);
    UnpatchedByte(s.clean.memory, memory, ip, ReadWord(s.clean.memory, ip), k);
  }

  lemma {:induction false} RunKeepsByte(s: Sys, ops: seq<(ThreadId, Op)>, k: nat)
    requires Inv(s) && Exec(s, ops).Some? && forall i | 0 <= i < |ops| :: !ops[i].1.Progress?
    requires InText(s.clean.regs, k) || Untouched(s, ops, k)
    ensures Exec(s, ops).value.clean.regs == s.clean.regs
    ensures SameAt(s.clean.memory, Exec(s, ops).value.clean.memory, k)
    decreases |ops|
  {
    hide Inv, Step, Gentle;
    if ops != [] {
      StepKeeps(s, ops[0].0, ops[0].1);
      StepKeepsByte(s, ops[0].0, ops[0].1, k);
      RunKeepsByte(Step(s, ops[0].0, ops[0].1).0, ops[1..], k);
    }
  }

  /** Stopping, injecting, handing over and resuming leave no trace of their own: as long as the
      hypervisor does not run by itself, it has its old registers and its old instruction whenever
      it is not attached, and every byte that no injected call changed. */
  lemma LeavesNoTrace(s: Sys, ops: seq<(ThreadId, Op)>)
    requires Inv(s) && !Attached(s) && Exec(s, ops).Some?
    requires forall i | 0 <= i < |ops| :: !ops[i].1.Progress?
    ensures var t := Exec(s, ops).value;
            !Attached(t) ==>
              && t.inferior.regs == s.inferior.regs
              && forall k: nat :: InText(s.inferior.regs, k) || Untouched(s, ops, k) ==>
                   SameAt(s.inferior.memory, t.inferior.memory, k)
  {
    hide Exec, Untouched, SameAt, InText;
    ExecKeeps(s, ops);
    RunKeepsByte(s, ops, s.clean.regs.ip) by {
      InOwnText(s.clean.regs);
    }
    forall k: nat | InText(s.inferior.regs, k) || Untouched(s, ops, k)
      ensures SameAt(s.clean.memory, Exec(s, ops).value.clean.memory, k)
    {
      RunKeepsByte(s, ops, k);
    }
  }

  lemma InOwnText(regs: Regs)
    ensures InText(regs, regs.ip)
  {
  }

  lemma {:induction false} WrapperStays(s: Sys, ops: seq<(ThreadId, Op)>)
    requires Inv(s) && s.wrapper.Some? && Exec(s, ops).Some? && forall i | 0 <= i < |ops| :: !ops[i].1.Leave?
    ensures var t := Exec(s, ops).value; Inv(t) && t.wrapper == s.wrapper && t.proc == None
    decreases |ops|
  {
    hide WordMapped, ReadWord, WriteWord, Saved, Patched, Restored, Untraced;
    if ops != [] {
      var next := Step(s, ops[0].0, ops[0].1).0;
      StepKeeps(s, ops[0].0, ops[0].1);
      FailsExactly(s, ops[0].0, ops[0].1);
      WrapperStays(next, ops[1..]);
    }
  }

  /** `kvmrun_wrapped`, whatever happens while its closure runs, ends with the owner and the
      attachedness it began with, and only the thread that began it can end it. */
  lemma WrappedKeepsOwner(s: Sys, t: ThreadId, ops: seq<(ThreadId, Op)>, u: ThreadId)
    requires Inv(s) && forall i | 0 <= i < |ops| :: !ops[i].1.Leave?
    requires Exec(s, [(t, Enter)] + ops + [(u, Leave)]).Some?
    ensures var e := Exec(s, [(t, Enter)] + ops + [(u, Leave)]).value;
            && u == t && e.wrapper == s.wrapper == None && e.proc.Some? == s.proc.Some?
            && Attached(e) == Attached(s) && Owner(e) == Owner(s) && Inv(e)
  {
    hide WordMapped, ReadWord, WriteWord, Saved, Patched, Restored, Untraced, Readable;
    var all := [(t, Enter)] + ops + [(u, Leave)];
    ExecSplit(s, [(t, Enter)] + ops, [(u, Leave)]);
    ExecSplit(s, [(t, Enter)], ops);
    ExecOne(s, t, Enter);
    var s1 := Step(s, t, Enter).0;
    StepKeeps(s, t, Enter);
    FailsExactly(s, t, Enter);
    WrapperStays(s1, ops);
    var s2 := Exec(s1, ops).value;
    ExecOne(s2, u, Leave);
    StepKeeps(s2, u, Leave);
    FailsExactly(s2, u, Leave);
    ReinitOwner(s2, u);
  }

  lemma ReinitOwner(s: Sys, u: ThreadId)
    requires Inv(s) && s.wrapper.Some? && Step(s, u, Leave).1 != PtraceError
    ensures var e := Step(s, u, Leave).0;
            if s.wrapper.value.wasAttached then e.proc.Some? && e.proc.value.owner == s.wrapper.value.owner
            else e.proc == s.proc
  {
  }

  lemma ExecOne(s: Sys, t: ThreadId, op: Op)
    ensures Exec(s, [(t, op)])
            == if Step(s, t, op).1 == PtraceError || !Gentle(s, t, op) then None else Some(Step(s, t, op).0)
  {
    hide Step, Gentle;
    var ops := [(t, op)];
    assert ops[1..] == [];
  }

  /** The host side: the injector in the tracee, the wrapper, and the calls of `ptrace`. */
  class Hypervisor {
    var inferior: Inferior
    var proc: Option<Process>
    var wrapper: Option<Wrapper>
    ghost var clean: Inferior

    ghost function Value(): Sys
      reads this
    {
      Sys(inferior, proc, wrapper, clean)
    }

    method GetRegs(t: ThreadId) returns (r: Result<Regs, Outcome>)
      ensures r == if inferior.tracer == Some(t) then Ok(inferior.regs) else Err(PtraceError)
    {
      r := if inferior.tracer == Some(t) then Ok(inferior.regs) else Err(PtraceError);
    }

    method Peek(t: ThreadId, a: nat) returns (r: Result<Word, Outcome>)
      ensures r == if inferior.tracer == Some(t) && WordMapped(inferior.memory, a) then Ok(ReadWord(inferior.memory, a))
                   else Err(PtraceError)
    {
      r := if inferior.tracer == Some(t) && WordMapped(inferior.memory, a) then Ok(ReadWord(inferior.memory, a))
           else Err(PtraceError);
    }

    method Poke(t: ThreadId, a: nat, w: Word) returns (ok: bool)
      modifies this`inferior
      ensures ok == (old(inferior).tracer == Some(t) && WordMapped(old(inferior).memory, a))
      ensures inferior == if ok then old(inferior).(memory := WriteWord(old(inferior).memory, a, w)) else old(inferior)
    {
      ok := inferior.tracer == Some(t) && WordMapped(inferior.memory, a);
      if ok {
        inferior := inferior.(memory := WriteWord(inferior.memory, a, w));
      }
    }

    method SetRegs(t: ThreadId, regs: Regs) returns (ok: bool)
      modifies this`inferior
      ensures ok == (old(inferior).tracer == Some(t))
      ensures inferior == if ok then old(inferior).(regs := regs) else old(inferior)
    {
      ok := inferior.tracer == Some(t);
      if ok {
        inferior := inferior.(regs := regs);
      }
    }

    method Seize(t: ThreadId) returns (ok: bool)
      modifies this`inferior
      ensures ok == old(inferior).tracer.None?
      ensures inferior == if ok then old(inferior).(tracer := Some(t)) else old(inferior)
    {
      ok := inferior.tracer.None?;
      if ok {
        inferior := inferior.(tracer := Some(t));
      }
    }

    method Detach(t: ThreadId) returns (ok: bool)
      modifies this`inferior
      ensures ok == (old(inferior).tracer == Some(t)) && inferior == Untraced(old(inferior), t)
    {
      ok := inferior.tracer == Some(t);
      if ok {
        inferior := inferior.(tracer := None);
      }
    }

    /** Saves the registers and the instruction of the main thread and patches it. */
    method Init(t: ThreadId, owner: Option<ThreadId>) returns (r: Result<Process, Outcome>)
      modifies this`inferior
      ensures r.Ok? <==> old(inferior).tracer == Some(t) && Readable(old(inferior))
      ensures r.Ok? ==> r.value == Saved(old(inferior), owner) && inferior == Patched(old(inferior), t)
      ensures r.Err? ==> inferior == old(inferior)
    {
      var regs := GetRegs(t);
      if regs.Err? {
        return Err(PtraceError);
      }
      var text := Peek(t, regs.value.ip);
      if text.Err? {
        return Err(PtraceError);
      }
      var ok := Poke(t, regs.value.ip, SYSCALL_TEXT);
      r := if ok then Ok(Process(regs.value, text.value, true, owner)) else Err(PtraceError);
    }

    /** Puts the instruction and the registers back, unless the threads are gone; failures go
        unnoticed. */
    method Deinit(t: ThreadId, p: Process) returns (hadThreads: bool)
      modifies this`inferior
      ensures hadThreads == p.threads && inferior == Restored(old(inferior), p, t)
    {
      if p.threads {
        var _ := Poke(t, p.savedRegs.ip, p.savedText);
        var _ := SetRegs(t, p.savedRegs);
      }
      hadThreads := p.threads;
    }

    method Stop(t: ThreadId) returns (outcome: Outcome)
      modifies this`inferior, this`proc
      ensures (Value(), outcome) == StepStop(old(Value()), t)
    {
      if proc.Some? {
        return Done;
      }
      var seized := Seize(t);
      if !seized {
        return PtraceError;
      }
      var r := Init(t, Some(t));
      if r.Err? {
        // The threads are dropped, which detaches them.
        var _ := Detach(t);
        return PtraceError;
      }
      proc := Some(r.value);
      outcome := Done;
    }

    method Resume(t: ThreadId) returns (outcome: Outcome)
      modifies this`inferior, this`proc
      ensures (Value(), outcome) == StepResume(old(Value()), t)
    {
      outcome := Done;
      if proc.Some? {
        var p := proc.value;
        proc := None;
        if p.owner.Some? && inferior.tracer != Some(t) {
          outcome := PtraceError;
        }
        var hadThreads := Deinit(t, p);
        if hadThreads {
          var _ := Detach(t);
        }
      }
    }

    method Disown(t: ThreadId) returns (outcome: Outcome)
      modifies this`inferior, this`proc
      ensures (Value(), outcome) == StepDisown(old(Value()), t)
    {
      if proc.None? || proc.value.owner.None? {
        return Refused;
      }
      var hadThreads := Deinit(t, proc.value);
      proc := Some(proc.value.(threads := false));
      if !hadThreads {
        return PtraceError;
      }
      var ok := Detach(t);
      if !ok {
        return PtraceError;
      }
      proc := Some(proc.value.(threads := true, owner := None));
      outcome := Done;
    }

    method Adopt(t: ThreadId) returns (outcome: Outcome)
      modifies this`inferior, this`proc
      ensures (Value(), outcome) == StepAdopt(old(Value()), t)
    {
      if proc.None? || proc.value.owner.Some? {
        return Refused;
      }
      if proc.value.threads {
        proc := Some(proc.value.(threads := false));
        var seized := Seize(t);
        if !seized {
          return PtraceError;
        }
        var r := Init(t, None);
        if r.Err? {
          var _ := Detach(t);
          return PtraceError;
        }
        proc := Some(proc.value.(savedRegs := r.value.savedRegs, savedText := r.value.savedText, threads := true));
      }
      proc := Some(proc.value.(owner := Some(t)));
      outcome := Done;
    }

    /** Lets the main thread run from the saved registers with the arguments of the call to the stop
        behind the system call; the kernel chooses its result and what it does to the memory. */
    method InjectSyscall(t: ThreadId, args: seq<int>, result: seq<int>, memory: Memory)
      returns (outcome: Outcome, ghost entered: Option<Regs>)
      modifies this`inferior, this`clean
      ensures outcome != PtraceError ==> (Value(), outcome) == StepSyscall(old(Value()), t, result, memory)
      ensures outcome == PtraceError <==> StepSyscall(old(Value()), t, result, memory).1 == PtraceError
      ensures outcome == Done ==> entered == Some(Regs(proc.value.savedRegs.ip, args))
    {
      entered := None;
      if proc.None? || proc.value.owner != Some(t) {
        return Refused, None;
      }
      if !proc.value.threads {
        return PtraceError, None;
      }
      var ok := SetRegs(t, Regs(proc.value.savedRegs.ip, args));
      if !ok || !HasSyscall(inferior, inferior.regs.ip) {
        return PtraceError, None;
      }
      entered := Some(inferior.regs);
      inferior := inferior.(regs := Regs(inferior.regs.ip + SYSCALL_SIZE, result), memory := memory);
      clean := clean.(memory := Unpatched(memory, proc.value));
      outcome := Done;
    }

    method EnterWrapped(t: ThreadId) returns (outcome: Outcome)
      modifies this`inferior, this`proc, this`wrapper
      ensures (Value(), outcome) == StepEnter(old(Value()), t)
    {
      if proc.Some? {
        var p := proc.value;
        proc := None;
        outcome := if p.owner == Some(t) && p.threads && inferior.tracer == Some(t) then Done else PtraceError;
        var _ := Deinit(t, p);
        wrapper := Some(Wrapper(p.owner, true));
      } else {
        var seized := Seize(t);
        if !seized {
          return PtraceError;
        }
        wrapper := Some(Wrapper(Some(t), false));
        outcome := Done;
      }
    }

    method LeaveWrapped(t: ThreadId) returns (outcome: Outcome)
      modifies this`inferior, this`proc, this`wrapper
      ensures (Value(), outcome) == StepLeave(old(Value()), t)
    {
      if wrapper.None? {
        return Refused;
      }
      var w := wrapper.value;
      wrapper := None;
      if !w.wasAttached {
        var ok := Detach(t);
        return if ok then Done else PtraceError;
      }
      var r := Init(t, w.owner);
      if r.Err? {
        var _ := Detach(t);
        return PtraceError;
      }
      if proc.Some? {
        // `attach_to` refuses, and the injector is dropped.
        WriteBack(old(inferior).memory, old(inferior).regs.ip, SYSCALL_TEXT);
        var _ := Deinit(t, r.value);
        var _ := Detach(t);
        return PtraceError;
      }
      proc := Some(r.value);
      outcome := Done;
    }
  }
}
