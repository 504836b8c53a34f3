/** The start-up and shut-down handshake between the host and the driver in the guest kernel, as
    an interleaving of four parties: the main thread of `attach`, the thread that serves the
    devices, the thread that watches the guest driver, and the work item in the guest.  They
    share two status words in guest memory; the host side also shares the mutex of the
    notifier.  Every access to a word is one step, and every access by the host may fail. */
module Handshake {
  import opened Wrappers

  const MAX_DEVICES := 3
  const MAX_RETRIES := 20

  datatype DeviceState = Undefined | Initializing | Ready | Terminating | Error

  datatype Holder = Nobody | ByMain | ByHandler

  /** The answer of `terminate`. */
  datatype Answer = Done | Unexpected | AccessFailed

  datatype Main = Starting | StartFailed | WaitReady | Receiving | Joining | Joined | Writing | Polling
                | Terminated(answer: Answer)

  datatype Handler = NotStarted | Idle | Notifying(value: DeviceState) | Exited

  /** How the watching thread ended. */
  datatype Outcome = SawReady | SawError | SawTerminating | Stopped | CheckFailed

  datatype Watcher = Watching | Watched(outcome: Outcome)

  datatype Guest = Queued | Wait(retries: nat) | TimedOut | Claim | Recheck | Register(next: nat) | Announce
                 | Serve | Release(slot: nat) | Abort(index: nat) | Finished

  /** What only the guest writes: its status word, the platform devices it has registered, and
      its program counter. */
  datatype Work = Work(driver: DeviceState, devices: seq<bool>, guest: Guest)

  datatype State = State(
    device: DeviceState,
    work: Work,
    // The mutex of the notifier, the value it guards, and whether the notifier is dropped.
    holder: Holder,
    state: DeviceState,
    dropped: bool,
    // Whether the write of `notify` failed after the guarded value was set.
    lost: bool,
    stop: bool,
    main: Main,
    handler: Handler,
    watcher: Watcher,
    // Whether the devices are served through `ioregionfd`, where `start` itself notifies the guest
    // before it spawns the threads.
    ioregion: bool
  )

  datatype Action =
    | Start(ok: bool) | WakeUp | Receive | Join | LockTerminate | WriteTerminate(ok: bool) | Poll(ok: bool)
    | Drop(ok: bool) | Abandon
    | Notify(value: DeviceState) | WriteNotify(ok: bool) | Exit
    | Check(ok: bool)
    | GuestStep(ok: bool, skip: bool)

  predicate Initial(s: State) {
    s == State(Initializing, Work(Undefined, seq(MAX_DEVICES, i => false), Queued), Nobody, Initializing, false, false,
               false, Starting, NotStarted, Watching, s.ioregion)
  }

  predicate Enabled(s: State, a: Action) {
    match a
    case Start(_) => s.main == Starting
    case WakeUp => s.main == WaitReady && s.holder == Nobody && s.state != Initializing
    case Receive => s.main == Receiving
    case Join => s.main == Joining && s.watcher.Watched?
    case LockTerminate => s.main == Joined && s.holder == Nobody
    case WriteTerminate(_) => s.main == Writing
    case Poll(_) => s.main == Polling
    case Drop(_) =>
      && (s.main.Terminated? || s.main == StartFailed) && (s.handler == NotStarted || s.handler == Exited)
      && s.holder == Nobody && !s.dropped
    case Abandon =>
      s.ioregion && s.main == WaitReady && s.handler == Idle && s.holder == Nobody && s.state != Initializing
    case Notify(v) => s.handler == Idle && s.holder == Nobody && (v == Ready || v == Error)
    case WriteNotify(_) => s.handler.Notifying?
    case Exit => s.handler == Idle
    case Check(_) => s.watcher == Watching
    case GuestStep(_, _) => s.work.guest != Finished && |s.work.devices| == MAX_DEVICES
  }

  function Step(s: State, a: Action): State
    requires Enabled(s, a)
  {
    if a.GuestStep? then s.(work := GuestMoves(s.device, s.work, a.ok, a.skip))
    else if a.Check? then WatcherMoves(s, a.ok)
    else if a.Notify? || a.WriteNotify? || a.Exit? then HandlerMoves(s, a)
    else MainMoves(s, a)
  }

  /** `attach` from the spawning of the watcher on, with `start`, `wait`, `terminate` and the
      drop of the notifier. */
  function MainMoves(s: State, a: Action): State
    requires Enabled(s, a)
  {
    match a
    case Start(ok) => if ok then s.(main := WaitReady, handler := Idle) else s.(main := StartFailed)
    case WakeUp => s.(main := Receiving)
    case Receive => s.(main := Joining, stop := true)
    case Join => s.(main := Joined)
    case LockTerminate =>
      if s.state == Initializing then s.(main := Terminated(Unexpected))
      else s.(main := Writing, holder := ByMain, state := Terminating)
    case WriteTerminate(ok) =>
      if ok then s.(main := Polling, device := Terminating)
      else s.(main := Terminated(AccessFailed), holder := Nobody)
    case Poll(ok) =>
      if !ok then s.(main := Terminated(AccessFailed), holder := Nobody)
      else if s.work.driver == Ready then s
      else if s.work.driver == Terminating then s.(main := Terminated(Done), holder := Nobody)
      else s.(main := Terminated(Unexpected), holder := Nobody)
    case Abandon => s.(main := StartFailed, handler := Exited)
    case Drop(ok) =>
      s.(dropped := true, device := if s.state == Initializing && ok then Error else s.device)
    case _ => s
  }

  /** `notify`, which the thread that serves the devices calls with `Ready` or `Error`. */
  function HandlerMoves(s: State, a: Action): State
    requires Enabled(s, a)
  {
    match a
    case Notify(v) =>
      if s.state == Initializing then s.(holder := ByHandler, state := v, handler := Notifying(v)) else s
    case WriteNotify(ok) =>
      if ok then s.(device := s.handler.value, holder := Nobody, handler := Idle)
      else s.(lost := true, holder := Nobody, handler := Idle)
    case Exit => s.(handler := Exited)
    case _ => s
  }

  /** One round of `stage1_thread`. */
  function WatcherMoves(s: State, ok: bool): State {
    if !ok then s.(watcher := Watched(CheckFailed))
    else match s.work.driver {
      case Ready => s.(watcher := Watched(SawReady))
      case Error => s.(watcher := Watched(SawError))
      case Terminating => s.(watcher := Watched(SawTerminating))
      case _ => if s.stop then s.(watcher := Watched(Stopped)) else s
    }
  }

  /** `spawn_stage2`: `ok` decides whether the next operation of `run_stage2` succeeds and `skip`
      whether the next device has no address. */
  function GuestMoves(device: DeviceState, w: Work, ok: bool, skip: bool): Work
    requires |w.devices| == MAX_DEVICES
  {
    match w.guest
    case Queued => w.(guest := if device == Undefined then Finished else Wait(0))
    case Wait(r) =>
      w.(guest := if device != Initializing then Claim else if r + 1 == MAX_RETRIES then TimedOut else Wait(r + 1))
    case TimedOut => w.(driver := Error, guest := Finished)
    case Claim => w.(driver := Initializing, guest := Recheck)
    case Recheck => w.(guest := if device == Error then Finished else Register(0))
    case Register(i) =>
      if !ok then w.(guest := Abort(0))
      else if i >= MAX_DEVICES then w.(guest := Announce)
      else if skip then w.(guest := Register(i + 1))
      else w.(devices := w.devices[i := true], guest := Register(i + 1))
    case Announce => w.(driver := Ready, guest := Serve)
    case Serve => w.(guest := if device == Ready then Serve else Release(0))
    case Release(i) =>
      if i < MAX_DEVICES then w.(devices := w.devices[i := false], guest := Release(i + 1))
      else w.(driver := Terminating, guest := Finished)
    case Abort(i) =>
      if i < MAX_DEVICES then w.(devices := w.devices[i := false], guest := Abort(i + 1))
      else w.(driver := Error, guest := Finished)
    case Finished => w
  }

  ghost predicate Next(s: State, t: State) {
    exists a :: Enabled(s, a) && t == Step(s, a)
  }

  ghost predicate Run(r: seq<State>) {
    && |r| > 0 && Initial(r[0])
    && forall i | 0 < i < |r| :: Next(r[i - 1], r[i])
  }

  predicate Released(devices: seq<bool>) {
    forall i | 0 <= i < |devices| :: !devices[i]
  }

  predicate Past(main: Main) {
    main == Joined || main == Writing || main == Polling || main.Terminated?
  }

  /** The mutex: who holds it, and in which phases the guarded value is set. */
  predicate LockInv(holder: Holder, state: DeviceState, main: Main, handler: Handler, dropped: bool) {
    && (holder == ByMain <==> main == Writing || main == Polling)
    && (holder == ByHandler <==> handler.Notifying?)
    && state != Undefined
    && (handler.Notifying? ==> handler.value == state && (state == Ready || state == Error))
    && (main == Starting ==> handler == NotStarted && state == Initializing)
    && (main == StartFailed ==> if handler == NotStarted then state == Initializing
                                else handler == Exited && (state == Ready || state == Error))
    && (dropped ==> (main.Terminated? || main == StartFailed) && (handler == NotStarted || handler == Exited))
    && (state == Terminating <==> main == Writing || main == Polling || main.Terminated?)
    && (main == Receiving || main == Joining || Past(main) ==> state != Initializing)
  }

  /** How the word of the host relates to the guarded value. */
  predicate WordInv(device: DeviceState, state: DeviceState, main: Main, handler: Handler, dropped: bool,
                    lost: bool) {
    && device != Undefined
    && (handler.Notifying? ==> device == Initializing && !lost)
    && (main == Polling || main == Terminated(Done) ==> device == Terminating)
    && (state == Initializing ==> !lost && (device == Initializing || (dropped && device == Error)))
    && (state == Ready || state == Error ==>
          device == state || (device == Initializing && (lost || handler.Notifying?)))
    && (state == Terminating && device == Initializing ==> lost)
    && (lost ==> device == Initializing || device == Terminating)
    && (device == Terminating ==> state == Terminating)
  }

  /** What the guest may rely on at each point, and what its own word says. */
  predicate GuestInv(device: DeviceState, w: Work) {
    var Work(driver, devices, guest) := w;
    && |devices| == MAX_DEVICES
    && match guest {
         case Queued | Wait(_) | TimedOut => driver == Undefined && Released(devices)
         case Claim => driver == Undefined && Released(devices) && device != Initializing
         case Recheck => driver == Initializing && Released(devices) && device != Initializing
         case Register(i) => driver == Initializing && (device == Ready || device == Terminating) && i <= MAX_DEVICES
         case Announce => driver == Initializing && (device == Ready || device == Terminating)
         case Serve => driver == Ready && (device == Ready || device == Terminating)
         case Release(i) =>
           && driver == Ready && device == Terminating
           && i <= MAX_DEVICES && Released(devices[..i])
         case Abort(i) => driver == Initializing && i <= MAX_DEVICES && Released(devices[..i])
         case Finished => Released(devices) && driver != Ready && (driver == Terminating ==> device == Terminating)
       }
  }

  /** What the watcher may still see, and what it has seen. */
  predicate WatcherInv(stop: bool, main: Main, watcher: Watcher, driver: DeviceState) {
    && (stop <==> main == Joining || Past(main))
    && (Past(main) ==> watcher.Watched?)
    && (watcher.Watched? ==> watcher.outcome != SawTerminating)
    && (watcher == Watched(SawReady) ==> driver == Ready || driver == Terminating)
    && (watcher == Watched(Stopped) ==> stop)
    && (main == Terminated(Done) ==> driver == Terminating)
    && (main == Terminated(Unexpected) ==> watcher != Watched(SawReady))
  }

  predicate Inv(s: State) {
    && LockInv(s.holder, s.state, s.main, s.handler, s.dropped)
    && WordInv(s.device, s.state, s.main, s.handler, s.dropped, s.lost)
    && GuestInv(s.device, s.work)
    && WatcherInv(s.stop, s.main, s.watcher, s.work.driver)
  }

  lemma InitialInv(s: State)
    requires Initial(s)
    ensures Inv(s)
  {
  }

  /** What a terminating driver implies about the other parties. */
  lemma DriverTerminating(s: State)
    requires Inv(s) && s.work.driver == Terminating
    ensures s.device == Terminating && s.work.guest == Finished && Released(s.work.devices) && s.watcher.Watched?
  {
  }

  /** A change of the word of the host that the guest tolerates at every point. */
  lemma GuestTolerates(device: DeviceState, device': DeviceState, w: Work)
    requires GuestInv(device, w)
    requires device == device' || device' == Terminating || (device == Initializing && device' != Undefined)
    ensures GuestInv(device', w)
  {
  }

  lemma MainKeeps(s: State, a: Action)
    requires Inv(s) && Enabled(s, a) && !a.GuestStep? && !a.Check? && !a.Notify? && !a.WriteNotify? && !a.Exit?
    ensures Inv(Step(s, a))
  {
    hide GuestInv;
    var t := MainMoves(s, a);
    GuestTolerates(s.device, t.device, s.work);
  }

  lemma HandlerKeeps(s: State, a: Action)
    requires Inv(s) && Enabled(s, a) && (a.Notify? || a.WriteNotify? || a.Exit?)
    ensures Inv(Step(s, a))
  {
    hide GuestInv, WatcherInv;
    var t := HandlerMoves(s, a);
    GuestTolerates(s.device, t.device, s.work);
  }

  lemma WatcherKeeps(s: State, a: Action)
    requires Inv(s) && Enabled(s, a) && a.Check?
    ensures Inv(Step(s, a))
  {
    hide GuestInv, LockInv, WordInv;
    if s.work.driver == Terminating {
      DriverTerminating(s);
    }
  }

  lemma DeviceDefined(s: State)
    requires Inv(s)
    ensures s.device != Undefined
  {
    hide GuestInv, LockInv, WatcherInv;
  }

  lemma ReleasedUpTo(devices: seq<bool>, i: nat)
    requires i < |devices| && Released(devices[..i])
    ensures Released(devices[i := false][..i + 1])
  {
  }

  /** The guest keeps its own invariant, and its word leaves `Ready` only for `Terminating`. */
  lemma GuestMovesKeep(device: DeviceState, w: Work, ok: bool, skip: bool)
    requires GuestInv(device, w) && device != Undefined && w.guest != Finished
    ensures var v := GuestMoves(device, w, ok, skip);
            && GuestInv(device, v)
            && (w.driver == Ready ==> v.driver == Ready || v.driver == Terminating)
            && w.driver != Terminating
  {
    match w.guest
    case Release(i) =>
      if i < MAX_DEVICES { ReleasedUpTo(w.devices, i); } else { assert w.devices[..i] == w.devices; }
    case Abort(i) =>
      if i < MAX_DEVICES { ReleasedUpTo(w.devices, i); } else { assert w.devices[..i] == w.devices; }
    case _ =>
  }

  lemma GuestKeeps(s: State, a: Action)
    requires Inv(s) && Enabled(s, a) && a.GuestStep?
    ensures Inv(Step(s, a))
  {
    DeviceDefined(s);
    GuestMovesKeep(s.device, s.work, a.ok, a.skip);
    hide GuestInv, LockInv, WordInv, GuestMoves;
  }

  lemma StepKeeps(s: State, a: Action)
    requires Inv(s) && Enabled(s, a)
    ensures Inv(Step(s, a))
  {
    hide Inv, Step, Enabled;
    if a.GuestStep? {
      GuestKeeps(s, a);
    } else if a.Check? {
      WatcherKeeps(s, a);
    } else if a.Notify? || a.WriteNotify? || a.Exit? {
      HandlerKeeps(s, a);
    } else {
      MainKeeps(s, a);
    }
  }

  /** Every reachable state satisfies the invariant. */
  lemma {:induction false} RunInv(r: seq<State>, i: nat)
    requires Run(r) && i < |r|
    ensures Inv(r[i])
  {
    hide Inv, Step, Enabled;
    if i == 0 {
      InitialInv(r[0]);
    } else {
      RunInv(r, i - 1);
      assert Next(r[i - 1], r[i]);
      var a :| Enabled(r[i - 1], a) && r[i] == Step(r[i - 1], a);
      StepKeeps(r[i - 1], a);
    }
  }

  /** How far the device has got: ready and failed are the two ways to be initialized. */
  function Rank(d: DeviceState): nat {
    match d
    case Undefined => 0
    case Initializing => 1
    case Ready | Error => 2
    case Terminating => 3
  }

  /** How a step may change the word of the host: not at all, by `notify` or by the drop of the
      notifier from `Initializing` on, or by `terminate`. */
  predicate WordMoves(device: DeviceState, device': DeviceState, lost: bool, lost': bool) {
    && device != Undefined && (Rank(device) == 2 ==> !lost)
    && if device' == device then lost' == lost || device == Initializing
       else if device' == Terminating then lost' == lost && (device == Initializing ==> lost)
       else device == Initializing && (device' == Ready || device' == Error) && !lost'
  }

  lemma MainMovesWord(s: State, a: Action)
    requires LockInv(s.holder, s.state, s.main, s.handler, s.dropped)
    requires WordInv(s.device, s.state, s.main, s.handler, s.dropped, s.lost) && Enabled(s, a)
    ensures var t := MainMoves(s, a); WordMoves(s.device, t.device, s.lost, t.lost)
  {
  }

  lemma HandlerMovesWord(s: State, a: Action)
    requires LockInv(s.holder, s.state, s.main, s.handler, s.dropped)
    requires WordInv(s.device, s.state, s.main, s.handler, s.dropped, s.lost) && Enabled(s, a)
    ensures var t := HandlerMoves(s, a); WordMoves(s.device, t.device, s.lost, t.lost)
  {
  }

  lemma NobodyMovesWord(s: State)
    requires WordInv(s.device, s.state, s.main, s.handler, s.dropped, s.lost)
    ensures WordMoves(s.device, s.device, s.lost, s.lost)
  {
  }

  lemma StepMovesWord(s: State, a: Action)
    requires Inv(s) && Enabled(s, a)
    ensures var t := Step(s, a); WordMoves(s.device, t.device, s.lost, t.lost)
  {
    hide GuestInv, WatcherInv, LockInv, WordInv, WordMoves, MainMoves, HandlerMoves, GuestMoves, Enabled;
    MainMovesWord(s, a);
    HandlerMovesWord(s, a);
    NobodyMovesWord(s);
  }

  lemma DeviceMovesUp(s: State, a: Action)
    requires Inv(s) && Enabled(s, a)
    ensures var t := Step(s, a); s.device == t.device || Rank(s.device) < Rank(t.device)
  {
    hide Inv, Step, Enabled;
    StepMovesWord(s, a);
  }

  /** In every interleaving the device word only moves up, from `Initializing` over at most one
      of `Ready` and `Error` to `Terminating`. */
  lemma {:induction false} DeviceOrder(r: seq<State>, i: nat, j: nat)
    requires Run(r) && i <= j < |r|
    ensures r[i].device == r[j].device || Rank(r[i].device) < Rank(r[j].device)
    decreases j
  {
    hide Inv, Step, Enabled, Rank;
    if i < j {
      DeviceOrder(r, i, j - 1);
      RunInv(r, j - 1);
      assert Next(r[j - 1], r[j]);
      var a :| Enabled(r[j - 1], a) && r[j] == Step(r[j - 1], a);
      DeviceMovesUp(r[j - 1], a);
    }
  }

  ghost predicate Announced(r: seq<State>) {
    exists i :: 0 <= i < |r| && Rank(r[i].device) == 2
  }

  lemma AnnouncedStep(s: State, a: Action)
    requires Inv(s) && Enabled(s, a)
    ensures var t := Step(s, a);
            && (Rank(s.device) == 1 && Rank(t.device) == 2 ==> !t.lost)
            && (Rank(s.device) == 1 && Rank(t.device) == 3 ==> t.lost)
            && (Rank(s.device) >= 2 ==> s.lost == t.lost && Rank(t.device) >= 2)
            && Rank(t.device) >= 1
            && (Rank(s.device) == 2 ==> !s.lost)
  {
    hide Inv, Step, Enabled;
    StepMovesWord(s, a);
  }

  /** The word passes through `Ready` or `Error` before `Terminating` exactly if the write of
      `notify` reached the guest. */
  lemma {:induction false} AnnouncedExactly(r: seq<State>)
    requires Run(r) && r[|r| - 1].device != Initializing
    ensures Announced(r) <==> !r[|r| - 1].lost
  {
    hide Inv, Step, Enabled;
    var n := |r| - 1;
    assert n > 0;
    RunInv(r, n - 1);
    assert Next(r[n - 1], r[n]);
    var a :| Enabled(r[n - 1], a) && r[n] == Step(r[n - 1], a);
    AnnouncedStep(r[n - 1], a);
    RunInv(r, n);
    var p := r[..n];
    if r[n - 1].device == Initializing {
      forall i | 0 <= i < n ensures r[i].device == Initializing {
        DeviceOrder(r, i, n - 1);
        RunInv(r, i);
        DeviceDefined(r[i]);
      }
    } else {
      assert Run(p);
      AnnouncedExactly(p);
      DeviceOrder(r, n - 1, n);
      DeviceDefined(r[n - 1]);
      assert forall i | 0 <= i < n :: p[i].device == r[i].device;
      assert Rank(r[n].device) == 2 ==> Rank(p[n - 1].device) == 2;
    }
  }

  /** A terminating driver has seen the device terminate and has given up all its devices. */
  lemma TerminatingDriver(r: seq<State>, i: nat)
    requires Run(r) && i < |r| && r[i].work.driver == Terminating
    ensures r[i].device == Terminating && Released(r[i].work.devices)
  {
    hide Inv, Run;
    RunInv(r, i);
    DriverTerminating(r[i]);
  }

  /** The watching thread never sees the driver terminate: when it could, it has been joined. */
  lemma WatcherNeverSeesTerminating(r: seq<State>, i: nat)
    requires Run(r) && i < |r|
    ensures r[i].watcher == Watching ==> r[i].work.driver != Terminating
    ensures r[i].watcher != Watched(SawTerminating)
  {
    hide Run, GuestInv, LockInv, WordInv;
    RunInv(r, i);
    if r[i].work.driver == Terminating {
      DriverTerminating(r[i]);
    }
  }

  /** If `terminate` succeeds, the guest has given up all its devices, for good. */
  lemma {:induction false} TerminateReleases(r: seq<State>, i: nat, j: nat)
    requires Run(r) && i <= j < |r| && r[i].main == Terminated(Done)
    ensures r[j].work.driver == Terminating && r[j].work.guest == Finished && Released(r[j].work.devices)
    ensures r[j].main == Terminated(Done)
    decreases j
  {
    hide GuestInv, LockInv, WordInv, Run;
    if i < j {
      TerminateReleases(r, i, j - 1);
      TerminatedStays(r, j);
    }
    RunInv(r, j);
    DriverTerminating(r[j]);
  }

  lemma TerminatedStays(r: seq<State>, j: nat)
    requires Run(r) && 0 < j < |r| && r[j - 1].main.Terminated?
    ensures r[j].main == r[j - 1].main
  {
    hide Step, Enabled;
    assert Next(r[j - 1], r[j]);
    var a :| Enabled(r[j - 1], a) && r[j] == Step(r[j - 1], a);
    TerminatedStep(r[j - 1], a);
  }

  lemma TerminatedStep(s: State, a: Action)
    requires Enabled(s, a) && s.main.Terminated?
    ensures Step(s, a).main == s.main
  {
    hide GuestMoves;
  }

  /** `terminate` rejects the state of the driver only if the watcher was stopped or failed
      before it saw the driver ready: a driver that was once ready is still ready or has
      terminated whenever `terminate` looks. */
  lemma RejectsOnlyUnready(r: seq<State>, i: nat)
    requires Run(r) && i < |r| && r[i].watcher == Watched(SawReady)
    ensures r[i].work.driver == Ready || r[i].work.driver == Terminating
    ensures r[i].main != Terminated(Unexpected)
  {
    hide GuestInv, LockInv, WordInv, Run;
    RunInv(r, i);
  }

  /** A start that fails after `notify` leaves the word of the host at what was announced, for good:
      nobody terminates the device, and a guest that has become ready stays so. */
  lemma {:induction false} FailedStartStays(r: seq<State>, i: nat, j: nat)
    requires Run(r) && i <= j < |r| && r[i].main == StartFailed && r[i].handler == Exited
    ensures r[j].main == StartFailed && r[j].handler == Exited && r[j].device == r[i].device != Terminating
    ensures r[i].work.driver == Ready ==> r[j].work.driver == Ready
    decreases j
  {
    hide GuestInv, Run, Inv, Enabled, Step;
    RunInv(r, j);
    if i < j {
      FailedStartStays(r, i, j - 1);
      RunInv(r, j - 1);
      FailedStartStep(r, j);
    } else {
      FailedStartWord(r[i]);
    }
  }

  lemma FailedStartWord(s: State)
    requires Inv(s) && s.main == StartFailed
    ensures s.device != Terminating && s.work.driver != Terminating
  {
    if s.work.driver == Terminating {
      DriverTerminating(s);
    }
    hide GuestInv;
  }

  lemma FailedStartStep(r: seq<State>, j: nat)
    requires Run(r) && 0 < j < |r| && Inv(r[j - 1]) && Inv(r[j])
    requires r[j - 1].main == StartFailed && r[j - 1].handler == Exited
    ensures r[j].main == StartFailed && r[j].handler == Exited && r[j].device == r[j - 1].device
    ensures r[j - 1].work.driver == Ready ==> r[j].work.driver == Ready
  {
    var s := r[j - 1];
    FailedStartWord(s);
    assert Next(s, r[j]);
    var a :| Enabled(s, a) && r[j] == Step(s, a);
    if a.GuestStep? {
      GuestMovesKeep(s.device, s.work, a.ok, a.skip);
      FailedStartWord(r[j]);
      hide GuestInv, GuestMoves;
    } else {
      hide GuestInv, WatcherInv, GuestMoves;
    }
  }

  /** Such a start: the guest is told that the device is ready, and then a thread cannot be spawned. */
  lemma FailsAfterNotify(s: State) returns (r: seq<State>)
    requires Initial(s) && s.ioregion
    ensures Run(r) && |r| > 0 && r[0] == s
    ensures var t := r[|r| - 1]; t.main == StartFailed && t.dropped && t.device == Ready && t.work == s.work
  {
    hide Run;
    r := HostStarts(s);
    r := Then(r, Abandon);
    r := Then(r, Drop(true));
  }

  /** `terminate` never finds an uninitialized notifier: `start` has waited for it. */
  lemma TerminateIsInitialized(r: seq<State>, i: nat)
    requires Run(r) && i < |r| && r[i].main == Joined
    ensures r[i].state != Initializing
  {
    hide GuestInv, WatcherInv, WordInv, Run;
    RunInv(r, i);
  }

  /** The state after a sequence of actions, as long as all of them are enabled. */
  function Exec(s: State, actions: seq<Action>): Option<State>
    decreases |actions|
  {
    if actions == [] then Some(s)
    else if Enabled(s, actions[0]) then Exec(Step(s, actions[0]), actions[1..])
    else None
  }

  function GuestSteps(n: nat): seq<Action> {
    if n == 0 then [] else [GuestStep(true, false)] + GuestSteps(n - 1)
  }

  /** The steps a ready driver still needs once the device terminates. */
  function StepsLeft(guest: Guest): int {
    if guest.Release? then MAX_DEVICES + 1 - guest.slot else MAX_DEVICES + 2
  }

  /** A ready driver answers `terminate` by its own steps alone. */
  lemma {:induction false} GuestAnswers(s: State, n: nat)
    requires GuestInv(s.device, s.work) && s.work.driver == Ready && s.device == Terminating
    requires n == StepsLeft(s.work.guest)
    ensures var t := Exec(s, GuestSteps(n));
            t.Some? && t.value == s.(work := t.value.work) && t.value.work.driver == Terminating
    decreases n
  {
    var a := GuestStep(true, false);
    var t := Step(s, a);
    GuestMovesKeep(s.device, s.work, true, false);
    assert GuestSteps(n)[0] == a && GuestSteps(n)[1..] == GuestSteps(n - 1);
    assert Exec(s, GuestSteps(n)) == Exec(t, GuestSteps(n - 1));
    if n == 1 {
      assert GuestSteps(0) == [];
    } else {
      GuestAnswers(t, n - 1);
    }
  }

  /** A run, continued by one action. */
  lemma Then(r: seq<State>, a: Action) returns (r': seq<State>)
    requires Run(r) && Enabled(r[|r| - 1], a)
    ensures Run(r') && |r'| == |r| + 1 && r'[0] == r[0] && r'[|r| - 1] == r[|r| - 1] && r'[|r|] == Step(r[|r| - 1], a)
  {
    hide Enabled, Step, Initial;
    r' := r + [Step(r[|r| - 1], a)];
    assert Next(r[|r| - 1], r'[|r|]);
  }

  /** A rejected `terminate` promises nothing: here the host is stopped before the guest has
      started and gives up, and the guest registers a device afterwards. */
  lemma GuestOutlivesHost(s: State) returns (r: seq<State>)
    requires Initial(s)
    ensures Run(r) && |r| > 0 && r[0] == s
    ensures var t := r[|r| - 1];
            t.main == Terminated(Unexpected) && t.dropped && !Released(t.work.devices)
  {
    hide Run;
    r := HostGivesUp(s);
    r := Then(r, GuestStep(true, false));
    assert r[|r| - 1].work.guest == Wait(0);
    r := Then(r, GuestStep(true, false));
    assert r[|r| - 1].work.guest == Claim;
    r := Then(r, GuestStep(true, false));
    assert r[|r| - 1].work.guest == Recheck;
    r := Then(r, GuestStep(true, false));
    assert r[|r| - 1].work.guest == Register(0);
    r := Then(r, GuestStep(true, false));
    assert r[|r| - 1].work.devices[0];
  }

  /** The write of `notify` fails, so the device word goes from initializing to terminating. */
  lemma LostWriteSkipsReady(s: State) returns (r: seq<State>)
    requires Initial(s)
    ensures Run(r) && |r| > 1 && r[|r| - 2].device == Initializing && r[|r| - 1].device == Terminating
  {
    assert Run([s]);
    hide Run;
    r := Then([s], Start(true));
    r := Then(r, Notify(Ready));
    r := Then(r, WriteNotify(false));
    assert r[|r| - 1] == s.(state := Ready, lost := true, main := WaitReady, handler := Idle);
    r := SkipReady(r, s);
  }

  lemma SkipReady(r0: seq<State>, s: State) returns (r: seq<State>)
    requires Initial(s) && Run(r0) && |r0| > 0
    requires r0[|r0| - 1] == s.(state := Ready, lost := true, main := WaitReady, handler := Idle)
    ensures Run(r) && |r| > 1 && r[|r| - 2].device == Initializing && r[|r| - 1].device == Terminating
  {
    hide Run;
    r := JoinWatcher(r0, s);
    r := Then(r, LockTerminate);
    r := Then(r, WriteTerminate(true));
  }

  lemma JoinWatcher(r0: seq<State>, s: State) returns (r: seq<State>)
    requires Initial(s) && Run(r0) && |r0| > 0
    requires r0[|r0| - 1] == s.(state := Ready, lost := true, main := WaitReady, handler := Idle)
    ensures Run(r) && |r| > 1
    ensures r[|r| - 1] == s.(state := Ready, lost := true, main := Joined, handler := Idle, stop := true,
                             watcher := Watched(Stopped))
  {
    hide Run;
    r := Then(r0, WakeUp);
    r := Then(r, Receive);
    assert r[|r| - 1] == s.(state := Ready, lost := true, main := Joining, handler := Idle, stop := true);
    r := Then(r, Check(true));
    r := Then(r, Join);
  }

  lemma HostGivesUp(s: State) returns (r: seq<State>)
    requires Initial(s)
    ensures Run(r) && |r| > 0 && r[0] == s
    ensures var t := r[|r| - 1];
            && t.main == Terminated(Unexpected) && t.dropped && t.device == Terminating && t.work == s.work
  {
    hide Run;
    r := HostStops(s);
    r := Then(r, LockTerminate);
    r := Then(r, WriteTerminate(true));
    r := Then(r, Poll(true));
    assert r[|r| - 1] == s.(device := Terminating, state := Terminating, main := Terminated(Unexpected),
                            handler := Idle, stop := true, watcher := Watched(Stopped));
    r := Then(r, Exit);
    r := Then(r, Drop(true));
  }

  lemma HostStops(s: State) returns (r: seq<State>)
    requires Initial(s)
    ensures Run(r) && |r| > 0 && r[0] == s
    ensures r[|r| - 1] == s.(device := Ready, state := Ready, main := Joined, handler := Idle, stop := true,
                             watcher := Watched(Stopped))
  {
    hide Run;
    r := HostStarts(s);
    r := Then(r, WakeUp);
    r := Then(r, Receive);
    r := Then(r, Check(true));
    r := Then(r, Join);
  }

  lemma HostStarts(s: State) returns (r: seq<State>)
    requires Initial(s)
    ensures Run(r) && |r| > 0 && r[0] == s
    ensures r[|r| - 1] == s.(device := Ready, state := Ready, main := WaitReady, handler := Idle)
  {
    assert Run([s]);
    hide Run;
    r := Then([s], Start(true));
    r := Then(r, Notify(Ready));
    r := Then(r, WriteNotify(true));
  }
}
