// The application's main loop: lifecycle, command ingress, persistence and the
// command deadline around the control sessions.
module Application {
  import opened Octets
  import opened Clock
  import opened MotorControl

  datatype Lifecycle = Init | InitFailed | Run | DriverFault | EnterBootloader

  // What one received frame asks for.
  datatype Frame =
    | StartMode(m: Mode, board: Readiness)
    | Calibrate(kind: Option<Kind>, board: Readiness)
    | Halt
    | Compensation
    | ReloadConfig(stored: Option<EncoderCalibration>)
    | StoreConfig
    | Query
    | NotForUs
    | BootRequest

  // How many of the waiting frames one poll looks at: at most `room`, and none
  // behind a boot request.
  function Window(frames: seq<Frame>, room: nat): (n: nat)
    ensures n <= |frames| && n <= room
  {
    if frames == [] || room == 0 then 0
    else if frames[0] == BootRequest then 1
    else 1 + Window(frames[1..], room - 1)
  }

  const FRAMES_A_POLL: nat := 8

  function Seen(frames: seq<Frame>): (r: seq<Frame>)
  {
    frames[..Window(frames, FRAMES_A_POLL)]
  }

  // Some frame looked at is a command.
  predicate Heard(frames: seq<Frame>)
  {
    exists i :: 0 <= i < |Seen(frames)| && Seen(frames)[i] != NotForUs
  }

  // None of them asks anything of the motor.
  predicate Passive(frames: seq<Frame>)
  {
    forall i :: 0 <= i < |Seen(frames)| ==> Seen(frames)[i] in {Query, NotForUs, BootRequest}
  }

  lemma {:induction false} WindowFrom(frames: seq<Frame>, room: nat, i: nat)
    requires i <= room && i <= |frames| && forall j :: 0 <= j < i ==> frames[j] != BootRequest
    ensures Window(frames, room) == i + Window(frames[i..], room - i)
  {
    if i > 0 {
      WindowFrom(frames[1..], room - 1, i - 1);
      assert frames[1..][i - 1..] == frames[i..];
    } else {
      assert frames[0..] == frames;
    }
  }

  // The next frame is looked at; a boot request is the last one.
  lemma SeenNext(frames: seq<Frame>, i: nat)
    requires i < |frames| && i < FRAMES_A_POLL && BootRequest !in frames[..i]
    ensures frames[..i + 1] <= Seen(frames)
    ensures frames[i] == BootRequest ==> Heard(frames) && BootRequest in Seen(frames)
  {
    assert forall j :: 0 <= j < i ==> frames[j] == frames[..i][j];
    WindowFrom(frames, FRAMES_A_POLL, i);
    assert Seen(frames)[i] == frames[..i + 1][i] == frames[i];
  }

  lemma SeenAll(frames: seq<Frame>, i: nat)
    requires (i == FRAMES_A_POLL <= |frames| || i == |frames| <= FRAMES_A_POLL) && BootRequest !in frames[..i]
    ensures Seen(frames) == frames[..i] && BootRequest !in Seen(frames)
    ensures Heard(frames) <==> exists k :: 0 <= k < i && frames[k] != NotForUs
  {
    assert forall j :: 0 <= j < i ==> frames[j] == frames[..i][j];
    WindowFrom(frames, FRAMES_A_POLL, i);
    assert forall j :: 0 <= j < i ==> Seen(frames)[j] == frames[j];
  }

  lemma QuietIsPassive(frames: seq<Frame>)
    ensures BootRequest in Seen(frames) ==> Heard(frames)
    ensures !Heard(frames) ==> Passive(frames)
  {
  }

  // One turn of the main loop as its environment decides it: the frames that
  // wait, how initialization ends, whether the driver reports a fault or has
  // recovered, and whether a write of the calibration record succeeds.
  datatype Turn = Turn(frames: seq<Frame>, initialized: bool, faulted: bool, recovered: bool, saved: bool)

  function NextLifecycle(l: Lifecycle, turn: Turn): (r: Lifecycle)
  {
    match l
    case Init => if turn.initialized then Run else InitFailed
    case EnterBootloader => EnterBootloader
    case InitFailed => if BootRequest in Seen(turn.frames) then EnterBootloader else InitFailed
    case Run =>
      if turn.faulted then DriverFault else if BootRequest in Seen(turn.frames) then EnterBootloader else Run
    case DriverFault =>
      if BootRequest in Seen(turn.frames) then EnterBootloader else if turn.recovered then Run else DriverFault
  }

  function LifecycleAfter(l: Lifecycle, turns: seq<Turn>): (r: Lifecycle)
  {
    if turns == [] then l else NextLifecycle(LifecycleAfter(l, turns[..|turns| - 1]), turns[|turns| - 1])
  }

  // The failure states and the bootloader are left for the bootloader alone.
  lemma {:induction false} NoWayBack(l: Lifecycle, turns: seq<Turn>)
    ensures l == EnterBootloader ==> LifecycleAfter(l, turns) == EnterBootloader
    ensures l == InitFailed ==> LifecycleAfter(l, turns) in {InitFailed, EnterBootloader}
    ensures l != Init ==> LifecycleAfter(l, turns) != Init
  {
    hide Seen;
    if turns != [] {
      NoWayBack(l, turns[..|turns| - 1]);
    }
  }

  lemma QuietMotor(s: Session, t: Session)
    requires Interrupted(s, t)
    ensures t.mode == s.mode || t.mode == Stopped
    ensures t.erases == s.erases
  {
  }

  // What a frame does to the session `s` it finds. Control frames are refused
  // outside normal operation.
  ghost predicate Handled(s: Session, frame: Frame, allowed: bool, t: Session)
  {
    && s.erases <= t.erases && (!allowed && s.mode == Stopped ==> t.mode == Stopped)
    && match frame
       case StartMode(m, board) =>
         if !allowed || m !in {Servo, Current, Mit} then t == s
         else if !board.ready then Interrupted(s, t)
         else (s.mode != m ==> t.mode == if board.primed then m else Stopped) && (s.mode == m ==> t.mode in {m, Stopped})
       case Calibrate(kind, board) =>
         if !allowed then t == s
         else if kind == None then t.mode == Stopped
         else if !board.ready then Interrupted(s, t)
         else if MotorControlService.CanBegin(kind.value, board) then t.mode == Calibration && t.running == {kind.value}
         else t.mode == Stopped
       case Halt => t.mode == Stopped && !t.isrOn && t.dirty == s.dirty && t.erases == s.erases
       case Compensation =>
         if !allowed then t == s else CompensationSaved in t.dirty && t.mode in {s.mode, Stopped} && t.erases == s.erases
       case ReloadConfig(stored) =>
         && t.mode in {s.mode, Stopped} && t.erases == s.erases
         && (stored.Some? ==> t.calibration == Signed(stored.value) && EncoderSaved in t.persisted)
       case StoreConfig => t.mode == Stopped && t.erases == s.erases + [false] && t.dirty == s.dirty
       case _ => t == s
  }

  // What the first `i` frames leave.
  function After(s: Session, left: seq<Session>, i: nat): (t: Session)
    requires i <= |left|
  {
    if i == 0 then s else left[i - 1]
  }

  // The frames, one after the other; frame i finds the session `met[i]` and
  // leaves `left[i]`, and interrupts strike in between.
  ghost predicate Served(s: Session, frames: seq<Frame>, allowed: bool, met: seq<Session>, left: seq<Session>)
    requires |met| == |left| == |frames|
  {
    forall i :: 0 <= i < |frames| ==>
      Interrupted(After(s, left, i), met[i]) && Handled(met[i], frames[i], allowed, left[i])
  }

  predicate Drives(frame: Frame)
  {
    frame.StartMode? || frame.Calibrate?
  }

  // A stop is looked at, and no frame behind it asks for control.
  predicate Halts(frames: seq<Frame>)
  {
    exists i :: 0 <= i < |frames| && frames[i] == Halt && forall j :: i < j < |frames| ==> !Drives(frames[j])
  }

  lemma HandledQuiet(s: Session, frame: Frame, allowed: bool, t: Session)
    requires Handled(s, frame, allowed, t)
    ensures s.erases <= t.erases && (!allowed && s.mode == Stopped ==> t.mode == Stopped)
    ensures frame in {Query, NotForUs, BootRequest} ==> t == s
    ensures frame == Halt || (s.mode == Stopped && !Drives(frame)) ==> t.mode == Stopped
  {
    if Interrupted(s, t) {
      QuietMotor(s, t);
    }
    hide Interrupted;
  }

  // Such frames leave the motor stopped, whatever else they are.
  lemma HaltStops(s: Session, frames: seq<Frame>, allowed: bool, met: seq<Session>, left: seq<Session>)
    requires |met| == |left| == |frames| && Served(s, frames, allowed, met, left) && Halts(frames)
    ensures After(s, left, |left|).mode == Stopped
  {
    hide Interrupted, Handled;
    var i :| 0 <= i < |frames| && frames[i] == Halt && forall j :: i < j < |frames| ==> !Drives(frames[j]);
    HandledQuiet(met[i], Halt, allowed, left[i]);
    var n := i + 1;
    while n < |frames|
      invariant i < n <= |frames| && left[n - 1].mode == Stopped
    {
      QuietMotor(After(s, left, n), met[n]);
      HandledQuiet(met[n], frames[n], allowed, left[n]);
      n := n + 1;
    }
  }

  // Frames never take an erase back, drive nothing where control is refused,
  // and do nothing that interrupts could not if they ask for nothing.
  lemma ServedQuiet(s: Session, frames: seq<Frame>, allowed: bool, met: seq<Session>, left: seq<Session>)
    requires |met| == |left| == |frames| && Served(s, frames, allowed, met, left)
    ensures s.erases <= After(s, left, |left|).erases && (!allowed && s.mode == Stopped ==> After(s, left, |left|).mode == Stopped)
    ensures (forall i :: 0 <= i < |frames| ==> frames[i] in {Query, NotForUs, BootRequest}) ==>
      Interrupted(s, After(s, left, |left|))
  {
    hide Interrupted, Handled;
    InterruptedTwice(s, s, s);
    var n := 0;
    while n < |frames|
      invariant n <= |frames| && s.erases <= After(s, left, n).erases
      invariant !allowed && s.mode == Stopped ==> After(s, left, n).mode == Stopped
      invariant (forall i :: 0 <= i < n ==> frames[i] in {Query, NotForUs, BootRequest}) ==>
        Interrupted(s, After(s, left, n))
    {
      var before := After(s, left, n);
      QuietMotor(before, met[n]);
      HandledQuiet(met[n], frames[n], allowed, left[n]);
      if Interrupted(s, before) {
        InterruptedTwice(s, before, met[n]);
      }
      n := n + 1;
    }
  }

  lemma ServedEnds(s: Session, frames: seq<Frame>, allowed: bool, met: seq<Session>, left: seq<Session>)
    requires |met| == |left| == |Seen(frames)| && Served(s, Seen(frames), allowed, met, left)
    ensures var t := After(s, left, |left|);
      && s.erases <= t.erases && (!allowed && s.mode == Stopped ==> t.mode == Stopped)
      && (Halts(Seen(frames)) ==> t.mode == Stopped)
      && (!Heard(frames) ==> t.mode in {s.mode, Stopped})
  {
    hide Interrupted, Handled, Seen, Served, Halts, Heard;
    ServedQuiet(s, Seen(frames), allowed, met, left);
    if Halts(Seen(frames)) {
      HaltStops(s, Seen(frames), allowed, met, left);
    }
    if !Heard(frames) {
      QuietIsPassive(frames);
      QuietMotor(s, After(s, left, |left|));
    }
  }

  lemma NoneServed(s: Session, allowed: bool)
    ensures Served(s, [], allowed, [], [])
  {
  }

  lemma SeenBoot(frames: seq<Frame>, i: nat)
    requires i < |frames| && i < FRAMES_A_POLL && BootRequest !in frames[..i] && frames[i] == BootRequest
    ensures Seen(frames) == frames[..i + 1]
  {
    assert forall j :: 0 <= j < i ==> frames[j] == frames[..i][j];
    WindowFrom(frames, FRAMES_A_POLL, i);
  }

  // One more frame.
  lemma ServedMore(s: Session, frames: seq<Frame>, allowed: bool, met: seq<Session>, left: seq<Session>,
                   frame: Frame, m: Session, l: Session)
    requires |met| == |left| == |frames| && Served(s, frames, allowed, met, left)
    requires Interrupted(After(s, left, |left|), m) && Handled(m, frame, allowed, l)
    ensures Served(s, frames + [frame], allowed, met + [m], left + [l])
  {
    hide Interrupted, Handled;
    var frames', met', left' := frames + [frame], met + [m], left + [l];
    forall i | 0 <= i < |frames'|
      ensures Interrupted(After(s, left', i), met'[i]) && Handled(met'[i], frames'[i], allowed, left'[i])
    {
      if i < |frames| {
        assert After(s, left', i) == After(s, left, i);
      } else {
        assert After(s, left', i) == After(s, left, |left|);
      }
    }
  }

  class Application {
    const platform: Platform
    const motor: MotorControlService
    var lifecycle: Lifecycle
    var lastReceive: nat
    // When `lastReceive` was taken, in true time.
    ghost var stamp: int
    // Between a change of the lifecycle and the stop that goes with it.
    ghost var leaving: bool

    ghost function Repr(): set<object>
    {
      {this, platform} + motor.Repr()
    }

    ghost predicate Valid()
      reads Repr()
    {
      && platform !in motor.Repr() && this !in motor.Repr()
      && platform.Valid() && motor.Safe() && !leaving
      // Only a running application drives the motor.
      && (motor.mode != Stopped ==> lifecycle == Run && Stamped() && platform.read - stamp < TIMEOUT)
    }

    // What every interrupt finds: a driven motor belongs to a running
    // application, or to one that is about to stop it.
    ghost predicate Covered()
      reads this, motor
    {
      motor.mode != Stopped ==> lifecycle == Run || leaving
    }

    // The stamp still counts true time.
    ghost predicate Stamped()
      reads this, platform
    {
      && platform.started && stamp <= platform.read && platform.time - platform.read < TICKS
      && lastReceive == (stamp - platform.lag) % TWO32
    }

    constructor (platform: Platform, motor: MotorControlService)
      requires platform.Valid() && motor.Safe() && motor.mode == Stopped && platform !in motor.Repr()
      ensures Valid() && lifecycle == Init && this.platform == platform && this.motor == motor
    {
      this.platform, this.motor, lifecycle, lastReceive := platform, motor, Init, 0;
      stamp, leaving := 0, false;
    }

    method Handle(frame: Frame, controlAllowed: bool)
      requires motor.Safe()
      modifies motor.Repr()
      ensures motor.Safe() && Handled(old(motor.View()), frame, controlAllowed, motor.View())
    {
      hide Session.Safe, Interrupted;
      match frame {
        case StartMode(m, board) =>
          if controlAllowed && m in {Servo, Current, Mit} {
            var _, met := motor.Start(m, board);
            QuietMotor(old(motor.View()), met);
            if board.ready && met.mode == m {
              QuietMotor(met, motor.View());
            }
          }
        case Calibrate(kind, board) =>
          if controlAllowed {
            var _, met := motor.StartCalibration(kind, board);
            QuietMotor(old(motor.View()), met);
          }
        case Halt =>
          SafeStoppable(motor.View());
          motor.Stop();
        case Compensation =>
          if controlAllowed {
            motor.Compensate();
          }
        case ReloadConfig(stored) =>
          ghost var met := motor.ReloadCalibration(stored);
          QuietMotor(old(motor.View()), met);
        case StoreConfig => motor.SaveConfig();
        case _ =>
      }
    }

    // What may strike wherever the loop can be interrupted: the power stage is
    // on only in a running application, or in one about to stop it.
    method Interrupts()
      requires motor.Safe() && Covered() && this !in motor.Repr()
      modifies motor.Repr()
      ensures motor.Safe() && Covered() && Interrupted(old(motor.View()), motor.View())
      ensures motor.powered ==> lifecycle == Run || leaving
    {
      motor.Interrupts();
    }

    // One frame, with the interrupts that strike before it is looked at; `met`
    // is what it finds.
    method Next(frame: Frame, controlAllowed: bool) returns (ghost met: Session)
      requires motor.Safe() && Covered() && this !in motor.Repr() && (controlAllowed ==> lifecycle == Run)
      modifies motor.Repr()
      ensures motor.Safe() && Covered()
      ensures Interrupted(old(motor.View()), met) && Handled(met, frame, controlAllowed, motor.View())
    {
      hide Session.Safe, Interrupted, Handled;
      Interrupts();
      met := motor.View();
      QuietMotor(old(motor.View()), met);
      Handle(frame, controlAllowed);
      HandledQuiet(met, frame, controlAllowed, motor.View());
    }

    // Up to eight frames, ending at a boot request: each is handled in turn.
    method Poll(frames: seq<Frame>, controlAllowed: bool)
      returns (boot: bool, received: bool, ghost met: seq<Session>, ghost left: seq<Session>)
      requires motor.Safe() && Covered() && this !in motor.Repr() && (controlAllowed ==> lifecycle == Run)
      modifies motor.Repr()
      ensures motor.Safe() && Covered()
      ensures boot <==> BootRequest in Seen(frames)
      ensures received <==> Heard(frames)
      ensures |met| == |left| == |Seen(frames)| && Served(old(motor.View()), Seen(frames), controlAllowed, met, left)
      ensures motor.View() == After(old(motor.View()), left, |left|)
    {
      hide Session.Safe, Window, Interrupted, Seen, Heard, Handled, Served;
      boot, received, met, left := false, false, [], [];
      ghost var start := motor.View();
      NoneServed(start, controlAllowed);
      var i := 0;
      assert frames[..0] == [];
      while i < FRAMES_A_POLL && i < |frames|
        invariant i <= |frames| && i <= FRAMES_A_POLL && BootRequest !in frames[..i]
        invariant received <==> exists k :: 0 <= k < i && frames[k] != NotForUs
        invariant motor.Safe() && Covered() && motor.View() == After(start, left, |left|)
        invariant |met| == |left| == i && Served(start, frames[..i], controlAllowed, met, left)
      {
        SeenNext(frames, i);
        ghost var m := Next(frames[i], controlAllowed);
        ServedMore(start, frames[..i], controlAllowed, met, left, frames[i], m, motor.View());
        assert frames[..i + 1] == frames[..i] + [frames[i]];
        met, left := met + [m], left + [motor.View()];
        if frames[i] == BootRequest {
          SeenBoot(frames, i);
          return true, true, met, left;
        }
        received := received || frames[i] != NotForUs;
        i := i + 1;
      }
      SeenAll(frames, i);
    }

    // Time passes; while the motor is driven the loop is never slower than one
    // timer period.
    method Elapse(driven: bool)
      requires platform.Valid() && (driven ==> platform.time - platform.read < TICKS)
      modifies platform`time
      ensures platform.Valid() && (driven ==> platform.time - platform.read < TICKS)
      ensures platform.time >= old(platform.time)
    {
      var most: int := *;
      if most < 0 || (driven && most >= TICKS - (platform.time - platform.read)) {
        most := 0;
      }
      platform.Elapse(most);
    }

    method StopMotor()
      requires motor.Safe()
      modifies motor.Repr()
      ensures motor.Safe() && motor.mode == Stopped && motor.erases == old(motor.erases)
      ensures motor.calibration.dirty == old(motor.calibration.dirty)
    {
      SafeStoppable(motor.View());
      motor.Stop();
    }

    // The lifecycle changes first and the motor stops next; what strikes in
    // between may still find it driven, and nothing else does.
    method Leave(next: Lifecycle)
      requires Valid() && next != Run
      modifies {this} + motor.Repr()
      ensures Valid() && lifecycle == next && motor.mode == Stopped
      ensures stamp == old(stamp) && lastReceive == old(lastReceive) && motor.erases == old(motor.erases)
    {
      hide Session.Safe;
      lifecycle, leaving := next, true;
      Interrupts();
      StopMotor();
      leaving := false;
    }

    method Renew()
      requires platform.Valid()
      modifies platform, `lastReceive, `stamp
      ensures platform.Valid() && stamp == platform.time == platform.read == old(platform.time) && Stamped()
    {
      lastReceive := platform.MonotonicUs();
      stamp := platform.time;
    }

    // Frames arrive: the stamp is renewed exactly when one looked at is a
    // command, and a boot request leaves the operational state for good.
    method PollCommandIngress(frames: seq<Frame>, controlAllowed: bool)
      returns (ghost met: seq<Session>, ghost left: seq<Session>)
      requires Valid() && (controlAllowed <==> lifecycle == Run)
      modifies Repr()
      ensures Valid() && platform.time >= old(platform.time) && old(motor.erases) <= motor.erases
      ensures if Heard(frames) then stamp == platform.time && Stamped()
        else stamp == old(stamp) && lastReceive == old(lastReceive)
      ensures if BootRequest in Seen(frames) then lifecycle == EnterBootloader && motor.mode == Stopped
        else lifecycle == old(lifecycle)
      ensures !controlAllowed && old(motor.mode) == Stopped ==> motor.mode == Stopped
      ensures Halts(Seen(frames)) ==> motor.mode == Stopped
      ensures |met| == |left| == |Seen(frames)| && Served(old(motor.View()), Seen(frames), controlAllowed, met, left)
      ensures BootRequest !in Seen(frames) ==> motor.View() == After(old(motor.View()), left, |left|)
    {
      hide Session.Safe, Seen, Heard, Interrupted, Served, Halts, Handled, After, Passive;
      QuietIsPassive(frames);
      Elapse(motor.mode != Stopped);
      ghost var before := motor.View();
      var boot, received;
      boot, received, met, left := Poll(frames, controlAllowed);
      ServedEnds(before, frames, controlAllowed, met, left);
      if boot || received {
        Renew();
      }
      if boot {
        Leave(EnterBootloader);
      }
    }

    // The deadline: stops a driven motor exactly when half a second of true
    // time has gone by since the last frame, however often the counters wrapped.
    method EnforceCommandTimeout()
      requires Valid() && lifecycle == Run
      modifies Repr()
      ensures Valid() && lifecycle == Run
      ensures old(motor.mode) != Stopped && platform.time - stamp >= TIMEOUT ==> motor.mode == Stopped
      ensures platform.time - stamp < TIMEOUT ==> Interrupted(old(motor.View()), motor.View())
      ensures motor.mode in {old(motor.mode), Stopped}
      ensures stamp == old(stamp) && motor.erases == old(motor.erases)
      ensures platform.time == platform.read >= old(platform.time)
    {
      hide Session.Safe;
      Elapse(motor.mode != Stopped);
      ghost var active := motor.mode != Stopped;
      var now := platform.MonotonicUs();
      if active {
        SinceIsElapsed(stamp - platform.lag, platform.time - platform.lag);
      }
      Interrupts();
      if DeadlineExpired(motor.mode != Stopped, now, lastReceive) {
        StopMotor();
      }
    }

    method RunOperational(turn: Turn)
      requires Valid() && lifecycle == Run
      modifies Repr()
      ensures Valid() && lifecycle == NextLifecycle(Run, turn)
      ensures turn.faulted ==> motor.mode == Stopped && stamp == old(stamp)
      ensures !turn.faulted && old(motor.calibration.dirty) != {} ==> |motor.erases| > |old(motor.erases)|
      ensures !turn.faulted && Heard(turn.frames) ==> stamp >= old(platform.time)
      ensures !Heard(turn.frames) ==> stamp == old(stamp)
      ensures lifecycle == Run ==> platform.read >= old(platform.time)
      ensures !turn.faulted && Halts(Seen(turn.frames)) ==> motor.mode == Stopped
    {
      hide Session.Safe, Seen, Heard, Halts;
      Interrupts();
      if turn.faulted {
        Leave(DriverFault);
        return;
      }
      if motor.calibration.dirty != {} {
        StopMotor();
      }
      var _ := motor.PersistPending(turn.saved);
      ghost var _, _ := PollCommandIngress(turn.frames, true);
      if lifecycle != Run {
        return;
      }
      EnforceCommandTimeout();
    }

    // Neither failure state drives the motor, whatever the frames ask for.
    method RunInitializationFailure(turn: Turn)
      requires Valid() && lifecycle == InitFailed
      modifies Repr()
      ensures Valid() && lifecycle == NextLifecycle(InitFailed, turn) && motor.mode == Stopped
      ensures !Heard(turn.frames) ==> stamp == old(stamp)
    {
      hide Seen, Heard;
      StopMotor();
      ghost var _, _ := PollCommandIngress(turn.frames, false);
    }

    method RunDriverFault(turn: Turn)
      requires Valid() && lifecycle == DriverFault
      modifies Repr()
      ensures Valid() && lifecycle == NextLifecycle(DriverFault, turn) && motor.mode == Stopped
      ensures !Heard(turn.frames) ==> stamp == old(stamp)
    {
      hide Seen, Heard;
      StopMotor();
      ghost var _, _ := PollCommandIngress(turn.frames, false);
      if lifecycle == EnterBootloader {
        return;
      }
      if turn.recovered {
        lifecycle := Run;
      }
    }

    // One turn of the main loop, in any state.
    method Pass(turn: Turn)
      requires Valid()
      modifies Repr()
      ensures Valid() && lifecycle == NextLifecycle(old(lifecycle), turn)
      ensures old(lifecycle) != Init && !Heard(turn.frames) ==> stamp == old(stamp)
      ensures old(lifecycle) == Init ==>
        if turn.initialized then Stamped() && stamp == platform.time else stamp == old(stamp)
      // The clock the deadline is held to was read in this turn.
      ensures motor.mode != Stopped ==> platform.read >= old(platform.time)
      ensures Halts(Seen(turn.frames)) ==> motor.mode == Stopped
    {
      hide Heard, Seen, Halts;
      match lifecycle {
        case Init =>
          if turn.initialized {
            lastReceive := platform.MonotonicUs();
            stamp := platform.time;
          }
          lifecycle := if turn.initialized then Run else InitFailed;
        case InitFailed => RunInitializationFailure(turn);
        case Run => RunOperational(turn);
        case DriverFault => RunDriverFault(turn);
        case EnterBootloader => StopMotor();
      }
    }

    // The main loop: after every turn the power stage is on only while running
    // and recently commanded; every flash erase so far found it off, and every
    // interrupt that had to end a session left it off. With no command in any
    // turn, no motor is driven after a turn that began half a second later;
    // `began` is when the last one did.
    method Loop(turns: seq<Turn>) returns (ghost began: int)
      requires Valid()
      modifies Repr()
      ensures Valid() && (motor.powered ==> lifecycle == Run) && lifecycle == LifecycleAfter(old(lifecycle), turns)
      ensures forall i :: 0 <= i < |motor.erases| ==> !motor.erases[i]
      ensures forall i :: 0 <= i < |motor.trips| ==> !motor.trips[i]
      ensures motor.powered ==> platform.read >= began
      ensures old(lifecycle) != Init && (forall i :: 0 <= i < |turns| ==> !Heard(turns[i].frames)) ==>
        motor.powered ==> platform.read - old(stamp) < TIMEOUT
    {
      hide Heard, NextLifecycle;
      began := platform.read;
      for i := 0 to |turns|
        invariant Valid() && lifecycle == LifecycleAfter(old(lifecycle), turns[..i])
        invariant motor.mode != Stopped ==> platform.read >= began
        invariant old(lifecycle) != Init && (forall j :: 0 <= j < i ==> !Heard(turns[j].frames)) ==> stamp == old(stamp)
      {
        NoWayBack(old(lifecycle), turns[..i]);
        began := platform.time;
        Pass(turns[i]);
        assert turns[..i + 1][..i] == turns[..i];
      }
      assert turns[..|turns|] == turns;
    }
  }
}
