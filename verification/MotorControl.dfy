// Control sessions: what the main loop starts and stops, and what the control
// interrupt does to them in between. Voltages and angles are left out; what the
// interrupt finds out about them comes with the tick.
module MotorControl {
  import opened Octets
  import Safety

  datatype Mode = Stopped | Calibration | Servo | Current | Mit

  // The five calibration objects. Spin and lock alignment share the first.
  datatype Kind = EncoderPhase | Bemf | Resistance | Inductance | Cogging

  // What PersistPending writes to flash.
  datatype Saved = EncoderSaved | BemfSaved | ResistanceSaved | InductanceSaved | CoggingSaved | CompensationSaved

  // `table` stands for the commutation table and its validity.
  datatype EncoderCalibration = EncoderCalibration(sign: real, offset: real, table: int)

  function Signed(c: EncoderCalibration): (r: EncoderCalibration)
    ensures r.sign == 1.0 || r.sign == -1.0
    ensures c.sign == 1.0 || c.sign == -1.0 ==> r == c
  {
    c.(sign := if c.sign >= 0.0 then 1.0 else -1.0)
  }

  class EncoderService {
    var calibration: EncoderCalibration
    var backup: Option<EncoderCalibration>

    ghost predicate Valid()
      reads this
    {
      Signed(calibration) == calibration && (backup.Some? ==> Signed(backup.value) == backup.value)
    }

    constructor ()
      ensures Valid() && backup == None
    {
      calibration, backup := EncoderCalibration(1.0, 0.0, 0), None;
    }

    method SetCalibration(c: EncoderCalibration)
      requires Valid()
      modifies this`calibration
      ensures Valid() && calibration == Signed(c)
    {
      calibration := Signed(c);
    }

    method BeginCalibration()
      requires Valid()
      modifies this
      ensures Valid() && backup == Some(old(calibration)) && calibration == EncoderCalibration(1.0, 0.0, 0)
    {
      backup := Some(calibration);
      SetCalibration(EncoderCalibration(1.0, 0.0, 0));
    }

    method RestoreCalibration()
      requires Valid()
      modifies this
      ensures Valid() && backup == None
      ensures calibration == if old(backup).Some? then old(backup).value else old(calibration)
    {
      if backup == None {
        return;
      }
      SetCalibration(backup.value);
      backup := None;
    }

    method ApplyCalibration(c: EncoderCalibration)
      requires Valid()
      modifies this
      ensures Valid() && backup == None && calibration == Signed(c)
    {
      SetCalibration(c);
      backup := None;
    }
  }

  // Everything the safety of a session depends on. `inForce` is the encoder
  // calibration no running session puts at stake; `samples` are the currents
  // and voltages protection has seen in this session; `erases` and `trips`
  // record, for every flash erase and for every interrupt that had to end a
  // session so far, whether the power stage was on then or after it.
  datatype Session = Session(mode: Mode, powered: bool, outputEnabled: bool, isrOn: bool,
                             servo: bool, mit: bool, foc: bool, dq: bool,
                             running: set<Kind>, dirty: set<Saved>, persisted: set<Saved>,
                             calibration: EncoderCalibration, backup: Option<EncoderCalibration>,
                             inForce: EncoderCalibration, erases: seq<bool>,
                             samples: seq<Safety.Input>, trips: seq<bool>)
  {
    // The controllers and calibration objects a mode has active, and no others.
    predicate Matched() {
      match mode
      case Stopped => running == {} && !servo && !mit && !foc && !dq
      case Servo => running == {} && servo && !mit && foc && !dq
      case Current => running == {} && !servo && !mit && foc && !dq
      case Mit => running == {} && !servo && mit && foc && !dq
      case Calibration =>
        || ((running == {EncoderPhase} || running == {Resistance}) && !servo && !mit && foc && !dq)
        || (running == {Inductance} && !servo && !mit && !foc && dq)
        || ((running == {Bemf} || running == {Cogging}) && servo && !mit && foc && !dq)
    }

    // A session in the encoder phase keeps what was in force aside; without
    // one, it is what the encoder uses.
    predicate Transacted() {
      if EncoderPhase in running then backup == Some(inForce) else backup == None && calibration == inForce
    }

    predicate NeverPowered() {
      && (forall i :: 0 <= i < |erases| ==> !erases[i])
      && (forall i :: 0 <= i < |trips| ==> !trips[i])
    }

    predicate Stoppable() {
      Transacted() && NeverPowered()
    }

    predicate Safe() {
      && Matched() && Transacted() && NeverPowered()
      && powered == outputEnabled == (mode != Stopped)
      && (mode != Stopped ==> isrOn)
    }
  }

  // What one control interrupt finds: whether a snapshot is being taken, the
  // sample, the state of the encoder and the servo, whether modulation worked,
  // and how a calibration stands.
  datatype Tick = Tick(capturing: bool, sample: Safety.Input, encoderValid: bool, faulted: bool, modulated: bool,
                       finished: bool, done: bool, result: EncoderCalibration, inRange: bool)

  // Protection trips on this sample.
  ghost predicate Trips(c: Safety.Config, s: Session, x: Tick)
  {
    Safety.Verdict(c, s.samples + [x.sample]) != Safety.NoTrip
  }

  // What else ends a session at once: a lost encoder in a session that follows
  // one, or a fault of the servo.
  predicate Lost(s: Session, x: Tick)
  {
    || (!x.encoderValid && (s.running == {} || Bemf in s.running || Cogging in s.running))
    || (x.faulted && s.servo)
  }

  ghost predicate Aborts(c: Safety.Config, s: Session, x: Tick)
  {
    s.mode != Stopped && (Trips(c, s, x) || Lost(s, x))
  }

  // Everything off, and what was in force back in use.
  function Off(s: Session): (t: Session)
  {
    s.(mode := Stopped, powered := false, outputEnabled := false, servo := false, mit := false, foc := false, dq := false,
       running := {}, calibration := s.inForce, backup := None)
  }

  // A session ended at once, the interrupt with it.
  function Aborted(s: Session): (t: Session)
  {
    Off(s).(isrOn := false, trips := s.trips + [false])
  }

  // A finished calibration: off, with its result installed if there is one.
  function Ended(s: Session, x: Tick): (t: Session)
  {
    var t := Off(s);
    if !x.done then t
    else if EncoderPhase in s.running then
      t.(calibration := Signed(x.result), inForce := Signed(x.result),
         dirty := s.dirty + {EncoderSaved}, persisted := s.persisted - {EncoderSaved})
    else if !x.inRange then t
    else t.(dirty := s.dirty + Results(s.running), persisted := s.persisted - Results(s.running))
  }

  function Results(running: set<Kind>): (r: set<Saved>)
  {
    set k | k in running :: ResultOf(k)
  }

  lemma ResultsOne(k: Kind)
    ensures Results({k}) == {ResultOf(k)}
  {
    assert k in {k};
  }

  // What an interrupt does that protection let pass.
  ghost predicate Carried(s: Session, x: Tick, t: Session)
  {
    t == if Lost(s, x) then Aborted(s) else if x.modulated && x.finished && s.running != {} then Ended(s, x) else s
  }

  // One control interrupt, from `s` to `t`.
  ghost predicate Stepped(c: Safety.Config, s: Session, x: Tick, t: Session)
  {
    if s.mode == Stopped then t == if x.capturing then s else s.(isrOn := false)
    else
      var seen := s.(samples := s.samples + [x.sample]);
      if Trips(c, s, x) then t == Aborted(seen) else Carried(seen, x, t)
  }

  // So every interrupt that has to end a session leaves the power stage off and
  // itself disabled.
  lemma AbortEnds(c: Safety.Config, s: Session, x: Tick, t: Session)
    requires Aborts(c, s, x) && Stepped(c, s, x, t)
    ensures t.mode == Stopped && !t.powered && !t.outputEnabled && !t.isrOn
    ensures t.calibration == t.inForce == s.inForce && t.dirty == s.dirty
  {
    hide Safety.Verdict;
  }

  lemma OnlyRunning(s: Session)
    requires s.Safe() && s.mode != Stopped
    ensures s.running == {} || exists k :: s.running == {k}
  {
  }

  lemma SteppedInterrupted(c: Safety.Config, s: Session, x: Tick, t: Session)
    requires s.Safe() && s.isrOn && Stepped(c, s, x, t)
    ensures Interrupted(s, t)
    ensures Aborts(c, s, x) ==> t.mode == Stopped && !t.powered && !t.isrOn
  {
    hide Safety.Verdict;
    if s.mode != Stopped {
      OnlyRunning(s);
    }
  }

  // What any number of control interrupts may do to the main loop's state.
  ghost predicate Interrupted(s: Session, t: Session)
  {
    && (t.mode == s.mode || t.mode == Stopped)
    && s.dirty <= t.dirty && t.erases == s.erases
    && (t.dirty != s.dirty ==> t.mode == Stopped)
    && (t.mode == s.mode ==> t == s.(isrOn := t.isrOn, samples := t.samples))
    && (s.mode == Stopped ==> t == s.(isrOn := t.isrOn)) && s.trips <= t.trips
    && (t.inForce != s.inForce ==> EncoderPhase in s.running && EncoderSaved in t.dirty)
    && (!s.isrOn ==> t == s)
  }

  lemma InterruptedTwice(s: Session, t: Session, u: Session)
    requires Interrupted(s, t) && Interrupted(t, u)
    ensures Interrupted(s, s)
    ensures Interrupted(s, u)
  {
    if s.mode != Stopped && t.mode == s.mode == u.mode {
      assert u == s.(isrOn := u.isrOn, samples := u.samples);
    }
  }

  function ResultOf(k: Kind): (r: Saved)
  {
    match k
    case EncoderPhase => EncoderSaved
    case Bemf => BemfSaved
    case Resistance => ResistanceSaved
    case Inductance => InductanceSaved
    case Cogging => CoggingSaved
  }

  // What is in force outlives a reload exactly when no record is stored, the
  // record says the same, or an encoder session will still decide.
  predicate Survives(inForce: EncoderCalibration, stored: Option<EncoderCalibration>, running: set<Kind>)
  {
    stored == None || Signed(stored.value) == inForce || EncoderPhase in running
  }

  class CalibrationManager {
    const encoder: EncoderService
    var running: set<Kind>
    var dirty: set<Saved>
    var persisted: set<Saved>
    ghost var inForce: EncoderCalibration

    ghost predicate Valid()
      reads this, encoder
    {
      encoder.Valid() && Signed(inForce) == inForce
    }

    constructor (encoder: EncoderService)
      requires encoder.Valid()
      ensures Valid() && this.encoder == encoder && running == {} && dirty == {} && inForce == encoder.calibration
    {
      this.encoder := encoder;
      running, dirty, persisted, inForce := {}, {}, {}, encoder.calibration;
    }

    method StartEncoderPhase()
      requires Valid() && encoder.calibration == inForce
      modifies this, encoder
      ensures Valid() && running == old(running) + {EncoderPhase} && encoder.backup == Some(inForce)
      ensures inForce == old(inForce) && dirty == old(dirty) && persisted == old(persisted) - {EncoderSaved}
    {
      encoder.BeginCalibration();
      persisted := persisted - {EncoderSaved};
      running := running + {EncoderPhase};
    }

    method Abort()
      requires Valid()
      modifies this`running, encoder
      ensures Valid() && running == {} && encoder.backup == None
      ensures encoder.calibration == if old(encoder.backup).Some? then old(encoder.backup).value else old(encoder.calibration)
    {
      running := {};
      encoder.RestoreCalibration();
    }

    // A session that ended well installs its result and owes it to flash.
    method ApplyEncoderResult(result: EncoderCalibration)
      requires Valid()
      modifies this, encoder
      ensures Valid() && encoder.calibration == inForce == Signed(result) && encoder.backup == None
      ensures dirty == old(dirty) + {EncoderSaved} && running == old(running)
      ensures persisted == old(persisted) - {EncoderSaved}
    {
      encoder.ApplyCalibration(result);
      inForce := encoder.calibration;
      dirty, persisted := dirty + {EncoderSaved}, persisted - {EncoderSaved};
    }

    // The other results: applied, and owed to flash, unless out of range.
    method ApplyResult(k: Kind, inRange: bool)
      requires Valid() && k != EncoderPhase
      modifies this`dirty, this`persisted
      ensures Valid() && dirty == old(dirty) + (if inRange then {ResultOf(k)} else {})
      ensures persisted == old(persisted) - (if inRange then {ResultOf(k)} else {})
    {
      if inRange {
        dirty, persisted := dirty + {ResultOf(k)}, persisted - {ResultOf(k)};
      }
    }

    method MarkCompensationDirty()
      requires Valid()
      modifies this`dirty, this`persisted
      ensures Valid() && dirty == old(dirty) + {CompensationSaved} && persisted == old(persisted) - {CompensationSaved}
    {
      dirty, persisted := dirty + {CompensationSaved}, persisted - {CompensationSaved};
    }

    // Reloading the stored record. In an encoder session the end of the
    // session still decides; outside one, the record is what is in force.
    method LoadPersistentConfig(stored: Option<EncoderCalibration>)
      requires Valid()
      modifies this`persisted, this`inForce, encoder
      ensures Valid() && encoder.backup == old(encoder.backup)
      ensures encoder.calibration == if stored.Some? then Signed(stored.value) else old(encoder.calibration)
      ensures inForce == if stored.Some? && EncoderPhase !in running then Signed(stored.value) else old(inForce)
      ensures inForce == old(inForce) <==> Survives(old(inForce), stored, running)
      ensures persisted == old(persisted) + (if stored.Some? then {EncoderSaved} else {})
    {
      if stored == None {
        return;
      }
      encoder.SetCalibration(stored.value);
      persisted := persisted + {EncoderSaved};
      if EncoderPhase !in running {
        inForce := encoder.calibration;
      }
    }
  }

  // What a start request finds: the readiness checks, the first step of the
  // current controller, and whether the rotor's angle is known.
  datatype Readiness = Readiness(ready: bool, primed: bool, aligned: bool)

  class MotorControlService {
    const calibration: CalibrationManager
    const safety: Safety.SafetyMonitor
    var mode: Mode
    var outputEnabled: bool
    // The gate driver is out of high impedance; the control interrupt is on.
    var powered: bool
    var isrOn: bool
    var servo: bool
    var mit: bool
    var foc: bool
    var dq: bool
    ghost var erases: seq<bool>
    ghost var trips: seq<bool>
    // The samples since protection was reset.
    ghost var samples: seq<Safety.Input>

    ghost function Repr(): set<object>
    {
      {this, calibration, calibration.encoder, safety}
    }

    ghost predicate Valid()
      reads Repr()
    {
      calibration.Valid() && safety.config.Ok() && (mode != Stopped ==> safety.Holds(samples))
    }

    ghost function View(): (s: Session)
      reads Repr()
    {
      Session(mode, powered, outputEnabled, isrOn, servo, mit, foc, dq,
              calibration.running, calibration.dirty, calibration.persisted,
              calibration.encoder.calibration, calibration.encoder.backup, calibration.inForce, erases, samples, trips)
    }

    ghost predicate Safe()
      reads Repr()
    {
      Valid() && View().Safe()
    }

    constructor (calibration: CalibrationManager, safety: Safety.SafetyMonitor)
      requires calibration.Valid() && calibration.running == {} && safety.config.Ok()
      requires calibration.encoder.backup == None && calibration.encoder.calibration == calibration.inForce
      ensures Safe() && mode == Stopped && this.calibration == calibration && this.safety == safety
    {
      this.calibration, this.safety := calibration, safety;
      mode, outputEnabled, powered, isrOn := Stopped, false, false, false;
      servo, mit, foc, dq, erases, samples, trips := false, false, false, false, [], [], [];
    }

    // Ends any session: everything off, the calibration in force back in use,
    // results already owed to flash untouched.
    method Stop()
      requires calibration.Valid() && safety.config.Ok() && View().Stoppable()
      modifies Repr()
      ensures Safe() && mode == Stopped && !isrOn
      ensures calibration.dirty == old(calibration.dirty) && calibration.inForce == old(calibration.inForce)
      ensures erases == old(erases) && calibration.persisted == old(calibration.persisted)
      ensures samples == old(samples) && trips == old(trips)
    {
      hide Safety.SafetyMonitor.Holds;
      isrOn := false;
      calibration.Abort();
      dq, servo, mit, foc := false, false, false, false;
      powered, outputEnabled, mode := false, false, Stopped;
    }

    // The interrupt's own way out of a finished calibration: it stays on.
    method StopFinishedSession()
      requires Valid() && calibration.running == {} && calibration.encoder.backup == None
      requires calibration.encoder.calibration == calibration.inForce
      requires View().NeverPowered()
      modifies this
      ensures Safe() && mode == Stopped && isrOn == old(isrOn) && erases == old(erases)
      ensures samples == old(samples) && trips == old(trips)
    {
      dq, servo, mit, foc := false, false, false, false;
      powered, outputEnabled, mode := false, false, Stopped;
    }

    // Whether the interrupt finds something to control.
    predicate ControlActive()
      reads this, calibration
    {
      || calibration.running != {}
      || (mode == Servo && servo) || (mode == Mit && mit && foc) || (mode == Current && foc)
    }

    // Ends a session that cannot go on.
    method Abort()
      requires calibration.Valid() && safety.config.Ok() && View().Safe() && mode != Stopped
      modifies Repr()
      ensures Safe() && View() == Aborted(old(View()))
    {
      Stop();
      trips := trips + [powered];
    }

    method ApplyProtection(sample: Safety.Input) returns (ok: bool)
      requires Safe() && mode != Stopped
      modifies Repr()
      ensures Safe() && ok == (Safety.Verdict(safety.config, old(samples) + [sample]) == Safety.NoTrip)
      ensures var seen := old(View()).(samples := old(samples) + [sample]); View() == if ok then seen else Aborted(seen)
    {
      hide Safety.Verdict, Safety.SafetyMonitor.Holds, Aborted;
      var trip := safety.Evaluate(sample, samples);
      samples := samples + [sample];
      ok := trip == Safety.NoTrip;
      if !ok {
        Abort();
      }
    }

    // One control interrupt.
    method StepIsr(x: Tick)
      requires Safe() && isrOn
      modifies Repr()
      ensures Safe() && Stepped(safety.config, old(View()), x, View())
    {
      hide Safety.Verdict;
      if !ControlActive() {
        if !x.capturing {
          isrOn := false;
        }
        return;
      }
      var ok := ApplyProtection(x.sample);
      if !ok {
        return;
      }
      if EncoderPhase in calibration.running {
        StepEncoderPhase(x);
      } else if Bemf in calibration.running || Cogging in calibration.running {
        StepSpinning(x);
      } else if Resistance in calibration.running || Inductance in calibration.running {
        StepIdentification(x);
      } else {
        StepControl(x);
      }
    }

    method StepEncoderPhase(x: Tick)
      requires Safe() && isrOn && EncoderPhase in calibration.running
      modifies Repr()
      ensures Safe() && Carried(old(View()), x, View())
    {
      if !x.modulated {
        return;
      }
      powered, outputEnabled := true, true;
      if x.finished {
        calibration.running := calibration.running - {EncoderPhase};
        assert calibration.running == {};
        if x.done {
          calibration.ApplyEncoderResult(x.result);
        } else {
          calibration.encoder.RestoreCalibration();
        }
        StopFinishedSession();
      }
    }

    method StepSpinning(x: Tick)
      requires Safe() && isrOn && (Bemf in calibration.running || Cogging in calibration.running)
      modifies Repr()
      ensures Safe() && Carried(old(View()), x, View())
    {
      var kind := if Bemf in calibration.running then Bemf else Cogging;
      if !x.encoderValid {
        Abort();
        return;
      }
      if x.faulted {
        Abort();
        return;
      }
      if !x.modulated {
        return;
      }
      powered, outputEnabled := true, true;
      if x.finished {
        EndIdentification(kind, x);
      }
    }

    method StepIdentification(x: Tick)
      requires Safe() && isrOn && (Resistance in calibration.running || Inductance in calibration.running)
      modifies Repr()
      ensures Safe() && Carried(old(View()), x, View())
    {
      var kind := if Resistance in calibration.running then Resistance else Inductance;
      if !x.modulated {
        return;
      }
      powered, outputEnabled := true, true;
      if x.finished {
        EndIdentification(kind, x);
      }
    }

    // A finished identification, its result owed to flash if it is in range.
    method EndIdentification(kind: Kind, x: Tick)
      requires Safe() && isrOn && calibration.running == {kind} && kind != EncoderPhase
      modifies Repr()
      ensures Safe() && View() == Ended(old(View()), x)
    {
      ResultsOne(kind);
      calibration.running := calibration.running - {kind};
      assert calibration.running == {};
      if x.done {
        calibration.ApplyResult(kind, x.inRange);
      }
      StopFinishedSession();
    }

    method StepControl(x: Tick)
      requires Safe() && isrOn && calibration.running == {} && mode != Stopped
      modifies Repr()
      ensures Safe() && Carried(old(View()), x, View())
    {
      if !x.encoderValid || (mode == Servo && x.faulted) {
        Abort();
        return;
      }
      if !x.modulated {
        return;
      }
      powered, outputEnabled := true, true;
    }

    // The control interrupts of a stretch of time, until they are disabled. An
    // interrupt that has to end the session is the last.
    method RunTicks(ticks: seq<Tick>) returns (ghost trail: seq<Session>)
      requires Safe()
      modifies Repr()
      ensures Safe() && 0 < |trail| <= |ticks| + 1 && trail[0] == old(View()) && trail[|trail| - 1] == View()
      ensures isrOn ==> |trail| == |ticks| + 1
      ensures forall i :: 0 <= i < |trail| - 1 ==>
        trail[i].Safe() && trail[i].isrOn && Stepped(safety.config, trail[i], ticks[i], trail[i + 1])
      ensures forall i :: 0 <= i < |trail| - 1 && Aborts(safety.config, trail[i], ticks[i]) ==>
        i == |trail| - 2 && mode == Stopped && !powered && !isrOn
      ensures Interrupted(old(View()), View())
    {
      hide Session.Safe, Stepped, Aborts, Interrupted;
      trail := [View()];
      InterruptedTwice(trail[0], trail[0], trail[0]);
      var n := 0;
      while n < |ticks| && isrOn
        invariant Safe() && n <= |ticks| && |trail| == n + 1 && trail[0] == old(View()) && trail[n] == View()
        invariant forall i :: 0 <= i < n ==>
          trail[i].Safe() && trail[i].isrOn && Stepped(safety.config, trail[i], ticks[i], trail[i + 1])
        invariant forall i :: 0 <= i < n && Aborts(safety.config, trail[i], ticks[i]) ==>
          i == n - 1 && mode == Stopped && !powered && !isrOn
        invariant Interrupted(trail[0], View())
      {
        ghost var before := View();
        StepIsr(ticks[n]);
        SteppedInterrupted(safety.config, before, ticks[n], View());
        InterruptedTwice(trail[0], before, View());
        trail := trail + [View()];
        n := n + 1;
      }
    }

    // Any number of control interrupts, whatever they find.
    method Interrupts()
      requires Safe()
      modifies Repr()
      ensures Safe() && Interrupted(old(View()), View())
    {
      var ticks: seq<Tick> := *;
      ghost var _ := RunTicks(ticks);
    }

    method PrimeFoc(primed: bool)
      modifies this`foc
      ensures foc == primed
    {
      foc := true;
      if !primed {
        foc := false;
      }
    }

    method PowerUp(m: Mode)
      requires calibration.Valid() && safety.config.Ok() && m != Stopped
      requires View().(mode := m).Matched() && View().Transacted() && View().NeverPowered()
      modifies this`powered, this`outputEnabled, this`mode, this`isrOn, this`samples, safety
      ensures Safe() && mode == m && samples == []
    {
      powered, outputEnabled, mode := true, true, m;
      safety.Reset();
      samples := [];
      isrOn := true;
    }

    // Replaces any session by one in mode `m`: all or nothing.
    method Begin(m: Mode, primed: bool) returns (ok: bool)
      requires Safe() && m in {Servo, Current, Mit}
      modifies Repr()
      ensures Safe() && Kept(old(View()), View()) && ok == primed && mode == (if ok then m else Stopped)
    {
      hide Safety.SafetyMonitor.Holds;
      ok := primed;
      Stop();
      servo, mit := m == Servo, m == Mit;
      PrimeFoc(primed);
      if !ok {
        servo, mit := false, false;
        return;
      }
      PowerUp(m);
    }

    // A start request for a mode: refused, refreshed in place, or begun anew.
    // `met` is the session it finds; interrupts may end it between the check
    // and its use.
    method Start(m: Mode, board: Readiness) returns (ok: bool, ghost met: Session)
      requires Safe() && m in {Servo, Current, Mit}
      modifies Repr()
      ensures Safe() && Kept(old(View()), View()) && Interrupted(old(View()), met)
      ensures ok == (board.ready && (met.mode == m || board.primed))
      ensures !board.ready ==> View() == met
      ensures board.ready && met.mode == m ==> Interrupted(met, View())
      ensures board.ready && met.mode != m ==> mode == if board.primed then m else Stopped
    {
      hide Session.Safe;
      ghost var start := View();
      Interrupts();
      met := View();
      InterruptedKept(start, met);
      if !board.ready {
        return false, met;
      }
      SafeActive(met);
      if mode == m && foc && (m == Servo ==> servo) && (m == Mit ==> mit) {
        Interrupts();
        InterruptedKept(met, View());
        KeptTwice(start, met, View());
        return true, met;
      }
      ok := Begin(m, board.primed);
      KeptTwice(start, met, View());
    }

    // A calibration request; None aborts.
    method StartCalibration(kind: Option<Kind>, board: Readiness) returns (ok: bool, ghost met: Session)
      requires Safe()
      modifies Repr()
      ensures Safe() && Kept(old(View()), View()) && Interrupted(old(View()), met)
      ensures ok == (kind == None || (board.ready && CanBegin(kind.value, board)))
      ensures ok ==> mode == if kind == None then Stopped else Calibration
      ensures ok && kind.Some? ==> calibration.running == {kind.value}
      ensures !ok ==> if board.ready then mode == Stopped else View() == met
    {
      hide Session.Safe;
      ghost var start := View();
      Interrupts();
      met := View();
      InterruptedKept(start, met);
      SafeStoppable(met);
      if kind == None {
        Stop();
        KeptTwice(start, met, View());
        return true, met;
      }
      if !board.ready {
        return false, met;
      }
      Stop();
      KeptTwice(start, met, View());
      ghost var stopped := View();
      match kind.value {
        case Resistance => ok := BeginFocOnly(Resistance, board);
        case Inductance => ok := BeginInductance(board);
        case EncoderPhase => ok := BeginEncoderPhase(board);
        case k => ok := BeginSpinning(k, board);
      }
      KeptTwice(start, stopped, View());
    }

    static predicate CanBegin(k: Kind, board: Readiness)
    {
      board.primed && (k in {Bemf, Cogging} ==> board.aligned)
    }

    method BeginFocOnly(k: Kind, board: Readiness) returns (ok: bool)
      requires Safe() && mode == Stopped && k == Resistance
      modifies Repr()
      ensures Safe() && Kept(old(View()), View()) && mode == (if ok then Calibration else Stopped)
      ensures ok == CanBegin(k, board) && (ok ==> calibration.running == {k})
    {
      ok := board.primed;
      calibration.running := calibration.running + {k};
      PrimeFoc(ok);
      if !ok {
        calibration.running := calibration.running - {k};
        return;
      }
      PowerUp(Calibration);
    }

    method BeginInductance(board: Readiness) returns (ok: bool)
      requires Safe() && mode == Stopped
      modifies Repr()
      ensures Safe() && Kept(old(View()), View()) && mode == (if ok then Calibration else Stopped)
      ensures ok == CanBegin(Inductance, board) && (ok ==> calibration.running == {Inductance})
    {
      calibration.running := calibration.running + {Inductance};
      dq := true;
      ok := board.primed;
      if !ok {
        dq := false;
        calibration.running := calibration.running - {Inductance};
        return;
      }
      PowerUp(Calibration);
    }

    method BeginSpinning(k: Kind, board: Readiness) returns (ok: bool)
      requires Safe() && mode == Stopped && k in {Bemf, Cogging}
      modifies Repr()
      ensures Safe() && Kept(old(View()), View()) && mode == (if ok then Calibration else Stopped)
      ensures ok == CanBegin(k, board) && (ok ==> calibration.running == {k})
    {
      if !board.aligned {
        return false;
      }
      ok := board.primed;
      calibration.running := calibration.running + {k};
      servo := true;
      PrimeFoc(ok);
      if !ok {
        servo := false;
        calibration.running := calibration.running - {k};
        return;
      }
      PowerUp(Calibration);
    }

    method BeginEncoderPhase(board: Readiness) returns (ok: bool)
      requires Safe() && mode == Stopped
      modifies Repr()
      ensures Safe() && Kept(old(View()), View()) && mode == (if ok then Calibration else Stopped)
      ensures ok == CanBegin(EncoderPhase, board) && (ok ==> calibration.running == {EncoderPhase})
      ensures calibration.inForce == old(calibration.inForce)
    {
      calibration.StartEncoderPhase();
      foc := true;
      ok := board.primed;
      if !ok {
        foc := false;
        calibration.running := calibration.running - {EncoderPhase};
        calibration.encoder.RestoreCalibration();
        return;
      }
      PowerUp(Calibration);
    }

    // Writes what is owed to flash, if anything is. Interrupts run until they
    // are switched off for the write. Whatever was finished by then is in the
    // record: no result is dropped.
    method PersistPending(saved: bool) returns (ghost written: set<Saved>)
      requires Safe() && (calibration.dirty != {} ==> mode == Stopped)
      modifies Repr()
      ensures Safe() && mode in {old(mode), Stopped}
      ensures old(calibration.dirty) <= written && calibration.dirty == {}
      ensures erases == if written == {} then old(erases) else old(erases) + [false]
      ensures calibration.inForce != old(calibration.inForce) ==> EncoderSaved in written
      ensures written != {} ==> if saved then written <= calibration.persisted else written !! calibration.persisted
    {
      hide Session.Safe;
      written := {};
      Interrupts();
      if calibration.dirty == {} {
        return;
      }
      var data := Collect();
      written := data;
      WriteRecord(data, saved);
    }

    // Copies the results owed, one kind after the other. No session is running
    // that an interrupt could still finish.
    static function Picked(dirty: set<Saved>, k: Saved): (data: set<Saved>)
    {
      if k in dirty then {k} else {}
    }

    static lemma AllPicked(dirty: set<Saved>)
      ensures Picked(dirty, EncoderSaved) + (Picked(dirty, BemfSaved) + Picked(dirty, ResistanceSaved))
        + (Picked(dirty, InductanceSaved) + Picked(dirty, CoggingSaved)) + Picked(dirty, CompensationSaved) == dirty
    {
      forall k | k in dirty
        ensures k in Picked(dirty, EncoderSaved) + (Picked(dirty, BemfSaved) + Picked(dirty, ResistanceSaved))
          + (Picked(dirty, InductanceSaved) + Picked(dirty, CoggingSaved)) + Picked(dirty, CompensationSaved)
      {
        match k
        case EncoderSaved => case BemfSaved => case ResistanceSaved =>
        case InductanceSaved => case CoggingSaved => case CompensationSaved =>
      }
    }

    method Collect() returns (data: set<Saved>)
      requires Safe() && mode == Stopped
      modifies Repr()
      ensures Safe() && data == calibration.dirty && View() == old(View()).(isrOn := isrOn)
    {
      hide Session.Safe, Picked;
      ghost var start := View();
      data := Picked(calibration.dirty, EncoderSaved);
      InterruptsStopped();
      data := data + Picked(calibration.dirty, BemfSaved) + Picked(calibration.dirty, ResistanceSaved);
      InterruptsStopped();
      data := data + Picked(calibration.dirty, InductanceSaved) + Picked(calibration.dirty, CoggingSaved);
      data := data + Picked(calibration.dirty, CompensationSaved);
      InterruptsStopped();
      AllPicked(start.dirty);
    }

    method InterruptsStopped()
      requires Safe() && mode == Stopped
      modifies Repr()
      ensures Safe() && mode == Stopped && View() == old(View()).(isrOn := isrOn)
    {
      hide Session.Safe;
      Interrupts();
    }

    // Saving the runtime configuration: its page is erased with the motor off.
    method SaveConfig()
      requires Safe()
      modifies Repr()
      ensures Safe() && mode == Stopped && erases == old(erases) + [false]
      ensures calibration.dirty == old(calibration.dirty) && calibration.inForce == old(calibration.inForce)
    {
      SafeStoppable(View());
      Stop();
      erases := erases + [powered];
    }

    // Reloading the stored calibration, at any time a frame asks for it;
    // `met` is what the reload finds once the interrupts before it are through.
    method ReloadCalibration(stored: Option<EncoderCalibration>) returns (ghost met: Session)
      requires Safe()
      modifies Repr()
      ensures Safe() && Interrupted(old(View()), met)
      ensures View() == met.(calibration := calibration.encoder.calibration, persisted := calibration.persisted,
                             inForce := calibration.inForce)
      ensures stored == None ==> View() == met
      ensures stored.Some? ==> calibration.encoder.calibration == Signed(stored.value)
      ensures calibration.persisted == met.persisted + (if stored.Some? then {EncoderSaved} else {})
      ensures calibration.inForce == met.inForce <==> Survives(met.inForce, stored, met.running)
      ensures calibration.inForce != met.inForce ==>
        calibration.inForce == calibration.encoder.calibration == Signed(stored.value)
    {
      hide Session.Safe, Interrupted, Safety.SafetyMonitor.Holds;
      Interrupts();
      met := View();
      calibration.LoadPersistentConfig(stored);
      ReloadSafe(met, View());
    }

    method Compensate()
      requires Safe()
      modifies Repr()
      ensures Safe() && mode in {old(mode), Stopped} && erases == old(erases)
      ensures CompensationSaved in calibration.dirty && old(calibration.dirty) <= calibration.dirty
    {
      Interrupts();
      calibration.MarkCompensationDirty();
    }

    method WriteRecord(data: set<Saved>, saved: bool)
      requires Safe() && mode == Stopped && data == calibration.dirty
      modifies Repr()
      ensures Safe() && mode == Stopped && calibration.dirty == {} && erases == old(erases) + [false]
      ensures calibration.inForce == old(calibration.inForce) && !isrOn
      ensures calibration.persisted == if saved then old(calibration.persisted) + data else old(calibration.persisted) - data
    {
      isrOn := false;
      erases := erases + [powered];
      calibration.persisted := if saved then calibration.persisted + data else calibration.persisted - data;
      calibration.dirty := {};
    }
  }

  // A configuration frame between the end of an encoder session and the next
  // write puts the stored calibration back in force: the result is gone, yet
  // owed to flash and reported as stored.
  method ReloadLosesResult(c: CalibrationManager, result: EncoderCalibration, stored: EncoderCalibration)
    requires c.Valid() && c.running == {} && Signed(result) != Signed(stored)
    modifies c, c.encoder
    ensures c.encoder.calibration == c.inForce == Signed(stored) != Signed(result)
    ensures EncoderSaved in c.dirty && EncoderSaved in c.persisted
  {
    c.ApplyEncoderResult(result);
    c.LoadPersistentConfig(Some(stored));
  }

  ghost predicate Kept(s: Session, t: Session)
  {
    s.dirty <= t.dirty && t.erases == s.erases && (t.inForce != s.inForce ==> EncoderSaved in t.dirty)
  }

  lemma KeptTwice(s: Session, t: Session, u: Session)
    ensures Kept(s, t) && Kept(t, u) ==> Kept(s, u)
  {
  }

  lemma InterruptedKept(s: Session, t: Session)
    requires Interrupted(s, t)
    ensures Kept(s, t)
  {
  }

  lemma ReloadSafe(s: Session, t: Session)
    requires s.Safe() && Signed(s.inForce) == s.inForce
    requires t == s.(calibration := t.calibration, persisted := t.persisted, inForce := t.inForce)
    requires EncoderPhase in s.running ==> t.inForce == s.inForce
    requires EncoderPhase !in s.running ==>
      t.inForce == t.calibration || (t.inForce == s.inForce && t.calibration == s.calibration)
    ensures t.Safe()
  {
  }

  // A running mode has its controllers active.
  lemma SafeActive(s: Session)
    requires s.Safe()
    ensures s.mode in {Servo, Current, Mit} ==> s.foc && (s.mode == Servo ==> s.servo) && (s.mode == Mit ==> s.mit)
  {
  }

  lemma SafeStoppable(s: Session)
    requires s.Safe()
    ensures s.Stoppable()
  {
  }
}
