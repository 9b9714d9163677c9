/** The persisted handled/pending protocol of the daily start as a step system (src/main/daily-start-scheduler.ts:
    126-262).  A step is a stretch without `await`; `start()` may settle any number of steps later, or never. */
module DailyStartProtocol {
  import opened Common
  import opened Calendar
  import opened LocalDate
  import opened DailyStart

  /** What the controller reports at the moment of a reconcile. */
  datatype Env = Env(now: int, sessionActive: bool, hasQueuedItems: bool, canStart: bool)

  datatype StartStatus = InFlight | Succeeded | Threw | Lost

  datatype StartRecord = StartRecord(date: string, status: StartStatus)

  datatype Operation = Operation(date: string, generation: nat)

  /** `settings` is persisted.  `operation` is the reconcile that waits for `start()`.  `starts` is the history
      of calls of `start()`, kept across crashes. */
  datatype State = State(
    settings: Settings,
    operation: Option<Operation>,
    ticking: bool,
    generation: nat,
    starts: seq<StartRecord>)

  datatype Event =
    | Reconcile(env: Env)
    | StartSettles(threw: bool)
    | Begin(env: Env)
    | End
    | Crash
    | SetRule(enabled: bool, minute: Minute, first: string)

  function Finish(s: Settings, date: string, outcome: Outcome): Settings {
    s.(handled := date, pending := "", outcome := outcome)
  }

  function ReconcileOnce(z: Zone, st: State, env: Env): State {
    var today := Today(z, env.now);
    if !st.settings.enabled || !IsValid(st.settings.first) || TooEarly(st.settings, today) then st
    else
      Dispatch(z, st.(settings := AfterMissed(st.settings, today)), today, env)
  }

  /** The second half of the reconcile: the remaining gates, then what the session allows. */
  function Dispatch(z: Zone, st: State, today: string, env: Env): State {
    var s := st.settings;
    if Less(today, s.first) || s.handled == today || !TargetReached(z, s, today, env.now) then st
    else if s.pending == today then
      st.(settings := Finish(s, today, if s.outcome.NoOutcome? then StartFailed else s.outcome))
    else if env.sessionActive then st.(settings := Finish(s, today, AlreadyActive))
    else if !env.hasQueuedItems then st.(settings := Finish(s, today, EmptyQueue))
    else if !env.canStart then st.(settings := s.(outcome := MissingAccount))
    else
      st.(settings := s.(pending := today, outcome := StartFailed),
          operation := Some(Operation(today, st.generation)),
          starts := st.starts + [StartRecord(today, InFlight)])
  }

  /** Single flight: while an operation waits, every call gets that operation's promise. */
  function DoReconcile(z: Zone, st: State, env: Env): State {
    if st.operation.Some? then st else ReconcileOnce(z, st, env)
  }

  function Mark(starts: seq<StartRecord>, status: StartStatus): seq<StartRecord> {
    if starts == [] then [] else starts[|starts| - 1 := starts[|starts| - 1].(status := status)]
  }

  function DoSettles(st: State, threw: bool): State {
    if st.operation.None? then st
    else
      var op := st.operation.value;
      var marked := st.(operation := None, starts := Mark(st.starts, if threw then Threw else Succeeded));
      if op.generation != st.generation then marked
      else if threw then marked.(settings := st.settings.(pending := "", outcome := StartFailed))
      else marked.(settings := Finish(st.settings, op.date, Started))
  }

  function DoEnd(st: State): State { st.(generation := st.generation + 1, ticking := false) }

  function DoBegin(z: Zone, st: State, env: Env): State { DoReconcile(z, DoEnd(st), env).(ticking := true) }

  function DoCrash(st: State): State {
    st.(operation := None, ticking := false, generation := 0,
        starts := if st.operation.Some? then Mark(st.starts, Lost) else st.starts)
  }

  function Step(z: Zone, st: State, e: Event): State {
    match e
    case Reconcile(env) => DoReconcile(z, st, env)
    case StartSettles(threw) => DoSettles(st, threw)
    case Begin(env) => DoBegin(z, st, env)
    case End => DoEnd(st)
    case Crash => DoCrash(st)
    case SetRule(enabled, minute, first) =>
      st.(settings := st.settings.(enabled := enabled, minute := minute, first := first))
  }

  function Run(z: Zone, st: State, events: seq<Event>): State
    decreases |events|
  {
    if events == [] then st else Run(z, Step(z, st, events[0]), events[1..])
  }

  function Restarted(s: Settings): State { State(s, None, false, 0, []) }

  ghost predicate InRange(z: Zone, e: Event) {
    match e
    case Reconcile(env) => ClockInRange(z, env.now)
    case Begin(env) => ClockInRange(z, env.now)
    case _ => true
  }

  ghost predicate AllInRange(z: Zone, events: seq<Event>) {
    forall i :: 0 <= i < |events| ==> InRange(z, events[i])
  }

  // ---------------------------------------------------------------- the invariant

  /** A date on which a start can no longer happen. */
  predicate Covered(s: Settings, date: string) {
    IsValid(date) && (date == s.pending || (IsValid(s.handled) && Day(date) <= Day(s.handled)))
  }

  ghost predicate OnePerDate(starts: seq<StartRecord>) {
    forall i, j :: 0 <= i < j < |starts| && starts[i].date == starts[j].date ==>
      starts[i].status.Threw? || starts[j].status.Threw?
  }

  ghost predicate Inv(st: State) {
    && OnePerDate(st.starts)
    && (forall i :: 0 <= i < |st.starts| && !st.starts[i].status.Threw? ==> Covered(st.settings, st.starts[i].date))
    && (st.operation.Some? ==>
          && st.settings.pending == st.operation.value.date
          && IsValid(st.settings.pending)
          && (IsValid(st.settings.handled) ==> Day(st.settings.handled) < Day(st.settings.pending))
          && st.starts != [] && st.starts[|st.starts| - 1] == StartRecord(st.operation.value.date, InFlight))
  }

  /** What a step may do to the two persisted dates. */
  ghost predicate DatesMove(s: Settings, t: Settings) {
    && (IsValid(s.handled) ==> IsValid(t.handled) && Day(s.handled) <= Day(t.handled))
    && (IsValid(s.pending) ==> Covered(t, s.pending))
  }

  lemma MissedKeepsDates(s: Settings, today: string)
    requires IsValid(today) && !TooEarly(s, today)
    ensures DatesMove(s, AfterMissed(s, today))
    ensures forall d :: Covered(s, d) ==> Covered(AfterMissed(s, today), d)
    ensures var t := AfterMissed(s, today);
            && (IsValid(t.handled) ==> Day(t.handled) < Day(today))
            && (IsValid(t.pending) ==> t.pending == today)
  {
    hide Parse, DayNumber, Less;
    EmptyIsInvalid();
    if IsValid(s.handled) { OrderIsChronological(s.handled, today); }
    if IsValid(s.pending) {
      OrderIsChronological(s.pending, today);
      OrderIsChronological(today, s.pending);
      if IsValid(s.handled) { OrderIsChronological(s.pending, s.handled); }
      LessThanEmpty(s.pending);
    }
  }

  lemma LessThanEmpty(s: string)
    ensures !Less(s, "")
  {}

  lemma CoverageKeepsInv(st: State, s: Settings)
    requires Inv(st) && st.operation.None?
    requires forall d :: Covered(st.settings, d) ==> Covered(s, d)
    ensures Inv(st.(settings := s))
  {}

  /** Handling today covers everything that was covered before. */
  lemma FinishCovers(s: Settings, today: string, outcome: Outcome)
    requires IsValid(today) && (IsValid(s.handled) ==> Day(s.handled) < Day(today))
    requires IsValid(s.pending) ==> s.pending == today
    ensures forall d :: Covered(s, d) ==> Covered(Finish(s, today, outcome), d)
    ensures DatesMove(s, Finish(s, today, outcome))
  {
    hide Parse, DayNumber;
  }

  lemma StartKeepsInv(st: State, today: string)
    requires Inv(st) && st.operation.None? && IsValid(today)
    requires IsValid(st.settings.handled) ==> Day(st.settings.handled) < Day(today)
    requires IsValid(st.settings.pending) ==> st.settings.pending == today
    requires st.settings.pending != today
    ensures Inv(st.(settings := st.settings.(pending := today, outcome := StartFailed),
                    operation := Some(Operation(today, st.generation)),
                    starts := st.starts + [StartRecord(today, InFlight)]))
  {
    hide Parse, DayNumber;
  }

  lemma DatesMoveOn(s: Settings, t: Settings, u: Settings)
    requires DatesMove(s, t) && DatesMove(t, u)
    requires forall d :: Covered(t, d) ==> Covered(u, d)
    ensures DatesMove(s, u)
  {
    hide Parse, DayNumber;
  }

  lemma ReconcileKeepsInv(z: Zone, st: State, env: Env)
    requires Inv(st) && ClockInRange(z, env.now)
    ensures Inv(DoReconcile(z, st, env)) && DatesMove(st.settings, DoReconcile(z, st, env).settings)
  {
    hide Parse, DayNumber, Less, AfterMissed, TooEarly, TargetReached, Inv, DatesMove, Today;
    var today := Today(z, env.now);
    TodayIsValid(z, env.now);
    NothingMoves(st.settings);
    if st.operation.None? && st.settings.enabled && IsValid(st.settings.first) && !TooEarly(st.settings, today) {
      MissedKeepsDates(st.settings, today);
      var s := AfterMissed(st.settings, today);
      CoverageKeepsInv(st, s);
      var t := DoReconcile(z, st, env);
      if t.operation.Some? {
        StartKeepsInv(st.(settings := s), today);
        StartMoves(st.settings, s, today);
      } else if t.settings.handled == today && t.settings.handled != s.handled {
        assert t.settings == Finish(s, today, t.settings.outcome);
        FinishCovers(s, today, t.settings.outcome);
        DatesMoveOn(st.settings, s, t.settings);
        CoverageKeepsInv(st, t.settings);
      } else {
        OutcomeOnly(st, s, MissingAccount);
      }
    }
  }

  lemma NothingMoves(s: Settings)
    ensures DatesMove(s, s)
  {}

  lemma StartMoves(s: Settings, t: Settings, today: string)
    requires DatesMove(s, t) && IsValid(today) && (IsValid(t.handled) ==> Day(t.handled) < Day(today))
    requires IsValid(t.pending) ==> t.pending == today
    ensures DatesMove(s, t.(pending := today, outcome := StartFailed))
  {
    hide Parse, DayNumber;
  }

  lemma OutcomeOnly(st: State, s: Settings, outcome: Outcome)
    requires Inv(st.(settings := s)) && st.operation.None? && DatesMove(st.settings, s)
    ensures Inv(st.(settings := s.(outcome := outcome))) && DatesMove(st.settings, s.(outcome := outcome))
  {}

  lemma SettlesKeepsInv(st: State, threw: bool)
    requires Inv(st)
    ensures Inv(DoSettles(st, threw))
    ensures !threw || st.operation.None? || st.operation.value.generation != st.generation ==>
              DatesMove(st.settings, DoSettles(st, threw).settings)
    ensures IsValid(st.settings.handled) ==> DatesMove(st.settings.(pending := ""), DoSettles(st, threw).settings)
  {
    hide Parse, DayNumber;
    EmptyIsInvalid();
  }

  lemma StepKeepsInv(z: Zone, st: State, e: Event)
    requires Inv(st) && InRange(z, e)
    ensures Inv(Step(z, st, e))
  {
    hide ReconcileOnce, Parse, DayNumber;
    match e
    case Reconcile(env) => ReconcileKeepsInv(z, st, env);
    case StartSettles(threw) => SettlesKeepsInv(st, threw);
    case Begin(env) => ReconcileKeepsInv(z, DoEnd(st), env);
    case End =>
    case Crash =>
    case SetRule(enabled, minute, first) =>
  }

  lemma {:induction false} RunKeepsInv(z: Zone, st: State, events: seq<Event>)
    requires Inv(st) && AllInRange(z, events)
    ensures Inv(Run(z, st, events))
    decreases |events|
  {
    hide Step, Inv;
    if events != [] {
      StepKeepsInv(z, st, events[0]);
      RunKeepsInv(z, Step(z, st, events[0]), events[1..]);
    }
  }

  /** At most one start per local date that did not throw: over every run of ticks, begin and end, crashes and
      restarts from any persisted settings, changes of the rule, and clock moves in either direction. */
  lemma AtMostOneStartPerDate(z: Zone, persisted: Settings, events: seq<Event>)
    requires AllInRange(z, events)
    ensures OnePerDate(Run(z, Restarted(persisted), events).starts)
  {
    RunKeepsInv(z, Restarted(persisted), events);
  }

  /** The handled date never decreases, and a pending date is never dropped before it is handled, unless the very
      start it stands for threw. */
  lemma DatesAreKept(z: Zone, persisted: Settings, events: seq<Event>, e: Event)
    requires AllInRange(z, events + [e])
    ensures var st := Run(z, Restarted(persisted), events);
            var after := Step(z, st, e).settings;
            && (IsValid(st.settings.handled) ==>
                  IsValid(after.handled) && Day(st.settings.handled) <= Day(after.handled))
            && (IsValid(st.settings.pending) && !Covered(after, st.settings.pending) ==>
                  && e.StartSettles? && e.threw && st.operation.Some?
                  && st.operation.value == Operation(st.settings.pending, st.generation))
  {
    hide ReconcileOnce, Parse, DayNumber, Inv;
    RestartedInv(persisted);
    assert (events + [e])[|events|] == e && AllInRange(z, events) by {
      assert forall i :: 0 <= i < |events| ==> (events + [e])[i] == events[i];
    }
    RunKeepsInv(z, Restarted(persisted), events);
    var st := Run(z, Restarted(persisted), events);
    match e
    case Reconcile(env) => ReconcileKeepsInv(z, st, env);
    case StartSettles(threw) =>
      SettlesKeepsInv(st, threw);
      OperationIsPending(st);
    case Begin(env) =>
      EndKeepsInv(st);
      ReconcileKeepsInv(z, DoEnd(st), env);
    case _ =>
  }

  lemma RestartedInv(s: Settings)
    ensures Inv(Restarted(s))
  {}

  lemma EndKeepsInv(st: State)
    requires Inv(st)
    ensures Inv(DoEnd(st))
  {}

  lemma OperationIsPending(st: State)
    requires Inv(st)
    ensures st.operation.Some? ==> st.operation.value.date == st.settings.pending
  {}

  /** The promise behind the prediction: when the predicted instant has come and nothing else is in the way, the
      next tick calls `start()` for today. */
  lemma PredictedStartHappens(z: Zone, st: State, env: Env)
    requires ZoneOk(z) && ClockInRange(z, env.now) && !st.settings.minute.Infinite?
    requires NextDailyStart(z, st.settings, env.now) != 0 && NextDailyStart(z, st.settings, env.now) <= env.now
    requires st.operation.None? && !env.sessionActive && env.hasQueuedItems && env.canStart
    requires st.settings.pending != Today(z, env.now)
    ensures DoReconcile(z, st, env).starts == st.starts + [StartRecord(Today(z, env.now), InFlight)]
    ensures DoReconcile(z, st, env).settings.pending == Today(z, env.now)
  {
    hide Parse, DayNumber, Less, NextDailyStart, Today, TooEarly;
    EmptyIsInvalid();
    TodayIsValid(z, env.now);
    PredictorAgrees(z, st.settings, env.now);
  }
}
