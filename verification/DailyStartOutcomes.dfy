/** What a reconcile and the start it calls leave on record (src/main/daily-start-scheduler.ts:141-262). */
module DailyStartOutcomes {
  import opened Common
  import opened Calendar
  import opened LocalDate
  import opened DailyStart
  import opened DailyStartProtocol

  // ---------------------------------------------------------------- the predicted instant

  /** The minute of the day: rounded down, and within the day. */
  function MinuteOfDay(v: real): int { if v < 0.0 then 0 else if v >= 1439.0 then 1439 else v.Floor }

  /** The prediction of an enabled rule is the given minute of the first day that is today or later, not before the
      first day of the rule nor the pending day, and after the handled one; there is none only without a rule, without
      a minute, or past the year 9999. */
  lemma PredictionExactly(z: Zone, s: Settings, now: int)
    requires ClockInRange(z, now)
    ensures if !s.enabled || !s.minute.Finite? || !IsValid(s.first) then NextDailyStart(z, s, now) == 0
            else
              var from := Max(z.dayOf(now), Max(Day(s.first), if IsValid(s.pending) then Day(s.pending)
                                                              else Day(s.first)));
              var day := if IsValid(s.handled) && Day(s.handled) >= from then Day(s.handled) + 1 else from;
              NextDailyStart(z, s, now)
              == if CivilOf(day).year < 10000 then z.target(day, MinuteOfDay(s.minute.value)) else 0
  {
    hide CivilOf, Parse, DayNumber, Less, AddLocalDays, Today;
    TodayIsValid(z, now);
    var today := Today(z, now);
    if IsValid(s.first) {
      CandidateExactly(s, today);
      var c := Candidate(s, today);
    }
  }

  lemma CandidateExactly(s: Settings, today: string)
    requires IsValid(today) && IsValid(s.first)
    ensures var from := Max(Day(today), Max(Day(s.first), if IsValid(s.pending) then Day(s.pending) else Day(s.first)));
            var day := if IsValid(s.handled) && Day(s.handled) >= from then Day(s.handled) + 1 else from;
            && (IsValid(Candidate(s, today)) <==> CivilOf(day).year < 10000)
            && (IsValid(Candidate(s, today)) ==> Day(Candidate(s, today)) == day)
  {
    hide CivilOf, Parse, DayNumber, Less, AddLocalDays;
    EmptyIsInvalid();
    var pending, handled := s.pending, s.handled;
    OrderIsChronological(today, s.first);
    var fromFirst := if Less(today, s.first) then s.first else today;
    if IsValid(pending) { OrderIsChronological(fromFirst, pending); }
    var fromPending := if IsValid(pending) && Less(fromFirst, pending) then pending else fromFirst;
    ValidDaysAreEarly(fromPending);
    if IsValid(handled) {
      OrderIsChronological(handled, fromPending);
      AddOneDay(handled);
    }
  }

  lemma ValidDaysAreEarly(date: string)
    requires IsValid(date)
    ensures CivilOf(Day(date)).year < 10000
  {
    hide CivilOf, DayNumber;
    FormatParse(date);
    CivilRoundTrip(Parse(date).value);
  }

  // ---------------------------------------------------------------- the start has been called

  /** In every run, when the start returns or throws its call is marked so and no operation is left.  A start that
      returns is on record as today's: its date is handled, nothing is pending, and the outcome says so.  One that
      throws gives up its date, which may be tried again.  If the scheduler has been restarted or stopped since, the
      settings are left alone. */
  lemma StartIsRecorded(z: Zone, persisted: Settings, events: seq<Event>, threw: bool)
    requires AllInRange(z, events) && Run(z, Restarted(persisted), events).operation.Some?
    ensures var st := Run(z, Restarted(persisted), events);
            var op := st.operation.value;
            var t := Step(z, st, StartSettles(threw));
            && st.settings.pending == op.date && st.starts != []
            && t.operation == None && t.generation == st.generation && t.ticking == st.ticking
            && t.starts == st.starts[..|st.starts| - 1] + [StartRecord(op.date, if threw then Threw else Succeeded)]
            && t.settings.enabled == st.settings.enabled && t.settings.minute == st.settings.minute
            && t.settings.first == st.settings.first
            && (if op.generation != st.generation then t.settings == st.settings
                else
                  && t.settings.handled == (if threw then st.settings.handled else op.date)
                  && t.settings.pending == ""
                  && t.settings.outcome == if threw then StartFailed else Started)
  {
    hide Inv, Run;
    RestartedInv(persisted);
    RunKeepsInv(z, Restarted(persisted), events);
    LastStartIsTheOperation(Run(z, Restarted(persisted), events));
  }

  lemma LastStartIsTheOperation(st: State)
    requires Inv(st) && st.operation.Some?
    ensures st.settings.pending == st.operation.value.date && st.starts != []
    ensures st.starts[|st.starts| - 1] == StartRecord(st.operation.value.date, InFlight)
  {}

  // ---------------------------------------------------------------- a reconcile

  /** A date before today is still pending, and nothing later is on record. */
  predicate MissedOne(s: Settings, today: string) {
    && s.enabled && IsValid(s.first) && IsValid(s.pending) && IsValid(today) && Day(s.pending) < Day(today)
    && (IsValid(s.handled) ==> Day(s.handled) < Day(today))
  }

  /** The settings once a missed date has been put on record: the later of it and the handled date is handled. */
  ghost predicate MissedRecorded(s: Settings, t: Settings) {
    && IsValid(s.pending) && IsValid(t.handled) && t.pending == "" && t.outcome == Missed
    && t.enabled == s.enabled && t.minute == s.minute && t.first == s.first
    && t.handled == if IsValid(s.handled) && Day(s.handled) > Day(s.pending) then s.handled else s.pending
  }

  /** Before the predicted instant a reconcile only puts a missed date on record, if there is one. */
  lemma OnlyMissedIsRecorded(z: Zone, st: State, env: Env)
    requires ZoneOk(z) && ClockInRange(z, env.now) && !st.settings.minute.Infinite?
    requires NextDailyStart(z, st.settings, env.now) == 0 || NextDailyStart(z, st.settings, env.now) > env.now
    ensures var t := DoReconcile(z, st, env);
            && t == st.(settings := t.settings)
            && (if st.operation.None? && MissedOne(st.settings, Today(z, env.now))
                then MissedRecorded(st.settings, t.settings) else t.settings == st.settings)
  {
    hide Parse, DayNumber, Less, NextDailyStart, Today;
    TodayIsValid(z, env.now);
    PredictorAgrees(z, st.settings, env.now);
    MissedExactly(st.settings, Today(z, env.now));
  }

  lemma MissedExactly(s: Settings, today: string)
    requires IsValid(today)
    ensures s.enabled && IsValid(s.first) && !TooEarly(s, today) && AfterMissed(s, today) != s ==> MissedOne(s, today)
    ensures MissedOne(s, today) ==> !TooEarly(s, today) && MissedRecorded(s, AfterMissed(s, today))
  {
    hide Parse, DayNumber, Less;
    EmptyIsInvalid();
    if IsValid(s.handled) { OrderIsChronological(s.handled, today); }
    if IsValid(s.pending) {
      OrderIsChronological(s.pending, today);
      OrderIsChronological(today, s.pending);
      if IsValid(s.handled) { OrderIsChronological(s.pending, s.handled); }
      LessThanEmpty(s.pending);
    }
  }

  /** What the gates leave to be decided. */
  lemma DueDayIsDispatched(z: Zone, st: State, env: Env)
    requires ClockInRange(z, env.now) && st.operation.None? && PassesTimeGates(z, st.settings, env.now)
    ensures var today := Today(z, env.now);
            var s := AfterMissed(st.settings, today);
            && DoReconcile(z, st, env) == Dispatch(z, st.(settings := s), today, env)
            && !Less(today, s.first) && s.handled != today && TargetReached(z, s, today, env.now)
            && (st.settings.pending == today ==> s == st.settings)
            && (st.settings.pending != today ==> s.pending != today)
            && s.enabled == st.settings.enabled && s.minute == st.settings.minute && s.first == st.settings.first
  {
    hide Parse, DayNumber, Less, Today, TooEarly;
    EmptyIsInvalid();
    TodayIsValid(z, env.now);
    LessIsStrict(Today(z, env.now));
  }

  /** Once the predicted instant has come, a reconcile settles the day: a start of today that has never been answered
      counts under the outcome it left; a running or paused session and an empty queue are put on record; a missing
      account leaves the day open; and otherwise the start is called. */
  lemma DueDayIsDecided(z: Zone, st: State, env: Env)
    requires ZoneOk(z) && ClockInRange(z, env.now) && !st.settings.minute.Infinite? && st.operation.None?
    requires 0 != NextDailyStart(z, st.settings, env.now) <= env.now
    ensures var today := Today(z, env.now);
            var s := st.settings;
            var t := DoReconcile(z, st, env);
            var calls := s.pending != today && !env.sessionActive && env.hasQueuedItems && env.canStart;
            && t.settings.enabled == s.enabled && t.settings.minute == s.minute && t.settings.first == s.first
            && t.generation == st.generation && t.ticking == st.ticking
            && t.operation == (if calls then Some(Operation(today, st.generation)) else None)
            && t.starts == st.starts + (if calls then [StartRecord(today, InFlight)] else [])
            && (if calls then t.settings.pending == today && t.settings.outcome == StartFailed
                else if s.pending != today && !env.sessionActive && env.hasQueuedItems then
                  t.settings.outcome == MissingAccount && t.settings.handled != today && t.settings.pending != today
                else
                  && t.settings.handled == today && t.settings.pending == ""
                  && t.settings.outcome == if s.pending == today
                                           then (if s.outcome == NoOutcome then StartFailed else s.outcome)
                                           else if env.sessionActive then AlreadyActive else EmptyQueue)
  {
    hide NextDailyStart, PassesTimeGates, Today, Less, TargetReached, AfterMissed, DoReconcile, IsValid;
    PredictorAgrees(z, st.settings, env.now);
    DueDayIsDispatched(z, st, env);
  }

  lemma LessIsStrict(date: string)
    requires IsValid(date)
    ensures !Less(date, date)
  {
    OrderIsChronological(date, date);
  }

  /** A handled day is over: until the next day no reconcile changes anything. */
  lemma HandledDayIsOver(z: Zone, st: State, env: Env)
    requires ClockInRange(z, env.now) && IsValid(st.settings.handled)
    requires z.dayOf(env.now) <= Day(st.settings.handled)
    ensures DoReconcile(z, st, env) == st
  {
    hide Parse, DayNumber, Less, Today;
    EmptyIsInvalid();
    TodayIsValid(z, env.now);
    OrderIsChronological(st.settings.handled, Today(z, env.now));
  }

  /** So from the instant on which the start of a day has returned, no later event of that day calls it again or changes
      the dates, whatever ticks, stops, restarts and crashes come. */
  lemma StartedDayIsOver(z: Zone, st: State, e: Event)
    requires InRange(z, e) && IsValid(st.settings.handled) && st.operation.None?
    requires e.Reconcile? || e.Begin? ==> z.dayOf(e.env.now) <= Day(st.settings.handled)
    ensures var t := Step(z, st, e);
            && t.starts == st.starts && t.operation == None
            && t.settings.handled == st.settings.handled && t.settings.pending == st.settings.pending
            && t.settings.outcome == st.settings.outcome
  {
    hide DoReconcile, Parse, DayNumber;
    if e.Reconcile? { HandledDayIsOver(z, st, e.env); }
    if e.Begin? { HandledDayIsOver(z, DoEnd(st), e.env); }
  }

  // ---------------------------------------------------------------- lifecycle

  /** Beginning makes the results of the operations before it void, reconciles at once, and ticks; ending makes them
      void and stops the ticking; a crash keeps the settings alone and leaves a start under way unanswered.  A change of
      the rule leaves the record of days alone. */
  lemma Lifecycle(z: Zone, st: State, env: Env)
    ensures var begun := Step(z, st, Begin(env));
            && begun.ticking && begun.generation == st.generation + 1
            && begun == DoReconcile(z, st.(generation := st.generation + 1, ticking := true), env)
    ensures Step(z, st, End) == st.(generation := st.generation + 1, ticking := false)
    ensures Inv(st) ==>
              var t := Step(z, st, Crash);
              && t.settings == st.settings && t.operation == None && !t.ticking && t.generation == 0
              && t.starts == if st.operation.None? then st.starts
                             else st.starts[..|st.starts| - 1] + [StartRecord(st.operation.value.date, Lost)]
    ensures forall enabled, minute, first ::
              var t := Step(z, st, SetRule(enabled, minute, first)).settings;
              && t.enabled == enabled && t.minute == minute && t.first == first
              && t.handled == st.settings.handled && t.pending == st.settings.pending
              && t.outcome == st.settings.outcome
  {
    hide AfterMissed, TooEarly, TargetReached, Less, IsValid, Today, OnePerDate, Covered;
  }
}
