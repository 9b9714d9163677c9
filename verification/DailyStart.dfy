/** The daily start (src/main/daily-start-scheduler.ts): the predictor shown to the user, the time gates of the
    reconciler, and the persisted handled/pending protocol. */
module DailyStart {
  import opened Common
  import opened Calendar
  import opened Numerals
  import opened LocalDate

  // ---------------------------------------------------------------- settings and local time

  datatype Minute = Finite(value: real) | NotANumber | Infinite(positive: bool)

  datatype Outcome = NoOutcome | Missed | AlreadyActive | EmptyQueue | MissingAccount | StartFailed | Started

  datatype Settings = Settings(
    enabled: bool,
    minute: Minute,
    first: string,
    handled: string,
    pending: string,
    outcome: Outcome)

  /** The local time zone: the day an instant falls on, and the instant of a minute of a day. */
  datatype Zone = Zone(dayOf: int -> int, target: (int, int) -> int)

  /** Every minute of a day lies on that day, and the local date never runs backwards. */
  ghost predicate ZoneOk(z: Zone) {
    && (forall d, m :: 0 <= m < 1440 ==> z.dayOf(z.target(d, m)) == d)
    && (forall s, t :: s <= t ==> z.dayOf(s) <= z.dayOf(t))
  }

  function Today(z: Zone, now: int): string {
    CivilOfIsValid(z.dayOf(now));
    Format(CivilOf(z.dayOf(now)))
  }

  ghost predicate ClockInRange(z: Zone, now: int) { 1000 <= CivilOf(z.dayOf(now)).year < 10000 }

  /** `Math.max(0, Math.min(1439, Math.floor(m)))`; not a number stays not a number. */
  function ClampMinute(m: Minute): (r: Option<int>)
    ensures r.Some? ==> 0 <= r.value < 1440
  {
    match m
    case Finite(v) => Some(if v.Floor < 0 then 0 else if v.Floor > 1439 then 1439 else v.Floor)
    case NotANumber => None
    case Infinite(positive) => Some(if positive then 1439 else 0)
  }

  /** `localTargetEpochMs`: 0 for an invalid date, None for not a number. */
  function LocalTarget(z: Zone, date: string, minute: Minute): Option<int> {
    if !IsValid(date) then Some(0)
    else
      var m := ClampMinute(minute);
      if m.None? then None else Some(z.target(Day(date), m.value))
  }

  function AddLocalDays(date: string, days: int): string {
    if !IsValid(date) then ""
    else
      var c := Parse(date).value;
      CivilOfIsValid(MakeDay(c.year, c.month - 1, c.day + days));
      Format(CivilOf(MakeDay(c.year, c.month - 1, c.day + days)))
  }

  // ---------------------------------------------------------------- predictor and reconciler

  function Known(date: string): string { if IsValid(date) then date else "" }

  function Candidate(s: Settings, today: string): string {
    var fromFirst := if Less(today, s.first) then s.first else today;
    var pending := Known(s.pending);
    var fromPending := if pending != "" && Less(fromFirst, pending) then pending else fromFirst;
    var handled := Known(s.handled);
    if handled != "" && !Less(handled, fromPending) then AddLocalDays(handled, 1) else fromPending
  }

  /** `nextDailyStartEpochMs`: 0 when no start is planned. */
  function NextDailyStart(z: Zone, s: Settings, now: int): int {
    if !s.enabled || !s.minute.Finite? then 0
    else if !IsValid(s.first) then 0
    else LocalTarget(z, Candidate(s, Today(z, now)), s.minute).value
  }

  /** A pending date in the past counts as missed and is handled now. */
  function AfterMissed(s: Settings, today: string): Settings {
    if IsValid(s.pending) && Less(s.pending, today)
    then s.(handled := if Less(s.pending, Known(s.handled)) then Known(s.handled) else s.pending,
            pending := "", outcome := Missed)
    else s
  }

  /** Nothing at all is decided on a date that is already handled or lies before the pending one. */
  predicate TooEarly(s: Settings, today: string) {
    || (Known(s.handled) != "" && !Less(Known(s.handled), today))
    || (Known(s.pending) != "" && Less(today, Known(s.pending)))
  }

  predicate TargetReached(z: Zone, s: Settings, today: string, now: int) {
    var target := LocalTarget(z, today, s.minute);
    target.Some? && target.value != 0 && target.value <= now
  }

  /** The reconciler gets past all its time gates. */
  predicate PassesTimeGates(z: Zone, s: Settings, now: int) {
    var today := Today(z, now);
    && s.enabled && IsValid(s.first)
    && !TooEarly(s, today)
    && !Less(today, s.first) && AfterMissed(s, today).handled != today
    && TargetReached(z, s, today, now)
  }

  // ---------------------------------------------------------------- they agree

  lemma TodayIsValid(z: Zone, now: int)
    requires ClockInRange(z, now)
    ensures IsValid(Today(z, now)) && Day(Today(z, now)) == z.dayOf(now)
  {
    hide CivilOf, Parse, DayNumber, Format;
    CivilOfIsValid(z.dayOf(now));
    ParseFormat(CivilOf(z.dayOf(now)));
    DayOfParse(Today(z, now), CivilOf(z.dayOf(now)));
  }

  lemma DayOfParse(s: string, c: Civil)
    requires Parse(s) == Some(c)
    ensures IsValid(s) && Day(s) == DayNumber(c)
  {}

  /** One day later is the immediate successor, across month ends and leap years; only 9999-12-31 has none. */
  lemma AddOneDay(date: string)
    requires IsValid(date)
    ensures IsValid(AddLocalDays(date, 1)) <==> CivilOf(Day(date) + 1).year < 10000
    ensures IsValid(AddLocalDays(date, 1)) ==> Day(AddLocalDays(date, 1)) == Day(date) + 1
  {
    hide CivilOf, Parse, Format, Valid;
    var c := Parse(date).value;
    FormatParse(date);
    var next := CivilOf(Day(date) + 1);
    CivilOfIsValid(Day(date) + 1);
    NextDayNumber(c);
    DayNumberOrders(c, next);
    if next.year < 10000 {
      ParseFormat(next);
      DayOfParse(Format(next), next);
    } else {
      LongYearIsRejected(next);
    }
  }

  lemma NextDayNumber(c: Civil)
    ensures MakeDay(c.year, c.month - 1, c.day + 1) == DayNumber(c) + 1
  {}

  lemma LongYearIsRejected(c: Civil)
    requires Valid(c) && c.year >= 10000
    ensures !IsValid(Format(c))
  {
    DecimalIsLong(c.year, 4);
    Powers();
    assert |Format(c)| > 10;
  }

  lemma {:induction false} DecimalIsLong(n: nat, k: nat)
    requires n >= Pow10(k)
    ensures |Decimal(n)| > k
  {
    if k > 0 {
      DecimalIsLong(n / 10, k - 1);
    }
  }

  /** The candidate day is today or later, and it is today exactly when no date gate holds the reconciler back. */
  lemma CandidateIsTodayOrLater(s: Settings, today: string)
    requires IsValid(today) && IsValid(s.first)
    ensures var c := Candidate(s, today);
            && (c == today <==> !TooEarly(s, today) && !Less(today, s.first))
            && (c != today && IsValid(c) ==> Day(c) > Day(today))
  {
    hide Parse, DayNumber, Less, AddLocalDays;
    var pending, handled := Known(s.pending), Known(s.handled);
    var fromFirst := if Less(today, s.first) then s.first else today;
    OrderIsChronological(today, s.first);
    if pending != "" {
      OrderIsChronological(fromFirst, pending);
      OrderIsChronological(today, pending);
    }
    var fromPending := if pending != "" && Less(fromFirst, pending) then pending else fromFirst;
    assert IsValid(fromPending) && Day(fromPending) >= Day(today);
    OrderIsChronological(today, fromPending);
    if handled != "" {
      OrderIsChronological(handled, fromPending);
      OrderIsChronological(handled, today);
      AddOneDay(handled);
    }
  }

  lemma EmptyIsInvalid()
    ensures !IsValid("")
  {}

  /** Handling a missed date never marks today as handled. */
  lemma MissedIsNotToday(s: Settings, today: string)
    requires IsValid(today) && !TooEarly(s, today)
    ensures AfterMissed(s, today).handled != today
  {
    hide Parse, DayNumber, Less;
    EmptyIsInvalid();
    if IsValid(s.handled) { OrderIsChronological(s.handled, today); }
    if IsValid(s.pending) { OrderIsChronological(s.pending, today); }
  }

  /** The predictor agrees with the scheduler: the reconciler passes all its time gates exactly when the
      predicted instant exists and has been reached. */
  lemma PredictorAgrees(z: Zone, s: Settings, now: int)
    requires ZoneOk(z) && ClockInRange(z, now) && !s.minute.Infinite?
    ensures PassesTimeGates(z, s, now) <==> NextDailyStart(z, s, now) != 0 && NextDailyStart(z, s, now) <= now
  {
    hide Parse, DayNumber, Less, AddLocalDays, Candidate, TooEarly, AfterMissed;
    var today := Today(z, now);
    TodayIsValid(z, now);
    if s.enabled && IsValid(s.first) && s.minute.Finite? {
      CandidateIsTodayOrLater(s, today);
      if !TooEarly(s, today) { MissedIsNotToday(s, today); }
      var c, m := Candidate(s, today), ClampMinute(s.minute).value;
      if c != today && IsValid(c) {
        assert z.dayOf(z.target(Day(c), m)) == Day(c) > z.dayOf(now);
      }
    }
  }

  /** Saved settings never hold an infinite minute.  With one, the predictor would report no start, and the reconciler
      would behave as with the minute clamped to the day: it passes its time gates exactly when the prediction for that
      minute has been reached. */
  lemma InfiniteMinuteIsClamped(z: Zone, s: Settings, now: int)
    requires ZoneOk(z) && ClockInRange(z, now) && s.minute.Infinite?
    ensures var clamped := s.(minute := Finite(if s.minute.positive then 1439.0 else 0.0));
            && NextDailyStart(z, s, now) == 0
            && (PassesTimeGates(z, s, now) <==>
                  NextDailyStart(z, clamped, now) != 0 && NextDailyStart(z, clamped, now) <= now)
  {
    hide PassesTimeGates, NextDailyStart;
    var clamped := s.(minute := Finite(if s.minute.positive then 1439.0 else 0.0));
    PredictorAgrees(z, clamped, now);
    ClockIsClamped(z, s, clamped, now);
    InfiniteIsNotPredicted(z, s, now);
  }

  lemma InfiniteIsNotPredicted(z: Zone, s: Settings, now: int)
    requires s.minute.Infinite?
    ensures NextDailyStart(z, s, now) == 0
  {
    hide Candidate, Today;
  }

  lemma ClockIsClamped(z: Zone, s: Settings, t: Settings, now: int)
    requires t == s.(minute := t.minute) && ClampMinute(t.minute) == ClampMinute(s.minute)
    ensures PassesTimeGates(z, s, now) <==> PassesTimeGates(z, t, now)
  {
    hide Today, Less, Parse, DayNumber, ClampMinute;
  }

  /** Deferring the automatic resume leaves nothing to the moment: while it is deferred the gates are closed. */
  function ShouldDeferAutoResume(z: Zone, s: Settings, wasRunning: bool, now: int): bool {
    !wasRunning && NextDailyStart(z, s, now) > now
  }

  lemma DeferredMeansClosed(z: Zone, s: Settings, now: int)
    requires ZoneOk(z) && ClockInRange(z, now) && now >= 0 && ShouldDeferAutoResume(z, s, false, now)
    ensures !PassesTimeGates(z, s, now)
  {
    hide PassesTimeGates, LocalTarget;
    if !s.minute.Infinite? { PredictorAgrees(z, s, now); }
  }
}
