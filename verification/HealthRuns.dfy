/** Runs of the monitor: samples, acknowledged deliveries, failed saves and restarts
    (src/main/download-health-monitor.ts:403-450, 453-545). */
module HealthRuns {
  import opened Common
  import opened HealthEvaluation
  import opened HealthTheorems

  datatype Op =
    | Sample(s: Snapshot, now: int, o: Options)          // events enqueued, state saved and committed
    | FailedSample(s: Snapshot, now: int, o: Options)    // enqueueing or saving failed: nothing is committed
    | Acknowledge(isStall: bool, id: Option<EventId>, deliveredAt: int, cooldownMs: int, saved: bool)
    | Restart

  /** The history of committed evaluations.  `Closed` marks an incident that ends without a recovery event. */
  datatype Mark = Emitted(e: Event) | Closed | Acknowledged(until: nat)

  datatype Machine = Machine(state: State, disk: Option<State>, clock: nat, log: seq<Mark>)

  const Start: Machine := Machine(Fresh, None, 0, [])

  /** `loadDownloadHealthState` of what `persistedState` wrote. */
  function Load(disk: Option<State>): State {
    if disk.None? then Fresh
    else disk.value.(lastSampleAt := None, restartFreshSamples := 0,
                     restartPending := disk.value.runFingerprint.Some? && disk.value.queueFingerprint.Some?)
  }

  function Marks(previous: State, e: Evaluation): seq<Mark> {
    (if previous.alertedAt > 0 && e.state.alertedAt == 0 && !Emits(e, false) then [Closed] else [])
    + (if e.events == [] then [] else [Emitted(e.events[0])])
  }

  predicate IsNewDelivery(st: State, op: Op)
    requires op.Acknowledge?
  {
    op.isStall && op.id.Some? && st.lastDeliveredStallEventId != op.id
  }

  function Acked(st: State, op: Op): State
    requires op.Acknowledge?
  {
    st.(lastAlertAt := FiniteInteger(op.deliveredAt),
        cooldownUntil := FiniteInteger(op.deliveredAt) + FiniteInteger(op.cooldownMs),
        lastDeliveredStallEventId := op.id)
  }

  function Step(m: Machine, op: Op): Machine {
    match op
    case Sample(s, now, o) =>
      var e := Evaluate(m.state, s, now, o);
      Machine(e.state, Some(e.state), FiniteInteger(now), m.log + Marks(m.state, e))
    case FailedSample(s, now, o) => m.(clock := FiniteInteger(now))
    case Acknowledge(isStall, id, deliveredAt, cooldownMs, saved) =>
      if !IsNewDelivery(m.state, op) then m
      else
        var st := Acked(m.state, op);
        m.(state := st, disk := if saved then Some(st) else m.disk, log := m.log + [Acknowledged(st.cooldownUntil)])
    case Restart => m.(state := Load(m.disk))
  }

  function Run(m: Machine, ops: seq<Op>): Machine
    decreases |ops|
  {
    if ops == [] then m else Run(Step(m, ops[0]), ops[1..])
  }

  /** The clock is positive at every sample. */
  predicate PositiveClock(ops: seq<Op>) {
    forall i :: 0 <= i < |ops| ==>
      match ops[i]
      case Sample(_, now, _) => now > 0
      case FailedSample(_, now, _) => now > 0
      case _ => true
  }

  // ---------------------------------------------------------------- brackets and cooldown

  /** Whether an incident is open after `log`; None if stalls and recoveries are not well bracketed. */
  function Open(log: seq<Mark>): Option<bool>
    decreases |log|
  {
    if log == [] then Some(false)
    else
      var before := Open(log[..|log| - 1]);
      if before.None? then None
      else
        match log[|log| - 1]
        case Emitted(Stall(_, _)) => if before.value then None else Some(true)
        case Emitted(Recovery(_, _)) => if before.value then Some(false) else None
        case Closed => if before.value then Some(false) else None
        case Acknowledged(_) => before
  }

  /** The end of the last acknowledged cooldown in `log`. */
  function Cooldown(log: seq<Mark>): nat
    decreases |log|
  {
    if log == [] then 0
    else if log[|log| - 1].Acknowledged? then log[|log| - 1].until
    else Cooldown(log[..|log| - 1])
  }

  ghost predicate CooldownsKept(log: seq<Mark>) {
    forall i :: 0 <= i < |log| && log[i].Emitted? && log[i].e.Stall? ==> log[i].e.createdAt >= Cooldown(log[..i])
  }

  /** The incident on disk is the one in memory. */
  predicate SameIncident(st: State, d: State) {
    st.alertedAt == d.alertedAt && st.incidentStartedAt == d.incidentStartedAt
    && st.suspiciousSamples == d.suspiciousSamples
  }

  ghost predicate Inv(m: Machine) {
    && Open(m.log) == Some(m.state.alertedAt > 0)
    && SameIncident(m.state, Load(m.disk))
    && (m.state.suspiciousSamples > 0 ==> m.state.incidentStartedAt > 0)
  }

  lemma LogStep(log: seq<Mark>, mark: Mark)
    ensures (log + [mark])[..|log + [mark]| - 1] == log
  {}

  lemma MarksOpen(log: seq<Mark>, previous: State, e: Evaluation, now: nat)
    requires Effect(previous, e, now) && Open(log) == Some(previous.alertedAt > 0)
    ensures Open(log + Marks(previous, e)) == Some(e.state.alertedAt > 0) <==> !(now == 0 && Emits(e, true))
  {
    var ms := Marks(previous, e);
    if |ms| == 1 {
      LogStep(log, ms[0]);
      assert log + ms == log + [ms[0]];
    } else {
      assert log + ms == log;
    }
  }

  /** The log says whether an incident is open, in memory and on disk. */
  ghost predicate Bracketed(m: Machine) {
    Open(m.log) == Some(m.state.alertedAt > 0) && Load(m.disk).alertedAt == m.state.alertedAt
  }

  /** A stall that is committed at time zero, so that its alert time reads as "no alert". */
  predicate StallsAtZero(m: Machine, op: Op) {
    op.Sample? && FiniteInteger(op.now) == 0 && Emits(Evaluate(m.state, op.s, op.now, op.o), true)
  }

  /** Nothing but a stall at time zero breaks the brackets. */
  lemma StepBrackets(m: Machine, op: Op)
    requires Bracketed(m)
    ensures Bracketed(Step(m, op)) <==> !StallsAtZero(m, op)
  {
    hide Evaluate, Marks, Effect, Emits;
    match op
    case Sample(s, now, o) =>
      IncidentEffect(m.state, s, now, o);
      MarksOpen(m.log, m.state, Evaluate(m.state, s, now, o), FiniteInteger(now));
    case FailedSample(s, now, o) =>
    case Acknowledge(isStall, id, deliveredAt, cooldownMs, saved) =>
      LogStep(m.log, Acknowledged(Acked(m.state, op).cooldownUntil));
    case Restart =>
  }

  ghost predicate AlwaysBracketed(m: Machine, ops: seq<Op>)
    decreases |ops|
  {
    Bracketed(m) && (ops == [] || AlwaysBracketed(Step(m, ops[0]), ops[1..]))
  }

  predicate NoStallAtZero(m: Machine, ops: seq<Op>)
    decreases |ops|
  {
    ops == [] || (!StallsAtZero(m, ops[0]) && NoStallAtZero(Step(m, ops[0]), ops[1..]))
  }

  /** Every run keeps stalls and recoveries bracketed at each of its points if and only if it commits no stall at time
      zero. */
  lemma {:induction false} BracketedExactly(m: Machine, ops: seq<Op>)
    requires Bracketed(m)
    ensures AlwaysBracketed(m, ops) <==> NoStallAtZero(m, ops)
    decreases |ops|
  {
    hide Step, Bracketed, StallsAtZero;
    if ops != [] {
      StepBrackets(m, ops[0]);
      if Bracketed(Step(m, ops[0])) { BracketedExactly(Step(m, ops[0]), ops[1..]); }
    }
  }

  lemma StepKeepsInv(m: Machine, op: Op)
    requires Inv(m) && PositiveClock([op])
    ensures Inv(Step(m, op))
  {
    hide Evaluate, Marks, Open;
    assert [op][0] == op;
    match op
    case Sample(s, now, o) =>
      IncidentEffect(m.state, s, now, o);
      MarksOpen(m.log, m.state, Evaluate(m.state, s, now, o), now);
    case FailedSample(s, now, o) =>
    case Acknowledge(isStall, id, deliveredAt, cooldownMs, saved) =>
      AcknowledgedOpen(m.log, Acked(m.state, op).cooldownUntil);
    case Restart =>
  }

  lemma AcknowledgedOpen(log: seq<Mark>, until: nat)
    ensures Open(log + [Acknowledged(until)]) == Open(log)
  {
    LogStep(log, Acknowledged(until));
  }

  lemma {:induction false} RunKeepsInv(m: Machine, ops: seq<Op>)
    requires Inv(m) && PositiveClock(ops)
    ensures Inv(Run(m, ops))
    decreases |ops|
  {
    hide Step, Inv;
    if ops != [] {
      assert PositiveClock([ops[0]]) && PositiveClock(ops[1..]);
      StepKeepsInv(m, ops[0]);
      RunKeepsInv(Step(m, ops[0]), ops[1..]);
    }
  }

  /** Over every run from the fresh state, whatever resets, changes of the run, failed saves and restarts happen:
      no second stall is committed while an incident is open, and every recovery closes an open stall. */
  lemma WellBracketed(ops: seq<Op>)
    requires PositiveClock(ops)
    ensures Open(Run(Start, ops).log) == Some(Run(Start, ops).state.alertedAt > 0)
  {
    RunKeepsInv(Start, ops);
  }

  /** Between two recoveries there is a stall. */
  lemma {:induction false} StallBetweenRecoveries(log: seq<Mark>, i: nat, j: nat)
    requires Open(log).Some? && i < j < |log|
    requires log[i].Emitted? && log[i].e.Recovery? && log[j].Emitted? && log[j].e.Recovery?
    ensures exists k :: i < k < j && log[k].Emitted? && log[k].e.Stall?
    decreases |log|
  {
    var n := |log| - 1;
    if j < n {
      StallBetweenRecoveries(log[..n], i, j);
      var k :| i < k < j && log[..n][k].Emitted? && log[..n][k].e.Stall?;
      assert log[k] == log[..n][k];
    } else {
      OpenedAfter(log[..n], i);
      var k :| i < k < n && log[..n][k].Emitted? && log[..n][k].e.Stall?;
      assert log[k] == log[..n][k];
    }
  }

  lemma {:induction false} OpenedAfter(log: seq<Mark>, i: nat)
    requires Open(log) == Some(true) && i < |log| && log[i].Emitted? && log[i].e.Recovery?
    ensures exists k :: i < k < |log| && log[k].Emitted? && log[k].e.Stall?
    decreases |log|
  {
    var n := |log| - 1;
    if log[n].Emitted? && log[n].e.Stall? {
    } else {
      OpenedAfter(log[..n], i);
      var k :| i < k < n && log[..n][k].Emitted? && log[..n][k].e.Stall?;
      assert log[k] == log[..n][k];
    }
  }

  // ---------------------------------------------------------------- cooldowns

  /** What an acknowledgement leaves: the end of the cooldown and the delivered event. */
  datatype Known = Known(until: nat, delivered: Option<EventId>)

  /** The acknowledgement in memory and the one that would be loaded, as the operations alone tell. */
  datatype Ledger = Ledger(memory: Known, disk: Known)

  const Blank: Ledger := Ledger(Known(0, None), Known(0, None))

  function Note(l: Ledger, op: Op): Ledger {
    match op
    case Sample(_, _, _) => l.(disk := l.memory)
    case FailedSample(_, _, _) => l
    case Acknowledge(isStall, id, deliveredAt, cooldownMs, saved) =>
      if !isStall || id.None? || id == l.memory.delivered then l
      else
        var known := Known(FiniteInteger(deliveredAt) + FiniteInteger(cooldownMs), id);
        Ledger(known, if saved then known else l.disk)
    case Restart => l.(memory := l.disk)
  }

  /** A restart while the end of the acknowledged cooldown is in memory only: neither its acknowledgement nor a sample
      after it has been saved. */
  predicate Forgets(l: Ledger, op: Op) { op.Restart? && l.disk.until != l.memory.until }

  predicate NeverForgets(l: Ledger, ops: seq<Op>)
    decreases |ops|
  {
    ops == [] || (!Forgets(l, ops[0]) && NeverForgets(Note(l, ops[0]), ops[1..]))
  }

  ghost predicate Tells(l: Ledger, m: Machine) {
    && l.memory == Known(m.state.cooldownUntil, m.state.lastDeliveredStallEventId)
    && l.disk == Known(Load(m.disk).cooldownUntil, Load(m.disk).lastDeliveredStallEventId)
  }

  lemma NoteTells(l: Ledger, m: Machine, op: Op)
    requires Tells(l, m)
    ensures Tells(Note(l, op), Step(m, op))
  {
    hide Evaluate, Marks;
    if op.Sample? {
      DeliveryIsKept(m.state, op.s, op.now, op.o);
      IncidentEffect(m.state, op.s, op.now, op.o);
    }
  }

  ghost predicate CooldownInv(m: Machine) { CooldownsKept(m.log) && m.state.cooldownUntil == Cooldown(m.log) }

  /** At every point of the run the state holds the end of the last acknowledged cooldown. */
  ghost predicate AlwaysRemembers(m: Machine, ops: seq<Op>)
    decreases |ops|
  {
    m.state.cooldownUntil == Cooldown(m.log) && (ops == [] || AlwaysRemembers(Step(m, ops[0]), ops[1..]))
  }

  lemma ExtendCooldowns(log: seq<Mark>, mark: Mark)
    requires CooldownsKept(log)
    requires mark.Emitted? && mark.e.Stall? ==> mark.e.createdAt >= Cooldown(log)
    ensures CooldownsKept(log + [mark])
    ensures Cooldown(log + [mark]) == if mark.Acknowledged? then mark.until else Cooldown(log)
  {
    LogStep(log, mark);
    forall i | 0 <= i < |log + [mark]|
      ensures (log + [mark])[..i] == if i < |log| then log[..i] else log
    {}
  }

  lemma MarksCooldown(log: seq<Mark>, previous: State, e: Evaluation, now: nat)
    requires CooldownsKept(log) && previous.cooldownUntil == Cooldown(log) && Effect(previous, e, now)
    ensures CooldownsKept(log + Marks(previous, e)) && Cooldown(log + Marks(previous, e)) == Cooldown(log)
  {
    var ms := Marks(previous, e);
    if ms == [] {
      assert log + ms == log;
    } else {
      ExtendCooldowns(log, ms[0]);
      assert log + ms == log + [ms[0]];
    }
  }

  lemma StepKeepsCooldown(m: Machine, op: Op)
    requires CooldownInv(m)
    ensures CooldownsKept(Step(m, op).log)
    ensures Step(m, op).state.cooldownUntil == Cooldown(Step(m, op).log)
            <==> !(op.Restart? && Load(m.disk).cooldownUntil != m.state.cooldownUntil)
  {
    hide Evaluate, Marks, Cooldown, CooldownsKept;
    match op
    case Sample(s, now, o) =>
      IncidentEffect(m.state, s, now, o);
      MarksCooldown(m.log, m.state, Evaluate(m.state, s, now, o), FiniteInteger(now));
    case FailedSample(s, now, o) =>
    case Acknowledge(isStall, id, deliveredAt, cooldownMs, saved) =>
      ExtendCooldowns(m.log, Acknowledged(Acked(m.state, op).cooldownUntil));
    case Restart =>
  }

  lemma {:induction false} RunRemembers(l: Ledger, m: Machine, ops: seq<Op>)
    requires CooldownInv(m) && Tells(l, m)
    ensures AlwaysRemembers(m, ops) <==> NeverForgets(l, ops)
    ensures NeverForgets(l, ops) ==> CooldownInv(Run(m, ops))
    decreases |ops|
  {
    hide Step, Note, Load, CooldownsKept, Cooldown;
    if ops != [] {
      StepKeepsCooldown(m, ops[0]);
      NoteTells(l, m, ops[0]);
      if !Forgets(l, ops[0]) {
        RunRemembers(Note(l, ops[0]), Step(m, ops[0]), ops[1..]);
      } else {
        Unremembered(m, ops);
      }
    }
  }

  lemma Unremembered(m: Machine, ops: seq<Op>)
    requires ops != [] && Step(m, ops[0]).state.cooldownUntil != Cooldown(Step(m, ops[0]).log)
    ensures !AlwaysRemembers(m, ops)
  {
    hide Step, Cooldown;
  }

  /** The end of the last acknowledged cooldown is in force at every point of a run if and only if no restart comes
      while it is in memory only. */
  lemma CooldownIsRememberedExactly(ops: seq<Op>)
    ensures AlwaysRemembers(Start, ops) <==> NeverForgets(Blank, ops)
  {
    hide AlwaysRemembers, NeverForgets;
    RunRemembers(Blank, Start, ops);
  }

  /** So no stall is committed before the last acknowledged cooldown has ended, whatever resets, changes of the run,
      failed saves and restarts come in between. */
  lemma StallsRespectCooldowns(ops: seq<Op>)
    requires NeverForgets(Blank, ops)
    ensures CooldownsKept(Run(Start, ops).log)
  {
    hide AlwaysRemembers, NeverForgets, Run;
    RunRemembers(Blank, Start, ops);
  }

  /** Without restarts nothing is forgotten, whether acknowledgements can be saved or not. */
  lemma {:induction false} UninterruptedRunsRemember(l: Ledger, ops: seq<Op>)
    requires forall i :: 0 <= i < |ops| ==> !ops[i].Restart?
    ensures NeverForgets(l, ops)
    decreases |ops|
  {
    hide Note;
    if ops != [] { UninterruptedRunsRemember(Note(l, ops[0]), ops[1..]); }
  }

  /** Nor if every acknowledgement is saved, however often the monitor is restarted. */
  lemma {:induction false} SavedRunsRemember(l: Ledger, ops: seq<Op>)
    requires l.memory == l.disk && forall i :: 0 <= i < |ops| && ops[i].Acknowledge? ==> ops[i].saved
    ensures NeverForgets(l, ops)
    decreases |ops|
  {
    if ops != [] { SavedRunsRemember(Note(l, ops[0]), ops[1..]); }
  }

  /** A suspicious sample of the run with nothing in its way. */
  predicate Suspicious(s: Snapshot, now: nat) { Watchable(s) && !Waits(s, now) && SuspicionType(s, now).Some? }

  /** The run is being watched with this suspicion, last at this time, without an open incident. */
  predicate WatchedAt(st: State, s: Snapshot, samples: nat, duration: nat, now: nat) {
    && SameRun(st, s) && !st.restartPending && st.alertedAt == 0
    && st.lastSampleAt == Some(now) && st.suspiciousSamples == samples && st.suspiciousDurationMs == duration
    && !ByteProgress(st, s) && !CompletionProgress(st, s)
  }

  /** The first suspicious sample of a run that was not watched before. */
  lemma FirstSuspicion(st: State, s: Snapshot, now: nat, o: Options)
    requires Suspicious(s, now) && !SameRun(st, s)
    ensures var e := Evaluate(st, s, now, o);
            && e.events == [] && WatchedAt(e.state, s, 1, 0, now) && e.state.cooldownUntil == st.cooldownUntil
            && e.state.incidentStartedAt == now
  {
    hide ValidFingerprint, Waits, SuspicionType, StallAfter;
    Lengths(s);
  }

  lemma NextSuspicion(st: State, s: Snapshot, now: nat, o: Options, samples: nat, duration: nat, at: nat)
    requires Suspicious(s, now) && WatchedAt(st, s, samples, duration, at) && at <= now
    requires samples + 1 < 3
    ensures var e := Evaluate(st, s, now, o);
            && e.events == [] && WatchedAt(e.state, s, samples + 1, duration + (now - at), now)
            && e.state.cooldownUntil == st.cooldownUntil
            && (st.incidentStartedAt > 0 ==> e.state.incidentStartedAt == st.incidentStartedAt)
  {
    hide ValidFingerprint, Waits, SuspicionType, StallAfter;
    Lengths(s);
  }

  lemma ThirdSuspicion(st: State, s: Snapshot, now: nat, o: Options, duration: nat, at: nat)
    requires Suspicious(s, now) && WatchedAt(st, s, 2, duration, at) && at <= now
    requires duration + (now - at) >= StallAfter(o) && o.notifyOnStall && st.cooldownUntil <= now
    ensures |s.runFingerprint| >= 16
    ensures var e := Evaluate(st, s, now, o);
            && e.state.alertedAt == now && SameRun(e.state, s) && e.state.cooldownUntil == st.cooldownUntil
            && e.events == [Stall(EventId(s.runFingerprint[..16], e.state.incidentStartedAt), now)]
            && (st.incidentStartedAt > 0 ==> e.state.incidentStartedAt == st.incidentStartedAt)
  {
    hide ValidFingerprint, Waits, SuspicionType, StallAfter;
    Lengths(s);
  }

  lemma WatchedIsQuiet(st: State, s: Snapshot, samples: nat, duration: nat, now: nat)
    requires WatchedAt(st, s, samples, duration, now)
    ensures st.alertedAt == 0
  {}

  /** Three suspicious samples of a run not watched before, the last at least the threshold after the first and not
      before the end of the cooldown in force, commit a stall; an incident still open is closed first. */
  lemma ThreeSamplesStall(m: Machine, s: Snapshot, o: Options, first: nat, next: nat, last: nat)
    requires 0 < first <= next <= last && first + StallAfter(o) <= last && o.notifyOnStall
    requires Suspicious(s, first) && Suspicious(s, next) && Suspicious(s, last)
    requires m.state.cooldownUntil <= last && !SameRun(m.state, s)
    ensures |s.runFingerprint| >= 16
    ensures var n := Run(m, [Sample(s, first, o), Sample(s, next, o), Sample(s, last, o)]);
            && n.log == m.log + (if m.state.alertedAt > 0 then [Closed] else [])
                        + [Emitted(Stall(EventId(s.runFingerprint[..16], first), last))]
            && n.disk == Some(n.state) && SameRun(n.state, s)
            && n.state.cooldownUntil == m.state.cooldownUntil
            && n.state.lastDeliveredStallEventId == m.state.lastDeliveredStallEventId
  {
    hide Evaluate, Suspicious, StallAfter, WatchedAt, SameRun;
    var m1 := Step(m, Sample(s, first, o));
    FirstSuspicion(m.state, s, first, o);
    WatchedIsQuiet(m1.state, s, 1, 0, first);
    DeliveryIsKept(m.state, s, first, o);
    var m2 := Step(m1, Sample(s, next, o));
    NextSuspicion(m1.state, s, next, o, 1, 0, first);
    WatchedIsQuiet(m2.state, s, 2, next - first, next);
    DeliveryIsKept(m1.state, s, next, o);
    ThirdSuspicion(m2.state, s, last, o, next - first, next);
    DeliveryIsKept(m2.state, s, last, o);
    assert m1.log == m.log + (if m.state.alertedAt > 0 then [Closed] else []);
    assert m2.log == m1.log;
    RunThree(m, Sample(s, first, o), Sample(s, next, o), Sample(s, last, o));
  }

  lemma ClosedKeepsCooldown(log: seq<Mark>)
    ensures Cooldown(log + [Closed]) == Cooldown(log)
  {
    LogStep(log, Closed);
  }

  /** Why forgetting matters.  From any state that holds an earlier end than the one acknowledged, a run not watched
      before, suspicious at three times over the stall threshold, stalls inside the acknowledged cooldown. */
  lemma ForgettingAllowsAStall(m: Machine, s: Snapshot, o: Options, first: nat, next: nat, last: nat)
    requires m.state.cooldownUntil <= last < Cooldown(m.log) && !SameRun(m.state, s)
    requires 0 < first <= next <= last && first + StallAfter(o) <= last && o.notifyOnStall
    requires Suspicious(s, first) && Suspicious(s, next) && Suspicious(s, last)
    ensures !CooldownsKept(Run(m, [Sample(s, first, o), Sample(s, next, o), Sample(s, last, o)]).log)
  {
    hide Run, Suspicious, StallAfter, SameRun, Cooldown;
    ThreeSamplesStall(m, s, o, first, next, last);
    ClosedKeepsCooldown(m.log);
    var before := m.log + (if m.state.alertedAt > 0 then [Closed] else []);
    assert m.log + [] == m.log;
    var log := Run(m, [Sample(s, first, o), Sample(s, next, o), Sample(s, last, o)]).log;
    assert log[..|before|] == before && log[|before|].e.createdAt == last;
  }

  lemma RunThree(m: Machine, a: Op, b: Op, c: Op)
    ensures Run(m, [a, b, c]) == Step(Step(Step(m, a), b), c)
  {
    hide Step;
    assert [a, b, c][1..] == [b, c];
    assert [b, c][1..] == [c];
    assert [c][1..] == [];
    assert Run(m, [a, b, c]) == Run(Step(m, a), [b, c]);
    assert Run(Step(m, a), [b, c]) == Run(Step(Step(m, a), b), [c]);
    assert Run(Step(Step(m, a), b), [c]) == Run(Step(Step(Step(m, a), b), c), []);
  }

  /** A run with one open file and one active download, no progress and nothing to wait for. */
  function Stuck(run: char): Snapshot {
    var fingerprint := seq(64, i => run);
    Snapshot(true, fingerprint, fingerprint, 1, 1, 0, 0, 0, 0, 0, 0,
             false, 0, 0, 0, false, 0, 0, false, false, false)
  }

  /** Samples every 45 seconds, three of them over the default threshold of 90 seconds. */
  function ThreeSamples(run: char, start: nat): seq<Op> {
    var o := Options(Some(90_000), true, true);
    [Sample(Stuck(run), start, o), Sample(Stuck(run), start + 45_000, o), Sample(Stuck(run), start + 90_000, o)]
  }

  /** Such a run with the default threshold and cooldown.  A stall is committed and its delivery acknowledged, but that
      cannot be saved; the program is restarted, and in a new run the next stall comes within the ten minutes. */
  lemma ForgottenAcknowledgement(now: nat)
    requires now > 0
    ensures var id := EventId(Stuck('a').runFingerprint[..16], now);
            var acknowledge := Acknowledge(true, Some(id), now + 90_000, 600_000, false);
            var ops := ThreeSamples('a', now) + [acknowledge, Restart] + ThreeSamples('b', now + 120_000);
            && Run(Start, ThreeSamples('a', now)).log == [Emitted(Stall(id, now + 90_000))]
            && !NeverForgets(Blank, ops) && !CooldownsKept(Run(Start, ops).log)
  {
    hide Step, StallAfter, Suspicious, Cooldown, CooldownsKept, Stuck, Run, NeverForgets, SameRun;
    var o := Options(Some(90_000), true, true);
    DefaultThreshold(o);
    forall run: char, at: nat | run in {'a', 'b'} && at > 0 ensures Suspicious(Stuck(run), at) {
      StuckIsSuspicious(run, at);
    }
    OtherRuns();
    var first, second := ThreeSamples('a', now), ThreeSamples('b', now + 120_000);
    ThreeSamplesStall(Start, Stuck('a'), o, now, now + 45_000, now + 90_000);
    var m := Run(Start, first);
    var id := EventId(Stuck('a').runFingerprint[..16], now);
    assert m.log == [Emitted(Stall(id, now + 90_000))];
    var acknowledge := Acknowledge(true, Some(id), now + 90_000, 600_000, false);
    AfterForgetting(m, id, now + 90_000);
    var n := Step(Step(m, acknowledge), Restart);
    ForgettingAllowsAStall(n, Stuck('b'), o, now + 120_000, now + 165_000, now + 210_000);
    RunTwoMore(m, acknowledge, Restart, second);
    assert first + [acknowledge, Restart] + second == first + ([acknowledge, Restart] + second);
    RunAppend(Start, first, [acknowledge, Restart] + second);
    var ops := first + [acknowledge, Restart] + second;
    if NeverForgets(Blank, ops) { StallsRespectCooldowns(ops); }
  }

  lemma AfterForgetting(m: Machine, id: EventId, at: nat)
    requires m.disk == Some(m.state) && m.state.lastDeliveredStallEventId == None && m.state.cooldownUntil == 0
    requires SameRun(m.state, Stuck('a'))
    ensures var n := Step(Step(m, Acknowledge(true, Some(id), at, 600_000, false)), Restart);
            n.state.cooldownUntil == 0 && Cooldown(n.log) == at + 600_000 && !SameRun(n.state, Stuck('b'))
  {
    LogStep(m.log, Acknowledged(at + 600_000));
    assert Stuck('a').runFingerprint[0] != Stuck('b').runFingerprint[0];
  }

  lemma StuckIsSuspicious(run: char, now: nat)
    requires now > 0 && run in {'a', 'b'}
    ensures Suspicious(Stuck(run), now)
  {}

  lemma OtherRuns()
    ensures !SameRun(Fresh, Stuck('a'))
  {}

  lemma DefaultThreshold(o: Options)
    requires o.stallAfterMs == Some(90_000)
    ensures StallAfter(o) == 90_000
  {}

  lemma RunTwoMore(m: Machine, a: Op, b: Op, rest: seq<Op>)
    ensures Run(m, [a, b] + rest) == Run(Step(Step(m, a), b), rest)
  {
    hide Step;
    var ops := [a, b] + rest;
    assert ops[1..] == [b] + rest && ops[1..][1..] == rest;
    assert Run(m, ops) == Run(Step(m, a), ops[1..]);
    assert Run(Step(m, a), ops[1..]) == Run(Step(Step(m, a), b), rest);
  }

  lemma {:induction false} RunAppend(m: Machine, a: seq<Op>, b: seq<Op>)
    ensures Run(m, a + b) == Run(Run(m, a), b)
    decreases |a|
  {
    hide Step;
    if a == [] {
      assert a + b == b;
    } else {
      assert (a + b)[1..] == a[1..] + b;
      RunAppend(Step(m, a[0]), a[1..], b);
    }
  }

  // ---------------------------------------------------------------- event ids

  /** The clock moves forward at every sample, committed or not. */
  ghost predicate Ticks(m: Machine, ops: seq<Op>)
    decreases |ops|
  {
    ops == [] ||
    (&& (ops[0].Sample? ==> ops[0].now > m.clock)
     && (ops[0].FailedSample? ==> ops[0].now > m.clock)
     && Ticks(Step(m, ops[0]), ops[1..]))
  }

  /** Later stalls in the log carry larger numbers. */
  ghost predicate IdsIncrease(log: seq<Mark>) {
    forall i, j :: 0 <= i < j < |log| && IsStall(log[i]) && IsStall(log[j]) ==> log[i].e.id.number < log[j].e.id.number
  }

  predicate IsStall(m: Mark) { m.Emitted? && m.e.Stall? }

  ghost predicate IdInv(m: Machine) {
    && IdsIncrease(m.log)
    && SameIncident(m.state, Load(m.disk))
    && (m.state.suspiciousSamples > 0 ==> m.state.incidentStartedAt > 0)
    && m.state.incidentStartedAt <= m.clock
    && (forall i :: 0 <= i < |m.log| && IsStall(m.log[i]) ==>
          && m.log[i].e.id.number <= m.clock
          && (m.state.alertedAt == 0 && m.state.incidentStartedAt > 0 ==>
                m.log[i].e.id.number < m.state.incidentStartedAt))
  }

  lemma SampleKeepsIds(m: Machine, s: Snapshot, now: int, o: Options)
    requires IdInv(m) && now > m.clock
    ensures IdInv(Step(m, Sample(s, now, o)))
  {
    hide Evaluate;
    IncidentEffect(m.state, s, now, o);
    var e := Evaluate(m.state, s, now, o);
    var t := Step(m, Sample(s, now, o));
    assert forall i :: 0 <= i < |m.log| ==> t.log[i] == m.log[i];
    assert forall i :: |m.log| <= i < |t.log| && IsStall(t.log[i]) ==>
        i == |t.log| - 1 && Emits(e, true) && t.log[i].e == e.events[0];
  }

  lemma StepKeepsIds(m: Machine, op: Op)
    requires IdInv(m)
    requires op.Sample? || op.FailedSample? ==> op.now > m.clock
    ensures IdInv(Step(m, op))
  {
    match op
    case Sample(s, now, o) => SampleKeepsIds(m, s, now, o);
    case FailedSample(s, now, o) =>
    case Acknowledge(isStall, id, deliveredAt, cooldownMs, saved) =>
    case Restart =>
  }

  lemma {:induction false} RunKeepsIds(m: Machine, ops: seq<Op>)
    requires IdInv(m) && Ticks(m, ops)
    ensures IdInv(Run(m, ops))
    decreases |ops|
  {
    hide Step, IdInv;
    if ops != [] {
      StepKeepsIds(m, ops[0]);
      RunKeepsIds(Step(m, ops[0]), ops[1..]);
    }
  }

  /** With a strictly increasing clock, different committed stalls carry different event ids. */
  lemma DifferentStallsHaveDifferentIds(ops: seq<Op>, i: nat, j: nat)
    requires Ticks(Start, ops)
    requires i < j < |Run(Start, ops).log| && IsStall(Run(Start, ops).log[i]) && IsStall(Run(Start, ops).log[j])
    ensures Run(Start, ops).log[i].e.id != Run(Start, ops).log[j].e.id
  {
    RunKeepsIds(Start, ops);
  }

  // ---------------------------------------------------------------- restarts, deliveries and failures

  /** A restart keeps what was saved, but waits for its run to be resumed, if it had one, before it judges again; the
      time of the last sample is forgotten. */
  lemma RestartKeepsWhatWasSaved(m: Machine, st: State)
    requires m.disk == Some(st)
    ensures var t := Step(m, Restart).state;
            && t.lastSampleAt == None && t.restartFreshSamples == 0
            && (t.restartPending <==> st.runFingerprint.Some? && st.queueFingerprint.Some?)
            && t == st.(lastSampleAt := t.lastSampleAt, restartFreshSamples := t.restartFreshSamples,
                        restartPending := t.restartPending)
  {}

  /** The first delivery of a stall is noted with its time, and the cooldown runs from there; any other changes nothing.
      A delivery that cannot be saved is noted in memory alone. */
  lemma FirstDeliveryIsNoted(m: Machine, id: EventId, deliveredAt: nat, cooldownMs: nat, saved: bool)
    ensures var n := Step(m, Acknowledge(true, Some(id), deliveredAt, cooldownMs, saved));
            if m.state.lastDeliveredStallEventId == Some(id) then n == m
            else
              && n.state.lastAlertAt == deliveredAt && n.state.cooldownUntil == deliveredAt + cooldownMs
              && n.state.lastDeliveredStallEventId == Some(id)
              && n.disk == if saved then Some(n.state) else m.disk
    ensures forall id', at, ms :: Step(m, Acknowledge(false, id', at, ms, saved)) == m
  {}
}
