/** The download health machine (src/main/download-health-monitor.ts:98-106, 218-401): what one sample does to the
    state, first as a classification of the sample, then as the step-by-step program. */
module HealthEvaluation {
  import opened Common

  // ---------------------------------------------------------------- data

  datatype Status = Idle | Suspended | ExpectedWait | Healthy | SuspectScheduler | SuspectNoData | Alerted | Recovering

  datatype Incident = Scheduler | NoData

  datatype Snapshot = Snapshot(
    runActive: bool,
    runFingerprint: string,
    queueFingerprint: string,
    openItems: int,
    activeTasks: int,
    startableItems: int,
    lastSchedulerTickAt: int,
    downloadProgressSequence: int,
    itemCompletionSequence: int,
    lastPositiveByteAt: int,
    technicalRecoveryCount: int,
    paused: bool,
    reconnectUntil: int,
    nextRetryAt: int,
    providerCooldownUntil: int,
    blockedOnDisk: bool,
    blockedOnThrottleUntil: int,
    activePhaseDeadlineAt: int,
    terminalFailure: bool,
    manualStop: bool,
    shuttingDown: bool)

  /** `stallAfterMs` is None when it is not a finite number. */
  datatype Options = Options(stallAfterMs: Option<int>, notifyOnStall: bool, notifyOnRecovery: bool)

  /** `health:<kind>:<run prefix>:<number>`. */
  datatype EventId = EventId(runPrefix: string, number: nat)

  datatype Event =
    | Stall(id: EventId, createdAt: nat)
    | Recovery(id: EventId, createdAt: nat)

  datatype State = State(
    status: Status,
    runFingerprint: Option<string>,
    queueFingerprint: Option<string>,
    suspiciousDurationMs: nat,
    suspiciousSamples: nat,
    incidentStartedAt: nat,
    incidentType: Option<Incident>,
    alertedAt: nat,
    lastAlertAt: nat,
    cooldownUntil: nat,
    lastDeliveredStallEventId: Option<EventId>,
    recoverySamples: nat,
    lastSampleAt: Option<nat>,
    downloadProgressSequence: nat,
    itemCompletionSequence: nat,
    lastPositiveByteAt: nat,
    technicalRecoveryCount: nat,
    restartPending: bool,
    restartFreshSamples: nat)

  datatype Evaluation = Evaluation(state: State, events: seq<Event>)

  const MIN_SUSPICIOUS_SAMPLES: nat := 3
  const SCHEDULER_STALE_AFTER_MS: nat := 30_000
  const DEFAULT_STALL_AFTER_MS: nat := 90_000

  const Fresh: State :=
    State(Idle, None, None, 0, 0, 0, None, 0, 0, 0, None, 0, None, 0, 0, 0, 0, false, 0)

  function FiniteInteger(x: int): nat { if x < 0 then 0 else x }

  predicate ValidFingerprint(s: string) {
    |s| == 64 && forall i :: 0 <= i < 64 ==> 'a' <= s[i] <= 'f' || '0' <= s[i] <= '9'
  }

  function StallAfter(o: Options): nat {
    if o.stallAfterMs.None? then DEFAULT_STALL_AFTER_MS else FiniteInteger(o.stallAfterMs.value)
  }

  // ---------------------------------------------------------------- classifying a sample

  predicate Waits(s: Snapshot, now: nat) {
    || s.paused || s.reconnectUntil > now || s.nextRetryAt > now || s.providerCooldownUntil > now
    || s.blockedOnDisk || s.blockedOnThrottleUntil > now || s.activePhaseDeadlineAt > now
  }

  function SuspicionType(s: Snapshot, now: nat): Option<Incident> {
    if s.activeTasks == 0 && s.startableItems > 0 then
      if s.lastSchedulerTickAt <= 0 || now - s.lastSchedulerTickAt >= SCHEDULER_STALE_AFTER_MS
      then Some(Scheduler) else None
    else Some(NoData)
  }

  /** There is a run with open items to watch. */
  predicate Watchable(s: Snapshot) {
    && s.runActive && s.openItems > 0 && !s.terminalFailure && !s.manualStop && !s.shuttingDown
    && ValidFingerprint(s.runFingerprint) && ValidFingerprint(s.queueFingerprint)
  }

  /** After a restart the run has not been resumed yet. */
  predicate AwaitsRestart(st: State, s: Snapshot) {
    st.restartPending && !s.runActive && !s.terminalFailure && !s.manualStop && !s.shuttingDown
  }

  predicate SameRun(st: State, s: Snapshot) {
    st.runFingerprint == Some(s.runFingerprint) && st.queueFingerprint == Some(s.queueFingerprint)
  }

  predicate ByteProgress(st: State, s: Snapshot) {
    FiniteInteger(s.downloadProgressSequence) > st.downloadProgressSequence
  }

  predicate CompletionProgress(st: State, s: Snapshot) {
    FiniteInteger(s.itemCompletionSequence) > st.itemCompletionSequence
  }

  // ---------------------------------------------------------------- the pieces of the effect

  /** The counters of the snapshot replace the known ones. */
  function Resync(st: State, s: Snapshot): State {
    st.(downloadProgressSequence := FiniteInteger(s.downloadProgressSequence),
        itemCompletionSequence := FiniteInteger(s.itemCompletionSequence),
        lastPositiveByteAt := FiniteInteger(s.lastPositiveByteAt),
        technicalRecoveryCount := FiniteInteger(s.technicalRecoveryCount))
  }

  /** The known counters advance to those of the snapshot. */
  function Observe(st: State, s: Snapshot): State {
    st.(downloadProgressSequence := Max(st.downloadProgressSequence, FiniteInteger(s.downloadProgressSequence)),
        itemCompletionSequence := Max(st.itemCompletionSequence, FiniteInteger(s.itemCompletionSequence)),
        lastPositiveByteAt := Max(st.lastPositiveByteAt, FiniteInteger(s.lastPositiveByteAt)),
        technicalRecoveryCount := Max(st.technicalRecoveryCount, FiniteInteger(s.technicalRecoveryCount)))
  }

  function ResetForSnapshot(st: State, s: Snapshot, now: nat): State {
    Resync(Fresh.(runFingerprint := Some(s.runFingerprint),
                  queueFingerprint := Some(s.queueFingerprint),
                  lastAlertAt := st.lastAlertAt,
                  cooldownUntil := st.cooldownUntil,
                  lastDeliveredStallEventId := st.lastDeliveredStallEventId,
                  lastSampleAt := Some(now)), s)
  }

  function EndIncident(st: State): State {
    Fresh.(lastAlertAt := st.lastAlertAt,
           cooldownUntil := st.cooldownUntil,
           lastDeliveredStallEventId := st.lastDeliveredStallEventId,
           downloadProgressSequence := st.downloadProgressSequence,
           itemCompletionSequence := st.itemCompletionSequence,
           lastPositiveByteAt := st.lastPositiveByteAt,
           technicalRecoveryCount := st.technicalRecoveryCount)
  }

  function Cleared(st: State, now: nat): State {
    st.(status := Healthy, suspiciousDurationMs := 0, suspiciousSamples := 0, incidentStartedAt := 0,
        incidentType := None, lastSampleAt := Some(now))
  }

  function RunPrefix(s: Snapshot): string
    requires |s.runFingerprint| >= 16
  {
    s.runFingerprint[..16]
  }

  /** One more suspicious sample: the time since the previous sample is added. */
  function Suspect(st: State, kind: Incident, now: nat): State {
    var elapsed: nat := if st.lastSampleAt.None? || now < st.lastSampleAt.value then 0 else now - st.lastSampleAt.value;
    st.(status := if kind.Scheduler? then SuspectScheduler else SuspectNoData,
        suspiciousDurationMs := st.suspiciousDurationMs + elapsed,
        suspiciousSamples := st.suspiciousSamples + 1,
        incidentStartedAt := if st.incidentStartedAt == 0 then now else st.incidentStartedAt,
        incidentType := Some(kind),
        lastSampleAt := Some(now))
  }

  predicate Confirmed(st: State, now: nat, o: Options) {
    && st.suspiciousDurationMs >= StallAfter(o) && st.suspiciousSamples >= MIN_SUSPICIOUS_SAMPLES
    && o.notifyOnStall && now >= st.cooldownUntil
  }

  // ---------------------------------------------------------------- the effect of a sample

  /** A sample of the watched run while no incident is open. */
  function Judge(st: State, s: Snapshot, now: nat, o: Options, progress: bool): Evaluation
    requires |s.runFingerprint| >= 16
  {
    if Waits(s, now) then Evaluation(st.(status := ExpectedWait, lastSampleAt := Some(now)), [])
    else if progress then Evaluation(Cleared(st, now).(recoverySamples := 0), [])
    else if SuspicionType(s, now).None? then Evaluation(Cleared(st, now), [])
    else
      var suspect := Suspect(st, SuspicionType(s, now).value, now);
      if Confirmed(suspect, now, o)
      then Evaluation(suspect.(status := Alerted, alertedAt := now, recoverySamples := 0),
                      [Stall(EventId(RunPrefix(s), suspect.incidentStartedAt), now)])
      else Evaluation(suspect, [])
  }

  /** A sample of the watched run while an incident is open. */
  function Follow(st: State, s: Snapshot, now: nat, o: Options, progress: bool, completion: bool): Evaluation
    requires |s.runFingerprint| >= 16
  {
    if !progress then
      Evaluation(st.(status := if Waits(s, now) then ExpectedWait else Alerted, lastSampleAt := Some(now)), [])
    else
      var samples := if completion then 2 else st.recoverySamples + 1;
      if samples < 2 then
        Evaluation(st.(recoverySamples := samples, status := Recovering, lastSampleAt := Some(now)), [])
      else
        Evaluation(ResetForSnapshot(st, s, now).(status := Healthy),
                   if o.notifyOnRecovery then [Recovery(EventId(RunPrefix(s), st.alertedAt), now)] else [])
  }

  function Watch(st: State, s: Snapshot, now: nat, o: Options): Evaluation
    requires |s.runFingerprint| >= 16
  {
    var completion := CompletionProgress(st, s);
    var progress := ByteProgress(st, s) || completion;
    var observed := Observe(st, s);
    if st.alertedAt > 0 then Follow(observed, s, now, o, progress, completion)
    else Judge(observed, s, now, o, progress)
  }

  function Evaluate(previous: State, s: Snapshot, nowValue: int, o: Options): Evaluation {
    var now := FiniteInteger(nowValue);
    if AwaitsRestart(previous, s) then Evaluation(previous.(status := Suspended, lastSampleAt := None), [])
    else if !Watchable(s) then Evaluation(EndIncident(Observe(previous, s)), [])
    else if !SameRun(previous, s) then Watch(ResetForSnapshot(previous, s, now), s, now, o)
    else if !previous.restartPending then Watch(previous, s, now, o)
    else
      var counted := previous.(restartFreshSamples := previous.restartFreshSamples + 1, lastSampleAt := Some(now));
      if counted.restartFreshSamples < 2 then Evaluation(Resync(counted, s), [])
      else Watch(counted.(restartPending := false), s, now, o)
  }

  // ---------------------------------------------------------------- the program

  method EvaluateDownloadHealth(previous: State, snapshot: Snapshot, nowValue: int, options: Options)
    returns (state: State, events: seq<Event>)
    ensures Evaluation(state, events) == Evaluate(previous, snapshot, nowValue, options)
  {
    var now := FiniteInteger(nowValue);
    state := previous;
    events := [];
    var validRun, validQueue := ValidFingerprint(snapshot.runFingerprint), ValidFingerprint(snapshot.queueFingerprint);

    if state.restartPending && !snapshot.runActive && !snapshot.terminalFailure && !snapshot.manualStop
       && !snapshot.shuttingDown {
      state := state.(status := Suspended);
      state := state.(lastSampleAt := None);
      return;
    }
    if !snapshot.runActive || snapshot.openItems <= 0 || snapshot.terminalFailure || snapshot.manualStop
       || snapshot.shuttingDown || !validRun || !validQueue {
      state := Advance(state, snapshot);
      state := EndIncident(state);
      return;
    }
    if || state.runFingerprint != Some(snapshot.runFingerprint)
       || state.queueFingerprint != Some(snapshot.queueFingerprint) {
      state := ResetForSnapshot(state, snapshot, now);
    }
    state := state.(runFingerprint := Some(snapshot.runFingerprint));
    state := state.(queueFingerprint := Some(snapshot.queueFingerprint));

    if state.restartPending {
      state := state.(restartFreshSamples := state.restartFreshSamples + 1);
      state := state.(lastSampleAt := Some(now));
      if state.restartFreshSamples < 2 {
        state := Resync(state, snapshot);
        return;
      }
      state := state.(restartPending := false);
    }
    state, events := WatchRun(state, snapshot, now, options);
  }

  method Advance(st: State, snapshot: Snapshot) returns (state: State)
    ensures state == Observe(st, snapshot)
  {
    state := st;
    state := state.(downloadProgressSequence :=
      Max(state.downloadProgressSequence, FiniteInteger(snapshot.downloadProgressSequence)));
    state := state.(itemCompletionSequence :=
      Max(state.itemCompletionSequence, FiniteInteger(snapshot.itemCompletionSequence)));
    state := state.(lastPositiveByteAt := Max(state.lastPositiveByteAt, FiniteInteger(snapshot.lastPositiveByteAt)));
    state := state.(technicalRecoveryCount :=
      Max(state.technicalRecoveryCount, FiniteInteger(snapshot.technicalRecoveryCount)));
  }

  method WatchRun(st: State, snapshot: Snapshot, now: nat, options: Options) returns (state: State, events: seq<Event>)
    requires |snapshot.runFingerprint| >= 16
    ensures Evaluation(state, events) == Watch(st, snapshot, now, options)
  {
    events := [];
    var completionProgress := FiniteInteger(snapshot.itemCompletionSequence) > st.itemCompletionSequence;
    var positiveByteProgress := FiniteInteger(snapshot.downloadProgressSequence) > st.downloadProgressSequence;
    var progress := positiveByteProgress || completionProgress;
    state := Advance(st, snapshot);

    if state.alertedAt > 0 && progress {
      state := state.(recoverySamples := if completionProgress then 2 else state.recoverySamples + 1);
      if state.recoverySamples >= 2 {
        if options.notifyOnRecovery {
          events := events + [Recovery(EventId(RunPrefix(snapshot), state.alertedAt), now)];
        }
        var recovered := ResetForSnapshot(state, snapshot, now);
        recovered := recovered.(status := Healthy);
        recovered := recovered.(lastAlertAt := state.lastAlertAt);
        recovered := recovered.(cooldownUntil := state.cooldownUntil);
        return recovered, events;
      }
      state := state.(status := Recovering);
      state := state.(lastSampleAt := Some(now));
      return;
    }
    if state.alertedAt > 0 {
      state := state.(status := if Waits(snapshot, now) then ExpectedWait else Alerted);
      state := state.(lastSampleAt := Some(now));
      return;
    }
    state, events := JudgeRun(state, snapshot, now, options, progress);
  }

  method JudgeRun(st: State, snapshot: Snapshot, now: nat, options: Options, progress: bool)
    returns (state: State, events: seq<Event>)
    requires |snapshot.runFingerprint| >= 16
    ensures Evaluation(state, events) == Judge(st, snapshot, now, options, progress)
  {
    state := st;
    events := [];
    if Waits(snapshot, now) {
      state := state.(status := ExpectedWait);
      state := state.(lastSampleAt := Some(now));
      return;
    }
    if progress {
      state := state.(status := Healthy, suspiciousDurationMs := 0, suspiciousSamples := 0, incidentStartedAt := 0,
                      incidentType := None, recoverySamples := 0, lastSampleAt := Some(now));
      return;
    }
    var incidentType := SuspicionType(snapshot, now);
    if incidentType.None? {
      state := state.(status := Healthy, suspiciousDurationMs := 0, suspiciousSamples := 0, incidentStartedAt := 0,
                      incidentType := None, lastSampleAt := Some(now));
      return;
    }
    var elapsed := if state.lastSampleAt.None? then 0 else FiniteInteger(now - state.lastSampleAt.value);
    if state.incidentStartedAt <= 0 { state := state.(incidentStartedAt := now); }
    state := state.(suspiciousDurationMs := state.suspiciousDurationMs + elapsed,
                    suspiciousSamples := state.suspiciousSamples + 1, incidentType := incidentType,
                    status := if incidentType.value.Scheduler? then SuspectScheduler else SuspectNoData,
                    lastSampleAt := Some(now));
    assert state == Suspect(st, incidentType.value, now);

    var confirmed :=
      state.suspiciousDurationMs >= StallAfter(options) && state.suspiciousSamples >= MIN_SUSPICIOUS_SAMPLES;
    if confirmed && options.notifyOnStall && now >= state.cooldownUntil {
      state := state.(status := Alerted, alertedAt := now, recoverySamples := 0);
      events := events + [Stall(EventId(RunPrefix(snapshot), state.incidentStartedAt), now)];
    }
  }
}
