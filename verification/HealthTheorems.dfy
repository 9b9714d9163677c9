/** What holds over every run of the health machine. */
module HealthTheorems {
  import opened Common
  import opened HealthEvaluation

  // ---------------------------------------------------------------- one sample

  predicate Emits(e: Evaluation, stall: bool) { |e.events| == 1 && e.events[0].Stall? == stall }

  /** How one evaluation may change the incident part of the state, and what it may emit. */
  ghost predicate Effect(previous: State, e: Evaluation, now: nat) {
    && (e.events == [] || Emits(e, true) || Emits(e, false))
    && e.state.cooldownUntil == previous.cooldownUntil
    && (Emits(e, true) ==>
          && previous.alertedAt == 0 && e.state.alertedAt == now && now >= previous.cooldownUntil
          && previous.suspiciousSamples >= 2
          && e.events[0].id.number == e.state.incidentStartedAt && e.events[0].createdAt == now
          && (previous.incidentStartedAt > 0 ==> e.state.incidentStartedAt == previous.incidentStartedAt))
    && (Emits(e, false) ==> previous.alertedAt > 0 && e.state.alertedAt == 0)
    && (!Emits(e, true) ==> e.state.alertedAt == 0 || e.state.alertedAt == previous.alertedAt)
    && (e.state.incidentStartedAt == 0 || e.state.incidentStartedAt == now
        || (e.state.incidentStartedAt == previous.incidentStartedAt
            && (previous.alertedAt > 0 ==> e.state.alertedAt > 0)))
    && (previous.alertedAt > 0 && e.state.alertedAt > 0 ==> e.state.incidentStartedAt == previous.incidentStartedAt)
    && (now > 0 && (previous.suspiciousSamples > 0 ==> previous.incidentStartedAt > 0) ==>
          (e.state.suspiciousSamples > 0 ==> e.state.incidentStartedAt > 0))
  }

  lemma JudgeEffect(st: State, s: Snapshot, now: nat, o: Options, progress: bool)
    requires |s.runFingerprint| >= 16 && st.alertedAt == 0
    ensures Effect(st, Judge(st, s, now, o, progress), now)
  {
    hide Waits, SuspicionType, StallAfter;
  }

  lemma FollowEffect(st: State, s: Snapshot, now: nat, o: Options, progress: bool, completion: bool)
    requires |s.runFingerprint| >= 16 && st.alertedAt > 0
    ensures Effect(st, Follow(st, s, now, o, progress, completion), now)
  {
    hide Waits;
  }

  lemma WatchEffect(st: State, s: Snapshot, now: nat, o: Options)
    requires |s.runFingerprint| >= 16
    ensures Effect(st, Watch(st, s, now, o), now)
  {
    hide Judge, Follow, ByteProgress, CompletionProgress;
    var completion := CompletionProgress(st, s);
    var progress := ByteProgress(st, s) || completion;
    if st.alertedAt > 0 {
      FollowEffect(Observe(st, s), s, now, o, progress, completion);
    } else {
      JudgeEffect(Observe(st, s), s, now, o, progress);
    }
  }

  lemma IdleEffect(previous: State, s: Snapshot, nowValue: int, o: Options)
    requires !Watchable(s)
    ensures Effect(previous, Evaluate(previous, s, nowValue, o), FiniteInteger(nowValue))
  {
    hide Watch, ValidFingerprint;
  }

  /** The first sample after a restart only resynchronises. */
  lemma GraceEffect(previous: State, s: Snapshot, nowValue: int, o: Options)
    requires Watchable(s) && SameRun(previous, s) && previous.restartPending && previous.restartFreshSamples + 1 < 2
    ensures Effect(previous, Evaluate(previous, s, nowValue, o), FiniteInteger(nowValue))
  {
    hide Watch, Watchable;
  }

  /** Starting over for another run emits nothing. */
  lemma ResetEffect(previous: State, reset: State, e: Evaluation, now: nat)
    requires Effect(reset, e, now) && reset.cooldownUntil == previous.cooldownUntil
    requires reset.alertedAt == 0 && reset.suspiciousSamples == 0 && reset.incidentStartedAt == 0
    ensures Effect(previous, e, now)
  {}

  lemma SameEffect(previous: State, counted: State, e: Evaluation, now: nat)
    requires Effect(counted, e, now) && counted.cooldownUntil == previous.cooldownUntil
    requires counted.alertedAt == previous.alertedAt && counted.suspiciousSamples == previous.suspiciousSamples
    requires counted.incidentStartedAt == previous.incidentStartedAt
    ensures Effect(previous, e, now)
  {}

  lemma IncidentEffect(previous: State, s: Snapshot, nowValue: int, o: Options)
    ensures Effect(previous, Evaluate(previous, s, nowValue, o), FiniteInteger(nowValue))
  {
    hide Watch, Effect, ValidFingerprint;
    var now := FiniteInteger(nowValue);
    Lengths(s);
    if !Watchable(s) {
      IdleEffect(previous, s, nowValue, o);
    } else if !SameRun(previous, s) {
      var reset := ResetForSnapshot(previous, s, now);
      WatchEffect(reset, s, now, o);
      ResetEffect(previous, reset, Watch(reset, s, now, o), now);
    } else if !previous.restartPending {
      WatchEffect(previous, s, now, o);
    } else if previous.restartFreshSamples + 1 < 2 {
      GraceEffect(previous, s, nowValue, o);
    } else {
      var counted := previous.(restartFreshSamples := previous.restartFreshSamples + 1, lastSampleAt := Some(now),
                               restartPending := false);
      WatchEffect(counted, s, now, o);
      SameEffect(previous, counted, Watch(counted, s, now, o), now);
    }
  }

  lemma JudgeKeepsDelivery(st: State, s: Snapshot, now: nat, o: Options, progress: bool, completion: bool)
    requires |s.runFingerprint| >= 16
    ensures Judge(st, s, now, o, progress).state.lastDeliveredStallEventId == st.lastDeliveredStallEventId
    ensures Follow(st, s, now, o, progress, completion).state.lastDeliveredStallEventId == st.lastDeliveredStallEventId
  {
    hide Waits, SuspicionType, Confirmed;
  }

  lemma WatchKeepsDelivery(st: State, s: Snapshot, now: nat, o: Options)
    requires |s.runFingerprint| >= 16
    ensures Watch(st, s, now, o).state.lastDeliveredStallEventId == st.lastDeliveredStallEventId
  {
    hide Judge, Follow, ByteProgress, CompletionProgress;
    var completion := CompletionProgress(st, s);
    JudgeKeepsDelivery(Observe(st, s), s, now, o, ByteProgress(st, s) || completion, completion);
  }

  /** No sample touches what an acknowledgement has left. */
  lemma DeliveryIsKept(previous: State, s: Snapshot, nowValue: int, o: Options)
    ensures Evaluate(previous, s, nowValue, o).state.lastDeliveredStallEventId == previous.lastDeliveredStallEventId
  {
    hide Watch, Watchable, AwaitsRestart, SameRun;
    var now := FiniteInteger(nowValue);
    Lengths(s);
    if Watchable(s) {
      WatchKeepsDelivery(previous, s, now, o);
      WatchKeepsDelivery(ResetForSnapshot(previous, s, now), s, now, o);
      WatchKeepsDelivery(previous.(restartFreshSamples := previous.restartFreshSamples + 1, lastSampleAt := Some(now),
                                   restartPending := false), s, now, o);
    }
  }

  /** A stall is only ever emitted for the run the state already belongs to. */
  lemma StallBelongsToRun(st: State, s: Snapshot, now: int, o: Options)
    requires Emits(Evaluate(st, s, now, o), true)
    ensures SameRun(st, s) && |s.runFingerprint| == 64
    ensures Evaluate(st, s, now, o).events[0].id.runPrefix == RunPrefix(s)
  {
    hide ValidFingerprint, Watch;
    Lengths(s);
    StallPrefix(st, s, FiniteInteger(now), o);
    StallPrefix(ResetForSnapshot(st, s, FiniteInteger(now)), s, FiniteInteger(now), o);
    StallPrefix(st.(restartFreshSamples := st.restartFreshSamples + 1, lastSampleAt := Some(FiniteInteger(now)),
                    restartPending := false), s, FiniteInteger(now), o);
  }

  lemma StallPrefix(st: State, s: Snapshot, now: nat, o: Options)
    ensures |s.runFingerprint| >= 16 && Emits(Watch(st, s, now, o), true) ==>
              st.suspiciousSamples >= 2 && Watch(st, s, now, o).events[0].id.runPrefix == RunPrefix(s)
  {
    hide Waits, SuspicionType, StallAfter;
  }

  lemma Lengths(s: Snapshot)
    ensures Watchable(s) ==> |s.runFingerprint| == 64
  {}

  /** If the events of a sample were enqueued but its state was not committed, a stall emitted later from the same
      state carries the same event id, whatever the later sample says. */
  lemma RetriedStallKeepsItsId(st: State, s: Snapshot, now: int, o: Options, s': Snapshot, now': int, o': Options)
    requires st.suspiciousSamples > 0 ==> st.incidentStartedAt > 0
    requires Emits(Evaluate(st, s, now, o), true) && Emits(Evaluate(st, s', now', o'), true)
    ensures Evaluate(st, s, now, o).events[0].id == Evaluate(st, s', now', o').events[0].id
  {
    hide Evaluate;
    IncidentEffect(st, s, now, o);
    IncidentEffect(st, s', now', o');
    StallBelongsToRun(st, s, now, o);
    StallBelongsToRun(st, s', now', o');
  }

  /** The same for a recovery. */
  lemma RetriedRecoveryKeepsItsId(st: State, s: Snapshot, now: int, o: Options, s': Snapshot, now': int, o': Options)
    requires Emits(Evaluate(st, s, now, o), false) && Emits(Evaluate(st, s', now', o'), false)
    ensures Evaluate(st, s, now, o).events[0].id == Evaluate(st, s', now', o').events[0].id
  {
    RecoveryEffect(st, s, now, o);
    RecoveryEffect(st, s', now', o');
  }

  lemma RecoveryEffect(st: State, s: Snapshot, now: int, o: Options)
    requires Emits(Evaluate(st, s, now, o), false)
    ensures SameRun(st, s) && |s.runFingerprint| == 64
    ensures Evaluate(st, s, now, o).events[0] == Recovery(EventId(RunPrefix(s), st.alertedAt), FiniteInteger(now))
  {
    hide ValidFingerprint, Waits, SuspicionType, ByteProgress, CompletionProgress, StallAfter;
    Lengths(s);
  }
}
