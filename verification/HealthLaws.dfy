/** What each kind of sample does to suspicion and incident (src/main/download-health-monitor.ts:98-121, 191-401), and
    what that means over runs: how long a stall takes after the last sign of life, and how an incident ends. */
module HealthLaws {
  import opened Common
  import opened HealthEvaluation
  import opened HealthTheorems
  import opened HealthTiming

  // ---------------------------------------------------------------- which samples count

  predicate Fingerprint(s: string) { |s| == 64 && forall c :: c in s ==> c in "0123456789abcdef" }

  lemma FingerprintIsValid(s: string)
    ensures Fingerprint(s) <==> ValidFingerprint(s)
  {
    if Fingerprint(s) { assert forall i :: 0 <= i < 64 ==> s[i] in s; }
    if ValidFingerprint(s) { assert forall c :: c in s ==> c in "0123456789abcdef"; }
  }

  /** Field by field: there is a run with open files and with both fingerprints, and nobody has stopped it. */
  lemma WhatIsWatched(s: Snapshot)
    ensures Watchable(s) <==>
              && s.runActive && s.openItems >= 1 && !(s.terminalFailure || s.manualStop || s.shuttingDown)
              && Fingerprint(s.runFingerprint) && Fingerprint(s.queueFingerprint)
  {
    FingerprintIsValid(s.runFingerprint);
    FingerprintIsValid(s.queueFingerprint);
    hide ValidFingerprint, Fingerprint;
  }

  /** And for its sample to count against it, nothing is being waited for, and either something is active, or nothing
      could be started, or the scheduler has not ticked for half a minute. */
  lemma WhatCounts(x: Sample)
    ensures Counts(x) <==>
              && Watchable(x.s) && !(x.s.paused || x.s.blockedOnDisk)
              && x.now >= x.s.reconnectUntil && x.now >= x.s.nextRetryAt && x.now >= x.s.providerCooldownUntil
              && x.now >= x.s.blockedOnThrottleUntil && x.now >= x.s.activePhaseDeadlineAt
              && (x.s.activeTasks != 0 || x.s.startableItems < 1
                  || x.s.lastSchedulerTickAt < 1 || x.now >= x.s.lastSchedulerTickAt + 30_000)
  {
    hide Watchable;
  }

  // ---------------------------------------------------------------- samples of the run already watched

  /** The run of the state, and after a restart not its first sample. */
  predicate Followed(st: State, s: Snapshot) {
    Watchable(s) && SameRun(st, s) && (st.restartPending ==> st.restartFreshSamples >= 1)
  }

  /** The counters of the snapshot are ahead of the known ones. */
  predicate MoreBytes(st: State, s: Snapshot) { s.downloadProgressSequence > st.downloadProgressSequence }

  predicate MoreFiles(st: State, s: Snapshot) { s.itemCompletionSequence > st.itemCompletionSequence }

  predicate Moved(st: State, s: Snapshot) { MoreBytes(st, s) || MoreFiles(st, s) }

  predicate SameSuspicion(a: State, b: State) {
    && a.suspiciousDurationMs == b.suspiciousDurationMs && a.suspiciousSamples == b.suspiciousSamples
    && a.incidentStartedAt == b.incidentStartedAt && a.incidentType == b.incidentType
  }

  predicate Unsuspected(st: State) {
    st.suspiciousDurationMs == 0 && st.suspiciousSamples == 0 && st.incidentStartedAt == 0 && st.incidentType == None
  }

  /** It is still watched, at this time. */
  predicate StillFollowed(st: State, x: Sample) {
    SameRun(st, x.s) && !st.restartPending && st.lastSampleAt == Some(x.now)
  }

  /** What a followed sample comes to does not depend on where the state comes from. */
  lemma FollowedIsWatched(st: State, x: Sample)
    requires Followed(st, x.s)
    ensures |x.s.runFingerprint| == 64
    ensures Eval(st, x) == Watch(if st.restartPending
                                 then st.(restartFreshSamples := st.restartFreshSamples + 1, restartPending := false,
                                          lastSampleAt := Some(x.now))
                                 else st, x.s, x.now, x.o)
  {
    hide Watch, ValidFingerprint;
    Lengths(x.s);
  }

  /** Progress clears the suspicion, and so does a scheduler that is alive with nothing active; unless an incident is
      open or the sample is one of an expected wait. */
  lemma MovingClears(st: State, x: Sample)
    requires Followed(st, x.s) && st.alertedAt == 0 && !Waits(x.s, x.now)
    requires Moved(st, x.s) || SuspicionType(x.s, x.now).None?
    ensures var e := Eval(st, x);
            && e.events == [] && e.state.status.Healthy? && e.state.alertedAt == 0
            && Unsuspected(e.state) && StillFollowed(e.state, x)
            && (Moved(st, x.s) ==> e.state.recoverySamples == 0)
  {
    FollowedIsWatched(st, x);
    hide Watchable, Waits, SuspicionType;
  }

  /** An expected wait neither clears nor adds, whatever has moved. */
  lemma WaitingKeeps(st: State, x: Sample)
    requires Followed(st, x.s) && st.alertedAt == 0 && Waits(x.s, x.now)
    ensures var e := Eval(st, x);
            && e.events == [] && e.state.status.ExpectedWait? && e.state.alertedAt == 0
            && SameSuspicion(e.state, st) && StillFollowed(e.state, x)
  {
    FollowedIsWatched(st, x);
    hide Watchable, Waits, SuspicionType;
  }

  /** The time since the sample before; the sample before a restart is not one. */
  function Gap(st: State, now: nat): nat {
    if st.restartPending || st.lastSampleAt.None? || now < st.lastSampleAt.value then 0
    else now - st.lastSampleAt.value
  }

  /** A sample that counts adds itself and the gap before it, and it reports a stall if and only if that reaches the
      threshold with at least three of them, stalls are to be reported and the cooldown is over; the stall carries the
      time of the first of them. */
  lemma CountingAdds(st: State, x: Sample)
    requires Followed(st, x.s) && st.alertedAt == 0 && Counts(x) && !Moved(st, x.s)
    ensures |x.s.runFingerprint| == 64
    ensures var e := Eval(st, x);
            var duration := st.suspiciousDurationMs + Gap(st, x.now);
            var started := if st.incidentStartedAt == 0 then x.now else st.incidentStartedAt;
            var stalls := && duration >= (if x.o.stallAfterMs.None? then 90_000 else x.o.stallAfterMs.value)
                          && st.suspiciousSamples >= 2 && x.o.notifyOnStall && x.now >= st.cooldownUntil;
            && e.state.suspiciousDurationMs == duration && e.state.suspiciousSamples == st.suspiciousSamples + 1
            && e.state.incidentStartedAt == started && StillFollowed(e.state, x)
            && e.state.incidentType
               == Some(if x.s.activeTasks == 0 && x.s.startableItems > 0 then Scheduler else NoData)
            && (if stalls then
                  && e.events == [Stall(EventId(x.s.runFingerprint[..16], started), x.now)]
                  && e.state.status.Alerted? && e.state.alertedAt == x.now && e.state.recoverySamples == 0
                else
                  && e.events == [] && e.state.alertedAt == 0
                  && e.state.status == if e.state.incidentType == Some(Scheduler) then SuspectScheduler
                                       else SuspectNoData)
  {
    FollowedIsWatched(st, x);
    hide Watchable, Waits, ValidFingerprint;
  }

  /** While an incident is open it stays as it is until a file completes or a second sample shows progress; that sample
      ends it, and reports so if recoveries are to be reported. */
  lemma OpenIncident(st: State, x: Sample)
    requires Followed(st, x.s) && st.alertedAt > 0
    ensures |x.s.runFingerprint| == 64
    ensures var e := Eval(st, x);
            StillFollowed(e.state, x)
            && if MoreFiles(st, x.s) || (MoreBytes(st, x.s) && st.recoverySamples >= 1) then
                 && e.state.alertedAt == 0 && Unsuspected(e.state) && e.state.recoverySamples == 0
                 && e.state.status.Healthy?
                 && e.events == if x.o.notifyOnRecovery
                                then [Recovery(EventId(x.s.runFingerprint[..16], st.alertedAt), x.now)] else []
               else
                 && e.events == [] && e.state.alertedAt == st.alertedAt && SameSuspicion(e.state, st)
                 && e.state.recoverySamples == (if MoreBytes(st, x.s) then 1 else st.recoverySamples)
                 && e.state.status == (if MoreBytes(st, x.s) then Recovering
                                       else if Waits(x.s, x.now) then ExpectedWait else Alerted)
  {
    FollowedIsWatched(st, x);
    hide Watchable, Waits, SuspicionType;
  }

  // ---------------------------------------------------------------- the other samples

  /** A sample of another run starts over: what was suspected or open is gone, and the sample itself is the first that
      can count. */
  lemma OtherRunStartsOver(st: State, x: Sample)
    requires Watchable(x.s)
    requires st.runFingerprint != Some(x.s.runFingerprint) || st.queueFingerprint != Some(x.s.queueFingerprint)
    ensures var e := Eval(st, x);
            && e.events == [] && e.state.alertedAt == 0 && e.state.recoverySamples == 0 && StillFollowed(e.state, x)
            && (if Counts(x) then
                  && e.state.suspiciousDurationMs == 0 && e.state.suspiciousSamples == 1
                  && e.state.incidentStartedAt == x.now
                  && (e.state.status.SuspectScheduler? || e.state.status.SuspectNoData?)
                else
                  && Unsuspected(e.state)
                  && e.state.status == if Waits(x.s, x.now) then ExpectedWait else Healthy)
  {
    Lengths(x.s);
    hide ValidFingerprint, Waits, SuspicionType;
  }

  /** Nothing has resumed the run since a restart, and nobody has stopped it. */
  predicate Unresumed(st: State, s: Snapshot) {
    st.restartPending && !s.runActive && !(s.terminalFailure || s.manualStop || s.shuttingDown)
  }

  /** Until the run is resumed after a restart, everything is kept. */
  lemma UnresumedKeeps(st: State, x: Sample)
    requires Unresumed(st, x.s)
    ensures Eval(st, x) == Evaluation(st.(status := Suspended, lastSampleAt := None), [])
  {}

  /** Without a run to watch, suspicion and incident are gone and the run is forgotten. */
  lemma UnwatchedForgets(st: State, x: Sample)
    requires !Watchable(x.s) && !Unresumed(st, x.s)
    ensures var e := Eval(st, x);
            && e.events == [] && e.state.status.Idle? && e.state.alertedAt == 0 && Unsuspected(e.state)
            && e.state.recoverySamples == 0 && e.state.runFingerprint == None && e.state.queueFingerprint == None
            && e.state.lastSampleAt == None && !e.state.restartPending && e.state.restartFreshSamples == 0
  {
    hide Watchable, Watch;
  }

  /** The first sample of the resumed run after a restart is not judged. */
  lemma FirstSampleIsNotJudged(st: State, x: Sample)
    requires Watchable(x.s) && SameRun(st, x.s) && st.restartPending && st.restartFreshSamples == 0
    ensures var e := Eval(st, x);
            && e.events == [] && e.state.status == st.status && e.state.alertedAt == st.alertedAt
            && SameSuspicion(e.state, st) && e.state.recoverySamples == st.recoverySamples && SameRun(e.state, x.s)
            && e.state.restartPending && e.state.restartFreshSamples == 1 && e.state.lastSampleAt == Some(x.now)
  {
    hide Watch, Waits, SuspicionType;
  }

  // ---------------------------------------------------------------- what every sample keeps

  datatype Counters = Counters(bytes: int, files: int, lastByteAt: int, recoveries: int)

  function CountersOf(st: State): Counters {
    Counters(st.downloadProgressSequence, st.itemCompletionSequence, st.lastPositiveByteAt, st.technicalRecoveryCount)
  }

  function CountersIn(s: Snapshot): Counters {
    Counters(Max(0, s.downloadProgressSequence), Max(0, s.itemCompletionSequence), Max(0, s.lastPositiveByteAt),
             Max(0, s.technicalRecoveryCount))
  }

  function Later(a: Counters, b: Counters): Counters {
    Counters(Max(a.bytes, b.bytes), Max(a.files, b.files), Max(a.lastByteAt, b.lastByteAt),
             Max(a.recoveries, b.recoveries))
  }

  predicate EndsIncident(st: State, s: Snapshot) {
    st.alertedAt > 0 && (MoreFiles(st, s) || (MoreBytes(st, s) && st.recoverySamples >= 1))
  }

  lemma PartsKeepCounters(st: State, s: Snapshot, now: nat, o: Options, progress: bool, completion: bool)
    requires |s.runFingerprint| >= 16
    ensures CountersOf(Judge(st, s, now, o, progress).state) == CountersOf(st)
    ensures CountersOf(Follow(st, s, now, o, progress, completion).state)
            == if progress && (completion || st.recoverySamples >= 1) then CountersIn(s) else CountersOf(st)
  {
    hide Waits, SuspicionType, Confirmed;
  }

  lemma ObservedCounters(st: State, s: Snapshot)
    ensures CountersOf(Observe(st, s)) == Later(CountersOf(st), CountersIn(s))
  {}

  lemma FollowedCounters(st: State, x: Sample)
    requires Followed(st, x.s)
    ensures CountersOf(Eval(st, x).state)
            == if EndsIncident(st, x.s) then CountersIn(x.s) else Later(CountersOf(st), CountersIn(x.s))
  {
    FollowedIsWatched(st, x);
    var b := if st.restartPending
             then st.(restartFreshSamples := st.restartFreshSamples + 1, restartPending := false,
                      lastSampleAt := Some(x.now))
             else st;
    var completion := CompletionProgress(b, x.s);
    PartsKeepCounters(Observe(b, x.s), x.s, x.now, x.o, ByteProgress(b, x.s) || completion, completion);
    ObservedCounters(b, x.s);
    hide Judge, Follow, CountersIn, Later, Eval, Followed;
  }

  lemma OtherCounters(st: State, x: Sample)
    requires !Followed(st, x.s)
    ensures CountersOf(Eval(st, x).state)
            == if Unresumed(st, x.s) then CountersOf(st)
               else if Watchable(x.s) then CountersIn(x.s)
               else Later(CountersOf(st), CountersIn(x.s))
  {
    Lengths(x.s);
    hide ValidFingerprint, Waits, SuspicionType, StallAfter;
  }

  lemma UnresumedIsNotWatched(st: State, s: Snapshot)
    ensures Unresumed(st, s) ==> !Watchable(s)
  {
    hide ValidFingerprint;
  }

  /** The counters of the snapshot are taken as they are where a count begins anew: in another run, at the first sample
      after a restart, and at the end of an incident.  Else the known ones never go back. */
  lemma CountersAdvance(st: State, x: Sample)
    ensures CountersOf(Eval(st, x).state)
            == if Unresumed(st, x.s) then CountersOf(st)
               else if Watchable(x.s) && (!Followed(st, x.s) || EndsIncident(st, x.s)) then CountersIn(x.s)
               else Later(CountersOf(st), CountersIn(x.s))
  {
    UnresumedIsNotWatched(st, x.s);
    hide Eval, Unresumed, EndsIncident, Watchable;
    if Followed(st, x.s) { FollowedCounters(st, x); } else { OtherCounters(st, x); }
  }

  lemma WatchKeepsAlert(st: State, s: Snapshot, now: nat, o: Options)
    requires |s.runFingerprint| >= 16
    ensures Watch(st, s, now, o).state.lastAlertAt == st.lastAlertAt
  {
    hide ByteProgress, CompletionProgress, Waits, SuspicionType, Confirmed;
  }

  /** No sample touches what acknowledgements have left. */
  lemma AlertsAreKept(st: State, x: Sample)
    ensures Eval(st, x).state.lastAlertAt == st.lastAlertAt && Eval(st, x).state.cooldownUntil == st.cooldownUntil
  {
    IncidentEffect(st, x.s, x.now, x.o);
    AlertIsKept(st, x);
    hide Evaluate;
  }

  lemma AlertIsKept(st: State, x: Sample)
    ensures Eval(st, x).state.lastAlertAt == st.lastAlertAt
  {
    hide Watch, Watchable, AwaitsRestart, SameRun;
    Lengths(x.s);
    if Watchable(x.s) {
      WatchKeepsAlert(st, x.s, x.now, x.o);
      WatchKeepsAlert(ResetForSnapshot(st, x.s, x.now), x.s, x.now, x.o);
      WatchKeepsAlert(st.(restartFreshSamples := st.restartFreshSamples + 1, lastSampleAt := Some(x.now),
                          restartPending := false), x.s, x.now, x.o);
    }
  }

  /** A new monitor suspects nothing, has alerted of nothing, and counts all progress from zero. */
  lemma NewMonitorKnowsNothing()
    ensures Unsuspected(Fresh) && CountersOf(Fresh) == Counters(0, 0, 0, 0) && Fresh.recoverySamples == 0
    ensures Fresh.alertedAt == Fresh.lastAlertAt == Fresh.cooldownUntil == 0 && Fresh.lastDeliveredStallEventId == None
    ensures !Fresh.restartPending && Fresh.runFingerprint == None && Fresh.lastSampleAt == None && Fresh.status == Idle
  {}

  // ---------------------------------------------------------------- a stall, exactly

  /** Every sample is one of the run watched, with no incident open, and is either an expected wait or counts and shows
      no progress. */
  ghost predicate StandsStill(st: State, samples: seq<Sample>)
    decreases |samples|
  {
    samples == []
    || (var n := |samples| - 1;
        var before := After(st, samples[..n]);
        && StandsStill(st, samples[..n]) && before.alertedAt == 0 && Followed(before, samples[n].s)
        && (Waits(samples[n].s, samples[n].now) || (Counts(samples[n]) && !Moved(before, samples[n].s))))
  }

  /** Suspicion is the counted time since the last sign of life. */
  lemma {:induction false} SuspicionSince(st: State, from: nat, samples: seq<Sample>)
    requires NonDecreasing(from, samples) && StandsStill(st, samples)
    requires Unsuspected(st) && st.lastSampleAt == Some(from) && !st.restartPending
    ensures var end := After(st, samples);
            && end.suspiciousDurationMs == CountedTime(from, samples)
            && end.suspiciousSamples == CountedSamples(samples)
            && end.cooldownUntil == st.cooldownUntil
            && end.lastSampleAt == Some(LastTime(from, samples)) && !end.restartPending
    decreases |samples|
  {
    hide Eval, Counts, Waits, Moved, Followed;
    if samples != [] {
      var n := |samples| - 1;
      SuspicionSince(st, from, samples[..n]);
      StandingStep(After(st, samples[..n]), samples[n]);
    }
  }

  lemma StandingStep(st: State, x: Sample)
    requires Followed(st, x.s) && st.alertedAt == 0 && !st.restartPending
    requires Waits(x.s, x.now) || (Counts(x) && !Moved(st, x.s))
    requires st.lastSampleAt.Some? && st.lastSampleAt.value <= x.now
    ensures var t := Eval(st, x).state;
            && t.suspiciousDurationMs
               == st.suspiciousDurationMs + (if Counts(x) then x.now - st.lastSampleAt.value else 0)
            && t.suspiciousSamples == st.suspiciousSamples + (if Counts(x) then 1 else 0)
            && t.cooldownUntil == st.cooldownUntil && t.lastSampleAt == Some(x.now) && !t.restartPending
  {
    AlertsAreKept(st, x);
    if Waits(x.s, x.now) { WaitingKeeps(st, x); } else { CountingAdds(st, x); }
    hide Eval, Followed, Waits, Watchable;
  }

  /** A sign of life: a sample of the run watched, no incident open and no wait expected, that shows progress or a
      living scheduler. */
  predicate SignOfLife(st: State, x: Sample) {
    Followed(st, x.s) && st.alertedAt == 0 && !Waits(x.s, x.now)
    && (Moved(st, x.s) || SuspicionType(x.s, x.now).None?)
  }

  lemma LifeBegins(st: State, life: Sample)
    requires SignOfLife(st, life)
    ensures var t := Eval(st, life).state;
            && Unsuspected(t) && t.lastSampleAt == Some(life.now) && !t.restartPending && t.alertedAt == 0
            && t.cooldownUntil == st.cooldownUntil
    ensures !Emits(Eval(st, life), true)
  {
    hide Eval;
    MovingClears(st, life);
    AlertsAreKept(st, life);
  }

  /** Exactly when a stall is reported.  After a sign of life and while the run stands still, a sample that counts
      reports a stall if and only if the time that counts since that sign of life reaches the threshold, at least three
      samples since have counted, stalls are to be reported, and the cooldown is over. */
  lemma StallExactly(st: State, life: Sample, samples: seq<Sample>)
    requires SignOfLife(st, life) && samples != [] && NonDecreasing(life.now, samples)
    requires StandsStill(Eval(st, life).state, samples) && Counts(samples[|samples| - 1])
    ensures var n := |samples| - 1;
            var last := samples[n];
            Emits(Eval(After(Eval(st, life).state, samples[..n]), last), true)
            <==> && CountedTime(life.now, samples)
                      >= (if last.o.stallAfterMs.None? then 90_000 else last.o.stallAfterMs.value)
                 && CountedSamples(samples) >= 3 && last.o.notifyOnStall && last.now >= st.cooldownUntil
  {
    hide Eval, Followed, Waits, Moved, NonDecreasing, SignOfLife, Counts, StandsStill, After;
    hide CountedTime, CountedSamples, Unsuspected, StillFollowed;
    LifeBegins(st, life);
    var begun := Eval(st, life).state;
    var n := |samples| - 1;
    Earlier(life.now, samples, n);
    LastStands(begun, life.now, samples);
    SuspicionSince(begun, life.now, samples[..n]);
    var before := After(begun, samples[..n]);
    CountsDoesNotWait(samples[n]);
    CountingAdds(before, samples[n]);
  }

  lemma CountsDoesNotWait(x: Sample)
    ensures Counts(x) ==> !Waits(x.s, x.now)
  {}

  lemma Earlier(from: nat, samples: seq<Sample>, n: nat)
    requires NonDecreasing(from, samples) && n < |samples|
    ensures NonDecreasing(from, samples[..n]) && LastTime(from, samples[..n]) <= samples[n].now
  {}

  lemma LastStands(st: State, from: nat, samples: seq<Sample>)
    requires samples != [] && StandsStill(st, samples) && Counts(samples[|samples| - 1])
    requires NonDecreasing(from, samples) && NonDecreasing(from, samples[..|samples| - 1])
    ensures var n := |samples| - 1;
            var before := After(st, samples[..n]);
            && StandsStill(st, samples[..n]) && before.alertedAt == 0 && Followed(before, samples[n].s)
            && !Moved(before, samples[n].s)
            && CountedTime(from, samples)
               == CountedTime(from, samples[..n]) + (samples[n].now - LastTime(from, samples[..n]))
            && CountedSamples(samples) == CountedSamples(samples[..n]) + 1
  {
    CountsDoesNotWait(samples[|samples| - 1]);
    hide Followed, Moved, Counts, Waits, After;
  }

  lemma {:induction false} AfterSplit(st: State, a: seq<Sample>, b: seq<Sample>)
    ensures After(st, a + b) == After(After(st, a), b)
    decreases |b|
  {
    hide Eval;
    if b != [] {
      assert (a + b)[..|a + b| - 1] == a + b[..|b| - 1];
      AfterSplit(st, a, b[..|b| - 1]);
    } else {
      assert a + b == a;
    }
  }

  lemma StallAfterLife(st: State, life: Sample, rest: seq<Sample>)
    requires SignOfLife(st, life) && rest != [] && NonDecreasing(life.now, rest)
    requires Emits(Eval(After(Eval(st, life).state, rest[..|rest| - 1]), rest[|rest| - 1]), true)
    ensures var last := rest[|rest| - 1];
            && CountedTime(life.now, rest) >= StallAfter(last.o) && last.now - life.now >= StallAfter(last.o)
            && CountedSamples(rest) >= 3
  {
    hide Eval, StallAfter, Counts, CountedTime, CountedSamples, After, Emits, NonDecreasing, SignOfLife;
    LifeBegins(st, life);
    StallIsNeverEarly(Eval(st, life).state, life.now, rest);
  }

  lemma LaterSamples(from: nat, samples: seq<Sample>, i: nat)
    requires NonDecreasing(from, samples) && i < |samples|
    ensures NonDecreasing(samples[i].now, samples[i + 1..])
  {}

  lemma AfterLife(st: State, samples: seq<Sample>, i: nat, m: nat)
    requires i < m <= |samples|
    ensures After(st, samples[..m]) == After(Eval(After(st, samples[..i]), samples[i]).state, samples[i + 1..m])
  {
    hide Eval;
    assert samples[..i + 1][..i] == samples[..i];
    assert samples[..m] == samples[..i + 1] + samples[i + 1..m];
    AfterSplit(st, samples[..i + 1], samples[i + 1..m]);
  }

  /** Over every run, whatever other samples come between, a stall is reported only when the counted time since every
      sign of life in the run has reached the threshold, with at least three counted samples since it. */
  lemma StallComesLongAfterLife(st: State, from: nat, samples: seq<Sample>, i: nat)
    requires NonDecreasing(from, samples) && i < |samples| && SignOfLife(After(st, samples[..i]), samples[i])
    requires Emits(Eval(After(st, samples[..|samples| - 1]), samples[|samples| - 1]), true)
    ensures NonDecreasing(samples[i].now, samples[i + 1..]) && i + 1 < |samples|
    ensures var last := samples[|samples| - 1];
            && CountedTime(samples[i].now, samples[i + 1..]) >= StallAfter(last.o)
            && last.now - samples[i].now >= StallAfter(last.o) && CountedSamples(samples[i + 1..]) >= 3
  {
    hide Eval, StallAfter, Counts, SignOfLife, CountedTime, CountedSamples, After, Emits, NonDecreasing, Unsuspected;
    LaterSamples(from, samples, i);
    LifeBegins(After(st, samples[..i]), samples[i]);
    var m, rest := |samples| - 1, samples[i + 1..];
    if i < m {
      AfterLife(st, samples, i, m);
      assert rest[..|rest| - 1] == samples[i + 1..m];
      StallAfterLife(After(st, samples[..i]), samples[i], rest);
    }
  }

  // ---------------------------------------------------------------- the end of an incident, exactly

  /** All samples are of the run watched. */
  ghost predicate AllFollowed(st: State, samples: seq<Sample>) {
    forall i :: 0 <= i < |samples| ==> Followed(After(st, samples[..i]), samples[i].s)
  }

  function Moves(st: State, samples: seq<Sample>): nat
    decreases |samples|
  {
    if samples == [] then 0
    else
      var n := |samples| - 1;
      Moves(st, samples[..n]) + (if Moved(After(st, samples[..n]), samples[n].s) then 1 else 0)
  }

  ghost predicate NoFileDone(st: State, samples: seq<Sample>) {
    forall i :: 0 <= i < |samples| ==> !MoreFiles(After(st, samples[..i]), samples[i].s)
  }

  lemma {:induction false} IncidentStaysOpen(st: State, samples: seq<Sample>)
    requires st.alertedAt > 0 && st.recoverySamples == 0
    requires AllFollowed(st, samples) && NoFileDone(st, samples) && Moves(st, samples) <= 1
    ensures After(st, samples).alertedAt == st.alertedAt && After(st, samples).recoverySamples == Moves(st, samples)
    decreases |samples|
  {
    hide Eval, MoreFiles, Followed;
    if samples != [] {
      var n := |samples| - 1;
      assert forall i :: 0 <= i < n ==> samples[..n][..i] == samples[..i] && samples[..n][i] == samples[i];
      assert samples[..|samples|] == samples;
      IncidentStaysOpen(st, samples[..n]);
      OpenIncident(After(st, samples[..n]), samples[n]);
    }
  }

  /** After a stall, while its run is followed, the incident ends at the first sample at which a file has been completed
      or progress is seen for the second time, and not before; waits and samples without progress in between do not
      matter. */
  lemma IncidentEndsExactly(st: State, samples: seq<Sample>)
    requires st.alertedAt > 0 && st.recoverySamples == 0 && samples != [] && AllFollowed(st, samples)
    requires var init := samples[..|samples| - 1]; NoFileDone(st, init) && Moves(st, init) <= 1
    ensures var before := After(st, samples[..|samples| - 1]);
            && before.alertedAt == st.alertedAt
            && (After(st, samples).alertedAt == 0
                <==> MoreFiles(before, samples[|samples| - 1].s) || Moves(st, samples) == 2)
  {
    hide Eval, Followed, MoreFiles;
    var n := |samples| - 1;
    var before := After(st, samples[..n]);
    assert forall i :: 0 <= i < n ==> samples[..n][..i] == samples[..i] && samples[..n][i] == samples[i];
    IncidentStaysOpen(st, samples[..n]);
    OpenIncident(before, samples[n]);
  }
}
