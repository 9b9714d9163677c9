/** When exactly a stall is reported (src/main/download-health-monitor.ts:249-267, 352-398): suspicion is the time
    that passed before suspicious samples since it was last zero. */
module HealthTiming {
  import opened Common
  import opened HealthEvaluation
  import opened HealthTheorems

  datatype Sample = Sample(s: Snapshot, now: nat, o: Options)

  function Eval(st: State, x: Sample): Evaluation { Evaluate(st, x.s, x.now, x.o) }

  /** The state after committing the samples one by one. */
  function After(st: State, samples: seq<Sample>): State
    decreases |samples|
  {
    if samples == [] then st else Eval(After(st, samples[..|samples| - 1]), samples[|samples| - 1]).state
  }

  /** Judged from the snapshot alone, downloads should be moving at this sample. */
  predicate Counts(x: Sample) { Watchable(x.s) && !Waits(x.s, x.now) && SuspicionType(x.s, x.now).Some? }

  predicate NonDecreasing(from: nat, samples: seq<Sample>) {
    (forall i :: 0 <= i < |samples| ==> from <= samples[i].now)
    && forall i, j :: 0 <= i < j < |samples| ==> samples[i].now <= samples[j].now
  }

  function LastTime(from: nat, samples: seq<Sample>): nat {
    if samples == [] then from else samples[|samples| - 1].now
  }

  /** The sum of the gaps that end in samples that count; time spent in expected waits is not in it. */
  function CountedTime(from: nat, samples: seq<Sample>): nat
    requires NonDecreasing(from, samples)
    decreases |samples|
  {
    if samples == [] then 0
    else
      var n := |samples| - 1;
      CountedTime(from, samples[..n])
      + (if Counts(samples[n]) then samples[n].now - LastTime(from, samples[..n]) else 0)
  }

  function CountedSamples(samples: seq<Sample>): nat
    decreases |samples|
  {
    if samples == [] then 0
    else CountedSamples(samples[..|samples| - 1]) + (if Counts(samples[|samples| - 1]) then 1 else 0)
  }

  lemma {:induction false} CountedTimeBound(from: nat, samples: seq<Sample>)
    requires NonDecreasing(from, samples)
    ensures CountedTime(from, samples) <= LastTime(from, samples) - from
    decreases |samples|
  {
    if samples != [] { CountedTimeBound(from, samples[..|samples| - 1]); }
  }

  // ---------------------------------------------------------------- never too early

  /** One sample adds at most the gap since the previous one, and only if it counts. */
  ghost predicate Grows(previous: State, e: Evaluation, x: Sample) {
    && (e.state.lastSampleAt.None? || e.state.lastSampleAt == Some(x.now))
    && e.state.suspiciousDurationMs <=
       previous.suspiciousDurationMs
       + (if Counts(x) && previous.lastSampleAt.Some? && previous.lastSampleAt.value <= x.now
          then x.now - previous.lastSampleAt.value else 0)
    && e.state.suspiciousSamples <= previous.suspiciousSamples + (if Counts(x) then 1 else 0)
    && (Emits(e, true) ==> Counts(x) && e.state.suspiciousDurationMs >= StallAfter(x.o)
                           && e.state.suspiciousSamples >= MIN_SUSPICIOUS_SAMPLES && x.o.notifyOnStall)
  }

  lemma WatchGrows(st: State, x: Sample)
    requires Watchable(x.s) && |x.s.runFingerprint| >= 16
    ensures Grows(st, Watch(st, x.s, x.now, x.o), x)
  {
    hide ValidFingerprint, Waits, SuspicionType, StallAfter, ByteProgress, CompletionProgress;
  }

  /** Going on from a state with the same suspicion, or none, and the same or no earlier sample. */
  lemma GrowsFrom(st: State, from: State, e: Evaluation, x: Sample)
    requires Grows(from, e, x)
    requires from.suspiciousDurationMs <= st.suspiciousDurationMs && from.suspiciousSamples <= st.suspiciousSamples
    requires from.lastSampleAt == st.lastSampleAt || from.lastSampleAt == Some(x.now)
    ensures Grows(st, e, x)
  {
    hide Counts, StallAfter, Emits;
  }

  lemma IdleGrows(st: State, x: Sample)
    requires !Watchable(x.s)
    ensures Grows(st, Eval(st, x), x)
  {
    hide Watch, Counts, StallAfter, Watchable;
  }

  lemma SampleGrows(st: State, x: Sample)
    ensures Grows(st, Eval(st, x), x)
  {
    hide Watch, Grows, Watchable;
    Lengths(x.s);
    if !Watchable(x.s) {
      IdleGrows(st, x);
    } else {
      WatchedGrows(st, x);
    }
  }

  lemma WatchedGrows(st: State, x: Sample)
    requires Watchable(x.s) && |x.s.runFingerprint| == 64
    ensures Grows(st, Eval(st, x), x)
  {
    hide Watch, Grows, ValidFingerprint, SameRun;
    var reset := ResetForSnapshot(st, x.s, x.now);
    var counted := st.(restartFreshSamples := st.restartFreshSamples + 1, lastSampleAt := Some(x.now));
    if !SameRun(st, x.s) {
      WatchGrows(reset, x);
      GrowsFrom(st, reset, Eval(st, x), x);
    } else if !st.restartPending {
      WatchGrows(st, x);
    } else if counted.restartFreshSamples < 2 {
      GraceGrows(st, x);
    } else {
      WatchGrows(counted.(restartPending := false), x);
      GrowsFrom(st, counted.(restartPending := false), Eval(st, x), x);
    }
  }

  /** The first sample after a restart only resynchronises. */
  lemma GraceGrows(st: State, x: Sample)
    requires Watchable(x.s) && SameRun(st, x.s) && st.restartPending && st.restartFreshSamples + 1 < 2
    ensures Grows(st, Eval(st, x), x)
  {
    hide Watch, Counts, StallAfter, ValidFingerprint;
  }

  lemma {:induction false} SuspicionIsCountedTime(st: State, from: nat, samples: seq<Sample>)
    requires NonDecreasing(from, samples)
    requires st.suspiciousDurationMs == 0 && (st.lastSampleAt.None? || st.lastSampleAt == Some(from))
    ensures var end := After(st, samples);
            && (end.lastSampleAt.None? || end.lastSampleAt == Some(LastTime(from, samples)))
            && end.suspiciousDurationMs <= CountedTime(from, samples)
            && end.suspiciousSamples <= st.suspiciousSamples + CountedSamples(samples)
    decreases |samples|
  {
    hide Evaluate, Counts;
    if samples != [] {
      var n := |samples| - 1;
      SuspicionIsCountedTime(st, from, samples[..n]);
      SampleGrows(After(st, samples[..n]), samples[n]);
    }
  }

  /** Never too early.  Take any state in which suspicion is zero, `from` being the time of its sample, and any
      further samples under a non-decreasing clock.  If the last of them reports a stall, then the time that
      counts since `from`, expected waits excluded, has reached the threshold; so a stall never comes earlier
      than the threshold after the last clearing sample, and never with fewer than three suspicious samples. */
  lemma StallIsNeverEarly(st: State, from: nat, samples: seq<Sample>)
    requires NonDecreasing(from, samples) && samples != []
    requires st.suspiciousDurationMs == 0 && st.suspiciousSamples == 0
    requires st.lastSampleAt.None? || st.lastSampleAt == Some(from)
    requires Emits(Eval(After(st, samples[..|samples| - 1]), samples[|samples| - 1]), true)
    ensures var last := samples[|samples| - 1];
            && CountedTime(from, samples) >= StallAfter(last.o)
            && last.now - from >= StallAfter(last.o)
            && CountedSamples(samples) >= MIN_SUSPICIOUS_SAMPLES
  {
    hide Evaluate, Counts, StallAfter;
    var n := |samples| - 1;
    SuspicionIsCountedTime(st, from, samples);
    SampleGrows(After(st, samples[..n]), samples[n]);
    CountedTimeBound(from, samples);
  }

  // ---------------------------------------------------------------- and never missed

  /** A sample of the same run that shows no progress over `st` and either waits or counts. */
  ghost predicate Quiet(st: State, x: Sample) {
    && Watchable(x.s) && SameRun(st, x.s) && !ByteProgress(st, x.s) && !CompletionProgress(st, x.s)
    && (Waits(x.s, x.now) || SuspicionType(x.s, x.now).Some?)
  }

  ghost predicate StallReported(st: State, samples: seq<Sample>) {
    exists i :: 0 <= i < |samples| && Emits(Eval(After(st, samples[..i]), samples[i]), true)
  }

  ghost predicate Accumulated(st: State, from: nat, samples: seq<Sample>)
    requires NonDecreasing(from, samples)
  {
    var end := After(st, samples);
    && end.alertedAt == 0 && !end.restartPending && end.lastSampleAt == Some(LastTime(from, samples))
    && end.runFingerprint == st.runFingerprint && end.queueFingerprint == st.queueFingerprint
    && end.downloadProgressSequence == st.downloadProgressSequence
    && end.itemCompletionSequence == st.itemCompletionSequence
    && end.cooldownUntil == st.cooldownUntil
    && end.suspiciousDurationMs == CountedTime(from, samples)
    && end.suspiciousSamples == CountedSamples(samples)
  }

  /** The exact effect of a quiet sample while no incident is open. */
  lemma QuietStep(st: State, x: Sample)
    requires Quiet(st, x) && st.alertedAt == 0 && !st.restartPending
    requires st.lastSampleAt.Some? && st.lastSampleAt.value <= x.now
    ensures var e := Eval(st, x);
            && e.state.cooldownUntil == st.cooldownUntil
            && e.state.suspiciousDurationMs == st.suspiciousDurationMs
                 + (if Counts(x) then x.now - st.lastSampleAt.value else 0)
            && e.state.suspiciousSamples == st.suspiciousSamples + (if Counts(x) then 1 else 0)
            && e.state.lastSampleAt == Some(x.now) && !e.state.restartPending
            && e.state.runFingerprint == st.runFingerprint && e.state.queueFingerprint == st.queueFingerprint
            && e.state.downloadProgressSequence == st.downloadProgressSequence
            && e.state.itemCompletionSequence == st.itemCompletionSequence
            && (Emits(e, true) || e.state.alertedAt == 0)
            && (Counts(x) && Confirmed(e.state, x.now, x.o) ==> Emits(e, true))
  {
    hide ValidFingerprint, Waits, SuspicionType, StallAfter;
    Lengths(x.s);
  }

  lemma AccumulatedStep(st: State, from: nat, samples: seq<Sample>)
    requires NonDecreasing(from, samples) && samples != []
    requires Accumulated(st, from, samples[..|samples| - 1]) && Quiet(st, samples[|samples| - 1])
    ensures Emits(Eval(After(st, samples[..|samples| - 1]), samples[|samples| - 1]), true)
            || Accumulated(st, from, samples)
  {
    hide Evaluate, Counts, StallAfter, Quiet, Emits;
    var n := |samples| - 1;
    QuietAgain(st, After(st, samples[..n]), samples[n]);
    QuietStep(After(st, samples[..n]), samples[n]);
  }

  lemma StallReportedEarlier(st: State, samples: seq<Sample>, n: nat)
    requires n <= |samples| && StallReported(st, samples[..n])
    ensures StallReported(st, samples)
  {
    hide Eval, After, Emits;
    var i :| 0 <= i < n && Emits(Eval(After(st, samples[..n][..i]), samples[..n][i]), true);
    assert samples[..n][..i] == samples[..i];
    assert Emits(Eval(After(st, samples[..i]), samples[i]), true);
  }

  lemma {:induction false} QuietRun(st: State, from: nat, samples: seq<Sample>)
    requires NonDecreasing(from, samples)
    requires st.alertedAt == 0 && !st.restartPending && st.lastSampleAt == Some(from)
    requires st.suspiciousDurationMs == 0 && st.suspiciousSamples == 0
    requires forall i :: 0 <= i < |samples| ==> Quiet(st, samples[i])
    ensures StallReported(st, samples) || Accumulated(st, from, samples)
    decreases |samples|
  {
    if samples != [] {
      hide Eval, Counts, StallAfter, Quiet, Emits, Accumulated;
      var n := |samples| - 1;
      QuietRun(st, from, samples[..n]);
      if StallReported(st, samples[..n]) {
        StallReportedEarlier(st, samples, n);
      } else {
        AccumulatedStep(st, from, samples);
        assert Emits(Eval(After(st, samples[..n]), samples[n]), true) ==> StallReported(st, samples);
      }
    }
  }

  lemma QuietAgain(st: State, t: State, x: Sample)
    requires Quiet(st, x) && t.runFingerprint == st.runFingerprint && t.queueFingerprint == st.queueFingerprint
    requires t.downloadProgressSequence == st.downloadProgressSequence
    requires t.itemCompletionSequence == st.itemCompletionSequence
    ensures Quiet(t, x)
  {}

  /** Never missed.  Starting without suspicion, quiet samples of which at least three count and whose counted
      time reaches the threshold do report a stall, at the latest at a counting sample with notification on and
      the cooldown over. */
  lemma StallIsForced(st: State, from: nat, samples: seq<Sample>)
    requires NonDecreasing(from, samples) && samples != []
    requires st.alertedAt == 0 && !st.restartPending && st.lastSampleAt == Some(from)
    requires st.suspiciousDurationMs == 0 && st.suspiciousSamples == 0
    requires forall i :: 0 <= i < |samples| ==> Quiet(st, samples[i])
    requires var last := samples[|samples| - 1];
             && Counts(last) && last.o.notifyOnStall && last.now >= st.cooldownUntil
             && CountedTime(from, samples) >= StallAfter(last.o)
    requires CountedSamples(samples) >= MIN_SUSPICIOUS_SAMPLES
    ensures StallReported(st, samples)
  {
    hide Evaluate, Counts, StallAfter;
    var n := |samples| - 1;
    QuietRun(st, from, samples[..n]);
    if StallReported(st, samples[..n]) {
      StallReportedEarlier(st, samples, n);
    } else {
      QuietAgain(st, After(st, samples[..n]), samples[n]);
      QuietStep(After(st, samples[..n]), samples[n]);
      assert Emits(Eval(After(st, samples[..n]), samples[n]), true);
    }
  }
}
