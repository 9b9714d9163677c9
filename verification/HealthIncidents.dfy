/** Which stalls belong together: the events that leave the monitor, committed or not, and the incidents they report. */
module HealthIncidents {
  import opened Common
  import opened HealthEvaluation
  import opened HealthTheorems
  import opened HealthRuns

  /** An evaluation begins an incident when it starts to suspect a run that it did not suspect before. */
  predicate Begins(previous: State, s: Snapshot, e: Evaluation) {
    Watchable(s) && e.state.suspiciousSamples > 0 && (previous.suspiciousSamples == 0 || !SameRun(previous, s))
  }

  /** What may be enqueued: an event and the number of the incident that was current. */
  datatype Sent = Sent(e: Event, incident: nat)

  /** A machine with the number of incidents begun by committed samples, and everything enqueued so far; a failed sample
      may have enqueued its events before it failed. */
  datatype Tracker = Tracker(m: Machine, incidents: nat, sent: seq<Sent>)

  function Offered(t: Tracker, s: Snapshot, now: int, o: Options): seq<Sent> {
    var e := Evaluate(t.m.state, s, now, o);
    if e.events == [] then [] else [Sent(e.events[0], t.incidents)]
  }

  function Track(t: Tracker, op: Op): Tracker {
    match op
    case Sample(s, now, o) =>
      var e := Evaluate(t.m.state, s, now, o);
      Tracker(Step(t.m, op), t.incidents + (if Begins(t.m.state, s, e) then 1 else 0), t.sent + Offered(t, s, now, o))
    case FailedSample(s, now, o) => Tracker(Step(t.m, op), t.incidents, t.sent + Offered(t, s, now, o))
    case _ => t.(m := Step(t.m, op))
  }

  function TrackAll(t: Tracker, ops: seq<Op>): Tracker
    decreases |ops|
  {
    if ops == [] then t else TrackAll(Track(t, ops[0]), ops[1..])
  }

  /** How an evaluation may move the suspicion, under a positive clock. */
  ghost predicate Stretch(previous: State, s: Snapshot, e: Evaluation, now: nat) {
    && (e.state.suspiciousSamples == 0 ==> e.state.incidentStartedAt == 0)
    && (Begins(previous, s, e) ==>
          e.state.incidentStartedAt == now && e.state.runFingerprint == Some(s.runFingerprint) && e.events == [])
    && (!Begins(previous, s, e) && e.state.suspiciousSamples > 0 ==>
          && previous.suspiciousSamples > 0 && e.state.incidentStartedAt == previous.incidentStartedAt
          && e.state.runFingerprint == previous.runFingerprint)
  }

  ghost predicate Consistent(st: State) { st.suspiciousSamples > 0 <==> st.incidentStartedAt > 0 }

  lemma JudgeStretch(st: State, s: Snapshot, now: nat, o: Options, progress: bool)
    requires |s.runFingerprint| >= 16 && now > 0 && Consistent(st)
    ensures var e := Judge(st, s, now, o, progress);
            && (e.state.suspiciousSamples == 0 ==> e.state.incidentStartedAt == 0)
            && e.state.runFingerprint == st.runFingerprint
            && (e.state.suspiciousSamples > 0 ==>
                  e.state.incidentStartedAt == if st.suspiciousSamples == 0 then now else st.incidentStartedAt)
            && (st.suspiciousSamples == 0 ==> e.events == [])
  {
    hide Waits, SuspicionType, StallAfter;
  }

  lemma FollowStretch(st: State, s: Snapshot, now: nat, o: Options, progress: bool, completion: bool)
    requires |s.runFingerprint| >= 16 && Consistent(st) && st.suspiciousSamples > 0
    ensures var e := Follow(st, s, now, o, progress, completion);
            && (e.state.suspiciousSamples == 0 ==> e.state.incidentStartedAt == 0)
            && (e.state.suspiciousSamples > 0 ==>
                  e.state.incidentStartedAt == st.incidentStartedAt && e.state.runFingerprint == st.runFingerprint)
  {
    hide Waits;
  }

  /** From a state of the watched run; an alert is only open while there is suspicion. */
  lemma WatchStretch(st: State, s: Snapshot, now: nat, o: Options)
    requires |s.runFingerprint| >= 16 && now > 0 && Consistent(st) && (st.alertedAt > 0 ==> st.suspiciousSamples > 0)
    ensures var e := Watch(st, s, now, o);
            && (e.state.suspiciousSamples == 0 ==> e.state.incidentStartedAt == 0)
            && (e.state.suspiciousSamples > 0 ==>
                  && e.state.runFingerprint == st.runFingerprint
                  && e.state.incidentStartedAt == if st.suspiciousSamples == 0 then now else st.incidentStartedAt)
            && (st.suspiciousSamples == 0 ==> e.events == [])
  {
    hide Judge, Follow, ByteProgress, CompletionProgress;
    var completion := CompletionProgress(st, s);
    var progress := ByteProgress(st, s) || completion;
    if st.alertedAt > 0 {
      FollowStretch(Observe(st, s), s, now, o, progress, completion);
    } else {
      JudgeStretch(Observe(st, s), s, now, o, progress);
    }
  }

  lemma IdleStretch(st: State, s: Snapshot, nowValue: int, o: Options)
    requires Consistent(st) && !Watchable(s)
    ensures Stretch(st, s, Evaluate(st, s, nowValue, o), FiniteInteger(nowValue))
  {
    hide Watch, ValidFingerprint;
  }

  lemma GraceStretch(st: State, s: Snapshot, nowValue: int, o: Options)
    requires Consistent(st) && Watchable(s) && SameRun(st, s) && st.restartPending && st.restartFreshSamples + 1 < 2
    ensures Stretch(st, s, Evaluate(st, s, nowValue, o), FiniteInteger(nowValue))
  {
    hide Watch, Watchable;
  }

  lemma SampleStretch(st: State, s: Snapshot, nowValue: int, o: Options)
    requires Consistent(st) && (st.alertedAt > 0 ==> st.suspiciousSamples > 0) && nowValue > 0
    ensures Stretch(st, s, Evaluate(st, s, nowValue, o), FiniteInteger(nowValue))
  {
    hide Watch, ValidFingerprint;
    var now := FiniteInteger(nowValue);
    Lengths(s);
    if !Watchable(s) {
      IdleStretch(st, s, nowValue, o);
    } else if SameRun(st, s) && st.restartPending && st.restartFreshSamples + 1 < 2 {
      GraceStretch(st, s, nowValue, o);
    } else if SameRun(st, s) {
      WatchStretch(st, s, now, o);
      WatchStretch(st.(restartFreshSamples := st.restartFreshSamples + 1, lastSampleAt := Some(now),
                       restartPending := false), s, now, o);
    } else {
      WatchStretch(ResetForSnapshot(st, s, now), s, now, o);
    }
  }

  /** An open alert comes with suspicion. */
  lemma AlertStretch(st: State, s: Snapshot, nowValue: int, o: Options)
    requires st.alertedAt > 0 ==> st.suspiciousSamples > 0
    ensures var next := Evaluate(st, s, nowValue, o).state; next.alertedAt > 0 ==> next.suspiciousSamples > 0
  {
    hide Watch, ValidFingerprint;
    var now := FiniteInteger(nowValue);
    Lengths(s);
    if Watchable(s) {
      WatchAlert(st, s, now, o);
      WatchAlert(ResetForSnapshot(st, s, now), s, now, o);
      WatchAlert(st.(restartFreshSamples := st.restartFreshSamples + 1, lastSampleAt := Some(now),
                     restartPending := false), s, now, o);
    }
  }

  lemma WatchAlert(st: State, s: Snapshot, now: nat, o: Options)
    requires |s.runFingerprint| >= 16 && (st.alertedAt > 0 ==> st.suspiciousSamples > 0)
    ensures var next := Watch(st, s, now, o).state; next.alertedAt > 0 ==> next.suspiciousSamples > 0
  {
    hide Waits, SuspicionType, StallAfter, ByteProgress, CompletionProgress;
  }

  // ---------------------------------------------------------------- over every run

  /** The state of memory and of disk as far as incidents go. */
  ghost predicate Steady(m: Machine) {
    && SameIncident(m.state, Load(m.disk)) && m.state.runFingerprint == Load(m.disk).runFingerprint
    && Consistent(m.state) && (m.state.alertedAt > 0 ==> m.state.suspiciousSamples > 0)
    && m.state.incidentStartedAt <= m.clock
  }

  predicate StallSent(x: Sent) { x.e.Stall? }

  /** A stall sent during the current incident carries its id; one sent before carries an earlier number. */
  ghost predicate Current(t: Tracker, x: Sent) {
    && x.incident <= t.incidents && x.e.id.number <= t.m.clock
    && (t.m.state.suspiciousSamples > 0 ==>
          if x.incident == t.incidents
          then && t.m.state.runFingerprint.Some? && |t.m.state.runFingerprint.value| >= 16
               && x.e.id == EventId(t.m.state.runFingerprint.value[..16], t.m.state.incidentStartedAt)
          else x.e.id.number < t.m.state.incidentStartedAt)
  }

  ghost predicate SentInv(t: Tracker) {
    && (forall i :: 0 <= i < |t.sent| && StallSent(t.sent[i]) ==> Current(t, t.sent[i]))
    && (forall i, j :: 0 <= i < |t.sent| && 0 <= j < |t.sent| && StallSent(t.sent[i]) && StallSent(t.sent[j]) ==>
          (t.sent[i].e.id == t.sent[j].e.id <==> t.sent[i].incident == t.sent[j].incident))
  }

  lemma SampleKeepsSteady(m: Machine, s: Snapshot, now: int, o: Options)
    requires Steady(m) && now > m.clock
    ensures Steady(Step(m, Sample(s, now, o))) && Steady(Step(m, FailedSample(s, now, o)))
    ensures Stretch(m.state, s, Evaluate(m.state, s, now, o), FiniteInteger(now))
  {
    hide Evaluate, Marks;
    SampleStretch(m.state, s, now, o);
    AlertStretch(m.state, s, now, o);
  }

  /** A stall offered by a sample is one of the current incident. */
  lemma OfferedIsCurrent(t: Tracker, s: Snapshot, now: int, o: Options)
    requires Steady(t.m)
    requires var offered := Offered(t, s, now, o); offered != [] && StallSent(offered[0])
    ensures var x := Offered(t, s, now, o)[0];
            Current(t, x) && x.incident == t.incidents && t.m.state.suspiciousSamples > 0
            && !Begins(t.m.state, s, Evaluate(t.m.state, s, now, o))
  {
    hide Evaluate, Watchable;
    IncidentEffect(t.m.state, s, now, o);
    StallBelongsToRun(t.m.state, s, now, o);
  }

  /** What was current stays so, or becomes earlier when a new incident begins. */
  lemma StaysCurrent(t: Tracker, u: Tracker, x: Sent, s: Snapshot, now: int, o: Options)
    requires Steady(t.m) && now > t.m.clock && Current(t, x)
    requires u.m == Step(t.m, Sample(s, now, o))
    requires u.incidents == t.incidents + (if Begins(t.m.state, s, Evaluate(t.m.state, s, now, o)) then 1 else 0)
    ensures Current(u, x)
  {
    hide Evaluate, Marks, Begins;
    SampleKeepsSteady(t.m, s, now, o);
  }

  /** Enqueueing a stall of the current incident keeps ids and incidents in step. */
  lemma SendKeeps(t: Tracker, x: Sent)
    requires SentInv(t)
    requires StallSent(x) ==> Current(t, x) && x.incident == t.incidents && t.m.state.suspiciousSamples > 0
    ensures SentInv(t.(sent := t.sent + [x]))
  {
    var u := t.(sent := t.sent + [x]);
    assert forall i :: 0 <= i < |t.sent| ==> u.sent[i] == t.sent[i];
    assert forall y :: Current(u, y) <==> Current(t, y);
  }

  lemma MoveKeeps(t: Tracker, u: Tracker)
    requires SentInv(t) && u.sent == t.sent
    requires forall i :: 0 <= i < |t.sent| && StallSent(t.sent[i]) ==> Current(u, t.sent[i])
    ensures SentInv(u)
  {
    hide Current;
  }

  lemma LaterClock(t: Tracker, u: Tracker)
    requires SentInv(t) && u.m.clock >= t.m.clock && u == t.(m := u.m)
    requires u.m.state.suspiciousSamples == t.m.state.suspiciousSamples
    requires u.m.state.incidentStartedAt == t.m.state.incidentStartedAt
    requires u.m.state.runFingerprint == t.m.state.runFingerprint
    ensures SentInv(u)
  {
    assert forall x :: Current(t, x) ==> Current(u, x);
    hide Current;
  }

  lemma SampleKeepsSent(t: Tracker, s: Snapshot, now: int, o: Options)
    requires Steady(t.m) && SentInv(t) && now > t.m.clock
    ensures SentInv(Track(t, Sample(s, now, o))) && SentInv(Track(t, FailedSample(s, now, o)))
  {
    hide Steady, SentInv, Current, Begins, Step;
    var offered := Offered(t, s, now, o);
    var sent := if offered == [] then t else t.(sent := t.sent + [offered[0]]);
    if offered != [] {
      if StallSent(offered[0]) { OfferedIsCurrent(t, s, now, o); }
      SendKeeps(t, offered[0]);
    }
    assert t.sent + offered == sent.sent;
    var u, v := Track(t, Sample(s, now, o)), Track(t, FailedSample(s, now, o));
    hide Offered;
    SentIsCurrent(sent);
    forall i | 0 <= i < |sent.sent| && StallSent(sent.sent[i]) ensures Current(u, sent.sent[i]) {
      StaysCurrent(sent, u, sent.sent[i], s, now, o);
    }
    MoveKeeps(sent, u);
    FailedKeeps(t.m, s, now, o);
    LaterClock(sent, v);
  }

  lemma SentIsCurrent(t: Tracker)
    requires SentInv(t)
    ensures forall i :: 0 <= i < |t.sent| && StallSent(t.sent[i]) ==> Current(t, t.sent[i])
  {
    hide Current;
  }

  lemma FailedKeeps(m: Machine, s: Snapshot, now: int, o: Options)
    requires now > m.clock
    ensures Step(m, FailedSample(s, now, o)).clock >= m.clock && Step(m, FailedSample(s, now, o)).state == m.state
  {}

  lemma TrackKeeps(t: Tracker, op: Op)
    requires Steady(t.m) && SentInv(t)
    requires op.Sample? || op.FailedSample? ==> op.now > t.m.clock
    ensures Steady(Track(t, op).m) && SentInv(Track(t, op))
  {
    hide SentInv, Evaluate, Marks, Begins;
    if op.Sample? || op.FailedSample? {
      SampleKeepsSteady(t.m, op.s, op.now, op.o);
      SampleKeepsSent(t, op.s, op.now, op.o);
    } else {
      LaterClock(t, Track(t, op));
    }
  }

  lemma {:induction false} TrackAllKeeps(t: Tracker, ops: seq<Op>)
    requires Steady(t.m) && SentInv(t) && Ticks(t.m, ops)
    ensures SentInv(TrackAll(t, ops))
    decreases |ops|
  {
    hide Steady, SentInv, Step;
    if ops != [] {
      TrackKeeps(t, ops[0]);
      TrackAllKeeps(Track(t, ops[0]), ops[1..]);
    }
  }

  /** Over every run with a strictly increasing clock, two stalls that left the monitor, committed or not, carry the
      same id exactly when they report the same incident. */
  lemma SameIdMeansSameIncident(ops: seq<Op>, i: nat, j: nat)
    requires Ticks(Start, ops)
    requires var sent := TrackAll(Tracker(Start, 0, []), ops).sent;
             i < |sent| && j < |sent| && StallSent(sent[i]) && StallSent(sent[j])
    ensures var sent := TrackAll(Tracker(Start, 0, []), ops).sent;
            sent[i].e.id == sent[j].e.id <==> sent[i].incident == sent[j].incident
  {
    hide TrackAll, Ticks;
    TrackAllKeeps(Tracker(Start, 0, []), ops);
  }
}
