module CollectorTheorems {
  import opened Common
  import opened CollectorProtocol

  // ---------------------------------------------------------------- the invariant

  lemma StageKeepsInv(s: Store, stage: Stage)
    requires Inv(s) && s.jobs != []
    requires BackupDone(stage) ==> BackupDone(s.jobs[0].stage)
    requires stage.PrimaryLanded? ==> s.jobs[0].stage.PrimaryLanded?
    ensures Inv(WithStage(s, stage))
  {
    var t := WithStage(s, stage);
    assert forall f :: Holds(t, f) ==> Holds(s, f);
  }

  lemma LandKeepsInv(s: Store)
    requires Inv(s)
    ensures Inv(Land(s))
  {
    var t := Land(s);
    assert forall f :: Holds(t, f) ==> Holds(s, f);
  }

  lemma ReplaceKeepsInv(s: Store, payload: File)
    requires Inv(s) && (payload == s.current || (payload.born == s.current.born == 0 && s.current.stamp == 0))
    requires s.current.born == 0 ==> payload.born == 0
    ensures Inv(s.(backup := Some(payload))) && Inv(s.(primary := Some(payload)))
  {
    var a, b := s.(backup := Some(payload)), s.(primary := Some(payload));
    assert forall f :: Holds(a, f) ==> Holds(s, f) || f == payload;
    assert forall f :: Holds(b, f) ==> Holds(s, f) || f == payload;
  }

  lemma PayloadFits(s: Store, now: nat)
    requires Inv(s)
    ensures var payload := SyncPayload(s, now);
            payload == s.current || (payload.born == s.current.born == 0 && s.current.stamp == 0)
  {
    assert Holds(s, s.current);
  }

  lemma WriteSyncKeepsInv(s: Store, o: Sync)
    requires Inv(s)
    ensures Inv(WriteSync(s, o))
  {
    hide Inv, Land, SyncPayload;
    var payload := SyncPayload(s, o.now);
    if o.backupOk {
      PayloadFits(s, o.now);
      ReplaceKeepsInv(s, payload);
      var a := s.(backup := Some(payload));
      LandKeepsInv(a);
      LandKeepsCurrent(a);
      ReplaceKeepsInv(if o.racedIn then Land(a) else a, payload);
    }
  }

  lemma LandKeepsCurrent(s: Store)
    ensures Land(s).current == s.current
  {}

  lemma UpdateKeepsInv(s: Store, now: nat)
    requires Inv(s)
    ensures Inv(DoUpdate(s, now, true))
  {
    var t := DoUpdate(s, now, true);
    assert forall f :: Holds(t, f) ==> Holds(s, f) || f == t.current;
  }

  lemma TimerKeepsInv(s: Store)
    requires Inv(s)
    ensures Inv(DoTimer(s))
  {
    var t := DoTimer(s);
    assert forall f :: Holds(t, f) ==> Holds(s, f);
  }

  lemma FlushKeepsInv(s: Store, o: Sync)
    requires Inv(s)
    ensures Inv(DoFlush(s, o))
  {
    var a := s.(timer := None);
    assert forall f :: Holds(a, f) ==> Holds(s, f);
    WriteSyncKeepsInv(a, o);
  }

  lemma TempWrittenKeepsInv(s: Store, o: Sync)
    requires Inv(s)
    ensures Inv(DoTempWritten(s, o))
  {
    if s.jobs != [] {
      StageKeepsInv(s, Settling);
      WriteSyncKeepsInv(WithStage(s, Settling), o);
      if s.jobs[0].stage.BackupTemp? { StageKeepsInv(s, BackupRename); }
      if s.jobs[0].stage.PrimaryTemp? { StageKeepsInv(s, PrimaryRename); }
    }
  }

  /** The retry count and an armed timer are outside the invariant. */
  lemma RetryKeepsInv(s: Store, retryAttempt: nat, timer: Option<nat>)
    requires Inv(s) && (timer.Some? ==> s.revision > 0)
    ensures Inv(s.(retryAttempt := retryAttempt, timer := timer))
  {
    var a := s.(retryAttempt := retryAttempt, timer := timer);
    assert forall f :: Holds(a, f) ==> Holds(s, f);
  }

  lemma RevisionOfJobs(s: Store)
    requires Inv(s)
    ensures s.timer.Some? || s.jobs != [] ==> s.revision > 0
  {}

  lemma FailsKeepsInv(s: Store)
    requires Inv(s)
    ensures Inv(DoFails(s))
  {
    hide Inv, RetryDelayMs;
    RevisionOfJobs(s);
    if s.jobs != [] {
      var delay := Some(RetryDelayMs(s.retryAttempt + 1));
      RetryKeepsInv(s, s.retryAttempt + 1, delay);
      StageKeepsInv(s, Settling);
      StageKeepsInv(s.(retryAttempt := s.retryAttempt + 1, timer := delay), Settling);
    }
  }

  lemma ResumesKeepsInv(s: Store, o: Sync)
    requires Inv(s)
    ensures Inv(DoResumes(s, o))
  {
    hide Inv, WriteSync;
    RevisionOfJobs(s);
    if s.jobs != [] {
      RetryKeepsInv(s, 0, s.timer);
      StageKeepsInv(s, Settling);
      StageKeepsInv(s.(retryAttempt := 0), Settling);
      WriteSyncKeepsInv(WithStage(s, Settling), o);
      if s.jobs[0].stage.BackupLanded? { StageKeepsInv(s, PrimaryTemp); }
    }
  }

  lemma SettlesKeepsInv(s: Store, o: Sync)
    requires Inv(s)
    ensures Inv(DoSettles(s, o))
  {
    if s.jobs != [] {
      var t := s.(jobs := s.jobs[1..]);
      assert forall f :: Holds(t, f) ==> Holds(s, f);
      WriteSyncKeepsInv(t, o);
    }
  }

  lemma CrashKeepsInv(s: Store, o: Sync)
    requires Inv(s)
    ensures Inv(DoCrash(s, o))
  {
    var loaded := Choose(s.primary, s.backup);
    var t := Store(if loaded.Some? then loaded.value else File(0, 0), 0, None, 0, [], s.backup, s.primary, s.births);
    assert forall f :: Holds(t, f) ==> Holds(s, f) || f == File(0, 0);
    WriteSyncKeepsInv(t, o);
  }

  lemma StepKeepsInv(s: Store, e: Event)
    requires Inv(s)
    ensures Inv(Step(s, e))
  {
    hide Inv, DoUpdate, DoFlush, DoTimer, DoTempWritten, DoFails, Land, DoResumes, DoSettles, DoCrash;
    match e
    case Update(now, accepted) => if accepted { UpdateKeepsInv(s, now); } else { RejectedUpdate(s, now); }
    case FlushSync(o) => FlushKeepsInv(s, o);
    case TimerFires => TimerKeepsInv(s);
    case TempWritten(o) => TempWrittenKeepsInv(s, o);
    case WriteFails => FailsKeepsInv(s);
    case RenameLands => LandKeepsInv(s);
    case WriteResumes(o) => ResumesKeepsInv(s, o);
    case WriteSettles(o) => SettlesKeepsInv(s, o);
    case Crash(o) => CrashKeepsInv(s, o);
  }

  lemma {:induction false} RunKeepsInv(s: Store, events: seq<Event>)
    requires Inv(s)
    ensures Inv(Run(s, events))
    decreases |events|
  {
    hide Inv, Step;
    if events != [] {
      StepKeepsInv(s, events[0]);
      RunKeepsInv(Step(s, events[0]), events[1..]);
    }
  }

  // ---------------------------------------------------------------- durability

  lemma LandKeepsSafe(s: Store, d: nat)
    requires Inv(s) && Safe(s, d)
    ensures Safe(Land(s), d)
  {
    if s.jobs != [] { assert Holds(s, s.jobs[0].file); }
  }

  lemma WriteSyncKeepsSafe(s: Store, o: Sync, d: nat)
    requires Inv(s) && Safe(s, d)
    ensures Safe(WriteSync(s, o), d)
  {
    if o.backupOk {
      var payload := SyncPayload(s, o.now);
      var a := s.(backup := Some(payload));
      WriteSyncKeepsInv(s, o.(racedIn := false, primaryOk := false));
      assert Inv(a) && Safe(a, d);
      LandKeepsSafe(a, d);
    }
  }

  /** A flush that reports success makes the state it wrote safe, even if a straggler slips in between. */
  lemma FlushMakesSafe(s: Store, o: Sync)
    requires Inv(s) && o.backupOk && o.primaryOk
    ensures Safe(DoFlush(s, o), s.current.born)
  {
    if s.jobs != [] {
      assert Holds(s, s.jobs[0].file) && Holds(s, s.current);
    }
  }

  /** The newer of two files is the one a reload takes, so a safe state is never reloaded as an older one. */
  lemma SafeChoice(s: Store, d: nat)
    requires Inv(s) && Safe(s, d)
    ensures Choose(s.primary, s.backup).Some? && Choose(s.primary, s.backup).value.born >= d
  {
    assert Holds(s, s.primary.value) && Holds(s, s.backup.value);
    assert Ordered(s.primary.value, s.backup.value) && Ordered(s.backup.value, s.primary.value);
  }

  lemma UpdateKeepsSafe(s: Store, now: nat, d: nat)
    requires Inv(s) && Safe(s, d)
    ensures Safe(DoUpdate(s, now, true), d)
  {
    assert Holds(s, s.current);
  }

  lemma FlushKeepsSafe(s: Store, o: Sync, d: nat)
    requires Inv(s) && Safe(s, d)
    ensures Safe(DoFlush(s, o), d)
  {
    var a := s.(timer := None);
    assert forall f :: Holds(a, f) ==> Holds(s, f);
    WriteSyncKeepsSafe(a, o, d);
  }

  lemma SettlingKeepsSafe(s: Store, o: Sync, d: nat)
    requires Inv(s) && Safe(s, d) && s.jobs != []
    ensures Safe(WithStage(s, Settling), d) && Safe(WriteSync(WithStage(s, Settling), o), d)
  {
    StageKeepsInv(s, Settling);
    WriteSyncKeepsSafe(WithStage(s, Settling), o, d);
  }

  lemma PopKeepsSafe(s: Store, o: Sync, d: nat)
    requires Inv(s) && Safe(s, d) && s.jobs != []
    ensures var t := s.(jobs := s.jobs[1..]); Safe(t, d) && Safe(WriteSync(t, o), d)
  {
    var t := s.(jobs := s.jobs[1..]);
    assert forall f :: Holds(t, f) ==> Holds(s, f);
    WriteSyncKeepsSafe(t, o, d);
  }

  lemma CrashKeepsSafe(s: Store, o: Sync, d: nat)
    requires Inv(s) && Safe(s, d)
    ensures Safe(DoCrash(s, o), d)
  {
    SafeChoice(s, d);
    CrashKeepsInv(s, o.(backupOk := false));
    WriteSyncKeepsSafe(DoCrash(s, o.(backupOk := false)), o, d);
  }

  lemma TimerKeepsSafe(s: Store, d: nat)
    requires Inv(s) && Safe(s, d)
    ensures Safe(DoTimer(s), d)
  {}

  lemma FailsKeepsSafe(s: Store, d: nat)
    requires Inv(s) && Safe(s, d)
    ensures Safe(DoFails(s), d)
  {}

  lemma TempWrittenKeepsSafe(s: Store, o: Sync, d: nat)
    requires Inv(s) && Safe(s, d)
    ensures Safe(DoTempWritten(s, o), d)
  {
    if s.jobs != [] {
      SettlingKeepsSafe(s, o, d);
      hide WriteSync;
    }
  }

  lemma ResumesKeepsSafe(s: Store, o: Sync, d: nat)
    requires Inv(s) && Safe(s, d)
    ensures Safe(DoResumes(s, o), d)
  {
    if s.jobs != [] {
      SettlingKeepsSafe(s, o, d);
      hide WriteSync;
    }
  }

  lemma SettlesKeepsSafe(s: Store, o: Sync, d: nat)
    requires Inv(s) && Safe(s, d)
    ensures Safe(DoSettles(s, o), d)
  {
    hide WriteSync, Safe, Inv;
    if s.jobs != [] { PopKeepsSafe(s, o, d); }
  }

  lemma StepKeepsSafe(s: Store, e: Event, d: nat)
    requires Inv(s) && Safe(s, d)
    ensures Safe(Step(s, e), d)
  {
    hide Inv, Safe, DoUpdate, DoFlush, DoTimer, DoTempWritten, DoFails, Land, DoResumes, DoSettles, DoCrash;
    match e
    case Update(now, accepted) => if accepted { UpdateKeepsSafe(s, now, d); } else { RejectedUpdate(s, now); }
    case FlushSync(o) => FlushKeepsSafe(s, o, d);
    case TimerFires => TimerKeepsSafe(s, d);
    case TempWritten(o) => TempWrittenKeepsSafe(s, o, d);
    case WriteFails => FailsKeepsSafe(s, d);
    case RenameLands => LandKeepsSafe(s, d);
    case WriteResumes(o) => ResumesKeepsSafe(s, o, d);
    case WriteSettles(o) => SettlesKeepsSafe(s, o, d);
    case Crash(o) => CrashKeepsSafe(s, o, d);
  }

  lemma RejectedUpdate(s: Store, now: nat)
    ensures DoUpdate(s, now, false) == s
  {}

  lemma {:induction false} RunKeepsSafe(s: Store, events: seq<Event>, d: nat)
    requires Inv(s) && Safe(s, d)
    ensures Inv(Run(s, events)) && Safe(Run(s, events), d)
    decreases |events|
  {
    hide Inv, Safe, Step;
    if events != [] {
      StepKeepsInv(s, events[0]);
      StepKeepsSafe(s, events[0], d);
      RunKeepsSafe(Step(s, events[0]), events[1..], d);
    }
  }

  lemma InitialInv()
    ensures Inv(Initial())
  {}

  /** A current write whose second rename has landed leaves both files with the state in memory. */
  lemma FinishedWriteIsSafe(s: Store, o: Sync)
    requires Inv(s) && s.jobs != [] && s.jobs[0].stage.PrimaryLanded? && s.jobs[0].revision == s.revision
    ensures var written := Step(s, WriteResumes(o));
            Settled(written) && written.retryAttempt == 0 && Safe(written, written.current.born)
  {}

  /** Durability.  Take any run of the store, let a flush succeed, and let anything at all happen afterwards:
      the reload rule never picks a state older than the one flushed. */
  lemma FlushedStateIsNeverLost(before: seq<Event>, o: Sync, after: seq<Event>)
    requires o.backupOk && o.primaryOk
    ensures var flushed := Run(Initial(), before);
            var final := Run(Step(flushed, FlushSync(o)), after);
            && Choose(final.primary, final.backup).Some?
            && Choose(final.primary, final.backup).value.born >= flushed.current.born
  {
    InitialInv();
    hide Inv, Safe, Run, DoFlush, Initial, Choose;
    RunKeepsInv(Initial(), before);
    var flushed := Run(Initial(), before);
    FlushMakesSafe(flushed, o);
    FlushKeepsInv(flushed, o);
    RunKeepsSafe(Step(flushed, FlushSync(o)), after, flushed.current.born);
    SafeChoice(Run(Step(flushed, FlushSync(o)), after), flushed.current.born);
  }

  /** The same for an asynchronous write: when its last continuation finds it still current, both files hold
      the current state, and from then on that state cannot be lost either. */
  lemma WrittenStateIsNeverLost(before: seq<Event>, o: Sync, after: seq<Event>)
    requires var s := Run(Initial(), before);
             s.jobs != [] && s.jobs[0].stage.PrimaryLanded? && s.jobs[0].revision == s.revision
    ensures var written := Step(Run(Initial(), before), WriteResumes(o));
            var final := Run(written, after);
            && Settled(written) && written.retryAttempt == 0
            && Choose(final.primary, final.backup).Some?
            && Choose(final.primary, final.backup).value.born >= written.current.born
  {
    InitialInv();
    hide Inv, Safe, Run, Step, Initial, Choose, Settled;
    RunKeepsInv(Initial(), before);
    var s := Run(Initial(), before);
    var written := Step(s, WriteResumes(o));
    StepKeepsInv(s, WriteResumes(o));
    FinishedWriteIsSafe(s, o);
    RunKeepsSafe(written, after, written.current.born);
    SafeChoice(Run(written, after), written.current.born);
  }

  // ---------------------------------------------------------------- convergence

  predicate SyncWrites(o: Sync) { o.backupOk && o.primaryOk }

  /** No synchronous write fails.  Asynchronous ones may, and the process may crash. */
  predicate NoSyncFailure(events: seq<Event>) {
    forall i :: 0 <= i < |events| ==>
      match events[i]
      case FlushSync(o) => SyncWrites(o)
      case TempWritten(o) => SyncWrites(o)
      case WriteResumes(o) => SyncWrites(o)
      case WriteSettles(o) => SyncWrites(o)
      case _ => true
  }

  predicate Quiescent(s: Store) { s.timer.None? && s.jobs == [] }

  /** Whatever is not on disk yet has a timer or a running write that will put it there. */
  ghost predicate Answered(s: Store) {
    s.revision > 0 ==>
      && (Settled(s) || s.timer.Some? || s.jobs != [])
      && (s.jobs != [] && s.jobs[0].stage.Settling? && s.jobs[0].revision == s.revision ==>
            Settled(s) || s.timer.Some? || |s.jobs| >= 2)
  }

  /** Both files hold the state in memory after this double write, provided no rename is in flight. */
  ghost predicate Reaches(s: Store, o: Sync) {
    if !o.backupOk then Settled(s) else o.primaryOk || s.primary == Some(SyncPayload(s, o.now))
  }

  /** No timer, and no running write that would still bring the state in memory to disk. */
  predicate Unattended(s: Store) {
    s.jobs == [] || (|s.jobs| == 1 && s.jobs[0].stage.Settling? && s.jobs[0].revision == s.revision)
  }

  /** The two places where convergence is lost: a flush, which has cancelled the timer, of a store that nothing else
      attends to, and the heal write of the last, overtaken write; each when it fails to reach both files. */
  ghost predicate Loses(s: Store, e: Event) {
    match e
    case FlushSync(o) => s.revision > 0 && Unattended(s) && !Reaches(s, o)
    case WriteSettles(o) =>
      && s.revision > 0 && s.timer.None? && |s.jobs| == 1
      && s.jobs[0].stage.Settling? && s.jobs[0].revision != s.revision && !Reaches(s, o)
    case _ => false
  }

  ghost predicate NoneLoses(s: Store, events: seq<Event>)
    decreases |events|
  {
    events == [] || (!Loses(s, events[0]) && NoneLoses(Step(s, events[0]), events[1..]))
  }

  lemma UpdateAnswers(s: Store, now: nat, accepted: bool)
    requires Inv(s) && (accepted || Answered(s))
    ensures Answered(DoUpdate(s, now, accepted))
  {}

  lemma FlushAnswers(s: Store, o: Sync)
    requires Inv(s)
    ensures Answered(DoFlush(s, o)) <==> !Loses(s, FlushSync(o))
  {
    assert Holds(s, s.current);
  }

  lemma TimerAnswers(s: Store)
    requires Inv(s) && Answered(s)
    ensures Answered(DoTimer(s))
  {}

  lemma TempWrittenAnswers(s: Store, o: Sync)
    requires Inv(s) && Answered(s)
    ensures Answered(DoTempWritten(s, o))
  {
    hide Chronological, SyncPayload;
  }

  lemma FailsAnswers(s: Store)
    requires Inv(s) && Answered(s)
    ensures Answered(DoFails(s))
  {
    hide Chronological;
  }

  lemma LandAnswers(s: Store)
    requires Inv(s) && Answered(s)
    ensures Answered(Land(s))
  {
    hide Chronological;
  }

  lemma ResumesAnswers(s: Store, o: Sync)
    requires Inv(s) && Answered(s)
    ensures Answered(DoResumes(s, o))
  {
    hide Chronological, SyncPayload;
  }

  lemma SettlesAnswers(s: Store, o: Sync)
    requires Inv(s) && Answered(s)
    ensures Answered(DoSettles(s, o)) <==> !Loses(s, WriteSettles(o))
  {
    assert Holds(s, s.current);
  }

  lemma CrashAnswers(s: Store, o: Sync)
    ensures Answered(DoCrash(s, o))
  {
    assert DoCrash(s, o).revision == 0;
  }

  /** Exactly these two failures lose convergence. */
  lemma StepAnswers(s: Store, e: Event)
    requires Inv(s) && Answered(s)
    ensures Answered(Step(s, e)) <==> !Loses(s, e)
  {
    hide Inv, Answered, DoUpdate, DoFlush, DoTimer, DoTempWritten, DoFails, Land, DoResumes, DoSettles, DoCrash;
    hide Reaches, Unattended;
    match e
    case Update(now, accepted) => UpdateAnswers(s, now, accepted);
    case FlushSync(o) => FlushAnswers(s, o);
    case TimerFires => TimerAnswers(s);
    case TempWritten(o) => TempWrittenAnswers(s, o);
    case WriteFails => FailsAnswers(s);
    case RenameLands => LandAnswers(s);
    case WriteResumes(o) => ResumesAnswers(s, o);
    case WriteSettles(o) => SettlesAnswers(s, o);
    case Crash(o) => CrashAnswers(s, o);
  }

  ghost predicate AlwaysAnswered(s: Store, events: seq<Event>)
    decreases |events|
  {
    Answered(s) && (events == [] || AlwaysAnswered(Step(s, events[0]), events[1..]))
  }

  lemma {:induction false} RunAnswers(s: Store, events: seq<Event>)
    requires Inv(s) && Answered(s)
    ensures AlwaysAnswered(s, events) <==> NoneLoses(s, events)
    decreases |events|
  {
    hide Inv, Answered, Step, Loses;
    if events != [] {
      StepKeepsInv(s, events[0]);
      StepAnswers(s, events[0]);
      if Answered(Step(s, events[0])) { RunAnswers(Step(s, events[0]), events[1..]); }
    }
  }

  /** At rest, with the latest state not on disk and nothing that would write it. */
  ghost predicate RestsUnsettled(s: Store) { s.revision > 0 && Quiescent(s) && !Settled(s) }

  /** The store can come to rest with the latest state not on disk: it does, or does as soon as the finished write
      at the head of its queue has settled. */
  ghost predicate Stranded(s: Store, o: Sync) {
    RestsUnsettled(s) || (s.jobs != [] && s.jobs[0].stage.Settling? && s.jobs[0].revision == s.revision
                          && RestsUnsettled(Step(s, WriteSettles(o))))
  }

  /** Some state of a run, its first one included, is stranded. */
  ghost predicate StrandedOnTheWay(s: Store, events: seq<Event>, o: Sync)
    decreases |events|
  {
    Stranded(s, o) || (events != [] && StrandedOnTheWay(Step(s, events[0]), events[1..], o))
  }

  lemma {:induction false} StrandedIsUnanswered(s: Store, events: seq<Event>, o: Sync)
    ensures StrandedOnTheWay(s, events, o) <==> !AlwaysAnswered(s, events)
    decreases |events|
  {
    hide Answered, Step, Stranded;
    StrandedState(s, o);
    if events != [] { StrandedIsUnanswered(Step(s, events[0]), events[1..], o); }
  }

  lemma StrandedState(s: Store, o: Sync)
    ensures Stranded(s, o) <==> !Answered(s)
  {}

  /** After any run and an accepted update or a successful flush, the store is answered. */
  lemma AnsweredAfter(before: seq<Event>, e: Event)
    requires (e.Update? && e.accepted) || (e.FlushSync? && SyncWrites(e.sync))
    ensures var s := Step(Run(Initial(), before), e); Inv(s) && Answered(s)
  {
    InitialInv();
    hide Inv, Answered, Run, Initial, DoUpdate, DoFlush;
    RunKeepsInv(Initial(), before);
    var s := Run(Initial(), before);
    StepKeepsInv(s, e);
    if e.Update? { UpdateAnswers(s, e.now, true); } else { FlushAnswers(s, e.sync); }
  }

  /** Convergence, exactly.  Take any run, then an accepted update or a successful flush, then any events: the store
      gets stranded on the way if and only if one of those events is a failing double write at one of the two places.
      Failing asynchronous writes, stragglers that land late and crashes in between do not matter, nor do failing
      synchronous writes elsewhere. */
  lemma ConvergenceIsLostExactly(before: seq<Event>, e: Event, after: seq<Event>, o: Sync)
    requires (e.Update? && e.accepted) || (e.FlushSync? && SyncWrites(e.sync))
    ensures var s := Step(Run(Initial(), before), e);
            StrandedOnTheWay(s, after, o) <==> !NoneLoses(s, after)
  {
    hide Inv, Answered, Run, Step, Initial, AlwaysAnswered, StrandedOnTheWay, NoneLoses;
    AnsweredAfter(before, e);
    var s := Step(Run(Initial(), before), e);
    RunAnswers(s, after);
    StrandedIsUnanswered(s, after, o);
  }

  lemma {:induction false} NoFailureLosesNothing(s: Store, events: seq<Event>)
    requires NoSyncFailure(events)
    ensures NoneLoses(s, events)
    decreases |events|
  {
    hide Step, Unattended;
    if events != [] {
      assert NoSyncFailure(events[1..]);
      assert !Loses(s, events[0]);
      NoFailureLosesNothing(Step(s, events[0]), events[1..]);
    }
  }

  lemma {:induction false} AnsweredAtEnd(s: Store, events: seq<Event>)
    requires AlwaysAnswered(s, events)
    ensures Answered(Run(s, events))
    decreases |events|
  {
    hide Step, Answered;
    if events != [] { AnsweredAtEnd(Step(s, events[0]), events[1..]); }
  }

  /** Convergence as a promise.  If no synchronous write fails since, then whenever no timer is armed and no write is
      active both files hold the latest state. */
  lemma QuiescentStoreIsSettled(before: seq<Event>, e: Event, after: seq<Event>)
    requires (e.Update? && e.accepted) || (e.FlushSync? && SyncWrites(e.sync))
    requires NoSyncFailure(after)
    ensures var final := Run(Step(Run(Initial(), before), e), after);
            final.revision > 0 && Quiescent(final) ==> Settled(final)
  {
    hide Inv, Run, Step, Initial, AlwaysAnswered, NoneLoses, NoSyncFailure;
    AnsweredAfter(before, e);
    var s := Step(Run(Initial(), before), e);
    NoFailureLosesNothing(s, after);
    RunAnswers(s, after);
    AnsweredAtEnd(s, after);
  }

  const OK := Sync(1, true, false, true)
  const BAD := Sync(1, false, false, false)

  /** The condition on synchronous writes is needed: a write overtaken by a failing flush, whose heal write
      fails as well, leaves the store at rest with the latest state in memory only. */
  lemma FailedHealLeavesStoreUnsettled()
    ensures var events := [Update(1, true), TimerFires, TempWritten(OK), Update(2, true), FlushSync(BAD),
                           RenameLands, WriteResumes(OK), WriteSettles(BAD)];
            var final := Run(Initial(), events);
            final.revision > 0 && Quiescent(final) && !Settled(final)
  {
    var s1 := Step(Initial(), Update(1, true));
    var s2 := Step(s1, TimerFires);
    var s3 := Step(s2, TempWritten(OK));
    var s4 := Step(s3, Update(2, true));
    var s5 := Step(s4, FlushSync(BAD));
    var s6 := Step(s5, RenameLands);
    var s7 := Step(s6, WriteResumes(OK));
    var s8 := Step(s7, WriteSettles(BAD));
    RunEight(Initial(), Update(1, true), TimerFires, TempWritten(OK), Update(2, true), FlushSync(BAD),
             RenameLands, WriteResumes(OK), WriteSettles(BAD));
  }

  lemma RunEight(s: Store, a: Event, b: Event, c: Event, d: Event, e: Event, f: Event, g: Event, h: Event)
    ensures Run(s, [a, b, c, d, e, f, g, h]) ==
            Step(Step(Step(Step(Step(Step(Step(Step(s, a), b), c), d), e), f), g), h)
  {
    hide Step;
    RunAppend(s, [a, b, c, d], [e, f, g, h]);
    assert [a, b, c, d] + [e, f, g, h] == [a, b, c, d, e, f, g, h];
    RunFour(s, a, b, c, d);
    RunFour(Run(s, [a, b, c, d]), e, f, g, h);
  }

  lemma RunFour(s: Store, a: Event, b: Event, c: Event, d: Event)
    ensures Run(s, [a, b, c, d]) == Step(Step(Step(Step(s, a), b), c), d)
  {
    hide Step;
    assert [a, b, c, d][1..] == [b, c, d];
    assert [b, c, d][1..] == [c, d];
    assert [c, d][1..] == [d];
    assert [d][1..] == [];
    assert Run(s, [a, b, c, d]) == Run(Step(s, a), [b, c, d]);
    assert Run(Step(s, a), [b, c, d]) == Run(Step(Step(s, a), b), [c, d]);
    assert Run(Step(Step(s, a), b), [c, d]) == Run(Step(Step(Step(s, a), b), c), [d]);
    assert Run(Step(Step(Step(s, a), b), c), [d]) == Run(Step(Step(Step(Step(s, a), b), c), d), []);
  }

  lemma {:induction false} RunAppend(s: Store, xs: seq<Event>, ys: seq<Event>)
    ensures Run(s, xs + ys) == Run(Run(s, xs), ys)
    decreases |xs|
  {
    if xs == [] {
      assert xs + ys == ys;
    } else {
      assert (xs + ys)[1..] == xs[1..] + ys;
      RunAppend(Step(s, xs[0]), xs[1..], ys);
    }
  }
}
