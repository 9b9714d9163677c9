/** What the collector's protocol achieves, beside what it never loses: reloads that repair, updates and failures that
    get written in the end, and overtaken writes that heal (src/main/collector-store.ts:129-236). */
module CollectorProgress {
  import opened Common
  import opened CollectorProtocol
  import opened CollectorTheorems

  // ---------------------------------------------------------------- reloads

  /** The backup is newer than the primary, or the only file. */
  predicate BackupLeads(s: Store) {
    s.backup.Some? && (s.primary.None? || s.primary.value.stamp < s.backup.value.stamp)
  }

  /** A new process takes the newer file, and if that is the backup it writes it to both files again: afterwards either
      file alone gives the same state.  If it cannot, the next process makes the same choice.  A primary at least as new
      is left alone, and so is a backup beside it.  Nothing is pending in the new process. */
  lemma ReloadRepairs(s: Store, o: Sync)
    ensures var t := Step(s, Crash(o));
            && t.timer == None && t.jobs == [] && t.revision == 0 && t.retryAttempt == 0 && t.births == s.births
            && (if s.backup.None? && s.primary.None? then t.current == File(0, 0)
                else t.current == if BackupLeads(s) then s.backup.value else s.primary.value)
            && (!BackupLeads(s) ==> t.backup == s.backup && t.primary == s.primary)
            && (BackupLeads(s) ==>
                  var again := File(t.current.born, if t.current.stamp == 0 then o.now else t.current.stamp);
                  && t.backup == (if o.backupOk then Some(again) else s.backup)
                  && t.primary == (if o.backupOk && o.primaryOk then Some(again) else s.primary))
  {}

  /** Losing either file after a repair loses nothing. */
  lemma RepairedFilesAreInterchangeable(s: Store, o: Sync)
    requires BackupLeads(s) && o.backupOk && o.primaryOk
    ensures var t := Step(s, Crash(o));
            && Choose(t.primary, None) == Choose(None, t.backup) == Choose(t.primary, t.backup)
            && Choose(t.primary, t.backup).Some? && Choose(t.primary, t.backup).value.born == s.backup.value.born
  {}

  /** If the repair fails, the next reload picks that state again. */
  lemma FailedRepairIsTriedAgain(s: Store, o: Sync)
    requires BackupLeads(s) && !(o.backupOk && o.primaryOk) && s.backup.value.stamp > 0
    ensures var t := Step(s, Crash(o));
            BackupLeads(t) && Choose(t.primary, t.backup) == s.backup
  {}

  // ---------------------------------------------------------------- updates and failures

  /** An accepted update becomes the state in memory under the first stamp that is neither before the clock nor up to
      the stamp before it, overtakes every write under way, and will be written after 300 ms or, while writes fail,
      after the retry delay; a rejected one changes nothing. */
  lemma UpdateIsScheduled(s: Store, now: nat, accepted: bool)
    ensures var t := Step(s, Update(now, accepted));
            && t.backup == s.backup && t.primary == s.primary && t.jobs == s.jobs && t.retryAttempt == s.retryAttempt
            && (if accepted then
                  && t.current.born == t.births == s.births + 1
                  && t.current.stamp >= now && t.current.stamp > s.current.stamp
                  && (t.current.stamp == now || t.current.stamp == s.current.stamp + 1)
                  && t.revision == s.revision + 1
                  && t.timer == Some(if s.retryAttempt == 0 then 300 else RetryDelayMs(s.retryAttempt))
                else t == s)
  {}

  /** The delays before the attempts after one failure, two failures and so on: 1, 2, 4, 8, 16, 32 and then always 60
      seconds. */
  lemma {:induction false} RetryDelays(attempt: nat)
    requires attempt >= 1
    ensures RetryDelayMs(attempt)
            == if attempt <= 6 then [1000, 2000, 4000, 8000, 16000, 32000][attempt - 1] else 60_000
  {
    if attempt > 6 {
      Pow2Grows(6, attempt - 1);
      assert Pow2(6) == 64;
    } else {
      assert Pow2(5) == 32 && Pow2(4) == 16 && Pow2(3) == 8 && Pow2(2) == 4 && Pow2(1) == 2;
    }
  }

  lemma {:induction false} Pow2Grows(m: nat, n: nat)
    requires m <= n
    ensures Pow2(m) <= Pow2(n)
    decreases n
  {
    if m < n { Pow2Grows(m, n - 1); }
  }

  /** A file operation that fails ends its write and touches no file.  If the write was still current, it will be tried
      again after the delay for one more failure; an overtaken one is left to the update that overtook it. */
  lemma FailureIsRetried(s: Store)
    requires s.jobs != [] && InFlight(s.jobs[0].stage)
    ensures var t := Step(s, WriteFails);
            && t.backup == s.backup && t.primary == s.primary && t.current == s.current
            && t.jobs != [] && t.jobs[0].stage.Settling? && t.jobs[1..] == s.jobs[1..]
            && (if s.jobs[0].revision == s.revision then
                  t.retryAttempt == s.retryAttempt + 1 && t.timer == Some(RetryDelayMs(s.retryAttempt + 1))
                else t.retryAttempt == s.retryAttempt && t.timer == s.timer)
  {}

  // ---------------------------------------------------------------- overtaken writes

  /** The places where an overtaken write puts the newer state on disk again: before its second rename, after it, and at
      its end unless a timer will see to it. */
  predicate Heals(s: Store, e: Event) {
    && s.jobs != [] && s.jobs[0].revision != s.revision
    && match e
       case TempWritten(_) => s.jobs[0].stage.PrimaryTemp?
       case WriteResumes(_) => s.jobs[0].stage.PrimaryLanded?
       case WriteSettles(_) => s.jobs[0].stage.Settling? && s.timer.None?
       case _ => false
  }

  function SyncOf(e: Event): Sync
    requires e.TempWritten? || e.WriteResumes? || e.WriteSettles?
  {
    e.sync
  }

  /** Both files then hold the state in memory. */
  lemma OvertakenWriteHeals(s: Store, e: Event)
    requires Inv(s) && Heals(s, e) && SyncWrites(SyncOf(e))
    ensures Settled(Step(s, e)) && Step(s, e).current == s.current
  {
    assert Holds(s, s.current);
  }

  // ---------------------------------------------------------------- coming to rest

  /** The store's own steps: the timer, and what the write at the head of the chain does next if nothing fails. */
  predicate Own(s: Store, e: Event) {
    match e
    case TimerFires => s.timer.Some?
    case TempWritten(o) =>
      SyncWrites(o) && s.jobs != [] && (s.jobs[0].stage.BackupTemp? || s.jobs[0].stage.PrimaryTemp?)
    case RenameLands => s.jobs != [] && (s.jobs[0].stage.BackupRename? || s.jobs[0].stage.PrimaryRename?)
    case WriteResumes(o) =>
      SyncWrites(o) && s.jobs != [] && (s.jobs[0].stage.BackupLanded? || s.jobs[0].stage.PrimaryLanded?)
    case WriteSettles(o) => SyncWrites(o) && s.jobs != [] && s.jobs[0].stage.Settling?
    case _ => false
  }

  function StepsLeft(stage: Stage): nat {
    match stage
    case BackupTemp => 7
    case BackupRename => 6
    case BackupLanded => 5
    case PrimaryTemp => 4
    case PrimaryRename => 3
    case PrimaryLanded => 2
    case Settling => 1
  }

  function Chained(jobs: seq<Job>): nat { if jobs == [] then 0 else StepsLeft(jobs[0].stage) + Chained(jobs[1..]) }

  /** The most steps that what is pending can still take. */
  function Work(s: Store): nat { Chained(s.jobs) + if s.timer.Some? then 8 else 0 }

  lemma {:induction false} ChainedSnoc(jobs: seq<Job>, job: Job)
    ensures Chained(jobs + [job]) == Chained(jobs) + StepsLeft(job.stage)
  {
    if jobs != [] {
      assert (jobs + [job])[1..] == jobs[1..] + [job];
      ChainedSnoc(jobs[1..], job);
    } else {
      assert (jobs + [job])[1..] == [];
    }
  }

  lemma StagedWork(s: Store, stage: Stage)
    requires s.jobs != []
    ensures Work(WithStage(s, stage)) == Work(s) - StepsLeft(s.jobs[0].stage) + StepsLeft(stage)
  {
    assert ([s.jobs[0].(stage := stage)] + s.jobs[1..])[1..] == s.jobs[1..];
  }

  /** A double write moves neither the chain nor the timer, unless a rename lands between its two halves. */
  lemma WriteSyncKeepsWork(s: Store, o: Sync)
    requires Land(s) == s || !o.racedIn
    requires s.jobs == [] || (!s.jobs[0].stage.BackupRename? && !s.jobs[0].stage.PrimaryRename?)
    ensures WriteSync(s, o).jobs == s.jobs && WriteSync(s, o).timer == s.timer
  {
    hide SyncPayload;
  }

  lemma NothingLands(s: Store)
    requires s.jobs == [] || (!s.jobs[0].stage.BackupRename? && !s.jobs[0].stage.PrimaryRename?)
    ensures Land(s) == s
  {}

  lemma TimerWorks(s: Store)
    requires s.timer.Some?
    ensures Work(Step(s, TimerFires)) < Work(s)
  {
    ChainedSnoc(s.jobs, Job(s.revision, s.current, BackupTemp));
  }

  lemma TempWrittenWorks(s: Store, o: Sync)
    requires Own(s, TempWritten(o))
    ensures Work(Step(s, TempWritten(o))) < Work(s)
  {
    NothingLands(WithStage(s, Settling));
    WriteSyncKeepsWork(WithStage(s, Settling), o);
    StagedWork(s, Settling);
    StagedWork(s, BackupRename);
    StagedWork(s, PrimaryRename);
    hide WriteSync, Chained, SyncWrites;
  }

  lemma RenameWorks(s: Store)
    requires Own(s, RenameLands)
    ensures Work(Step(s, RenameLands)) < Work(s)
  {
    StagedWork(s, BackupLanded);
    StagedWork(s, PrimaryLanded);
    hide Chained;
  }

  lemma ResumesWorks(s: Store, o: Sync)
    requires Own(s, WriteResumes(o))
    ensures Work(Step(s, WriteResumes(o))) < Work(s)
  {
    NothingLands(WithStage(s, Settling));
    WriteSyncKeepsWork(WithStage(s, Settling), o);
    StagedWork(s, Settling);
    StagedWork(s, PrimaryTemp);
    hide WriteSync, Chained, SyncWrites;
  }

  /** The next write in the chain has not begun. */
  lemma SettlesWorks(s: Store, o: Sync)
    requires JobsValid(s) && Own(s, WriteSettles(o))
    ensures Work(Step(s, WriteSettles(o))) < Work(s)
  {
    var popped := s.(jobs := s.jobs[1..]);
    NothingLands(popped);
    WriteSyncKeepsWork(popped, o);
    hide WriteSync, SyncWrites, Land;
  }

  /** Each own step leaves less to do. */
  lemma OwnStepWorks(s: Store, e: Event)
    requires JobsValid(s) && Own(s, e)
    ensures Work(Step(s, e)) < Work(s)
  {
    hide Work, Step, JobsValid;
    match e
    case TimerFires => TimerWorks(s);
    case TempWritten(o) => TempWrittenWorks(s, o);
    case RenameLands => RenameWorks(s);
    case WriteResumes(o) => ResumesWorks(s, o);
    case WriteSettles(o) => SettlesWorks(s, o);
    case _ =>
  }

  lemma SomethingIsNext(s: Store)
    ensures Quiescent(s) <==> Work(s) == 0
    ensures !Quiescent(s) ==> exists e :: Own(s, e)
  {
    var o := Sync(0, true, false, true);
    if s.timer.Some? {
      assert Own(s, TimerFires);
    } else if s.jobs != [] {
      assert Own(s, RenameLands) || Own(s, TempWritten(o)) || Own(s, WriteResumes(o)) || Own(s, WriteSettles(o));
    }
  }

  ghost predicate OwnRun(s: Store, events: seq<Event>)
    decreases |events|
  {
    events == [] || (Own(s, events[0]) && OwnRun(Step(s, events[0]), events[1..]))
  }

  lemma {:induction false} OwnRunIsBounded(s: Store, events: seq<Event>)
    requires Inv(s) && OwnRun(s, events)
    ensures |events| + Work(Run(s, events)) <= Work(s) && NoSyncFailure(events)
    decreases |events|
  {
    if events != [] {
      InvOfJobs(s);
      hide Inv, Step, Work, JobsValid;
      StepKeepsInv(s, events[0]);
      OwnStepWorks(s, events[0]);
      OwnRunIsBounded(Step(s, events[0]), events[1..]);
      assert forall i :: 0 < i < |events| ==> events[i] == events[1..][i - 1];
    }
  }

  lemma InvOfJobs(s: Store)
    requires Inv(s)
    ensures JobsValid(s)
  {}

  /** The store comes to rest.  Take any run, then an accepted update or a successful flush.  From there its own steps,
      none of them failing, can be taken only so many times, and one is always left until no timer is armed and no write
      is active; both files then hold the latest state. */
  lemma StoreComesToRest(before: seq<Event>, e: Event, events: seq<Event>)
    requires (e.Update? && e.accepted) || (e.FlushSync? && SyncWrites(e.sync))
    requires OwnRun(Step(Run(Initial(), before), e), events)
    ensures var s := Step(Run(Initial(), before), e);
            var final := Run(s, events);
            && |events| <= Work(s)
            && ((exists next :: Own(final, next)) || (Quiescent(final) && (final.revision > 0 ==> Settled(final))))
  {
    hide Inv, Run, Step, Initial, Answered, Own, OwnRun, Work, Settled, Quiescent, NoSyncFailure;
    AnsweredAfter(before, e);
    var s := Step(Run(Initial(), before), e);
    OwnRunIsBounded(s, events);
    SomethingIsNext(Run(s, events));
    QuiescentStoreIsSettled(before, e, events);
  }
}
