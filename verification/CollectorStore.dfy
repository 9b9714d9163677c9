/** The store as the object it is: fields that methods update, two files that renames replace.  Each method is
    one uninterrupted stretch of the program and is proved to be the protocol step of that name, so every
    theorem about runs of the protocol is one about runs of this object. */
module CollectorStore {
  import opened Common
  import P = CollectorProtocol

  class CollectorStore {
    var current: P.File
    var births: nat
    var revision: nat
    var timer: Option<nat>
    var retryAttempt: nat
    var jobs: seq<P.Job>
    var backup: Option<P.File>    // the file `<path>.bak`
    var primary: Option<P.File>   // the file `<path>`

    ghost function View(): P.Store
      reads this
    {
      P.Store(current, revision, timer, retryAttempt, jobs, backup, primary, births)
    }

    /** The constructor of the process that finds the two given files. */
    constructor (primary: Option<P.File>, backup: Option<P.File>, births: nat, o: P.Sync)
      ensures forall s: P.Store | s.primary == primary && s.backup == backup && s.births == births ::
                View() == P.DoCrash(s, o)
    {
      var loaded := P.Choose(primary, backup);
      this.current := if loaded.Some? then loaded.value else P.File(0, 0);
      this.revision, this.timer, this.retryAttempt, this.jobs := 0, None, 0, [];
      this.primary, this.backup, this.births := primary, backup, births;
      new;
      if loaded == backup && backup.Some? && (primary.None? || backup.value.stamp > primary.value.stamp) {
        var _ := WriteSync(o);
      }
    }

    method Update(now: nat, accepted: bool)
      modifies this
      ensures View() == P.Step(old(View()), P.Update(now, accepted))
    {
      if !accepted { return; }
      births := births + 1;
      current := P.File(births, Max(now, current.stamp + 1));
      revision := revision + 1;
      ScheduleWrite(if retryAttempt > 0 then P.RetryDelayMs(retryAttempt) else P.WRITE_DELAY_MS);
    }

    method FlushSync(o: P.Sync) returns (ok: bool)
      modifies this
      ensures ok == (o.backupOk && o.primaryOk)
      ensures View() == P.Step(old(View()), P.FlushSync(o))
    {
      if timer.Some? { timer := None; }
      ok := WriteSync(o);
    }

    method ScheduleWrite(delayMs: nat)
      modifies this`timer
      ensures timer == Some(delayMs)
    {
      timer := Some(delayMs);
    }

    method TimerFires()
      modifies this
      ensures View() == P.Step(old(View()), P.TimerFires)
    {
      if timer.Some? {
        timer := None;
        EnqueueWrite();
      }
    }

    method EnqueueWrite()
      modifies this`jobs
      ensures jobs == old(jobs) + [P.Job(revision, current, P.BackupTemp)]
    {
      jobs := jobs + [P.Job(revision, current, P.BackupTemp)];
    }

    method WriteSync(o: P.Sync) returns (ok: bool)
      modifies this
      ensures ok == (o.backupOk && o.primaryOk)
      ensures View() == P.WriteSync(old(View()), o)
    {
      var payload := P.File(current.born, if current.stamp != 0 then current.stamp else o.now);
      if !o.backupOk { return false; }
      backup := Some(payload);
      if o.racedIn { RenameLands(); }
      if !o.primaryOk { return false; }
      primary := Some(payload);
      return true;
    }

    method Advance(stage: P.Stage)
      requires jobs != []
      modifies this`jobs
      ensures jobs == [old(jobs)[0].(stage := stage)] + old(jobs)[1..]
    {
      jobs := jobs[0 := jobs[0].(stage := stage)];
    }

    method RenameLands()
      modifies this
      ensures View() == P.Step(old(View()), P.RenameLands)
    {
      if jobs == [] { return; }
      if jobs[0].stage.BackupRename? {
        backup := Some(jobs[0].file);
        Advance(P.BackupLanded);
      } else if jobs[0].stage.PrimaryRename? {
        primary := Some(jobs[0].file);
        Advance(P.PrimaryLanded);
      }
    }

    method TempWritten(o: P.Sync)
      modifies this
      ensures View() == P.Step(old(View()), P.TempWritten(o))
    {
      if jobs == [] { return; }
      var isCurrent := jobs[0].revision == revision;
      if jobs[0].stage.BackupTemp? {
        Advance(if isCurrent then P.BackupRename else P.Settling);
      } else if jobs[0].stage.PrimaryTemp? {
        if isCurrent {
          Advance(P.PrimaryRename);
        } else {
          Advance(P.Settling);
          var _ := WriteSync(o);
        }
      }
    }

    method WriteFails()
      modifies this
      ensures View() == P.Step(old(View()), P.WriteFails)
    {
      if jobs == [] || !P.InFlight(jobs[0].stage) { return; }
      if jobs[0].revision == revision {
        retryAttempt := retryAttempt + 1;
        ScheduleWrite(P.RetryDelayMs(retryAttempt));
      }
      Advance(P.Settling);
    }

    method WriteResumes(o: P.Sync)
      modifies this
      ensures View() == P.Step(old(View()), P.WriteResumes(o))
    {
      if jobs == [] { return; }
      var isCurrent := jobs[0].revision == revision;
      if jobs[0].stage.BackupLanded? {
        Advance(if isCurrent then P.PrimaryTemp else P.Settling);
      } else if jobs[0].stage.PrimaryLanded? {
        Advance(P.Settling);
        if !isCurrent {
          var _ := WriteSync(o);
        } else {
          retryAttempt := 0;
        }
      }
    }

    method WriteSettles(o: P.Sync)
      modifies this
      ensures View() == P.Step(old(View()), P.WriteSettles(o))
    {
      if jobs == [] || !jobs[0].stage.Settling? { return; }
      var stale := jobs[0].revision != revision;
      jobs := jobs[1..];
      if stale && timer.None? {
        var _ := WriteSync(o);
      }
    }
  }
}
