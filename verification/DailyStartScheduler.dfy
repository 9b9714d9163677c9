/** The scheduler object.  Its methods are the uninterrupted stretches of the program and are proved to be the
    protocol steps of the same name. */
module DailyStartScheduler {
  import opened Common
  import opened LocalDate
  import opened DailyStart
  import P = DailyStartProtocol

  class DailyStartScheduler {
    const zone: Zone
    var settings: Settings                         // what the controller persists
    var reconcileInFlight: Option<P.Operation>
    var reconcileTimer: bool
    var lifecycleGeneration: nat
    ghost var starts: seq<P.StartRecord>           // every call of `start()` so far

    ghost function View(): P.State
      reads this
    {
      P.State(settings, reconcileInFlight, reconcileTimer, lifecycleGeneration, starts)
    }

    constructor (zone: Zone, settings: Settings, ghost starts: seq<P.StartRecord>)
      ensures this.zone == zone
      ensures forall st: P.State | st.settings == settings && st.operation.None? && st.starts == starts ::
                View() == P.DoCrash(st)
    {
      this.zone, this.settings, this.starts := zone, settings, starts;
      reconcileInFlight, reconcileTimer, lifecycleGeneration := None, false, 0;
    }

    method Reconcile(env: P.Env)
      modifies this
      ensures View() == P.Step(zone, old(View()), P.Reconcile(env))
    {
      if reconcileInFlight.None? { ReconcileOnce(lifecycleGeneration, env); }
    }

    method Begin(env: P.Env)
      modifies this
      ensures View() == P.Step(zone, old(View()), P.Begin(env))
    {
      End();
      Reconcile(env);
      reconcileTimer := true;
    }

    method End()
      modifies this
      ensures View() == P.Step(zone, old(View()), P.End)
    {
      lifecycleGeneration := lifecycleGeneration + 1;
      if reconcileTimer { reconcileTimer := false; }
    }

    method Finish(localDate: string, outcome: Outcome)
      modifies this`settings
      ensures settings == P.Finish(old(settings), localDate, outcome)
    {
      settings := settings.(handled := localDate, pending := "", outcome := outcome);
    }

    /** `reconcileOnce` up to its only `await`. */
    method ReconcileOnce(generation: nat, env: P.Env)
      requires reconcileInFlight.None? && generation == lifecycleGeneration
      modifies this
      ensures View() == P.ReconcileOnce(zone, old(View()), env)
    {
      hide Today, Less, IsValid, LocalTarget;
      if !settings.enabled || !IsValid(settings.first) { return; }
      var today := Today(zone, env.now);
      var handledDate := if IsValid(settings.handled) then settings.handled else "";
      var pendingDate := if IsValid(settings.pending) then settings.pending else "";
      if (handledDate != "" && !Less(handledDate, today)) || (pendingDate != "" && Less(today, pendingDate)) {
        return;
      }
      if IsValid(settings.pending) && Less(settings.pending, today) {
        var missedDate := settings.pending;
        var lastHandled := if Less(missedDate, handledDate) then handledDate else missedDate;
        settings := settings.(handled := lastHandled, pending := "", outcome := Missed);
        assert settings == AfterMissed(old(settings), today);
      }
      Dispatch(today, generation, env);
    }

    method Dispatch(today: string, generation: nat, env: P.Env)
      requires reconcileInFlight.None? && generation == lifecycleGeneration
      modifies this
      ensures View() == P.Dispatch(zone, old(View()), today, env)
    {
      hide Less, LocalTarget;
      if Less(today, settings.first) || settings.handled == today { return; }
      var target := LocalTarget(zone, today, settings.minute);
      if target.None? || target.value == 0 || target.value > env.now { return; }
      if settings.pending == today {
        Finish(today, if settings.outcome.NoOutcome? then StartFailed else settings.outcome);
      } else if env.sessionActive {
        Finish(today, AlreadyActive);
      } else if !env.hasQueuedItems {
        Finish(today, EmptyQueue);
      } else if !env.canStart {
        settings := settings.(outcome := MissingAccount);
      } else {
        settings := settings.(pending := today, outcome := StartFailed);
        reconcileInFlight := Some(P.Operation(today, generation));
        starts := starts + [P.StartRecord(today, P.InFlight)];
      }
    }

    /** What follows the `await`: `start()` has returned or thrown. */
    method StartSettles(threw: bool)
      modifies this
      ensures View() == P.Step(zone, old(View()), P.StartSettles(threw))
    {
      if reconcileInFlight.None? { return; }
      var op := reconcileInFlight.value;
      reconcileInFlight := None;
      starts := P.Mark(starts, if threw then P.Threw else P.Succeeded);
      if op.generation != lifecycleGeneration { return; }
      if threw {
        settings := settings.(pending := "", outcome := StartFailed);
      } else {
        Finish(op.date, Started);
      }
    }
  }
}
