/** The monitor object.  Its operations run one at a time on a promise chain, so each is one method here; what
    the awaited enqueue and save calls answer is an argument. */
module DownloadHealthMonitor {
  import opened Common
  import opened HealthEvaluation
  import opened HealthRuns

  class DownloadHealthMonitor {
    var state: State
    var file: Option<State>           // what the state file holds
    var outbox: seq<Event>            // everything enqueued so far
    ghost var clock: nat
    ghost var log: seq<Mark>          // the history of committed evaluations

    ghost function View(): Machine
      reads this
    {
      Machine(state, file, clock, log)
    }

    constructor (file: Option<State>, ghost clock: nat, ghost log: seq<Mark>)
      ensures forall m: Machine | m.disk == file && m.clock == clock && m.log == log :: View() == Step(m, Restart)
      ensures outbox == []
    {
      this.state := Load(file);
      this.file, this.clock, this.log, this.outbox := file, clock, log, [];
    }

    /** `sample`: evaluate, enqueue, save, and only then commit. */
    method TakeSample(s: Snapshot, now: int, o: Options, enqueueOk: bool, saveOk: bool) returns (committed: bool)
      modifies this
      ensures committed <==> saveOk && (enqueueOk || Evaluate(old(state), s, now, o).events == [])
      ensures View() == Step(old(View()), if committed then Sample(s, now, o) else FailedSample(s, now, o))
      ensures outbox == if enqueueOk then old(outbox) + Evaluate(old(state), s, now, o).events else old(outbox)
    {
      var next, events := EvaluateDownloadHealth(state, s, now, o);
      clock := FiniteInteger(now);
      if events != [] {
        if !enqueueOk { return false; }
        outbox := outbox + events;
      }
      if !saveOk { return false; }
      file := Some(next);
      log := log + Marks(state, Evaluation(next, events));
      state := next;
      return true;
    }

    /** `acknowledgeDelivery`: the state changes in memory even if it cannot be saved. */
    method AcknowledgeDelivery(isStall: bool, id: Option<EventId>, deliveredAt: int, cooldownMs: int, saveOk: bool)
      modifies this
      ensures View() == Step(old(View()), Acknowledge(isStall, id, deliveredAt, cooldownMs, saveOk))
      ensures outbox == old(outbox)
    {
      if !isStall || id.None? || state.lastDeliveredStallEventId == id { return; }
      var acknowledgedAt := FiniteInteger(deliveredAt);
      state := state.(lastAlertAt := acknowledgedAt,
                      cooldownUntil := acknowledgedAt + FiniteInteger(cooldownMs),
                      lastDeliveredStallEventId := id);
      log := log + [Acknowledged(state.cooldownUntil)];
      if saveOk { file := Some(state); }
    }
  }
}
