/** What becomes of a diagnostic log entry: accepted or dropped, reported, and written in the end
    (src/main/diagnostic-log-writer.ts:13-84). */
module WriterOutcomes {
  import opened Common
  import opened WriterProtocol

  // ---------------------------------------------------------------- accepted or dropped

  /** The last write to a file, if it has not settled. */
  ghost predicate LastUnsettled(tasks: seq<Task>, file: string, id: nat) {
    id < |tasks| && tasks[id].file == file && !tasks[id].phase.Settled?
    && forall k :: id < k < |tasks| ==> tasks[k].file != file
  }

  lemma TailIsLastUnsettled(w: Writer, file: string, id: nat)
    requires Inv(w)
    ensures LastUnsettled(w.tasks, file, id) <==> file in w.writes && w.writes[file] == id
  {
    hide Budget, Slots, BackLinks, InOrder;
  }

  /** In every run an entry is accepted exactly if it fits, with what has not settled yet, into 16 MiB.  It is then
      chained behind the last unsettled write to its file, if there is one; a dropped one leaves every write as it
      is. */
  lemma AcceptedExactly(events: seq<Event>, file: string, bytes: nat)
    ensures var w := Run(Initial, events);
            var v := Step(w, Append(file, bytes));
            if OpenBytes(w.tasks) + bytes <= 16_777_216 then
              && |v.tasks| == |w.tasks| + 1 && v.tasks[..|w.tasks|] == w.tasks
              && v.tasks[|w.tasks|].file == file && v.tasks[|w.tasks|].bytes == bytes
              && v.tasks[|w.tasks|].phase.Chained?
              && (forall id: nat :: v.tasks[|w.tasks|].previous == Some(id) <==> LastUnsettled(w.tasks, file, id))
              && v.droppedBytes == w.droppedBytes && v.overflowReported == w.overflowReported
            else
              && v.tasks == w.tasks && v.writes == w.writes && v.pendingBytes == w.pendingBytes
              && v.droppedBytes == w.droppedBytes + bytes && v.overflowReported
  {
    ReachableInv(events);
    hide Run, InOrder, Slots, Links, LastUnsettled;
    var w := Run(Initial, events);
    forall id: nat ensures LastUnsettled(w.tasks, file, id) <==> file in w.writes && w.writes[file] == id {
      TailIsLastUnsettled(w, file, id);
    }
  }

  // ---------------------------------------------------------------- the overflow report

  /** This event is an entry that is dropped. */
  predicate Drops(w: Writer, e: Event) { e.Append? && Step(w, e).droppedBytes > w.droppedBytes }

  /** This event settles a write and leaves nothing pending. */
  predicate Empties(w: Writer, e: Event) {
    e.Settle? && Step(w, e).tasks != w.tasks && Step(w, e).pendingBytes == 0
  }

  ghost predicate DroppedSinceEmpty(events: seq<Event>)
    decreases |events|
  {
    events != []
    && (var n := |events| - 1;
        var w := Run(Initial, events[..n]);
        Drops(w, events[n]) || (!Empties(w, events[n]) && DroppedSinceEmpty(events[..n])))
  }

  lemma ReportStep(w: Writer, e: Event)
    requires w.pendingBytes <= MAX_PENDING_BYTES
    ensures Step(w, e).overflowReported <==> Drops(w, e) || (!Empties(w, e) && w.overflowReported)
  {
    match e
    case Append(file, bytes) =>
    case Begin(id) =>
    case Finish(id) =>
    case Settle(id) =>
      if id < |w.tasks| && w.tasks[id].phase.GaveBack? { assert Step(w, e).tasks[id] != w.tasks[id]; }
  }

  lemma {:induction false} RunSnoc(w: Writer, events: seq<Event>, e: Event)
    ensures Run(w, events + [e]) == Step(Run(w, events), e)
    decreases |events|
  {
    hide Step;
    if events != [] {
      assert (events + [e])[1..] == events[1..] + [e];
      RunSnoc(Step(w, events[0]), events[1..], e);
    } else {
      assert (events + [e])[1..] == [];
      assert Run(w, [e]) == Run(Step(w, e), []);
    }
  }

  /** The overflow is on report exactly while an entry has been dropped since the queue was last empty, so each time it
      fills up it is reported once. */
  lemma {:induction false} OverflowIsReportedOnce(events: seq<Event>)
    ensures Run(Initial, events).overflowReported <==> DroppedSinceEmpty(events)
    decreases |events|
  {
    hide Step, Drops, Empties;
    if events != [] {
      var n := |events| - 1;
      OverflowIsReportedOnce(events[..n]);
      BytesAreAccounted(events[..n]);
      RunSnoc(Initial, events[..n], events[n]);
      assert events[..n] + [events[n]] == events;
      ReportStep(Run(Initial, events[..n]), events[n]);
    }
  }

  // ---------------------------------------------------------------- slots

  /** A write that finds both slots taken queues up at the end, and a slot that is given back goes to the first in the
      queue; nothing else moves the queue. */
  lemma SlotsGoInOrder(events: seq<Event>, e: Event)
    ensures var w := Run(Initial, events);
            var v := Step(w, e);
            if e.Begin? && MayBegin(w.tasks, e.task) && w.activeWrites == 2 then
              v.waiting == w.waiting + [e.task] && v.tasks == w.tasks[e.task := w.tasks[e.task].(phase := WaitingSlot)]
            else if e.Finish? && e.task < |w.tasks| && w.tasks[e.task].phase.Holding? && w.waiting != [] then
              && w.waiting[0] < |w.tasks| && w.waiting[0] != e.task && v.waiting == w.waiting[1..]
              && v.tasks == w.tasks[e.task := w.tasks[e.task].(phase := GaveBack)]
                                   [w.waiting[0] := w.tasks[w.waiting[0]].(phase := Holding)]
            else v.waiting == w.waiting
  {
    ReachableInv(events);
    hide Run, Budget, InOrder, Links;
  }

  // ---------------------------------------------------------------- coming to rest

  /** A write may begin, gives its slot back, or settles. */
  predicate Own(w: Writer, e: Event) {
    match e
    case Append(_, _) => false
    case Begin(id) => MayBegin(w.tasks, id)
    case Finish(id) => id < |w.tasks| && w.tasks[id].phase.Holding?
    case Settle(id) => id < |w.tasks| && w.tasks[id].phase.GaveBack?
  }

  function PhasesLeft(phase: Phase): nat {
    match phase
    case Chained => 4
    case WaitingSlot => 3
    case Holding => 2
    case GaveBack => 1
    case Settled => 0
  }

  function Work(tasks: seq<Task>): nat
    decreases |tasks|
  {
    if tasks == [] then 0 else Work(tasks[..|tasks| - 1]) + PhasesLeft(tasks[|tasks| - 1].phase)
  }

  lemma {:induction false} MovedWork(tasks: seq<Task>, id: nat, phase: Phase)
    requires id < |tasks|
    ensures Work(Moved(tasks, id, phase)) == Work(tasks) - PhasesLeft(tasks[id].phase) + PhasesLeft(phase)
    decreases |tasks|
  {
    var n := |tasks| - 1;
    if id < n {
      MovedWork(tasks[..n], id, phase);
      assert Moved(tasks, id, phase)[..n] == Moved(tasks[..n], id, phase);
    } else {
      assert Moved(tasks, id, phase)[..n] == tasks[..n];
    }
  }

  /** Each such step leaves less to do. */
  lemma OwnStepWorks(w: Writer, e: Event)
    requires Inv(w) && Own(w, e)
    ensures Work(Step(w, e).tasks) < Work(w.tasks)
  {
    hide Work, Budget, InOrder, Links, HolderCount;
    match e
    case Begin(id) =>
      MovedWork(w.tasks, id, WaitingSlot);
      MovedWork(w.tasks, id, Holding);
    case Finish(id) =>
      MovedWork(w.tasks, id, GaveBack);
      if w.waiting != [] { MovedWork(Moved(w.tasks, id, GaveBack), w.waiting[0], Holding); }
    case Settle(id) => MovedWork(w.tasks, id, Settled);
  }

  ghost predicate OwnRun(w: Writer, events: seq<Event>)
    decreases |events|
  {
    events == [] || (Own(w, events[0]) && OwnRun(Step(w, events[0]), events[1..]))
  }

  lemma {:induction false} OwnRunIsBounded(w: Writer, events: seq<Event>)
    requires Inv(w) && OwnRun(w, events)
    ensures |events| + Work(Run(w, events).tasks) <= Work(w.tasks) && Inv(Run(w, events))
    decreases |events|
  {
    hide Inv, Step, Work, Own;
    if events != [] {
      StepKeepsInv(w, events[0]);
      OwnStepWorks(w, events[0]);
      OwnRunIsBounded(Step(w, events[0]), events[1..]);
    }
  }

  lemma MovingIsOwn(w: Writer, e: Event)
    requires Step(w, e).tasks != w.tasks && !e.Append?
    ensures Own(w, e)
  {}

  lemma AllSettled(w: Writer)
    requires Inv(w) && forall i :: 0 <= i < |w.tasks| ==> w.tasks[i].phase.Settled?
    ensures w.pendingBytes == 0 && w.writes == map[] && w.waiting == [] && w.activeWrites == 0
  {
    NothingOpen(w.tasks);
    assert w.writes.Keys == {};
  }

  lemma {:induction false} NothingOpen(tasks: seq<Task>)
    requires forall i :: 0 <= i < |tasks| ==> tasks[i].phase.Settled?
    ensures OpenBytes(tasks) == 0 && HolderCount(tasks) == 0
    decreases |tasks|
  {
    if tasks != [] { NothingOpen(tasks[..|tasks| - 1]); }
  }

  /** Flushing ends.  After any run the writes under way can only take so many steps, in whatever order, and one is
      always left until every accepted entry has settled; then nothing is pending, no slot is held and no file is
      chained. */
  lemma WriterComesToRest(before: seq<Event>, events: seq<Event>)
    requires OwnRun(Run(Initial, before), events)
    ensures var w := Run(Initial, before);
            var final := Run(w, events);
            && |events| <= Work(w.tasks)
            && ((exists e :: Own(final, e))
                || (final.pendingBytes == 0 && final.writes == map[] && final.waiting == [] && final.activeWrites == 0
                    && forall i :: 0 <= i < |final.tasks| ==> final.tasks[i].phase.Settled?))
  {
    hide Run, Inv, Step, Own, OwnRun, Work;
    ReachableInv(before);
    OwnRunIsBounded(Run(Initial, before), events);
    var final := Run(Run(Initial, before), events);
    if i :| 0 <= i < |final.tasks| && !final.tasks[i].phase.Settled? {
      Proceeds(final, i);
      var e :| Step(final, e).tasks != final.tasks && !e.Append?;
      MovingIsOwn(final, e);
    } else {
      AllSettled(final);
    }
  }
}
