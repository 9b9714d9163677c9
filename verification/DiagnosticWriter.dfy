/** The diagnostic log writer (src/main/diagnostic-log-writer.ts:6-84): per-file write chains over a two-slot semaphore
    with hand-off and a byte budget. */
module WriterProtocol {
  import opened Common

  /** How far an accepted write has come: chained behind its predecessor, waiting for a slot, holding one, having
      given it back, settled. */
  datatype Phase = Chained | WaitingSlot | Holding | GaveBack | Settled

  datatype Task = Task(file: string, bytes: nat, previous: Option<nat>, phase: Phase)

  /** Accepted writes are numbered in call order; `offeredBytes` counts what callers asked for. */
  datatype Writer = Writer(
    tasks: seq<Task>,
    writes: map<string, nat>,
    waiting: seq<nat>,
    activeWrites: nat,
    pendingBytes: int,
    droppedBytes: nat,
    overflowReported: bool,
    offeredBytes: nat)

  datatype Event =
    | Append(file: string, bytes: nat)
    | Begin(task: nat)
    | Finish(task: nat)
    | Settle(task: nat)

  const MAX_PENDING_BYTES: nat := 16 * 1024 * 1024
  const SLOTS: nat := 2

  function WithPhase(w: Writer, id: nat, phase: Phase): Writer
    requires id < |w.tasks|
  {
    w.(tasks := w.tasks[id := w.tasks[id].(phase := phase)])
  }

  function DoAppend(w: Writer, file: string, bytes: nat): Writer {
    var offered := w.(offeredBytes := w.offeredBytes + bytes);
    if w.pendingBytes + bytes > MAX_PENDING_BYTES then
      offered.(droppedBytes := w.droppedBytes + bytes, overflowReported := true)
    else
      offered.(pendingBytes := w.pendingBytes + bytes,
               tasks := w.tasks + [Task(file, bytes, if file in w.writes then Some(w.writes[file]) else None, Chained)],
               writes := w.writes[file := |w.tasks|])
  }

  predicate MayBegin(tasks: seq<Task>, id: nat) {
    && id < |tasks| && tasks[id].phase.Chained?
    && (tasks[id].previous.Some? ==>
          tasks[id].previous.value < |tasks| && tasks[tasks[id].previous.value].phase.Settled?)
  }

  function DoBegin(w: Writer, id: nat): Writer {
    if !MayBegin(w.tasks, id) then w
    else if w.activeWrites >= SLOTS then WithPhase(w, id, WaitingSlot).(waiting := w.waiting + [id])
    else WithPhase(w, id, Holding).(activeWrites := w.activeWrites + 1)
  }

  /** The slot goes straight to the longest waiting task, if there is one. */
  function DoFinish(w: Writer, id: nat): Writer {
    if id >= |w.tasks| || !w.tasks[id].phase.Holding? then w
    else
      var back := WithPhase(w, id, GaveBack);
      if w.waiting != [] && w.waiting[0] < |w.tasks| then
        WithPhase(back, w.waiting[0], Holding).(waiting := w.waiting[1..])
      else if w.activeWrites > 0 then back.(activeWrites := w.activeWrites - 1)
      else back
  }

  function DoSettle(w: Writer, id: nat): Writer {
    if id >= |w.tasks| || !w.tasks[id].phase.GaveBack? then w
    else
      var task := w.tasks[id];
      var left := w.pendingBytes - task.bytes;
      WithPhase(w, id, Settled).(
        pendingBytes := left,
        overflowReported := if left == 0 then false else w.overflowReported,
        writes := if task.file in w.writes && w.writes[task.file] == id then w.writes - {task.file} else w.writes)
  }

  function Step(w: Writer, e: Event): Writer {
    match e
    case Append(file, bytes) => DoAppend(w, file, bytes)
    case Begin(id) => DoBegin(w, id)
    case Finish(id) => DoFinish(w, id)
    case Settle(id) => DoSettle(w, id)
  }

  const Initial: Writer := Writer([], map[], [], 0, 0, 0, false, 0)

  function Run(w: Writer, events: seq<Event>): Writer
    decreases |events|
  {
    if events == [] then w else Run(Step(w, events[0]), events[1..])
  }

  // ---------------------------------------------------------------- counting

  function HolderCount(tasks: seq<Task>): nat
    decreases |tasks|
  {
    if tasks == [] then 0
    else HolderCount(tasks[..|tasks| - 1]) + (if tasks[|tasks| - 1].phase.Holding? then 1 else 0)
  }

  function OpenBytes(tasks: seq<Task>): nat
    decreases |tasks|
  {
    if tasks == [] then 0
    else OpenBytes(tasks[..|tasks| - 1])
         + (if tasks[|tasks| - 1].phase.Settled? then 0 else tasks[|tasks| - 1].bytes)
  }

  function AcceptedBytes(tasks: seq<Task>): nat
    decreases |tasks|
  {
    if tasks == [] then 0 else AcceptedBytes(tasks[..|tasks| - 1]) + tasks[|tasks| - 1].bytes
  }

  lemma {:induction false} PhaseChange(tasks: seq<Task>, id: nat, phase: Phase)
    requires id < |tasks|
    ensures var t := tasks[id := tasks[id].(phase := phase)];
            && HolderCount(t) == HolderCount(tasks) - (if tasks[id].phase.Holding? then 1 else 0)
                                                   + (if phase.Holding? then 1 else 0)
            && OpenBytes(t) == OpenBytes(tasks) - (if tasks[id].phase.Settled? then 0 else tasks[id].bytes)
                                               + (if phase.Settled? then 0 else tasks[id].bytes)
            && AcceptedBytes(t) == AcceptedBytes(tasks)
    decreases |tasks|
  {
    var n := |tasks| - 1;
    var t := tasks[id := tasks[id].(phase := phase)];
    if id < n {
      PhaseChange(tasks[..n], id, phase);
      assert t[..n] == tasks[..n][id := tasks[id].(phase := phase)];
    } else {
      assert t[..n] == tasks[..n];
    }
  }

  // ---------------------------------------------------------------- the invariant

  ghost predicate Budget(w: Writer) {
    && w.pendingBytes == OpenBytes(w.tasks) && w.pendingBytes <= MAX_PENDING_BYTES
    && AcceptedBytes(w.tasks) + w.droppedBytes == w.offeredBytes
  }

  /** The queue holds exactly the waiting writes, each once. */
  ghost predicate Queued(tasks: seq<Task>, waiting: seq<nat>) {
    && (forall k :: 0 <= k < |waiting| ==> waiting[k] < |tasks| && tasks[waiting[k]].phase.WaitingSlot?)
    && (forall k, l :: 0 <= k < l < |waiting| ==> waiting[k] != waiting[l])
    && (forall i :: 0 <= i < |tasks| && tasks[i].phase.WaitingSlot? ==> i in waiting)
  }

  ghost predicate Slots(w: Writer) {
    && w.activeWrites == HolderCount(w.tasks) <= SLOTS
    && (w.waiting != [] ==> w.activeWrites == SLOTS)
    && Queued(w.tasks, w.waiting)
  }

  function Moved(tasks: seq<Task>, id: nat, phase: Phase): seq<Task>
    requires id < |tasks|
  {
    tasks[id := tasks[id].(phase := phase)]
  }

  lemma OthersKeepQueue(tasks: seq<Task>, waiting: seq<nat>, id: nat, phase: Phase)
    requires Queued(tasks, waiting) && id < |tasks| && !tasks[id].phase.WaitingSlot? && !phase.WaitingSlot?
    ensures Queued(Moved(tasks, id, phase), waiting)
  {}

  lemma WaitingKeepsQueue(tasks: seq<Task>, waiting: seq<nat>, id: nat)
    requires Queued(tasks, waiting) && id < |tasks| && !tasks[id].phase.WaitingSlot?
    ensures Queued(Moved(tasks, id, WaitingSlot), waiting + [id])
  {
    var t, q := Moved(tasks, id, WaitingSlot), waiting + [id];
    assert id !in waiting;
    forall i | 0 <= i < |t| && t[i].phase.WaitingSlot? ensures i in q {
      if i != id { assert i in waiting; }
    }
  }

  lemma NextKeepsQueue(tasks: seq<Task>, waiting: seq<nat>, phase: Phase)
    requires Queued(tasks, waiting) && waiting != [] && !phase.WaitingSlot?
    ensures waiting[0] < |tasks| && tasks[waiting[0]].phase.WaitingSlot?
    ensures Queued(Moved(tasks, waiting[0], phase), waiting[1..])
  {
    var t, q := Moved(tasks, waiting[0], phase), waiting[1..];
    assert forall k :: 0 <= k < |q| ==> q[k] == waiting[k + 1];
    forall i | 0 <= i < |t| && t[i].phase.WaitingSlot? ensures i in q {
      assert i in waiting && i != waiting[0];
    }
  }

  lemma AppendKeepsQueue(tasks: seq<Task>, waiting: seq<nat>, task: Task)
    requires Queued(tasks, waiting) && !task.phase.WaitingSlot?
    ensures Queued(tasks + [task], waiting)
  {}

  /** A write leaves the chain only after every earlier write to its file has settled. */
  ghost predicate InOrder(w: Writer) {
    forall i, j :: 0 <= i < j < |w.tasks| && w.tasks[i].file == w.tasks[j].file ==>
      && (!w.tasks[j].phase.Chained? ==> w.tasks[i].phase.Settled?)
      && (w.tasks[j].previous.None? ==> w.tasks[i].phase.Settled?)
      && (w.tasks[j].previous.Some? && i != w.tasks[j].previous.value ==> i < w.tasks[j].previous.value)
  }

  /** A predecessor is an earlier write to the same file. */
  ghost predicate BackLinks(tasks: seq<Task>) {
    forall j :: 0 <= j < |tasks| && tasks[j].previous.Some? ==>
      tasks[j].previous.value < j && tasks[tasks[j].previous.value].file == tasks[j].file
  }

  /** The chain map names the last write of each file that has an unsettled one. */
  ghost predicate Tails(w: Writer) {
    && (forall f :: f in w.writes ==> w.writes[f] < |w.tasks| && w.tasks[w.writes[f]].file == f
                                      && !w.tasks[w.writes[f]].phase.Settled?)
    && (forall i :: 0 <= i < |w.tasks| && w.tasks[i].file in w.writes ==> i <= w.writes[w.tasks[i].file])
    && (forall i :: 0 <= i < |w.tasks| && !w.tasks[i].phase.Settled? ==> w.tasks[i].file in w.writes)
  }

  ghost predicate Links(w: Writer) { BackLinks(w.tasks) && Tails(w) }

  ghost predicate Inv(w: Writer) { Budget(w) && Slots(w) && InOrder(w) && Links(w) }

  /** An unsettled write may move on, out of the chain only when every earlier write to its file has settled. */
  lemma OrderUnderPhase(w: Writer, id: nat, phase: Phase)
    requires InOrder(w) && id < |w.tasks| && !w.tasks[id].phase.Settled?
    requires forall i :: 0 <= i < id && w.tasks[i].file == w.tasks[id].file ==> w.tasks[i].phase.Settled?
    ensures InOrder(WithPhase(w, id, phase))
  {}

  lemma LinksUnderPhase(w: Writer, id: nat, phase: Phase)
    requires Links(w) && id < |w.tasks| && !w.tasks[id].phase.Settled? && !phase.Settled?
    ensures Links(WithPhase(w, id, phase))
  {}

  lemma EarlierSettled(w: Writer, id: nat)
    requires InOrder(w) && Links(w) && id < |w.tasks|
    requires MayBegin(w.tasks, id) || !w.tasks[id].phase.Chained?
    ensures forall i :: 0 <= i < id && w.tasks[i].file == w.tasks[id].file ==> w.tasks[i].phase.Settled?
  {}

  lemma AppendKeepsBudget(w: Writer, file: string, bytes: nat)
    requires Budget(w)
    ensures Budget(DoAppend(w, file, bytes))
  {
    var v := DoAppend(w, file, bytes);
    if |v.tasks| > |w.tasks| { assert v.tasks[..|v.tasks| - 1] == w.tasks; }
  }

  lemma OneMoreTask(tasks: seq<Task>, task: Task)
    requires task.phase.Chained?
    ensures HolderCount(tasks + [task]) == HolderCount(tasks)
  {
    assert (tasks + [task])[..|tasks|] == tasks;
  }

  lemma AppendKeepsSlots(w: Writer, file: string, bytes: nat)
    requires Slots(w)
    ensures Slots(DoAppend(w, file, bytes))
  {
    hide HolderCount, Queued;
    var v := DoAppend(w, file, bytes);
    if v.tasks != w.tasks {
      OneMoreTask(w.tasks, v.tasks[|w.tasks|]);
      AppendKeepsQueue(w.tasks, w.waiting, v.tasks[|w.tasks|]);
    }
  }

  lemma AppendKeepsOrder(w: Writer, file: string, bytes: nat)
    requires InOrder(w) && Links(w)
    ensures InOrder(DoAppend(w, file, bytes))
  {}

  lemma AppendKeepsLinks(w: Writer, file: string, bytes: nat)
    requires Links(w)
    ensures Links(DoAppend(w, file, bytes))
  {
    AppendKeepsBackLinks(w, file, bytes);
    AppendKeepsTails(w, file, bytes);
    hide BackLinks, Tails, DoAppend;
  }

  lemma AppendKeepsBackLinks(w: Writer, file: string, bytes: nat)
    requires Links(w)
    ensures BackLinks(DoAppend(w, file, bytes).tasks)
  {}

  lemma AppendKeepsTails(w: Writer, file: string, bytes: nat)
    requires Tails(w)
    ensures Tails(DoAppend(w, file, bytes))
  {
    var v := DoAppend(w, file, bytes);
    assert forall i :: 0 <= i < |w.tasks| ==> v.tasks[i] == w.tasks[i];
    hide DoAppend;
    assert v.writes == w.writes || (|v.tasks| == |w.tasks| + 1 && v.writes == w.writes[file := |w.tasks|]
                                    && v.tasks[|w.tasks|].file == file && v.tasks[|w.tasks|].phase.Chained?);
  }

  lemma BeginKeepsSlots(w: Writer, id: nat)
    requires Slots(w) && MayBegin(w.tasks, id)
    ensures Slots(DoBegin(w, id))
  {
    hide HolderCount, Queued;
    PhaseChange(w.tasks, id, if w.activeWrites >= SLOTS then WaitingSlot else Holding);
    if w.activeWrites >= SLOTS {
      WaitingKeepsQueue(w.tasks, w.waiting, id);
    } else {
      OthersKeepQueue(w.tasks, w.waiting, id, Holding);
    }
  }

  lemma BeginKeepsInv(w: Writer, id: nat)
    requires Inv(w)
    ensures Inv(DoBegin(w, id))
  {
    hide Budget, Slots, InOrder, Links;
    if MayBegin(w.tasks, id) {
      var phase := if w.activeWrites >= SLOTS then WaitingSlot else Holding;
      BeginKeepsSlots(w, id);
      EarlierSettled(w, id);
      OrderUnderPhase(w, id, phase);
      LinksUnderPhase(w, id, phase);
      BudgetUnderPhase(w, id, phase);
      SameLinks(WithPhase(w, id, phase), DoBegin(w, id));
    }
  }

  lemma BudgetUnderPhase(w: Writer, id: nat, phase: Phase)
    requires Budget(w) && id < |w.tasks| && !w.tasks[id].phase.Settled? && !phase.Settled?
    ensures Budget(WithPhase(w, id, phase))
  {
    PhaseChange(w.tasks, id, phase);
  }

  lemma SameBudget(v: Writer, w: Writer)
    requires w == v.(waiting := w.waiting, activeWrites := w.activeWrites) && Budget(v)
    ensures Budget(w)
  {}

  lemma SameOrder(v: Writer, w: Writer)
    requires w.tasks == v.tasks && InOrder(v)
    ensures InOrder(w)
  {}

  lemma SameChains(v: Writer, w: Writer)
    requires w.tasks == v.tasks && w.writes == v.writes && Links(v)
    ensures Links(w)
  {}

  /** Budget, order and links do not depend on the slots. */
  lemma SameLinks(v: Writer, w: Writer)
    requires w == v.(waiting := w.waiting, activeWrites := w.activeWrites)
    requires Budget(v) && InOrder(v) && Links(v)
    ensures Budget(w) && InOrder(w) && Links(w)
  {
    hide Budget, InOrder, Links;
    SameBudget(v, w);
    SameOrder(v, w);
    SameChains(v, w);
  }

  lemma FreeKeepsSlots(w: Writer, id: nat)
    requires Slots(w) && id < |w.tasks| && w.tasks[id].phase.Holding? && w.waiting == []
    ensures Slots(DoFinish(w, id)) && w.activeWrites > 0
  {
    hide HolderCount, Queued;
    PhaseChange(w.tasks, id, GaveBack);
    OthersKeepQueue(w.tasks, w.waiting, id, GaveBack);
  }

  lemma HandOffKeepsSlots(w: Writer, id: nat)
    requires Slots(w) && id < |w.tasks| && w.tasks[id].phase.Holding? && w.waiting != []
    ensures Slots(DoFinish(w, id)) && w.waiting[0] < |w.tasks| && w.tasks[w.waiting[0]].phase.WaitingSlot?
  {
    hide HolderCount, Queued;
    NextKeepsQueue(w.tasks, w.waiting, Holding);
    PhaseChange(w.tasks, id, GaveBack);
    OthersKeepQueue(w.tasks, w.waiting, id, GaveBack);
    var back := Moved(w.tasks, id, GaveBack);
    NextKeepsQueue(back, w.waiting, Holding);
    PhaseChange(back, w.waiting[0], Holding);
  }

  lemma FinishKeepsSlots(w: Writer, id: nat)
    requires Slots(w) && id < |w.tasks| && w.tasks[id].phase.Holding?
    ensures Slots(DoFinish(w, id))
    ensures if w.waiting == [] then w.activeWrites > 0 else w.waiting[0] < |w.tasks|
  {
    hide Slots, DoFinish;
    if w.waiting != [] { HandOffKeepsSlots(w, id); } else { FreeKeepsSlots(w, id); }
  }

  lemma FinishKeepsInv(w: Writer, id: nat)
    requires Inv(w)
    ensures Inv(DoFinish(w, id))
  {
    hide Budget, Slots, InOrder, Links, DoFinish;
    if id < |w.tasks| && w.tasks[id].phase.Holding? {
      FinishKeepsSlots(w, id);
      FinishIs(w, id);
      EarlierSettled(w, id);
      OrderUnderPhase(w, id, GaveBack);
      LinksUnderPhase(w, id, GaveBack);
      BudgetUnderPhase(w, id, GaveBack);
      var back := WithPhase(w, id, GaveBack);
      if w.waiting != [] {
        HandOffKeepsSlots(w, id);
        NextMovesOn(back, w.waiting[0]);
        SameLinks(WithPhase(back, w.waiting[0], Holding), DoFinish(w, id));
      } else {
        SameLinks(back, DoFinish(w, id));
      }
    } else {
      NothingToFinish(w, id);
    }
  }

  lemma NothingToFinish(w: Writer, id: nat)
    requires id >= |w.tasks| || !w.tasks[id].phase.Holding?
    ensures DoFinish(w, id) == w
  {}

  /** A finished write gives its slot back or hands it over; tasks and chains change in no other way. */
  lemma FinishIs(w: Writer, id: nat)
    requires id < |w.tasks| && w.tasks[id].phase.Holding? && (w.waiting != [] ==> w.waiting[0] < |w.tasks|)
    ensures var back := WithPhase(w, id, GaveBack);
            var moved := if w.waiting != [] then WithPhase(back, w.waiting[0], Holding) else back;
            DoFinish(w, id) == moved.(waiting := DoFinish(w, id).waiting, activeWrites := DoFinish(w, id).activeWrites)
  {}

  lemma NextMovesOn(w: Writer, next: nat)
    requires Budget(w) && InOrder(w) && Links(w) && next < |w.tasks| && w.tasks[next].phase.WaitingSlot?
    ensures var v := WithPhase(w, next, Holding); Budget(v) && InOrder(v) && Links(v)
  {
    hide Budget, InOrder, Links;
    EarlierSettled(w, next);
    OrderUnderPhase(w, next, Holding);
    LinksUnderPhase(w, next, Holding);
    BudgetUnderPhase(w, next, Holding);
  }

  lemma SettleKeepsSlots(w: Writer, id: nat)
    requires Slots(w) && id < |w.tasks| && w.tasks[id].phase.GaveBack?
    ensures Slots(DoSettle(w, id))
  {
    hide HolderCount, Queued;
    PhaseChange(w.tasks, id, Settled);
    OthersKeepQueue(w.tasks, w.waiting, id, Settled);
  }

  lemma SettleKeepsBudget(w: Writer, id: nat)
    requires Budget(w) && id < |w.tasks| && w.tasks[id].phase.GaveBack?
    ensures Budget(DoSettle(w, id))
  {
    PhaseChange(w.tasks, id, Settled);
  }

  lemma SettleKeepsOrder(w: Writer, id: nat)
    requires InOrder(w) && Links(w) && id < |w.tasks| && w.tasks[id].phase.GaveBack?
    ensures InOrder(DoSettle(w, id))
  {
    EarlierSettled(w, id);
    OrderUnderPhase(w, id, Settled);
  }

  lemma SettleKeepsLinks(w: Writer, id: nat)
    requires InOrder(w) && Links(w) && id < |w.tasks| && w.tasks[id].phase.GaveBack?
    ensures Links(DoSettle(w, id))
  {
    EarlierSettled(w, id);
    SettleKeepsTails(w, id);
    hide Tails;
  }

  lemma SettleKeepsTails(w: Writer, id: nat)
    requires Tails(w) && id < |w.tasks| && w.tasks[id].phase.GaveBack?
    requires forall i :: 0 <= i < id && w.tasks[i].file == w.tasks[id].file ==> w.tasks[i].phase.Settled?
    ensures Tails(DoSettle(w, id))
  {}

  lemma StepKeepsInv(w: Writer, e: Event)
    requires Inv(w)
    ensures Inv(Step(w, e))
  {
    hide Budget, Slots, InOrder, Links;
    match e
    case Append(file, bytes) =>
      AppendKeepsBudget(w, file, bytes);
      AppendKeepsSlots(w, file, bytes);
      AppendKeepsOrder(w, file, bytes);
      AppendKeepsLinks(w, file, bytes);
    case Begin(id) => BeginKeepsInv(w, id);
    case Finish(id) => FinishKeepsInv(w, id);
    case Settle(id) =>
      if id < |w.tasks| && w.tasks[id].phase.GaveBack? {
        SettleKeepsBudget(w, id);
        SettleKeepsSlots(w, id);
        SettleKeepsOrder(w, id);
        SettleKeepsLinks(w, id);
      }
  }

  lemma {:induction false} RunKeepsInv(w: Writer, events: seq<Event>)
    requires Inv(w)
    ensures Inv(Run(w, events))
    decreases |events|
  {
    hide Inv, Step;
    if events != [] {
      StepKeepsInv(w, events[0]);
      RunKeepsInv(Step(w, events[0]), events[1..]);
    }
  }

  lemma EmptyInv(w: Writer)
    requires w.tasks == [] && w.writes == map[] && w.waiting == [] && w.activeWrites == 0
    requires w.pendingBytes == 0 && w.droppedBytes == w.offeredBytes
    ensures Inv(w)
  {}

  lemma ReachableInv(events: seq<Event>)
    ensures Inv(Run(Initial, events))
  {
    hide Inv, Run;
    EmptyInv(Initial);
    RunKeepsInv(Initial, events);
  }

  /** Nothing is lost from the account: pending bytes are those of the unsettled writes and stay within the budget;
      accepted plus dropped bytes are the bytes offered. */
  lemma BytesAreAccounted(events: seq<Event>)
    ensures var w := Run(Initial, events);
            && w.pendingBytes == OpenBytes(w.tasks) <= MAX_PENDING_BYTES
            && AcceptedBytes(w.tasks) + w.droppedBytes == w.offeredBytes
  {
    hide Run, Slots, InOrder, Links;
    ReachableInv(events);
  }

  /** At most two writes hold a slot at any time, and nobody waits unless both slots are held. */
  lemma AtMostTwoWrites(events: seq<Event>)
    ensures var w := Run(Initial, events);
            && HolderCount(w.tasks) == w.activeWrites <= 2
            && (w.waiting != [] ==> w.activeWrites == 2)
  {
    hide Run, Budget, InOrder, Links;
    ReachableInv(events);
  }

  /** Writes to one file happen in call order and never overlap: one that has left its chain finds every earlier
      write to that file settled. */
  lemma WritesToOneFileAreOrdered(events: seq<Event>, i: nat, j: nat)
    requires var w := Run(Initial, events);
             i < j < |w.tasks| && w.tasks[i].file == w.tasks[j].file && !w.tasks[j].phase.Chained?
    ensures Run(Initial, events).tasks[i].phase.Settled?
  {
    hide Run, Budget, Slots, Links;
    ReachableInv(events);
  }

  /** `hasPendingDiagnosticLogWrites` is exact: a file is reported exactly while it has an unsettled write. */
  lemma PendingIsExact(events: seq<Event>, file: string)
    ensures var w := Run(Initial, events);
            file in w.writes
            <==> exists i :: 0 <= i < |w.tasks| && w.tasks[i].file == file && !w.tasks[i].phase.Settled?
  {
    hide Run, Budget, Slots, InOrder;
    ReachableInv(events);
    var w := Run(Initial, events);
    if file in w.writes {
      var i := w.writes[file];
      assert w.tasks[i].file == file && !w.tasks[i].phase.Settled?;
    }
  }

  /** No write is stuck: as long as one is unsettled, some write can begin, finish or settle. */
  lemma SomeWriteCanProceed(events: seq<Event>, i: nat)
    requires i < |Run(Initial, events).tasks| && !Run(Initial, events).tasks[i].phase.Settled?
    ensures exists e :: Step(Run(Initial, events), e).tasks != Run(Initial, events).tasks && !e.Append?
  {
    hide Run, Inv, Step;
    ReachableInv(events);
    Proceeds(Run(Initial, events), i);
  }

  lemma {:induction false} Proceeds(w: Writer, i: nat)
    requires Inv(w) && i < |w.tasks| && !w.tasks[i].phase.Settled?
    ensures exists e :: Step(w, e).tasks != w.tasks && !e.Append?
    decreases i
  {
    hide Inv, Step, MayBegin;
    match w.tasks[i].phase
    case Chained =>
      if MayBegin(w.tasks, i) {
        BeginMoves(w, i);
      } else {
        PredecessorIsEarlier(w, i);
        Proceeds(w, w.tasks[i].previous.value);
      }
    case WaitingSlot =>
      WaitingMeansHolders(w, i);
      var h := HolderExists(w.tasks);
      HolderFinishes(w, h);
    case Holding => HolderFinishes(w, i);
    case GaveBack => SettleMoves(w, i);
    case Settled =>
  }

  lemma PredecessorIsEarlier(w: Writer, i: nat)
    requires Inv(w) && i < |w.tasks| && w.tasks[i].phase.Chained? && !MayBegin(w.tasks, i)
    ensures w.tasks[i].previous.Some? && w.tasks[i].previous.value < i
    ensures !w.tasks[w.tasks[i].previous.value].phase.Settled?
  {
    hide Budget, Slots, InOrder, Tails;
  }

  lemma WaitingMeansHolders(w: Writer, i: nat)
    requires Inv(w) && i < |w.tasks| && w.tasks[i].phase.WaitingSlot?
    ensures HolderCount(w.tasks) > 0
  {
    hide Budget, Links, InOrder, HolderCount;
  }

  lemma BeginMoves(w: Writer, i: nat)
    requires MayBegin(w.tasks, i)
    ensures exists e :: Step(w, e).tasks != w.tasks && !e.Append?
  {
    assert Step(w, Begin(i)).tasks[i] != w.tasks[i];
  }

  lemma SettleMoves(w: Writer, i: nat)
    requires i < |w.tasks| && w.tasks[i].phase.GaveBack?
    ensures exists e :: Step(w, e).tasks != w.tasks && !e.Append?
  {
    assert Step(w, Settle(i)).tasks[i] != w.tasks[i];
  }

  lemma HolderFinishes(w: Writer, h: nat)
    requires Inv(w) && h < |w.tasks| && w.tasks[h].phase.Holding?
    ensures Step(w, Finish(h)).tasks != w.tasks
  {
    hide Budget, Links, InOrder, HolderCount;
    assert Step(w, Finish(h)).tasks[h] != w.tasks[h];
  }

  lemma {:induction false} HolderExists(tasks: seq<Task>) returns (h: nat)
    requires HolderCount(tasks) > 0
    ensures h < |tasks| && tasks[h].phase.Holding?
    decreases |tasks|
  {
    if tasks[|tasks| - 1].phase.Holding? {
      h := |tasks| - 1;
    } else {
      h := HolderExists(tasks[..|tasks| - 1]);
    }
  }
}

/** The writer's module state as an object. */
module DiagnosticLogWriter {
  import opened Common
  import P = WriterProtocol

  class DiagnosticLogWriter {
    var tasks: seq<P.Task>
    var writes: map<string, nat>
    var waiting: seq<nat>
    var activeWrites: nat
    var pendingBytes: int
    var droppedBytes: nat
    var overflowReported: bool
    ghost var offeredBytes: nat

    ghost function View(): P.Writer
      reads this
    {
      P.Writer(tasks, writes, waiting, activeWrites, pendingBytes, droppedBytes, overflowReported, offeredBytes)
    }

    constructor ()
      ensures View() == P.Initial
    {
      tasks, writes, waiting, activeWrites := [], map[], [], 0;
      pendingBytes, droppedBytes, overflowReported, offeredBytes := 0, 0, false, 0;
    }

    method HasPendingWrites(file: string) returns (pending: bool)
      ensures pending <==> file in View().writes
    {
      pending := file in writes;
    }

    method Append(file: string, bytes: nat) returns (accepted: bool)
      modifies this
      ensures accepted <==> old(pendingBytes) + bytes <= P.MAX_PENDING_BYTES
      ensures View() == P.Step(old(View()), P.Append(file, bytes))
    {
      offeredBytes := offeredBytes + bytes;
      if pendingBytes + bytes > P.MAX_PENDING_BYTES {
        droppedBytes := droppedBytes + bytes;
        if !overflowReported { overflowReported := true; }
        return false;
      }
      pendingBytes := pendingBytes + bytes;
      var previous := if file in writes then Some(writes[file]) else None;
      tasks := tasks + [P.Task(file, bytes, previous, P.Chained)];
      writes := writes[file := |tasks| - 1];
      return true;
    }

    /** `acquireWriteSlot`, called once the predecessor has settled. */
    method Begin(id: nat)
      modifies this
      ensures View() == P.Step(old(View()), P.Begin(id))
    {
      if !P.MayBegin(tasks, id) { return; }
      if activeWrites >= P.SLOTS {
        waiting := waiting + [id];
        tasks := tasks[id := tasks[id].(phase := P.WaitingSlot)];
      } else {
        activeWrites := activeWrites + 1;
        tasks := tasks[id := tasks[id].(phase := P.Holding)];
      }
    }

    /** The release closure: hand the slot over or free it. */
    method Finish(id: nat)
      modifies this
      ensures View() == P.Step(old(View()), P.Finish(id))
    {
      if id >= |tasks| || !tasks[id].phase.Holding? { return; }
      tasks := tasks[id := tasks[id].(phase := P.GaveBack)];
      if waiting != [] && waiting[0] < |tasks| {
        var next := waiting[0];
        waiting := waiting[1..];
        tasks := tasks[next := tasks[next].(phase := P.Holding)];
      } else if activeWrites > 0 {
        activeWrites := activeWrites - 1;
      }
    }

    /** The `finally` handler of the write. */
    method Settle(id: nat)
      modifies this
      ensures View() == P.Step(old(View()), P.Settle(id))
    {
      if id >= |tasks| || !tasks[id].phase.GaveBack? { return; }
      var task := tasks[id];
      tasks := tasks[id := task.(phase := P.Settled)];
      pendingBytes := pendingBytes - task.bytes;
      if pendingBytes == 0 { overflowReported := false; }
      if task.file in writes && writes[task.file] == id { writes := writes - {task.file}; }
    }
  }
}
