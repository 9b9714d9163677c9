/** Disk reservations (src/main/disk-space.ts:60-63, 89-179) as a step system.  Reserve and update run one at a time
    from a queue and may wait for the volume to be measured; `release` is synchronous and can run meanwhile. */
module DiskProtocol {
  import opened Common

  datatype Lease = Lease(volume: string, reservedBytes: nat, safetyBytes: nat)

  datatype Op =
    | ReserveOp(requiredBytes: Option<int>, alreadyPresentBytes: int, headroomBytes: int)
    | UpdateOp(lease: nat, requiredBytes: Option<int>, alreadyPresentBytes: int)

  /** The operation that waits for `statVolume`. */
  datatype Waiting =
    | WaitingReserve(requiredBytes: nat, safetyBytes: nat)
    | WaitingUpdate(lease: nat, record: Lease, nextBytes: nat)

  /** `leaked` is bookkeeping of the model: bytes added to a volume for a lease that was already released. */
  datatype Coordinator = Coordinator(
    safetyBytes: nat,
    reservedByVolume: map<string, nat>,
    leases: map<nat, Lease>,
    nextLease: nat,
    released: set<nat>,
    queue: seq<Op>,
    waiting: Option<Waiting>,
    leaked: map<string, nat>)

  datatype Event =
    | Enqueue(op: Op)
    | Start
    | Measured(volume: string, freeBytes: int)
    | MeasureFails
    | Release(lease: nat)

  function At(m: map<string, nat>, v: string): nat { if v in m then m[v] else 0 }

  /** `calculateRemainingReservationBytes`; None stands for null and for what is not a finite number. */
  function Remaining(requiredBytes: Option<int>, alreadyPresentBytes: int): Option<nat> {
    if requiredBytes.None? || requiredBytes.value < 0 then None
    else Some(Max(0, requiredBytes.value - Max(0, alreadyPresentBytes)))
  }

  function Available(freeBytes: int, reserved: nat, safetyBytes: nat): nat {
    Max(0, freeBytes - reserved - safetyBytes)
  }

  function CreateLease(c: Coordinator, volume: string, bytes: nat, safetyBytes: nat): Coordinator {
    var d := c.(nextLease := c.nextLease + 1);
    if volume == "" then d
    else
      d.(leases := c.leases[c.nextLease := Lease(volume, bytes, safetyBytes)],
         reservedByVolume := c.reservedByVolume[volume := At(c.reservedByVolume, volume) + bytes])
  }

  /** The new size is written to the lease record, which the map may no longer contain, and to the total. */
  function ApplyUpdate(c: Coordinator, id: nat, record: Lease, nextBytes: nat): Coordinator {
    var delta := nextBytes - record.reservedBytes;
    var v := record.volume;
    c.(leases := if id in c.leases then c.leases[id := record.(reservedBytes := nextBytes)] else c.leases,
       reservedByVolume := c.reservedByVolume[v := Max(0, At(c.reservedByVolume, v) + delta)],
       leaked := if id in c.leases then c.leaked else c.leaked[v := Max(0, At(c.leaked, v) + delta)])
  }

  function DoStart(c: Coordinator): Coordinator {
    if c.queue == [] || c.waiting.Some? then c
    else
      var d := c.(queue := c.queue[1..]);
      match c.queue[0]
      case ReserveOp(required, present, headroom) =>
        var bytes := Remaining(required, present);
        if bytes.None? then CreateLease(d, "", 0, c.safetyBytes)
        else d.(waiting := Some(WaitingReserve(bytes.value, Max(c.safetyBytes, headroom))))
      case UpdateOp(id, required, present) =>
        if id in c.released || id !in c.leases then d
        else
          var bytes := Remaining(required, present);
          if bytes.None? then d
          else if bytes.value > c.leases[id].reservedBytes
          then d.(waiting := Some(WaitingUpdate(id, c.leases[id], bytes.value)))
          else ApplyUpdate(d, id, c.leases[id], bytes.value)
  }

  /** Whether a finished measurement lets the waiting operation through. */
  predicate Granted(c: Coordinator, e: Event) {
    && e.Measured? && c.waiting.Some?
    && match c.waiting.value
       case WaitingReserve(bytes, safety) =>
         bytes <= Available(e.freeBytes, At(c.reservedByVolume, e.volume), safety)
       case WaitingUpdate(id, record, next) =>
         next - record.reservedBytes
           <= Available(e.freeBytes, At(c.reservedByVolume, record.volume), record.safetyBytes)
  }

  function DoMeasured(c: Coordinator, volume: string, freeBytes: int): Coordinator {
    if c.waiting.None? then c
    else
      var d := c.(waiting := None);
      if !Granted(c, Measured(volume, freeBytes)) then d
      else
        match c.waiting.value
        case WaitingReserve(bytes, safety) => CreateLease(d, volume, bytes, safety)
        case WaitingUpdate(id, record, next) => ApplyUpdate(d, id, record, next)
  }

  function DoRelease(c: Coordinator, id: nat): Coordinator {
    if id in c.released || id >= c.nextLease then c
    else
      var d := c.(released := c.released + {id});
      if id !in c.leases then d
      else
        var lease := c.leases[id];
        d.(leases := c.leases - {id},
           reservedByVolume := c.reservedByVolume[
             lease.volume := Max(0, At(c.reservedByVolume, lease.volume) - lease.reservedBytes)])
  }

  function Step(c: Coordinator, e: Event): Coordinator {
    match e
    case Enqueue(op) => c.(queue := c.queue + [op])
    case Start => DoStart(c)
    case Measured(volume, freeBytes) => DoMeasured(c, volume, freeBytes)
    case MeasureFails => c.(waiting := None)
    case Release(id) => DoRelease(c, id)
  }

  function Run(c: Coordinator, events: seq<Event>): Coordinator
    decreases |events|
  {
    if events == [] then c else Run(Step(c, events[0]), events[1..])
  }

  function Initial(safetyBytes: nat): Coordinator { Coordinator(safetyBytes, map[], map[], 0, {}, [], None, map[]) }

  // ---------------------------------------------------------------- conservation

  /** What the leases with ids below `n` reserve on a volume. */
  function LeaseSum(leases: map<nat, Lease>, v: string, n: nat): nat {
    if n == 0 then 0
    else LeaseSum(leases, v, n - 1)
         + (if n - 1 in leases && leases[n - 1].volume == v then leases[n - 1].reservedBytes else 0)
  }

  function Part(leases: map<nat, Lease>, v: string, id: nat): nat {
    if id in leases && leases[id].volume == v then leases[id].reservedBytes else 0
  }

  /** The total of every volume is what its live leases hold plus what was leaked to it. */
  ghost predicate Conserved(c: Coordinator) {
    forall v :: At(c.reservedByVolume, v) == LeaseSum(c.leases, v, c.nextLease) + At(c.leaked, v)
  }

  ghost predicate Inv(c: Coordinator) {
    && Conserved(c)
    && (forall id :: id in c.leases ==> id < c.nextLease && id !in c.released && c.leases[id].volume != "")
    && (forall id :: id in c.released ==> id < c.nextLease)
    && (c.waiting.Some? && c.waiting.value.WaitingUpdate? ==>
          var w := c.waiting.value;
          && w.nextBytes > w.record.reservedBytes && w.lease < c.nextLease
          && (w.lease in c.leases ==> c.leases[w.lease] == w.record)
          && (w.lease !in c.leases ==> w.lease in c.released))
  }

  lemma {:induction false} SumSplit(a: map<nat, Lease>, b: map<nat, Lease>, v: string, id: nat, n: nat)
    requires forall k :: k != id ==> (k in a <==> k in b) && (k in a ==> a[k] == b[k])
    ensures LeaseSum(a, v, n) - (if id < n then Part(a, v, id) else 0)
            == LeaseSum(b, v, n) - (if id < n then Part(b, v, id) else 0)
  {
    if n > 0 { SumSplit(a, b, v, id, n - 1); }
  }

  lemma {:induction false} SumBound(leases: map<nat, Lease>, v: string, id: nat, n: nat)
    requires id < n
    ensures Part(leases, v, id) <= LeaseSum(leases, v, n)
  {
    if id < n - 1 { SumBound(leases, v, id, n - 1); }
  }

  lemma LastLease(leases: map<nat, Lease>, n: nat)
    ensures forall v :: LeaseSum(leases, v, n + 1) == LeaseSum(leases, v, n) + Part(leases, v, n)
  {}

  lemma AtUpdate(m: map<string, nat>, v: string, bytes: nat, x: string)
    ensures At(m[v := bytes], x) == if x == v then bytes else At(m, x)
  {}

  lemma ConservedAt(c: Coordinator, v: string)
    requires Inv(c)
    ensures At(c.reservedByVolume, v) == LeaseSum(c.leases, v, c.nextLease) + At(c.leaked, v)
  {
    hide LeaseSum, At;
  }

  lemma CreateConserves(c: Coordinator, volume: string, bytes: nat, safetyBytes: nat, v: string)
    requires Inv(c)
    ensures var d := CreateLease(c, volume, bytes, safetyBytes);
            At(d.reservedByVolume, v) == LeaseSum(d.leases, v, d.nextLease) + At(d.leaked, v)
  {
    hide Inv, LeaseSum, At;
    ConservedAt(c, v);
    FreshLease(c);
    AtUpdate(c.reservedByVolume, volume, At(c.reservedByVolume, volume) + bytes, v);
    var d := CreateLease(c, volume, bytes, safetyBytes);
    LastLease(d.leases, c.nextLease);
    SumSplit(c.leases, d.leases, v, c.nextLease, c.nextLease);
  }

  lemma FreshLease(c: Coordinator)
    requires Inv(c)
    ensures c.nextLease !in c.leases
  {
    hide Conserved;
  }

  lemma CreateKeepsInv(c: Coordinator, volume: string, bytes: nat, safetyBytes: nat)
    requires Inv(c) && c.waiting.None?
    ensures Inv(CreateLease(c, volume, bytes, safetyBytes))
  {
    hide LeaseSum, At;
    var d := CreateLease(c, volume, bytes, safetyBytes);
    forall v ensures At(d.reservedByVolume, v) == LeaseSum(d.leases, v, d.nextLease) + At(d.leaked, v) {
      CreateConserves(c, volume, bytes, safetyBytes, v);
    }
  }

  lemma UpdateConserves(c: Coordinator, id: nat, record: Lease, nextBytes: nat, v: string)
    requires Inv(c) && id < c.nextLease
    requires id in c.leases ==> c.leases[id] == record
    requires id !in c.leases ==> nextBytes > record.reservedBytes
    ensures var d := ApplyUpdate(c, id, record, nextBytes);
            At(d.reservedByVolume, v) == LeaseSum(d.leases, v, d.nextLease) + At(d.leaked, v)
  {
    ConservedAt(c, v);
    ConservedAt(c, record.volume);
    hide Inv, LeaseSum, At;
    var d := ApplyUpdate(c, id, record, nextBytes);
    var delta := nextBytes - record.reservedBytes;
    SumSplit(c.leases, d.leases, v, id, c.nextLease);
    SumBound(c.leases, v, id, c.nextLease);
    SumBound(c.leases, record.volume, id, c.nextLease);
    AtUpdate(c.reservedByVolume, record.volume, Max(0, At(c.reservedByVolume, record.volume) + delta), v);
    AtUpdate(c.leaked, record.volume, Max(0, At(c.leaked, record.volume) + delta), v);
  }

  lemma UpdateKeepsInv(c: Coordinator, id: nat, record: Lease, nextBytes: nat)
    requires Inv(c) && c.waiting.None? && id < c.nextLease
    requires id in c.leases ==> c.leases[id] == record
    requires id !in c.leases ==> nextBytes > record.reservedBytes
    ensures Inv(ApplyUpdate(c, id, record, nextBytes))
  {
    hide LeaseSum, At;
    var d := ApplyUpdate(c, id, record, nextBytes);
    forall v ensures At(d.reservedByVolume, v) == LeaseSum(d.leases, v, d.nextLease) + At(d.leaked, v) {
      UpdateConserves(c, id, record, nextBytes, v);
    }
  }

  lemma OldLease(c: Coordinator, id: nat)
    requires Inv(c) && id in c.leases
    ensures id < c.nextLease
  {
    hide Conserved;
  }

  lemma ReleaseConserves(c: Coordinator, id: nat, v: string)
    requires Inv(c)
    ensures var d := DoRelease(c, id);
            At(d.reservedByVolume, v) == LeaseSum(d.leases, v, d.nextLease) + At(d.leaked, v)
  {
    hide Inv, LeaseSum, At;
    ConservedAt(c, v);
    if id in c.leases {
      ConservedAt(c, c.leases[id].volume);
      OldLease(c, id);
    }
    var d := DoRelease(c, id);
    SumSplit(c.leases, d.leases, v, id, c.nextLease);
    if id in c.leases {
      var lease := c.leases[id];
      SumBound(c.leases, lease.volume, id, c.nextLease);
      AtUpdate(c.reservedByVolume, lease.volume,
               Max(0, At(c.reservedByVolume, lease.volume) - lease.reservedBytes), v);
    }
  }

  lemma ReleaseKeepsInv(c: Coordinator, id: nat)
    requires Inv(c)
    ensures Inv(DoRelease(c, id))
  {
    hide LeaseSum, At;
    forall v
      ensures At(DoRelease(c, id).reservedByVolume, v)
              == LeaseSum(DoRelease(c, id).leases, v, DoRelease(c, id).nextLease) + At(DoRelease(c, id).leaked, v)
    {
      ReleaseConserves(c, id, v);
    }
  }

  lemma StepKeepsInv(c: Coordinator, e: Event)
    requires Inv(c)
    ensures Inv(Step(c, e))
  {
    hide CreateLease, ApplyUpdate, DoRelease, LeaseSum, At;
    match e
    case Enqueue(op) =>
    case Start =>
      if c.queue != [] && c.waiting.None? {
        var d := c.(queue := c.queue[1..]);
        assert Inv(d);
        match c.queue[0] {
          case ReserveOp(required, present, headroom) =>
            CreateKeepsInv(d, "", 0, c.safetyBytes);
          case UpdateOp(id, required, present) =>
            var bytes := Remaining(required, present);
            if id in c.leases && bytes.Some? { UpdateKeepsInv(d, id, c.leases[id], bytes.value); }
        }
      }
    case Measured(volume, freeBytes) =>
      if c.waiting.Some? {
        var d := c.(waiting := None);
        assert Inv(d);
        match c.waiting.value {
          case WaitingReserve(bytes, safety) => CreateKeepsInv(d, volume, bytes, safety);
          case WaitingUpdate(id, record, next) => UpdateKeepsInv(d, id, record, next);
        }
      }
    case MeasureFails =>
    case Release(id) => ReleaseKeepsInv(c, id);
  }

  lemma {:induction false} RunKeepsInv(c: Coordinator, events: seq<Event>)
    requires Inv(c)
    ensures Inv(Run(c, events))
    decreases |events|
  {
    hide Inv, Step;
    if events != [] {
      StepKeepsInv(c, events[0]);
      RunKeepsInv(Step(c, events[0]), events[1..]);
    }
  }

  /** Conservation, over every run and interleaving. */
  lemma ReservationsAreConserved(safetyBytes: nat, events: seq<Event>, v: string)
    ensures var c := Run(Initial(safetyBytes), events);
            At(c.reservedByVolume, v) == LeaseSum(c.leases, v, c.nextLease) + At(c.leaked, v)
  {
    InitialInv(safetyBytes);
    hide Run, LeaseSum, Initial;
    RunKeepsInv(Initial(safetyBytes), events);
  }

  /** An update that finds its own lease released when its measurement arrives. */
  predicate Overtaken(c: Coordinator, e: Event) {
    Granted(c, e) && c.waiting.value.WaitingUpdate? && c.waiting.value.lease !in c.leases
  }

  /** Only overtaken updates leak, and each leaks exactly its growth. */
  lemma LeakIsTheOvertakenGrowth(c: Coordinator, e: Event, v: string)
    requires Inv(c)
    ensures At(Step(c, e).leaked, v) == At(c.leaked, v) +
            (if Overtaken(c, e) && c.waiting.value.record.volume == v
             then c.waiting.value.nextBytes - c.waiting.value.record.reservedBytes else 0)
  {}

  ghost predicate NoneOvertaken(c: Coordinator, events: seq<Event>)
    decreases |events|
  {
    events == [] || (!Overtaken(c, events[0]) && NoneOvertaken(Step(c, events[0]), events[1..]))
  }

  lemma {:induction false} LeakStays(c: Coordinator, events: seq<Event>, v: string)
    requires Inv(c) && NoneOvertaken(c, events)
    ensures At(Run(c, events).leaked, v) == At(c.leaked, v)
    decreases |events|
  {
    hide Inv, Step, Overtaken;
    if events != [] {
      StepKeepsInv(c, events[0]);
      LeakIsTheOvertakenGrowth(c, events[0], v);
      LeakStays(Step(c, events[0]), events[1..], v);
    }
  }

  /** Where no update is overtaken by the release of its own lease, the totals are exactly the live leases. */
  lemma TotalsAreLiveLeases(safetyBytes: nat, events: seq<Event>, v: string)
    requires NoneOvertaken(Initial(safetyBytes), events)
    ensures var c := Run(Initial(safetyBytes), events);
            At(c.reservedByVolume, v) == LeaseSum(c.leases, v, c.nextLease)
  {
    InitialInv(safetyBytes);
    hide Inv, Run, LeaseSum, NoneOvertaken;
    ReservationsAreConserved(safetyBytes, events, v);
    LeakStays(Initial(safetyBytes), events, v);
  }

  lemma InitialInv(safetyBytes: nat)
    ensures Inv(Initial(safetyBytes))
  {}

  /** A step never takes back what was leaked, and an overtaken update leaks something. */
  lemma StepLeaks(c: Coordinator, e: Event)
    requires Inv(c)
    ensures forall v :: At(Step(c, e).leaked, v) >= At(c.leaked, v)
    ensures Overtaken(c, e) ==> exists v :: At(Step(c, e).leaked, v) > At(c.leaked, v)
  {
    if Overtaken(c, e) { GrowthIsPositive(c, e); }
    hide Inv, Step, At;
    forall v ensures At(Step(c, e).leaked, v) >= At(c.leaked, v) { LeakIsTheOvertakenGrowth(c, e, v); }
    if Overtaken(c, e) { LeakIsTheOvertakenGrowth(c, e, c.waiting.value.record.volume); }
  }

  lemma GrowthIsPositive(c: Coordinator, e: Event)
    requires Inv(c) && Overtaken(c, e)
    ensures c.waiting.value.nextBytes > c.waiting.value.record.reservedBytes
  {
    hide Conserved;
  }

  lemma {:induction false} LeaksAddUp(c: Coordinator, events: seq<Event>)
    requires Inv(c)
    ensures forall v :: At(Run(c, events).leaked, v) >= At(c.leaked, v)
    ensures !NoneOvertaken(c, events) ==> exists v :: At(Run(c, events).leaked, v) > At(c.leaked, v)
    decreases |events|
  {
    hide Inv, Step, Overtaken, At;
    if events != [] {
      StepKeepsInv(c, events[0]);
      StepLeaks(c, events[0]);
      LeaksAddUp(Step(c, events[0]), events[1..]);
    }
  }

  /** Exactly then: after any run the totals of all volumes are their live leases if and only if no update was overtaken
      by the release of its own lease. */
  lemma TotalsAreLiveLeasesExactly(safetyBytes: nat, events: seq<Event>)
    ensures var c := Run(Initial(safetyBytes), events);
            (forall v :: At(c.reservedByVolume, v) == LeaseSum(c.leases, v, c.nextLease))
            <==> NoneOvertaken(Initial(safetyBytes), events)
  {
    InitialInv(safetyBytes);
    LeaksAddUp(Initial(safetyBytes), events);
    hide Inv, Run, LeaseSum, NoneOvertaken;
    var c := Run(Initial(safetyBytes), events);
    forall v ensures At(c.reservedByVolume, v) == LeaseSum(c.leases, v, c.nextLease) + At(c.leaked, v) {
      ReservationsAreConserved(safetyBytes, events, v);
    }
    if NoneOvertaken(Initial(safetyBytes), events) {
      forall v ensures At(c.leaked, v) == 0 { LeakStays(Initial(safetyBytes), events, v); }
    }
  }

  const Held: Coordinator := Coordinator(0, map["c:" := 10], map[0 := Lease("c:", 10, 0)], 1, {}, [], None, map[])

  lemma TenAreGranted()
    ensures Step(Step(Step(Initial(0), Enqueue(ReserveOp(Some(10), 0, 0))), Start), Measured("c:", 1000)) == Held
  {}

  lemma GrowthWaits()
    ensures Step(Step(Held, Enqueue(UpdateOp(0, Some(30), 0))), Start)
            == Held.(waiting := Some(WaitingUpdate(0, Lease("c:", 10, 0), 30)))
  {}

  lemma ReleaseOvertakes()
    ensures var c := Held.(waiting := Some(WaitingUpdate(0, Lease("c:", 10, 0), 30)));
            var d := Step(Step(c, Release(0)), Measured("c:", 1000));
            d.leases == map[] && At(d.reservedByVolume, "c:") == 20
  {}

  /** Such a run: a release that overtakes its lease's growing update leaves bytes reserved for nobody. */
  lemma OvertakenUpdateLeaks()
    ensures var events := [Enqueue(ReserveOp(Some(10), 0, 0)), Start, Measured("c:", 1000),
                           Enqueue(UpdateOp(0, Some(30), 0)), Start, Release(0), Measured("c:", 1000)];
            var c := Run(Initial(0), events);
            c.leases == map[] && At(c.reservedByVolume, "c:") == 20
  {
    hide Step, Run, Initial;
    TenAreGranted();
    GrowthWaits();
    ReleaseOvertakes();
    RunSeven(Initial(0), Enqueue(ReserveOp(Some(10), 0, 0)), Start, Measured("c:", 1000),
             Enqueue(UpdateOp(0, Some(30), 0)), Start, Release(0), Measured("c:", 1000));
  }

  lemma RunSeven(c: Coordinator, e1: Event, e2: Event, e3: Event, e4: Event, e5: Event, e6: Event, e7: Event)
    ensures Run(c, [e1, e2, e3, e4, e5, e6, e7]) ==
            Step(Step(Step(Step(Step(Step(Step(c, e1), e2), e3), e4), e5), e6), e7)
  {
    hide Step;
    assert [e1, e2, e3, e4, e5, e6, e7][1..] == [e2, e3, e4, e5, e6, e7];
    assert [e2, e3, e4, e5, e6, e7][1..] == [e3, e4, e5, e6, e7];
    assert [e3, e4, e5, e6, e7][1..] == [e4, e5, e6, e7];
    assert [e4, e5, e6, e7][1..] == [e5, e6, e7];
    assert [e5, e6, e7][1..] == [e6, e7];
    assert [e6, e7][1..] == [e7];
    assert [e7][1..] == [];
    var c3 := Step(Step(Step(c, e1), e2), e3);
    assert Run(c, [e1, e2, e3, e4, e5, e6, e7]) == Run(Step(c, e1), [e2, e3, e4, e5, e6, e7]);
    assert Run(c3, [e4, e5, e6, e7]) == Run(Step(c3, e4), [e5, e6, e7]);
    var c6 := Step(Step(Step(c3, e4), e5), e6);
    assert Run(Step(Step(c3, e4), e5), [e6, e7]) == Run(c6, [e7]);
    assert Run(c6, [e7]) == Run(Step(c6, e7), []);
  }

  // ---------------------------------------------------------------- grants and releases

  /** A granted reservation or growth leaves the total plus the safety margin within the measured free space. */
  lemma GrantFitsFreeSpace(c: Coordinator, e: Event)
    requires Inv(c) && Granted(c, e)
    ensures match c.waiting.value
            case WaitingReserve(bytes, safety) =>
              bytes > 0 && e.volume != "" ==> At(Step(c, e).reservedByVolume, e.volume) + safety <= e.freeBytes
            case WaitingUpdate(id, record, next) =>
              At(Step(c, e).reservedByVolume, record.volume) + record.safetyBytes <= e.freeBytes
  {}

  /** The zero clamps never bite: a release gives back exactly what its lease holds, a second one nothing, and
      other volumes and leases are untouched. */
  lemma ReleaseGivesBack(c: Coordinator, id: nat)
    requires Inv(c)
    ensures var d := DoRelease(c, id);
            && DoRelease(d, id) == d
            && (forall v :: At(d.reservedByVolume, v) == At(c.reservedByVolume, v) - Part(c.leases, v, id))
            && (forall k :: k != id && k in c.leases ==> k in d.leases && d.leases[k] == c.leases[k])
            && id !in d.leases && (id < c.nextLease ==> d.released == c.released + {id})
  {
    forall v
      ensures At(c.reservedByVolume, v) >= Part(c.leases, v, id)
    {
      if id < c.nextLease { SumBound(c.leases, v, id, c.nextLease); }
    }
  }
}
