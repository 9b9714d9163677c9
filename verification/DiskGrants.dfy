/** What a reservation comes to, from the call to the measurement (src/main/disk-space.ts:60-63, 103-179). */
module DiskGrants {
  import opened Common
  import opened DiskProtocol

  /** What is still to be written of a file of this size. */
  function Missing(requiredBytes: nat, alreadyPresentBytes: int): nat {
    if alreadyPresentBytes <= 0 then requiredBytes
    else if alreadyPresentBytes >= requiredBytes then 0
    else requiredBytes - alreadyPresentBytes
  }

  /** That many more bytes, and the margin on top, fit the free space beside what is reserved; nothing always fits. */
  predicate Fits(freeBytes: int, reserved: nat, margin: nat, bytes: nat) {
    bytes == 0 || reserved + bytes + margin <= freeBytes
  }

  /** The total of every volume is what it was, but for this one. */
  ghost predicate Moves(c: Coordinator, d: Coordinator, volume: string, bytes: int) {
    forall v :: At(d.reservedByVolume, v) == At(c.reservedByVolume, v) + if v == volume then bytes else 0
  }

  // ---------------------------------------------------------------- while an operation waits

  /** Anything but the answer of the measurement. */
  ghost predicate Between(events: seq<Event>) {
    forall i :: 0 <= i < |events| ==> !events[i].Measured? && !events[i].MeasureFails?
  }

  /** Operations start in the order of their calls, one at a time: while one waits, others only queue up behind it and
      leases are released. */
  lemma {:induction false} OneAtATime(c: Coordinator, events: seq<Event>)
    requires c.waiting.Some? && Between(events)
    ensures var d := Run(c, events);
            && d.waiting == c.waiting && d.nextLease == c.nextLease && d.safetyBytes == c.safetyBytes
            && |d.queue| >= |c.queue| && d.queue[..|c.queue|] == c.queue
            && d.leases.Keys <= c.leases.Keys && forall id :: id in d.leases ==> d.leases[id] == c.leases[id]
    decreases |events|
  {
    if events != [] {
      var d := Step(c, events[0]);
      assert d.waiting == c.waiting && d.queue[..|c.queue|] == c.queue;
      assert forall i :: 0 <= i < |events[1..]| ==> events[1..][i] == events[i + 1];
      OneAtATime(d, events[1..]);
      var e := Run(d, events[1..]);
      assert e.queue[..|c.queue|] == e.queue[..|d.queue|][..|c.queue|];
    }
  }

  // ---------------------------------------------------------------- reserving

  lemma ReservationStarts(c: Coordinator, required: nat, present: int, headroom: int)
    requires c.waiting.None? && c.queue != [] && c.queue[0] == ReserveOp(Some(required), present, headroom)
    ensures Step(c, Start)
            == c.(queue := c.queue[1..],
                  waiting := Some(WaitingReserve(Missing(required, present),
                                                 if headroom > c.safetyBytes then headroom else c.safetyBytes)))
  {}

  lemma ReservationMeasured(b: Coordinator, bytes: nat, margin: nat, volume: string, freeBytes: int)
    requires b.waiting == Some(WaitingReserve(bytes, margin))
    ensures var d := Step(b, Measured(volume, freeBytes));
            && d.waiting == None && d.queue == b.queue
            && (if !Fits(freeBytes, At(b.reservedByVolume, volume), margin, bytes) then d == b.(waiting := None)
                else
                  && d.nextLease == b.nextLease + 1
                  && (volume != "" ==>
                        && d.leases == b.leases[b.nextLease := Lease(volume, bytes, margin)]
                        && Moves(b, d, volume, bytes)))
  {}

  /** A reservation of known size, with whatever happens while its volume is measured: it is granted exactly if what is
      missing fits, beside what is reserved by then, under the larger of the coordinator's margin and its own headroom.
      It then holds exactly what is missing; otherwise nothing is booked. */
  lemma ReservationExactly(c: Coordinator, required: nat, present: int, headroom: int, during: seq<Event>,
                           volume: string, freeBytes: int)
    requires c.waiting.None? && c.queue != [] && c.queue[0] == ReserveOp(Some(required), present, headroom)
    requires Between(during)
    ensures var margin := if headroom > c.safetyBytes then headroom else c.safetyBytes;
            var bytes := Missing(required, present);
            var b := Run(Step(c, Start), during);
            var d := Step(b, Measured(volume, freeBytes));
            && Step(c, Start) == c.(queue := c.queue[1..], waiting := Step(c, Start).waiting)
            && d.waiting == None && d.queue == b.queue && b.nextLease == c.nextLease
            && (if !Fits(freeBytes, At(b.reservedByVolume, volume), margin, bytes) then d == b.(waiting := None)
                else
                  && d.nextLease == c.nextLease + 1
                  && (volume != "" ==>
                        && d.leases == b.leases[c.nextLease := Lease(volume, bytes, margin)]
                        && Moves(b, d, volume, bytes)))
  {
    hide Run, Step, Moves, Fits, Missing;
    ReservationStarts(c, required, present, headroom);
    OneAtATime(Step(c, Start), during);
    var margin := if headroom > c.safetyBytes then headroom else c.safetyBytes;
    ReservationMeasured(Run(Step(c, Start), during), Missing(required, present), margin, volume, freeBytes);
  }

  /** A reservation of unknown size is granted at once and books nothing. */
  lemma UnknownSizeBooksNothing(c: Coordinator, required: Option<int>, present: int, headroom: int)
    requires c.waiting.None? && c.queue != [] && c.queue[0] == ReserveOp(required, present, headroom)
    requires required.None? || required.value < 0
    ensures Step(c, Start) == c.(queue := c.queue[1..], nextLease := c.nextLease + 1)
  {}

  // ---------------------------------------------------------------- updating

  /** An update to no more than the lease holds is made at once and gives the difference back. */
  lemma ShrinkingIsImmediate(c: Coordinator, id: nat, required: nat, present: int)
    requires Inv(c) && c.waiting.None? && c.queue != [] && c.queue[0] == UpdateOp(id, Some(required), present)
    requires id in c.leases && Missing(required, present) <= c.leases[id].reservedBytes
    ensures var lease := c.leases[id];
            var d := Step(c, Start);
            && d.waiting == None && d.queue == c.queue[1..] && d.nextLease == c.nextLease
            && d.leases == c.leases[id := lease.(reservedBytes := Missing(required, present))]
            && Moves(c, d, lease.volume, Missing(required, present) - lease.reservedBytes)
  {
    RoomOfLease(c, id);
    hide Conserved, LeaseSum;
  }

  lemma RoomOfLease(c: Coordinator, id: nat)
    requires Inv(c) && id in c.leases
    ensures At(c.reservedByVolume, c.leases[id].volume) >= c.leases[id].reservedBytes && id !in c.released
  {
    SumBound(c.leases, c.leases[id].volume, id, c.nextLease);
  }

  lemma GrowthStarts(c: Coordinator, id: nat, required: nat, present: int)
    requires c.waiting.None? && c.queue != [] && c.queue[0] == UpdateOp(id, Some(required), present)
    requires id in c.leases && id !in c.released && Missing(required, present) > c.leases[id].reservedBytes
    ensures Step(c, Start)
            == c.(queue := c.queue[1..],
                  waiting := Some(WaitingUpdate(id, c.leases[id], Missing(required, present))))
  {}

  lemma GrowthMeasured(b: Coordinator, id: nat, lease: Lease, bytes: nat, volume: string, freeBytes: int)
    requires b.waiting == Some(WaitingUpdate(id, lease, bytes)) && id in b.leases && bytes > lease.reservedBytes
    ensures var d := Step(b, Measured(volume, freeBytes));
            && d.waiting == None && d.queue == b.queue && d.nextLease == b.nextLease
            && (if !Fits(freeBytes, At(b.reservedByVolume, lease.volume), lease.safetyBytes,
                         bytes - lease.reservedBytes)
                then d == b.(waiting := None)
                else
                  && d.leases == b.leases[id := lease.(reservedBytes := bytes)]
                  && Moves(b, d, lease.volume, bytes - lease.reservedBytes))
  {}

  /** A growing one waits for a measurement and is granted exactly if its growth then fits, beside what is reserved by
      then, under the lease's own margin; the lease then holds what is missing now, and otherwise what it held. */
  lemma GrowthExactly(c: Coordinator, id: nat, required: nat, present: int, during: seq<Event>, volume: string,
                      freeBytes: int)
    requires Inv(c) && c.waiting.None? && c.queue != [] && c.queue[0] == UpdateOp(id, Some(required), present)
    requires id in c.leases && Missing(required, present) > c.leases[id].reservedBytes
    requires Between(during) && id in Run(Step(c, Start), during).leases
    ensures var lease := c.leases[id];
            var growth := Missing(required, present) - lease.reservedBytes;
            var b := Run(Step(c, Start), during);
            var d := Step(b, Measured(volume, freeBytes));
            && Step(c, Start) == c.(queue := c.queue[1..], waiting := Step(c, Start).waiting)
            && d.waiting == None && d.queue == b.queue && d.nextLease == c.nextLease && b.leases[id] == lease
            && (if !Fits(freeBytes, At(b.reservedByVolume, lease.volume), lease.safetyBytes, growth)
                then d == b.(waiting := None)
                else
                  && d.leases == b.leases[id := lease.(reservedBytes := Missing(required, present))]
                  && Moves(b, d, lease.volume, growth))
  {
    hide Run, Inv, Step, Moves, Fits, Missing;
    RoomOfLease(c, id);
    GrowthStarts(c, id, required, present);
    OneAtATime(Step(c, Start), during);
    GrowthMeasured(Run(Step(c, Start), during), id, c.leases[id], Missing(required, present), volume, freeBytes);
  }

  /** The next operation is an update to no more than its lease holds. */
  ghost predicate Shrinks(c: Coordinator, e: Event) {
    && e.Start? && c.waiting.None? && c.queue != [] && c.queue[0].UpdateOp?
    && var op := c.queue[0];
       && op.lease in c.leases && op.lease !in c.released && op.requiredBytes.Some? && op.requiredBytes.value >= 0
       && Missing(op.requiredBytes.value, op.alreadyPresentBytes) <= c.leases[op.lease].reservedBytes
  }

  /** Nothing else books or gives back: rejections, failing measurements, updates of unknown size or of released leases
      and queued operations leave every lease and total as it is; and each operation that is not left waiting makes way
      for the next. */
  lemma OnlyGrantsBook(c: Coordinator, e: Event)
    ensures Granted(c, e) || Shrinks(c, e) || e.Release?
            || (Step(c, e).leases == c.leases && Step(c, e).reservedByVolume == c.reservedByVolume)
    ensures e.Measured? || e.MeasureFails? ==> Step(c, e).waiting == None && Step(c, e).queue == c.queue
    ensures e.Start? && c.waiting.None? && c.queue != [] ==> Step(c, e).queue == c.queue[1..]
  {
    hide At;
  }

  /** A download that is resumed reserves only what is missing: with 60 of 100 bytes present, 40 are enough room. */
  lemma ResumedDownloadFits()
    ensures var c := Step(Step(Step(Initial(0), Enqueue(ReserveOp(Some(100), 60, 0))), Start), Measured("c:", 50));
            c.leases == map[0 := Lease("c:", 40, 0)] && At(c.reservedByVolume, "c:") == 40
  {}
}
