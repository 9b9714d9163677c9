/** The coordinator object; each method is one uninterrupted stretch of the program. */
module DiskReservationCoordinator {
  import opened Common
  import P = DiskProtocol

  class DiskReservationCoordinator {
    const safetyBytes: nat
    var reservedByVolume: map<string, nat>
    var leases: map<nat, P.Lease>
    var nextLease: nat                 // stands for the random part of a lease id
    var released: set<nat>             // the `released` flags of the lease handles
    var queue: seq<P.Op>
    var waiting: Option<P.Waiting>
    ghost var leaked: map<string, nat>

    ghost function View(): P.Coordinator
      reads this
    {
      P.Coordinator(safetyBytes, reservedByVolume, leases, nextLease, released, queue, waiting, leaked)
    }

    constructor (safetyBytes: int)
      ensures View() == P.Initial(Max(0, safetyBytes))
    {
      this.safetyBytes := Max(0, safetyBytes);
      reservedByVolume, leases, nextLease, released := map[], map[], 0, {};
      queue, waiting, leaked := [], None, map[];
    }

    method Enqueue(op: P.Op)
      modifies this
      ensures View() == P.Step(old(View()), P.Enqueue(op))
    {
      queue := queue + [op];
    }

    method CreateLease(volume: string, bytes: nat, safetyBytes: nat) returns (id: nat)
      modifies this
      ensures id == old(nextLease)
      ensures View() == P.CreateLease(old(View()), volume, bytes, safetyBytes)
    {
      id := nextLease;
      nextLease := nextLease + 1;
      if volume != "" {
        leases := leases[id := P.Lease(volume, bytes, safetyBytes)];
        reservedByVolume := reservedByVolume[volume := P.At(reservedByVolume, volume) + bytes];
      }
    }

    method ApplyUpdate(id: nat, record: P.Lease, nextBytes: nat)
      modifies this
      ensures View() == P.ApplyUpdate(old(View()), id, record, nextBytes)
    {
      var delta := nextBytes - record.reservedBytes;
      if id in leases {
        leases := leases[id := record.(reservedBytes := nextBytes)];
      } else {
        leaked := leaked[record.volume := Max(0, P.At(leaked, record.volume) + delta)];
      }
      reservedByVolume := reservedByVolume[
        record.volume := Max(0, P.At(reservedByVolume, record.volume) + delta)];
    }

    /** The next queued operation begins and runs up to its measurement, if it needs one. */
    method Start()
      modifies this
      ensures View() == P.Step(old(View()), P.Start)
    {
      if queue == [] || waiting.Some? { return; }
      var op := queue[0];
      queue := queue[1..];
      match op {
        case ReserveOp(required, present, headroom) =>
          var bytes := P.Remaining(required, present);
          if bytes.None? {
            var _ := CreateLease("", 0, safetyBytes);
          } else {
            waiting := Some(P.WaitingReserve(bytes.value, Max(safetyBytes, headroom)));
          }
        case UpdateOp(id, required, present) =>
          if id in released || id !in leases { return; }
          var bytes := P.Remaining(required, present);
          if bytes.None? { return; }
          var delta := bytes.value - leases[id].reservedBytes;
          if delta > 0 {
            waiting := Some(P.WaitingUpdate(id, leases[id], bytes.value));
          } else {
            ApplyUpdate(id, leases[id], bytes.value);
          }
      }
    }

    /** `statVolume` has answered: the operation is granted or rejected with a capacity error. */
    method Measured(volume: string, freeBytes: int) returns (granted: bool)
      modifies this
      ensures granted <==> P.Granted(old(View()), P.Measured(volume, freeBytes))
      ensures View() == P.Step(old(View()), P.Measured(volume, freeBytes))
    {
      if waiting.None? { return false; }
      var w := waiting.value;
      waiting := None;
      match w {
        case WaitingReserve(bytes, safety) =>
          var available := Max(0, freeBytes - P.At(reservedByVolume, volume) - safety);
          if bytes > available { return false; }
          var _ := CreateLease(volume, bytes, safety);
        case WaitingUpdate(id, record, next) =>
          var delta := next - record.reservedBytes;
          var available := Max(0, freeBytes - P.At(reservedByVolume, record.volume) - record.safetyBytes);
          if delta > available { return false; }
          ApplyUpdate(id, record, next);
      }
      return true;
    }

    method MeasureFails()
      modifies this
      ensures View() == P.Step(old(View()), P.MeasureFails)
    {
      waiting := None;
    }

    method Release(id: nat)
      modifies this
      ensures View() == P.Step(old(View()), P.Release(id))
    {
      if id in released || id >= nextLease { return; }
      released := released + {id};
      if id !in leases { return; }
      var lease := leases[id];
      leases := leases - {id};
      var next := Max(0, P.At(reservedByVolume, lease.volume) - lease.reservedBytes);
      reservedByVolume := reservedByVolume[lease.volume := next];
    }
  }
}
