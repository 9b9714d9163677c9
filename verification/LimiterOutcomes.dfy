/** Which requests the extraction limiter grants, and when (src/main/extraction-limiter.ts:3-55). */
module LimiterOutcomes {
  import opened Lists
  import opened LimiterProtocol

  /** How many of a queue the free slots are enough for. */
  function Taken(active: int, limit: int, waiting: nat): nat {
    if limit <= active then 0 else if limit - active < waiting then limit - active else waiting
  }

  /** Draining fills the free slots from the front of the queue. */
  lemma {:induction false} DrainExactly(l: Limiter)
    ensures var n := Taken(l.active, l.limit, |l.waiters|);
            Drain(l) == l.(active := l.active + n, waiters := l.waiters[n..], granted := l.granted + l.waiters[..n])
    decreases |l.waiters|
  {
    if l.active < l.limit && l.waiters != [] {
      DrainExactly(GrantFirst(l));
      var n := Taken(l.active, l.limit, |l.waiters|);
      assert l.waiters[1..][..n - 1] == l.waiters[1..n];
      assert [l.waiters[0]] + l.waiters[1..n] == l.waiters[..n];
    } else {
      assert l.waiters[..0] == [] && l.waiters[0..] == l.waiters;
    }
  }

  /** The limit asked for, between one and the ceiling. */
  function Within(ceiling: int, limit: int): int {
    if ceiling < 1 || limit < 1 then 1 else if limit > ceiling then ceiling else limit
  }

  /** The limit after an event: the last one asked for, by a request that was not aborted or by the settings. */
  function LimitAfter(l: Limiter, e: Event): int {
    if (e.Acquire? && !e.aborted) || e.UpdateLimit? then Within(l.ceiling, e.limit) else l.limit
  }

  /** Those who wait once the event has been dealt with: a new request goes last, an aborted one leaves. */
  function QueueAfter(l: Limiter, e: Event): seq<nat> {
    if e.Acquire? && !e.aborted then l.waiters + [l.requests]
    else if e.Abort? then Minus(l.waiters, e.request)
    else l.waiters
  }

  /** This event gives back a slot that is held. */
  predicate GivesBack(l: Limiter, e: Event) { e.Release? && e.request in l.granted && e.request !in l.released }

  /** The free slots under the limit now in force go to the first of those who wait, and no further; a request is
      rejected exactly when it was aborted before it was made or while it waits, and a slot is free again exactly when
      its holder first gives it back. */
  ghost predicate Grants(l: Limiter, e: Event, m: Limiter) {
    var held := l.active - if GivesBack(l, e) then 1 else 0;
    var queue := QueueAfter(l, e);
    var n := Taken(held, LimitAfter(l, e), |queue|);
    && m.granted == l.granted + queue[..n] && m.waiters == queue[n..] && m.active == held + n
    && m.limit == LimitAfter(l, e) && m.requests == l.requests + (if e.Acquire? then 1 else 0)
    && m.released == l.released + (if GivesBack(l, e) then {e.request} else {})
    && m.rejected == l.rejected + (if e.Acquire? && e.aborted then {l.requests}
                                   else if e.Abort? && e.request in l.waiters then {e.request} else {})
  }

  /** So it is after every event of every run. */
  lemma GrantsExactly(ceiling: int, events: seq<Event>, e: Event)
    ensures Grants(Run(Initial(ceiling), events), e, Step(Run(Initial(ceiling), events), e))
  {
    InitialIsOrderly(ceiling);
    hide Run, Orderly, Step, Grants;
    RunKeepsInv(Initial(ceiling), events);
    StepGrants(Run(Initial(ceiling), events), e);
  }

  lemma InitialIsOrderly(ceiling: int)
    ensures Orderly(Initial(ceiling)) && NoIdleSlot(Initial(ceiling))
  {}

  lemma AcquireGrants(l: Limiter, limit: int)
    requires NoIdleSlot(l)
    ensures Grants(l, Acquire(limit, false), Step(l, Acquire(limit, false)))
  {
    hide Drain;
    DrainExactly(l.(requests := l.requests + 1, limit := Within(l.ceiling, limit),
                    waiters := l.waiters + [l.requests]));
  }

  lemma UpdateGrants(l: Limiter, limit: int)
    ensures Grants(l, UpdateLimit(limit), Step(l, UpdateLimit(limit)))
  {
    hide Drain;
    DrainExactly(l.(limit := Within(l.ceiling, limit)));
  }

  lemma AbortGrants(l: Limiter, request: nat)
    requires request in l.waiters
    ensures Grants(l, Abort(request), Step(l, Abort(request)))
  {
    hide Drain;
    DrainExactly(l.(waiters := Minus(l.waiters, request), rejected := l.rejected + {request}));
  }

  lemma ReleaseGrants(l: Limiter, request: nat)
    requires GivesBack(l, Release(request))
    ensures Grants(l, Release(request), Step(l, Release(request)))
  {
    hide Drain;
    DrainExactly(l.(active := l.active - 1, released := l.released + {request}));
  }

  /** An event that gives nothing back and lets nobody in grants nothing, as no slot is free for those who wait. */
  lemma IdleGrants(l: Limiter, e: Event)
    requires NoIdleSlot(l)
    requires match e
             case Acquire(_, aborted) => aborted
             case UpdateLimit(_) => false
             case Abort(request) => request !in l.waiters
             case Release(_) => !GivesBack(l, e)
    ensures Grants(l, e, Step(l, e))
  {
    hide Drain;
    if e.Abort? { MinusAbsent(l.waiters, e.request); }
    assert l.granted + [] == l.granted && l.waiters[0..] == l.waiters && l.waiters[..0] == [];
  }

  lemma StepGrants(l: Limiter, e: Event)
    requires NoIdleSlot(l)
    ensures Grants(l, e, Step(l, e))
  {
    hide Step, Grants, GivesBack, NoIdleSlot;
    match e
    case Acquire(limit, aborted) => if aborted { IdleGrants(l, e); } else { AcquireGrants(l, limit); }
    case UpdateLimit(limit) => UpdateGrants(l, limit);
    case Abort(request) => if request in l.waiters { AbortGrants(l, request); } else { IdleGrants(l, e); }
    case Release(request) => if GivesBack(l, e) { ReleaseGrants(l, request); } else { IdleGrants(l, e); }
  }
}
