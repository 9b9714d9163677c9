/** The extraction limiter (src/main/extraction-limiter.ts:1-55): a first-come-first-served semaphore whose limit moves
    with every request and whose waiters may be aborted. */
module LimiterProtocol {
  import opened Lists

  /** Requests are numbered in the order of their `acquire` calls.  `granted`, `rejected` and `released` are the
      history: requests resolved in order, requests rejected, and grants given back. */
  datatype Limiter = Limiter(
    ceiling: int,
    active: int,
    limit: int,
    waiters: seq<nat>,
    requests: nat,
    granted: seq<nat>,
    rejected: set<nat>,
    released: set<nat>)

  datatype Event =
    | Acquire(limit: int, aborted: bool)
    | UpdateLimit(limit: int)
    | Abort(request: nat)
    | Release(request: nat)

  /** `Math.max(1, Math.min(ceiling, Math.floor(limit) || 1))`. */
  function Clamp(ceiling: int, limit: int): int {
    var wanted := if limit == 0 then 1 else limit;
    var capped := if wanted < ceiling then wanted else ceiling;
    if capped < 1 then 1 else capped
  }

  function GrantFirst(l: Limiter): Limiter
    requires l.waiters != []
  {
    l.(active := l.active + 1, waiters := l.waiters[1..], granted := l.granted + [l.waiters[0]])
  }

  function Drain(l: Limiter): Limiter
    decreases |l.waiters|
  {
    if l.active < l.limit && l.waiters != [] then Drain(GrantFirst(l)) else l
  }

  function Step(l: Limiter, e: Event): Limiter {
    match e
    case Acquire(limit, aborted) =>
      var numbered := l.(requests := l.requests + 1);
      if aborted then numbered.(rejected := l.rejected + {l.requests})
      else Drain(numbered.(limit := Clamp(l.ceiling, limit), waiters := l.waiters + [l.requests]))
    case UpdateLimit(limit) => Drain(l.(limit := Clamp(l.ceiling, limit)))
    case Abort(request) =>
      if request !in l.waiters then l
      else Drain(l.(waiters := Minus(l.waiters, request), rejected := l.rejected + {request}))
    case Release(request) =>
      if request !in l.granted || request in l.released then l
      else Drain(l.(active := l.active - 1, released := l.released + {request}))
  }

  function Initial(ceiling: int): Limiter { Limiter(ceiling, 0, 1, [], 0, [], {}, {}) }

  function Run(l: Limiter, events: seq<Event>): Limiter
    decreases |events|
  {
    if events == [] then l else Run(Step(l, events[0]), events[1..])
  }

  // ---------------------------------------------------------------- the invariant

  ghost predicate Increasing(s: seq<nat>) { forall i, j :: 0 <= i < j < |s| ==> s[i] < s[j] }

  /** Requests are granted in order, and each is in exactly one of the four places it can be in. */
  ghost predicate Orderly(l: Limiter) {
    && Increasing(l.granted) && Increasing(l.waiters)
    && (forall i, j :: 0 <= i < |l.granted| && 0 <= j < |l.waiters| ==> l.granted[i] < l.waiters[j])
    && (forall r :: r in l.granted || r in l.waiters || r in l.rejected ==> r < l.requests)
    && (forall r :: 0 <= r < l.requests ==> r in l.granted || r in l.waiters || r in l.rejected)
    && (forall r :: r in l.rejected ==> r !in l.granted && r !in l.waiters)
    && (forall r :: r in l.released ==> r in l.granted)
    && l.active == |l.granted| - |l.released|
    && l.limit >= 1
  }

  /** Nobody waits for a free slot. */
  predicate NoIdleSlot(l: Limiter) { l.waiters != [] ==> l.active >= l.limit }

  lemma GrantKeepsOrder(l: Limiter)
    requires Orderly(l) && l.waiters != []
    ensures Orderly(GrantFirst(l))
  {
    var m := GrantFirst(l);
    assert forall r :: r in l.waiters <==> r == l.waiters[0] || r in m.waiters;
    assert forall r :: r in m.granted <==> r in l.granted || r == l.waiters[0];
  }

  lemma {:induction false} DrainKeepsOrder(l: Limiter)
    requires Orderly(l)
    ensures Orderly(Drain(l)) && NoIdleSlot(Drain(l))
    ensures Drain(l).limit == l.limit && Drain(l).rejected == l.rejected && Drain(l).released == l.released
    ensures l.granted <= Drain(l).granted
    ensures l.granted + l.waiters == Drain(l).granted + Drain(l).waiters
    ensures Drain(l).active == l.active || l.active < Drain(l).active <= l.limit
    decreases |l.waiters|
  {
    hide Orderly;
    if l.active < l.limit && l.waiters != [] {
      GrantKeepsOrder(l);
      DrainKeepsOrder(GrantFirst(l));
      assert l.granted + l.waiters == GrantFirst(l).granted + GrantFirst(l).waiters;
    }
  }

  lemma {:induction false} MinusKeepsOrder(s: seq<nat>, request: nat)
    requires Increasing(s)
    ensures Increasing(Minus(s, request))
    ensures forall r :: r in Minus(s, request) <==> r in s && r != request
  {
    if s != [] {
      var init, last := s[..|s| - 1], s[|s| - 1];
      assert s == init + [last];
      MinusKeepsOrder(init, request);
      assert forall r :: r in init ==> r < last;
      var rest := Minus(init, request);
      assert forall i :: 0 <= i < |rest| ==> rest[i] in rest;
    }
  }

  lemma MembersAbove(l: Limiter, waiters: seq<nat>)
    requires Orderly(l) && Increasing(waiters)
    requires forall r :: r in waiters ==> r in l.waiters
    ensures forall i, j :: 0 <= i < |l.granted| && 0 <= j < |waiters| ==> l.granted[i] < waiters[j]
  {
    forall i, j | 0 <= i < |l.granted| && 0 <= j < |waiters|
      ensures l.granted[i] < waiters[j]
    {
      assert waiters[j] in l.waiters;
    }
  }

  lemma AcquireKeepsOrder(l: Limiter, limit: int)
    requires Orderly(l)
    ensures Orderly(l.(requests := l.requests + 1, limit := Clamp(l.ceiling, limit),
                       waiters := l.waiters + [l.requests]))
  {
    var m := l.(requests := l.requests + 1, limit := Clamp(l.ceiling, limit), waiters := l.waiters + [l.requests]);
    assert forall r :: r in m.waiters <==> r in l.waiters || r == l.requests;
    assert forall i :: 0 <= i < |l.waiters| ==> l.waiters[i] in l.waiters;
    assert forall i :: 0 <= i < |l.granted| ==> l.granted[i] in l.granted;
  }

  lemma AbortKeepsOrder(l: Limiter, request: nat)
    requires Orderly(l) && request in l.waiters
    ensures Orderly(l.(waiters := Minus(l.waiters, request), rejected := l.rejected + {request}))
  {
    MinusKeepsOrder(l.waiters, request);
    MembersAbove(l, Minus(l.waiters, request));
    NotBoth(l, request);
  }

  lemma NotBoth(l: Limiter, request: nat)
    requires Orderly(l) && request in l.waiters
    ensures request !in l.granted
  {
    var j :| 0 <= j < |l.waiters| && l.waiters[j] == request;
    assert forall i :: 0 <= i < |l.granted| ==> l.granted[i] < l.waiters[j];
  }

  lemma ReleaseKeepsOrder(l: Limiter, request: nat)
    requires Orderly(l) && request in l.granted && request !in l.released
    ensures Orderly(l.(active := l.active - 1, released := l.released + {request}))
  {}

  /** What every operation keeps: order, single settlement, the count of active extractions, no idle slot, and the
      number of active extractions never rises above the limit then in force. */
  lemma StepKeepsInv(l: Limiter, e: Event)
    requires Orderly(l) && NoIdleSlot(l)
    ensures Orderly(Step(l, e)) && NoIdleSlot(Step(l, e))
    ensures l.granted <= Step(l, e).granted
    ensures Step(l, e).active > l.active ==> Step(l, e).active <= Step(l, e).limit
  {
    hide Orderly, Drain, Clamp;
    match e
    case Acquire(limit, aborted) =>
      if aborted {
        RejectKeepsOrder(l);
      } else {
        AcquireKeepsOrder(l, limit);
        DrainKeepsOrder(l.(requests := l.requests + 1, limit := Clamp(l.ceiling, limit),
                           waiters := l.waiters + [l.requests]));
      }
    case UpdateLimit(limit) =>
      LimitKeepsOrder(l, limit);
      DrainKeepsOrder(l.(limit := Clamp(l.ceiling, limit)));
    case Abort(request) =>
      if request in l.waiters {
        AbortKeepsOrder(l, request);
        DrainKeepsOrder(l.(waiters := Minus(l.waiters, request), rejected := l.rejected + {request}));
      }
    case Release(request) =>
      if request in l.granted && request !in l.released {
        ReleaseKeepsOrder(l, request);
        DrainKeepsOrder(l.(active := l.active - 1, released := l.released + {request}));
      }
  }

  lemma RejectKeepsOrder(l: Limiter)
    requires Orderly(l)
    ensures Orderly(l.(requests := l.requests + 1, rejected := l.rejected + {l.requests}))
  {}

  lemma LimitKeepsOrder(l: Limiter, limit: int)
    requires Orderly(l)
    ensures Orderly(l.(limit := Clamp(l.ceiling, limit)))
  {}

  lemma {:induction false} RunKeepsInv(l: Limiter, events: seq<Event>)
    requires Orderly(l) && NoIdleSlot(l)
    ensures Orderly(Run(l, events)) && NoIdleSlot(Run(l, events)) && l.granted <= Run(l, events).granted
    decreases |events|
  {
    hide Orderly, Step;
    if events != [] {
      StepKeepsInv(l, events[0]);
      RunKeepsInv(Step(l, events[0]), events[1..]);
    }
  }

  /** First come, first served: a request overtaken by a later grant was granted before it or has been aborted,
      and nobody waits while a slot is free. */
  lemma FirstComeFirstServed(ceiling: int, events: seq<Event>, i: nat, k: nat)
    requires k < |Run(Initial(ceiling), events).granted| && i < Run(Initial(ceiling), events).granted[k]
    ensures var l := Run(Initial(ceiling), events);
            && NoIdleSlot(l)
            && (i in l.rejected || exists n :: 0 <= n < k && l.granted[n] == i)
  {
    RunKeepsInv(Initial(ceiling), events);
    var l := Run(Initial(ceiling), events);
    assert l.granted[k] in l.granted;
    if i !in l.rejected {
      assert forall j :: 0 <= j < |l.waiters| ==> l.granted[k] < l.waiters[j];
      var n :| 0 <= n < |l.granted| && l.granted[n] == i;
      assert n < k;
    }
  }

  /** Each request is settled at most once and counted once: active is grants minus releases, a request is never
      both granted and rejected, no grant is repeated, and a second release changes nothing. */
  lemma SettledOnce(ceiling: int, events: seq<Event>, request: nat)
    ensures var l := Run(Initial(ceiling), events);
            && l.active == |l.granted| - |l.released| >= 0
            && !(request in l.granted && request in l.rejected)
            && (forall i, j :: 0 <= i < j < |l.granted| ==> l.granted[i] != l.granted[j])
            && Step(Step(l, Release(request)), Release(request)) == Step(l, Release(request))
  {
    RunKeepsInv(Initial(ceiling), events);
    var l := Run(Initial(ceiling), events);
    ReleasedBound(l);
    ReleaseTwice(l, request);
  }

  lemma ReleaseTwice(l: Limiter, request: nat)
    requires Orderly(l)
    ensures Step(Step(l, Release(request)), Release(request)) == Step(l, Release(request))
  {
    hide Orderly, Drain;
    if request in l.granted && request !in l.released {
      ReleaseKeepsOrder(l, request);
      DrainKeepsOrder(l.(active := l.active - 1, released := l.released + {request}));
    }
  }

  lemma {:induction false} CountOf(s: seq<nat>, t: set<nat>)
    requires Increasing(s) && forall r :: r in t ==> r in s
    ensures |t| <= |s|
    decreases |s|
  {
    if s == [] {
      assert t == {};
    } else {
      assert forall r :: r in s <==> r == s[0] || r in s[1..];
      CountOf(s[1..], t - {s[0]});
      if s[0] in t { assert |t| == |t - {s[0]}| + 1; } else { assert t - {s[0]} == t; }
    }
  }

  lemma ReleasedBound(l: Limiter)
    requires Orderly(l)
    ensures |l.released| <= |l.granted|
  {
    CountOf(l.granted, l.released);
  }
}

/** The limiter object. */
module ExtractionLimiter {
  import opened Lists
  import P = LimiterProtocol

  class ExtractionLimiter {
    const ceiling: int
    var active: int
    var limit: int
    var waiters: seq<nat>
    var requests: nat
    var granted: seq<nat>        // resolved promises, in order
    var rejected: set<nat>       // rejected promises
    var released: set<nat>       // the `released` flags of the returned closures

    ghost function View(): P.Limiter
      reads this
    {
      P.Limiter(ceiling, active, limit, waiters, requests, granted, rejected, released)
    }

    constructor (ceiling: int)
      ensures View() == P.Initial(ceiling)
    {
      this.ceiling := ceiling;
      active, limit, waiters, requests := 0, 1, [], 0;
      granted, rejected, released := [], {}, {};
    }

    method UpdateLimit(limit: int)
      modifies this
      ensures View() == P.Step(old(View()), P.UpdateLimit(limit))
    {
      this.limit := P.Clamp(ceiling, limit);
      DrainQueue();
    }

    method Acquire(limit: int, aborted: bool) returns (request: nat)
      modifies this
      ensures request == old(requests)
      ensures View() == P.Step(old(View()), P.Acquire(limit, aborted))
    {
      request := requests;
      requests := requests + 1;
      if aborted {
        rejected := rejected + {request};
        return;
      }
      this.limit := P.Clamp(ceiling, limit);
      waiters := waiters + [request];
      DrainQueue();
    }

    method Abort(request: nat)
      modifies this
      ensures View() == P.Step(old(View()), P.Abort(request))
    {
      if request !in waiters { return; }
      waiters := Minus(waiters, request);
      rejected := rejected + {request};
      DrainQueue();
    }

    method Release(request: nat)
      modifies this
      ensures View() == P.Step(old(View()), P.Release(request))
    {
      if request !in granted || request in released { return; }
      released := released + {request};
      active := active - 1;
      DrainQueue();
    }

    method DrainQueue()
      modifies this
      ensures View() == P.Drain(old(View()))
    {
      while active < limit && |waiters| > 0
        invariant P.Drain(View()) == P.Drain(old(View()))
        decreases |waiters|
      {
        var request := waiters[0];
        waiters := waiters[1..];
        granted := granted + [request];
        active := active + 1;
      }
    }
  }
}
