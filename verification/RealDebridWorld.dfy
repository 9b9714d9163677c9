/** Several Real-Debrid calls sharing one pool (src/main/debrid.ts:701-735, 4592-4674).  A call runs without
    interruption from the head of its loop to the await inside an attempt, and from there to the end of the attempt;
    in between, other calls, pruning and released or expired cooldowns may change the pool in any way they can. */
module RealDebridWorld {
  import opened Common
  import opened Lists
  import InFlight
  import opened AccountRules
  import opened RealDebridModel
  import opened RealDebridTheorems

  datatype Phase = Ready | Waiting(attempt: Attempt) | Ended(ending: Ending)

  datatype CallState = CallState(accounts: seq<Account>, rule: Option<seq<string>>, tried: seq<string>, phase: Phase)

  datatype World = World(pool: Pool, calls: map<nat, CallState>)

  datatype Event =
    | Opens(call: nat, accounts: seq<Account>, rule: Option<seq<string>>)
    | Turns(call: nat, aborted: bool, now: int)
    | Answered(call: nat, answer: Answer, failedAt: int)
    | Prunes(active: set<string>)
    | Releases(id: string)
    | Expires(ids: set<string>, now: int)

  const Empty: World := World(Fresh, map[])

  function DoTurn(w: World, call: nat, aborted: bool, now: int): World {
    if call !in w.calls || !w.calls[call].phase.Ready? then w
    else
      var c := w.calls[call];
      var (pool, begun) := BeginTurn(w.pool, c.accounts, c.rule, c.tried, aborted, now);
      World(pool, w.calls[call := match begun
                                  case Over(ending) => c.(phase := Ended(ending))
                                  case Inside(a) => c.(tried := c.tried + [a.id], phase := Waiting(a))])
  }

  function DoAnswer(w: World, call: nat, answer: Answer, failedAt: int): World {
    if call !in w.calls || !w.calls[call].phase.Waiting? then w
    else
      var c := w.calls[call];
      var (pool, ending) := EndTurn(w.pool, c.phase.attempt, answer, failedAt, EnabledCount(c.accounts));
      World(pool, w.calls[call := c.(phase := if ending.Some? then Ended(ending.value) else Ready)])
  }

  /** `releaseRealDebridAccountCooldown`. */
  function Released(pool: Pool, id: string): Pool {
    if pool.stickyId == id then pool.(cooldowns := pool.cooldowns - {id}, stickyId := "", stickyCount := 0)
    else pool.(cooldowns := pool.cooldowns - {id})
  }

  /** Looking at cooldowns elsewhere, and pruning expired ones, drops those that have ended. */
  function Expired(pool: Pool, ids: set<string>, now: int): Pool {
    pool.(cooldowns :=
      map id | id in pool.cooldowns && (id !in ids || pool.cooldowns[id].until > now) :: pool.cooldowns[id])
  }

  function Step(w: World, e: Event): World {
    match e
    case Opens(call, accounts, rule) =>
      if call in w.calls then w else w.(calls := w.calls[call := CallState(accounts, rule, [], Ready)])
    case Turns(call, aborted, now) => DoTurn(w, call, aborted, now)
    case Answered(call, answer, failedAt) => DoAnswer(w, call, answer, failedAt)
    case Prunes(active) => w.(pool := Pruned(w.pool, active))
    case Releases(id) => w.(pool := Released(w.pool, id))
    case Expires(ids, now) => w.(pool := Expired(w.pool, ids, now))
  }

  function Run(w: World, events: seq<Event>): World
    decreases |events|
  {
    if events == [] then w else Run(Step(w, events[0]), events[1..])
  }

  // ---------------------------------------------------------------- the in-flight map

  function InsideOf(calls: map<nat, CallState>): map<nat, string> {
    map call | call in calls && calls[call].phase.Waiting? :: calls[call].phase.attempt.id
  }

  function TrafficOf(w: World): InFlight.Traffic { InFlight.Traffic(w.pool.inFlight, InsideOf(w.calls)) }

  /** The in-flight map holds, for every account, exactly the number of calls inside an attempt on it, and no zero. */
  ghost predicate Exact(w: World) { InFlight.Exact(TrafficOf(w)) }

  /** What a step means for the in-flight map. */
  lemma StepIsTraffic(w: World, e: Event)
    ensures var (t, u) := (TrafficOf(w), TrafficOf(Step(w, e)));
            && (e.Prunes? ==> u == InFlight.Step(t, InFlight.Pruned(e.active)))
            && (!e.Prunes? ==>
                  || u == t
                  || (e.Turns? && e.call !in t.inside && e.call in u.inside
                      && u == InFlight.Step(t, InFlight.Entered(e.call, u.inside[e.call])))
                  || (e.Answered? && e.call in t.inside && u == InFlight.Step(t, InFlight.Left(e.call))))
  {
    hide Purge, Available, Choose, IndexIn, EnabledCount, InFlight.Enter, InFlight.Leave, InFlight.Prune;
    match e
    case Opens(call, accounts, rule) => assert InsideOf(Step(w, e).calls) == InsideOf(w.calls);
    case Turns(call, aborted, now) => TurnIsTraffic(w, call, aborted, now);
    case Answered(call, answer, failedAt) => AnswerIsTraffic(w, call, answer, failedAt);
    case Prunes(active) =>
    case Releases(id) =>
    case Expires(ids, now) =>
  }

  lemma TurnIsTraffic(w: World, call: nat, aborted: bool, now: int)
    ensures var (t, u) := (TrafficOf(w), TrafficOf(DoTurn(w, call, aborted, now)));
            u == t || (call !in t.inside && call in u.inside
                       && u == InFlight.Step(t, InFlight.Entered(call, u.inside[call])))
  {
    hide Purge, Available, Choose, InFlight.Enter;
    var v := DoTurn(w, call, aborted, now);
    if call in w.calls && w.calls[call].phase.Ready? {
      if v.calls[call].phase.Waiting? {
        assert InsideOf(v.calls) == InsideOf(w.calls)[call := v.calls[call].phase.attempt.id];
      } else {
        assert InsideOf(v.calls) == InsideOf(w.calls);
      }
    }
  }

  lemma OutcomeInFlight(w: World, call: nat, answer: Answer, failedAt: int)
    requires call in w.calls && w.calls[call].phase.Waiting?
    ensures var attempt := w.calls[call].phase.attempt;
            EndTurn(w.pool, attempt, answer, failedAt, EnabledCount(w.calls[call].accounts)).0.inFlight
            == InFlight.Leave(w.pool.inFlight, attempt.id)
  {
    hide IndexIn, EnabledCount, InFlight.Leave;
  }

  lemma AnswerIsTraffic(w: World, call: nat, answer: Answer, failedAt: int)
    ensures var (t, u) := (TrafficOf(w), TrafficOf(DoAnswer(w, call, answer, failedAt)));
            u == t || (call in t.inside && u == InFlight.Step(t, InFlight.Left(call)))
  {
    hide EndTurn, EnabledCount, InFlight.Leave;
    var v := DoAnswer(w, call, answer, failedAt);
    if call in w.calls && w.calls[call].phase.Waiting? {
      OutcomeInFlight(w, call, answer, failedAt);
      assert InsideOf(v.calls) == InsideOf(w.calls) - {call};
    }
  }

  /** A prune of accounts that still have a call inside. */
  ghost predicate DropsBusy(w: World, e: Event) {
    e.Prunes?
    && exists call ::
         call in w.calls && w.calls[call].phase.Waiting? && w.calls[call].phase.attempt.id !in e.active
  }

  lemma BusyInside(w: World, e: Event)
    requires e.Prunes?
    ensures DropsBusy(w, e) <==> !InFlight.DropsOnlyIdle(TrafficOf(w), InFlight.Pruned(e.active))
  {
    var inside := InsideOf(w.calls);
    if DropsBusy(w, e) {
      var call :| call in w.calls && w.calls[call].phase.Waiting? && w.calls[call].phase.attempt.id !in e.active;
      assert call in inside && inside[call] !in e.active;
    }
  }

  /** Every step keeps the map exact, except a prune of an account with a call inside; that one always breaks it. */
  lemma StepIsExact(w: World, e: Event)
    requires Exact(w)
    ensures Exact(Step(w, e)) <==> !DropsBusy(w, e)
  {
    hide Step, InFlight.Exact, InsideOf;
    StepIsTraffic(w, e);
    var t, u := TrafficOf(w), TrafficOf(Step(w, e));
    if e.Prunes? {
      BusyInside(w, e);
      InFlight.StepIsExact(t, InFlight.Pruned(e.active));
    } else if u != t && e.Turns? {
      InFlight.StepIsExact(t, InFlight.Entered(e.call, u.inside[e.call]));
    } else if u != t {
      InFlight.StepIsExact(t, InFlight.Left(e.call));
    }
  }

  ghost predicate NeverDropsBusy(w: World, events: seq<Event>)
    decreases |events|
  {
    events == [] || (!DropsBusy(w, events[0]) && NeverDropsBusy(Step(w, events[0]), events[1..]))
  }

  ghost predicate AlwaysExact(w: World, events: seq<Event>)
    decreases |events|
  {
    Exact(w) && (events == [] || AlwaysExact(Step(w, events[0]), events[1..]))
  }

  /** Over every run of any number of calls, the in-flight map is exact at every point if and only if no prune ever
      drops an account with a call inside. */
  lemma {:induction false} CountsExactly(w: World, events: seq<Event>)
    requires Exact(w)
    ensures AlwaysExact(w, events) <==> NeverDropsBusy(w, events)
    decreases |events|
  {
    hide Step, Exact, DropsBusy;
    if events != [] {
      StepIsExact(w, events[0]);
      if Exact(Step(w, events[0])) { CountsExactly(Step(w, events[0]), events[1..]); }
    }
  }

  lemma EmptyIsExact()
    ensures Exact(Empty)
  {
    assert InsideOf(map[]) == map[];
    forall id ensures InFlight.CallsInside(map[], id) == {} {}
  }

  /** In particular from the reset on. */
  lemma CountsExactlyFromReset(events: seq<Event>)
    ensures AlwaysExact(Empty, events) <==> NeverDropsBusy(Empty, events)
  {
    hide Exact, AlwaysExact, NeverDropsBusy;
    EmptyIsExact();
    CountsExactly(Empty, events);
  }

  /** Whatever is dropped, the map never counts a call that is not there and holds no zero. */
  lemma {:induction false} NeverCountsTooMany(w: World, events: seq<Event>)
    requires InFlight.NeverMore(TrafficOf(w))
    ensures InFlight.NeverMore(TrafficOf(Run(w, events)))
    decreases |events|
  {
    hide Step, InFlight.NeverMore, InsideOf;
    if events != [] {
      var e := events[0];
      StepIsTraffic(w, e);
      var t, u := TrafficOf(w), TrafficOf(Step(w, e));
      if e.Prunes? {
        InFlight.StepNeverMore(t, InFlight.Pruned(e.active));
      } else if u != t && e.Turns? {
        InFlight.StepNeverMore(t, InFlight.Entered(e.call, u.inside[e.call]));
      } else if u != t {
        InFlight.StepNeverMore(t, InFlight.Left(e.call));
      }
      NeverCountsTooMany(Step(w, e), events[1..]);
    }
  }

  /** One turn over a single usable account with no cooldown about goes inside it. */
  lemma TurnEnters(w: World, call: nat, a: Account, now: int)
    requires a.enabled && !a.limited && w.pool.cooldowns == map[]
    requires call in w.calls && w.calls[call] == CallState([a], None, [], Ready)
    ensures DoTurn(w, call, false, now)
            == World(EnterPool(w.pool, a.id),
                     w.calls[call := CallState([a], None, [a.id], Waiting(Selection(a.id, [a.id])))])
  {
    hide Select, EnterPool;
    assert [a][..0] == [];
    assert Available(w.pool, [a], [], now) == [a.id];
    assert Purge(w.pool.cooldowns, [a], now) == map[];
    assert w.pool.(cooldowns := map[]) == w.pool;
    assert Choose(w.pool, [a.id], None) in [a.id];
  }

  /** Dropping a busy account and taking it back makes it look idle while a call is inside: call 0 enters it, the
      settings drop it and bring it back, call 1 enters it, and when call 0 is answered the count of call 1 goes. */
  lemma DroppedAccountLooksIdle(a: Account, now: int)
    requires a.enabled && !a.limited
    ensures var events := [Opens(0, [a], None), Turns(0, false, now), Prunes({}), Opens(1, [a], None),
                           Turns(1, false, now), Answered(0, Served, now)];
            var w := Run(Empty, events);
            && 1 in w.calls && w.calls[1].phase == Waiting(Selection(a.id, [a.id]))
            && InFlight.Depth(w.pool.inFlight, a.id) == 0
  {
    hide DoTurn, DoAnswer, Run;
    var w1 := Step(Empty, Opens(0, [a], None));
    var w2 := Step(w1, Turns(0, false, now));
    TurnEnters(w1, 0, a, now);
    var w3 := Step(w2, Prunes({}));
    var w4 := Step(w3, Opens(1, [a], None));
    assert w4.pool.cooldowns == map[] && w4.pool.inFlight == map[];
    var w5 := Step(w4, Turns(1, false, now));
    TurnEnters(w4, 1, a, now);
    assert w5.pool.inFlight == map[a.id := 1];
    var w6 := Step(w5, Answered(0, Served, now));
    ServedLeaves(w5, 0, a.id, now);
    RunSix(Empty, Opens(0, [a], None), Turns(0, false, now), Prunes({}), Opens(1, [a], None),
           Turns(1, false, now), Answered(0, Served, now));
  }

  lemma ServedLeaves(w: World, call: nat, id: string, at: int)
    requires call in w.calls && w.calls[call].phase == Waiting(Selection(id, [id])) && w.pool.inFlight == map[id := 1]
    ensures var v := DoAnswer(w, call, Served, at);
            && v.pool.inFlight == map[] && v.calls == w.calls[call := w.calls[call].(phase := Ended(Done(id)))]
  {
    hide EnabledCount, IndexIn;
  }

  lemma RunSix(w: World, e1: Event, e2: Event, e3: Event, e4: Event, e5: Event, e6: Event)
    ensures Run(w, [e1, e2, e3, e4, e5, e6]) == Step(Step(Step(Step(Step(Step(w, e1), e2), e3), e4), e5), e6)
  {
    hide Step;
    RunThree(w, e1, e2, e3, [e4, e5, e6]);
    RunThree(Step(Step(Step(w, e1), e2), e3), e4, e5, e6, []);
    assert [e1, e2, e3, e4, e5, e6] == [e1, e2, e3] + [e4, e5, e6];
    assert [e4, e5, e6] == [e4, e5, e6] + [];
  }

  lemma RunThree(w: World, a: Event, b: Event, c: Event, rest: seq<Event>)
    ensures Run(w, [a, b, c] + rest) == Run(Step(Step(Step(w, a), b), c), rest)
  {
    hide Step;
    var events := [a, b, c] + rest;
    assert events[1..] == [b, c] + rest && events[1..][1..] == [c] + rest && events[1..][1..][1..] == rest;
    assert Run(w, events) == Run(Step(w, a), events[1..]);
    assert Run(Step(w, a), events[1..]) == Run(Step(Step(w, a), b), events[1..][1..]);
    assert Run(Step(Step(w, a), b), events[1..][1..]) == Run(Step(Step(Step(w, a), b), c), rest);
  }

  /** Pruning keeps the cooldown, the count and the stickiness of every active account and nothing of the others; the
      cursor stays where it is unless it is past the accounts that are left. */
  lemma PruningKeepsActive(pool: Pool, active: set<string>, id: string)
    ensures var p := Pruned(pool, active);
            && (id in p.cooldowns <==> id in pool.cooldowns && id in active)
            && (id in p.cooldowns ==> p.cooldowns[id] == pool.cooldowns[id])
            && InFlight.Depth(p.inFlight, id) == (if id in active then InFlight.Depth(pool.inFlight, id) else 0)
            && (pool.stickyId == "" || pool.stickyId in active ==>
                  p.stickyId == pool.stickyId && p.stickyCount == pool.stickyCount)
            && (p.stickyId == "" || p.stickyId in active)
            && (active == {} ==> p.cursor == 0)
            && (active != {} ==> p.cursor < |active| && (pool.cursor < |active| ==> p.cursor == pool.cursor))
  {
    if active != {} { assert |active| > 0; }
  }

  // ---------------------------------------------------------------- each call by itself

  ghost predicate CallInv(c: CallState) {
    && Distinct(c.tried) && (forall i :: 0 <= i < |c.tried| ==> HasAccount(c.accounts, c.tried[i]))
    && (c.phase.Waiting? ==> c.tried != [] && c.tried[|c.tried| - 1] == c.phase.attempt.id)
  }

  ghost predicate WorldInv(w: World) { forall call :: call in w.calls ==> CallInv(w.calls[call]) }

  lemma TurnKeepsCall(w: World, call: nat, aborted: bool, now: int)
    requires call in w.calls && CallInv(w.calls[call])
    ensures CallInv(DoTurn(w, call, aborted, now).calls[call])
  {
    hide Purge, Available, Choose, EnterPool, HasAccount, Usable;
    var c := w.calls[call];
    AvailableMembers(w.pool, c.accounts, c.tried, now);
    forall id | UsableId(w.pool, c.accounts, now, id) ensures HasAccount(c.accounts, id) {
      IsAccount(w.pool, c.accounts, now, id);
    }
    hide UsableId;
  }

  lemma IsAccount(pool: Pool, accounts: seq<Account>, now: int, id: string)
    requires UsableId(pool, accounts, now, id)
    ensures HasAccount(accounts, id)
  {}

  lemma StepKeepsCalls(w: World, e: Event)
    requires WorldInv(w)
    ensures WorldInv(Step(w, e))
  {
    hide BeginTurn, EndTurn, Pruned, Released, Expired;
    if e.Turns? && e.call in w.calls {
      hide CallInv;
      TurnKeepsCall(w, e.call, e.aborted, e.now);
    }
  }

  lemma {:induction false} RunKeepsCalls(w: World, events: seq<Event>)
    requires WorldInv(w)
    ensures WorldInv(Run(w, events))
    decreases |events|
  {
    hide Step, WorldInv;
    if events != [] {
      StepKeepsCalls(w, events[0]);
      RunKeepsCalls(Step(w, events[0]), events[1..]);
    }
  }

  /** Whatever is answered and whatever other calls do in between, no call tries an account twice, and all it tries are
      its configured ones. */
  lemma EachAccountOnce(events: seq<Event>, call: nat)
    requires call in Run(Empty, events).calls
    ensures var c := Run(Empty, events).calls[call];
            Distinct(c.tried) && forall i :: 0 <= i < |c.tried| ==> HasAccount(c.accounts, c.tried[i])
  {
    hide Run;
    RunKeepsCalls(Empty, events);
  }

  // ---------------------------------------------------------------- priority order

  /** At every turn of this call its untried accounts are as usable as this set says. */
  ghost predicate SteadyFor(w: World, events: seq<Event>, call: nat, usable: set<string>)
    decreases |events|
  {
    events == []
    || ((events[0].Turns? && events[0].call == call && call in w.calls ==>
           SteadyAt(w.pool, w.calls[call].accounts, events[0].now, usable, w.calls[call].tried))
        && SteadyFor(Step(w, events[0]), events[1..], call, usable))
  }

  /** The accounts tried so far, followed by the rule's order of the rest, is the rule's order of all. */
  ghost predicate OnRule(c: CallState, rule: seq<string>, usable: set<string>) {
    && c.rule == Some(rule) && DistinctAccounts(c.accounts)
    && c.tried + Ordered(rule, Pick(c.accounts, usable, c.tried)) == Ordered(rule, Pick(c.accounts, usable, []))
    && (c.phase == Ended(PoolFailed) ==> Pick(c.accounts, usable, c.tried) == [])
  }

  lemma RuledTurn(w: World, call: nat, aborted: bool, now: int, rule: seq<string>, usable: set<string>)
    requires call in w.calls && w.calls[call].phase.Ready? && OnRule(w.calls[call], rule, usable)
    requires SteadyAt(w.pool, w.calls[call].accounts, now, usable, w.calls[call].tried)
    ensures OnRule(DoTurn(w, call, aborted, now).calls[call], rule, usable)
  {
    hide Available, Pick, Ordered, Purge, EnterPool, DistinctAccounts, SteadyAt, Select;
    var c := w.calls[call];
    var ids := Pick(c.accounts, usable, c.tried);
    AvailableNow(w.pool, c.accounts, now, usable, c.tried);
    if !aborted && ids != [] {
      OrderedMembers(rule, ids);
      assert ids[0] in Ordered(rule, ids);
      var order := Ordered(rule, ids);
      var i := IndexIn(ids, order[0]);
      RulePicks(c, rule, usable, i);
      assert c.tried + [order[0]] + order[1..] == c.tried + order;
      hide IndexIn;
    }
  }

  lemma RulePicks(c: CallState, rule: seq<string>, usable: set<string>, i: nat)
    requires DistinctAccounts(c.accounts)
    requires var ids := Pick(c.accounts, usable, c.tried);
             i < |ids| && Ordered(rule, ids) != [] && Ordered(rule, ids)[0] == ids[i]
    ensures var ids := Pick(c.accounts, usable, c.tried);
            Ordered(rule, Pick(c.accounts, usable, c.tried + [ids[i]])) == Ordered(rule, ids)[1..]
  {
    hide Pick, Ordered, DistinctAccounts;
    PickMembers(c.accounts, usable, c.tried);
    PickWithout(c.accounts, usable, c.tried, i);
    OrderedTail(rule, Pick(c.accounts, usable, c.tried), i);
  }

  lemma StepKeepsRule(w: World, e: Event, call: nat, rule: seq<string>, usable: set<string>)
    requires call in w.calls && OnRule(w.calls[call], rule, usable)
    requires e.Turns? && e.call == call ==>
               SteadyAt(w.pool, w.calls[call].accounts, e.now, usable, w.calls[call].tried)
    ensures call in Step(w, e).calls && OnRule(Step(w, e).calls[call], rule, usable)
    ensures Step(w, e).calls[call].accounts == w.calls[call].accounts
  {
    hide OnRule, SteadyAt, DoTurn;
    if e.Turns? && e.call == call && w.calls[call].phase.Ready? {
      RuledTurn(w, call, e.aborted, e.now, rule, usable);
      TurnKeepsAccounts(w, call, e.aborted, e.now);
    } else {
      OtherSteps(w, e, call);
      SameRule(w.calls[call], Step(w, e).calls[call], rule, usable);
    }
  }

  lemma TurnKeepsAccounts(w: World, call: nat, aborted: bool, now: int)
    requires call in w.calls
    ensures call in DoTurn(w, call, aborted, now).calls
    ensures DoTurn(w, call, aborted, now).calls[call].accounts == w.calls[call].accounts
  {
    hide BeginTurn;
  }

  /** Only a turn of its own changes what a call has tried, and only its own answer can end it. */
  lemma OtherSteps(w: World, e: Event, call: nat)
    requires call in w.calls && !(e.Turns? && e.call == call && w.calls[call].phase.Ready?)
    ensures call in Step(w, e).calls
    ensures var c, d := w.calls[call], Step(w, e).calls[call];
            d == c.(phase := d.phase) && (d.phase == c.phase || d.phase != Ended(PoolFailed))
  {
    hide BeginTurn, Pruned, Released, Expired, LeavePool, OnServed, OnRotate, EnabledCount;
  }

  lemma SameRule(c: CallState, d: CallState, rule: seq<string>, usable: set<string>)
    requires OnRule(c, rule, usable) && d == c.(phase := d.phase)
    requires d.phase == c.phase || d.phase != Ended(PoolFailed)
    ensures OnRule(d, rule, usable)
  {
    hide Ordered, Pick, DistinctAccounts;
  }

  lemma {:induction false} RunKeepsRule(w: World, events: seq<Event>, call: nat, rule: seq<string>, usable: set<string>)
    requires call in w.calls && OnRule(w.calls[call], rule, usable) && SteadyFor(w, events, call, usable)
    ensures call in Run(w, events).calls && OnRule(Run(w, events).calls[call], rule, usable)
    ensures Run(w, events).calls[call].accounts == w.calls[call].accounts
    decreases |events|
  {
    hide Step, OnRule, SteadyAt;
    if events != [] {
      StepKeepsRule(w, events[0], call, rule, usable);
      RunKeepsRule(Step(w, events[0]), events[1..], call, rule, usable);
    }
  }

  /** In priority mode failover follows the rule, whatever other calls do meanwhile to cursor, loads and the cooldowns
      of accounts already tried: as long as the usability of its untried accounts is the same at each of its turns, a
      call tries a prefix of the rule's order, and all of it before it fails as a pool. */
  lemma FailoverFollowsRule(w: World, events: seq<Event>, call: nat, rule: seq<string>, usable: set<string>)
    requires call in w.calls && w.calls[call].tried == [] && w.calls[call].phase.Ready?
    requires w.calls[call].rule == Some(rule)
    requires DistinctAccounts(w.calls[call].accounts) && SteadyFor(w, events, call, usable)
    ensures call in Run(w, events).calls
    ensures var c := Run(w, events).calls[call];
            var order := Ordered(rule, Pick(w.calls[call].accounts, usable, []));
            && IsPrefix(c.tried, order) && (c.phase == Ended(PoolFailed) ==> c.tried == order)
  {
    hide Run, SteadyFor, Ordered, Pick, DistinctAccounts;
    var c := w.calls[call];
    assert c.tried + Ordered(rule, Pick(c.accounts, usable, c.tried)) == Ordered(rule, Pick(c.accounts, usable, []));
    RunKeepsRule(w, events, call, rule, usable);
    NothingOrdered(rule);
    var d := Run(w, events).calls[call];
    assert Ordered(rule, Pick(c.accounts, usable, []))[..|d.tried|] == d.tried;
  }

  // ---------------------------------------------------------------- a call alone

  /** The steps of n turns of one call, with nothing in between. */
  function Alone(call: nat, turns: nat -> Turn, k: nat, n: nat): seq<Event>
    decreases n
  {
    if n == 0 then []
    else
      [Turns(call, turns(k).aborted, turns(k).now), Answered(call, turns(k).answer, turns(k).failedAt)]
      + Alone(call, turns, k + 1, n - 1)
  }

  lemma AloneTurn(w: World, call: nat, turns: nat -> Turn)
    requires call in w.calls && w.calls[call].phase.Ready?
    ensures var c := w.calls[call];
            var t := turns(|c.tried|);
            var round := OneTurn(w.pool, c.accounts, c.rule, t, c.tried);
            DoAnswer(DoTurn(w, call, t.aborted, t.now), call, t.answer, t.failedAt)
            == if round.Again? then World(round.pool, w.calls[call := c.(tried := c.tried + [round.id])])
               else World(round.outcome.pool,
                          w.calls[call := c.(tried := round.outcome.tried, phase := Ended(round.outcome.ending))])
  {
    hide Purge, Available, Choose, EnterPool, LeavePool, OnServed, OnRotate, EnabledCount;
  }

  /** `Call` is the run of its own steps: what is proved of a call alone is proved of the shared pool. */
  lemma {:induction false} CallIsARun(w: World, call: nat, turns: nat -> Turn) returns (n: nat)
    requires call in w.calls && w.calls[call].phase.Ready?
    ensures var c := w.calls[call];
            var o := Call(w.pool, c.accounts, c.rule, turns, c.tried);
            Run(w, Alone(call, turns, |c.tried|, n))
            == World(o.pool, w.calls[call := c.(tried := o.tried, phase := Ended(o.ending))])
    decreases Untried(w.calls[call].accounts, w.calls[call].tried)
  {
    hide OneTurn, DoTurn, DoAnswer;
    var c := w.calls[call];
    var t := turns(|c.tried|);
    AloneTurn(w, call, turns);
    CallTurns(w.pool, c.accounts, c.rule, turns, c.tried);
    var round := OneTurn(w.pool, c.accounts, c.rule, t, c.tried);
    var next := DoAnswer(DoTurn(w, call, t.aborted, t.now), call, t.answer, t.failedAt);
    hide Call;
    var m := 0;
    if round.Again? {
      AgainTriesAnother(w.pool, c.accounts, c.rule, t, c.tried);
      m := CallIsARun(next, call, turns);
    }
    n := m + 1;
    var events := Alone(call, turns, |c.tried|, n);
    var rest := Alone(call, turns, |c.tried| + 1, m);
    assert events == [Turns(call, t.aborted, t.now), Answered(call, t.answer, t.failedAt)] + rest;
    assert events[1..][1..] == rest;
    assert events[1..][0] == Answered(call, t.answer, t.failedAt);
    assert Run(w, events) == Run(Step(w, events[0]), events[1..]);
    assert Run(Step(w, events[0]), events[1..]) == Run(next, rest);
  }
}
