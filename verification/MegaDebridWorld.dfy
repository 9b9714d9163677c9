/** Several Mega-Debrid calls sharing one state (src/main/debrid.ts:2340-2621).  A call runs without interruption from
    its start, its answer or its waking up to the next await; in between, others and pruning may do what they can. */
module MegaDebridWorld {
  import opened Common
  import opened Lists
  import InFlight
  import opened MegaDebridModel
  import opened MegaDebridTheorems

  /** `start` is the order computed when the call began. */
  datatype CallState = CallState(ids: seq<string>, priority: bool, start: seq<string>, s: Search, phase: Phase)

  datatype World = World(shared: Shared, calls: map<nat, CallState>)

  datatype Event =
    | Opens(call: nat, ids: seq<string>, rule: Option<seq<string>>, glances: nat -> Glance)
    | Answered(call: nat, answer: Answer, glances: nat -> Glance)
    | Wakes(call: nat, aborted: bool, glances: nat -> Glance)
    | Expires(expired: set<string>, now: int)

  const Empty: World := World(Fresh, map[])

  /** The loop goes on to its next await; an attempt counts the call into its account. */
  function Resume(shared: Shared, c: CallState, glances: nat -> Glance): (Shared, CallState) {
    if c.s.pos > |c.s.order| then (shared, c)
    else
      var (s, phase) := Advance(shared, c.s, c.priority, glances);
      (if phase.Inside? then shared.(inFlight := InFlight.Enter(shared.inFlight, phase.id)) else shared,
       c.(s := s, phase := phase))
  }

  /** The early exits, then the order of the call and its first stretch. */
  function Opened(shared: Shared, ids: seq<string>, rule: Option<seq<string>>, glances: nat -> Glance)
    : (Shared, CallState)
  {
    var blank := CallState(ids, rule.Some?, [], StartSearch([]), Over(NothingConfigured));
    if ids == [] then (shared, blank)
    else if forall i :: 0 <= i < |ids| ==> ids[i] in glances(0).off then (shared, blank.(phase := Over(NothingUsable)))
    else
      var start := StartOrder(ids, rule, shared.cursor, shared.inFlight);
      Resume(shared, CallState(ids, rule.Some?, start, StartSearch(start), Sleeping), glances)
  }

  /** The attempt ends; unless that ends the call the loop goes on at once. */
  function Concluded(shared: Shared, c: CallState, answer: Answer, glances: nat -> Glance): (Shared, CallState)
    requires c.phase.Inside?
  {
    var (left, ending) := EndAttempt(shared, c.ids, c.s.order, c.phase.id, answer);
    if ending.Some? then (left, c.(phase := Over(ending.value))) else Resume(left, c, glances)
  }

  function With(w: World, call: nat, next: (Shared, CallState)): World { World(next.0, w.calls[call := next.1]) }

  /** Dropping cooldowns that have ended: reading them does it, and so does pruning. */
  function Expired(shared: Shared, ids: set<string>, now: int): Shared {
    shared.(cooldowns :=
      map id | id in shared.cooldowns && (id !in ids || shared.cooldowns[id].until > now) :: shared.cooldowns[id])
  }

  function Step(w: World, e: Event): World {
    match e
    case Opens(call, ids, rule, glances) =>
      if call in w.calls then w else With(w, call, Opened(w.shared, ids, rule, glances))
    case Answered(call, answer, glances) =>
      if call !in w.calls || !w.calls[call].phase.Inside? then w
      else With(w, call, Concluded(w.shared, w.calls[call], answer, glances))
    case Wakes(call, aborted, glances) =>
      if call !in w.calls || !w.calls[call].phase.Sleeping? then w
      else if aborted then w.(calls := w.calls[call := w.calls[call].(phase := Over(AbortedWaiting))])
      else With(w, call, Resume(w.shared, w.calls[call], glances))
    case Expires(ids, now) => w.(shared := Expired(w.shared, ids, now))
  }

  function Run(w: World, events: seq<Event>): World
    decreases |events|
  {
    if events == [] then w else Run(Step(w, events[0]), events[1..])
  }

  // ---------------------------------------------------------------- the in-flight map

  function InsideOf(calls: map<nat, CallState>): map<nat, string> {
    map call | call in calls && calls[call].phase.Inside? :: calls[call].phase.id
  }

  function TrafficOf(w: World): InFlight.Traffic { InFlight.Traffic(w.shared.inFlight, InsideOf(w.calls)) }

  /** The in-flight map holds, for every account, exactly the number of calls inside an attempt on it, and no zero. */
  ghost predicate Exact(w: World) { InFlight.Exact(TrafficOf(w)) }

  lemma InsideWith(w: World, call: nat, next: (Shared, CallState))
    ensures InsideOf(With(w, call, next).calls)
            == (if next.1.phase.Inside? then (InsideOf(w.calls) - {call})[call := next.1.phase.id]
                else InsideOf(w.calls) - {call})
  {
    var v := With(w, call, next);
    var outside := InsideOf(w.calls) - {call};
    if next.1.phase.Inside? {
      assert InsideOf(v.calls) == outside[call := next.1.phase.id];
    } else {
      assert InsideOf(v.calls) == outside;
    }
  }

  /** A call that was outside is put where the loop has taken it. */
  lemma ResumedIsExact(w: World, call: nat, shared: Shared, c: CallState, glances: nat -> Glance)
    requires InFlight.Exact(InFlight.Traffic(shared.inFlight, InsideOf(w.calls) - {call}))
    requires !c.phase.Inside?
    ensures Exact(With(w, call, Resume(shared, c, glances)))
  {
    hide Advance, InFlight.Exact, InFlight.Enter;
    var next := Resume(shared, c, glances);
    var outside := InsideOf(w.calls) - {call};
    InsideWith(w, call, next);
    if c.s.pos <= |c.s.order| && next.1.phase.Inside? {
      InFlight.EnteringIsExact(InFlight.Traffic(shared.inFlight, outside), call, next.1.phase.id);
    }
  }

  lemma OpenedIsExact(w: World, call: nat, ids: seq<string>, rule: Option<seq<string>>, glances: nat -> Glance)
    requires Exact(w) && call !in w.calls
    ensures Exact(With(w, call, Opened(w.shared, ids, rule, glances)))
  {
    hide Resume, InFlight.Exact, StartOrder;
    assert InsideOf(w.calls) - {call} == InsideOf(w.calls);
    if ids != [] && !(forall i :: 0 <= i < |ids| ==> ids[i] in glances(0).off) {
      var start := StartOrder(ids, rule, w.shared.cursor, w.shared.inFlight);
      ResumedIsExact(w, call, w.shared, CallState(ids, rule.Some?, start, StartSearch(start), Sleeping), glances);
    } else {
      InsideWith(w, call, Opened(w.shared, ids, rule, glances));
    }
  }

  lemma AttemptLeaves(shared: Shared, ids: seq<string>, order: seq<string>, id: string, answer: Answer)
    ensures EndAttempt(shared, ids, order, id, answer).0.inFlight == InFlight.Leave(shared.inFlight, id)
  {
    hide InFlight.Leave, SetCooldown, OtherUsable;
  }

  lemma ConcludedIsExact(w: World, call: nat, answer: Answer, glances: nat -> Glance)
    requires Exact(w) && call in w.calls && w.calls[call].phase.Inside?
    requires w.calls[call].s.pos <= |w.calls[call].s.order|
    ensures Exact(With(w, call, Concluded(w.shared, w.calls[call], answer, glances)))
  {
    hide Resume, InFlight.Exact, EndAttempt, InFlight.Leave;
    var c := w.calls[call];
    var id := c.phase.id;
    AttemptLeaves(w.shared, c.ids, c.s.order, id, answer);
    assert call in InsideOf(w.calls) && InsideOf(w.calls)[call] == id;
    InFlight.LeavingIsExact(TrafficOf(w), call);
    var (left, ending) := EndAttempt(w.shared, c.ids, c.s.order, id, answer);
    if ending.Some? {
      InsideWith(w, call, Concluded(w.shared, c, answer, glances));
    } else {
      SamePhase(w, call, left, c, glances);
    }
  }

  /** Where a call stands does not matter when its loop goes on. */
  lemma SamePhase(w: World, call: nat, shared: Shared, c: CallState, glances: nat -> Glance)
    requires InFlight.Exact(InFlight.Traffic(shared.inFlight, InsideOf(w.calls) - {call})) && c.s.pos <= |c.s.order|
    ensures Exact(With(w, call, Resume(shared, c, glances)))
  {
    ResumedIsExact(w, call, shared, c.(phase := Sleeping), glances);
    hide Advance, InFlight.Exact;
  }

  lemma PositionOf(c: CallState)
    requires CallInv(c)
    ensures c.s.pos <= |c.s.order|
  {}

  lemma StepIsExact(w: World, e: Event)
    requires Exact(w) && WorldInv(w)
    ensures Exact(Step(w, e))
  {
    hide Opened, Concluded, Resume, InFlight.Exact, CallInv;
    match e
    case Opens(call, ids, rule, glances) => if call !in w.calls { OpenedIsExact(w, call, ids, rule, glances); }
    case Answered(call, answer, glances) =>
      if call in w.calls && w.calls[call].phase.Inside? {
        PositionOf(w.calls[call]);
        ConcludedIsExact(w, call, answer, glances);
      }
    case Wakes(call, aborted, glances) =>
      if call in w.calls && w.calls[call].phase.Sleeping? {
        assert InsideOf(w.calls) - {call} == InsideOf(w.calls);
        if aborted {
          assert InsideOf(Step(w, e).calls) == InsideOf(w.calls);
        } else {
          ResumedIsExact(w, call, w.shared, w.calls[call], glances);
        }
      }
    case Expires(ids, now) =>
  }

  /** Over every run of any number of calls, the in-flight map is exactly the number of calls inside an attempt per
      account, and holds no zero. */
  lemma {:induction false} CountsExactly(w: World, events: seq<Event>)
    requires Exact(w) && WorldInv(w)
    ensures Exact(Run(w, events))
    decreases |events|
  {
    hide Step, Exact, WorldInv;
    if events != [] {
      StepIsExact(w, events[0]);
      StepKeepsCalls(w, events[0]);
      CountsExactly(Step(w, events[0]), events[1..]);
    }
  }

  lemma EmptyIsExact()
    ensures Exact(Empty) && WorldInv(Empty)
  {
    assert InsideOf(map[]) == map[];
    forall id ensures InFlight.CallsInside(map[], id) == {} {}
  }

  // ---------------------------------------------------------------- each call by itself

  /** The call has gone through all its accounts. */
  predicate Exhausting(ending: Ending) {
    ending.AllFailed? || ending.RetryIn? || ending.ParkedUntilReset? || ending.NothingUsable?
  }

  /** The order of a started call is a permutation of its accounts; its visits are a beginning of what the order has
      become, and say how it ends. */
  ghost predicate Sound(c: CallState) {
    && c.s.pos == |c.s.visits| && c.s.pos <= |c.s.order| && Noted(c.s)
    && (!c.priority ==> c.s.order == c.start)
    && (c.phase.Inside? ==> c.s.visits != [] && c.s.visits[|c.s.visits| - 1] == Visit(c.phase.id, Free))
    && (c.phase.Over? && Exhausting(c.phase.ending) && c.start != [] ==> c.s.pos == |c.s.order|)
    && (c.phase.Over? && c.phase.ending.RetryIn? ==> RetriesExactly(c.s, c.phase.ending.ms, c.phase.ending.at))
  }

  ghost predicate Covers(c: CallState) {
    && Orderly(c.start, c.s)
    && (c.start != [] ==> Distinct(c.start) && forall x :: x in c.start <==> x in c.ids)
  }

  ghost predicate CallInv(c: CallState) { Sound(c) && (Distinct(c.ids) ==> Covers(c)) }

  ghost predicate WorldInv(w: World) { forall call :: call in w.calls ==> CallInv(w.calls[call]) }

  lemma ResumeIsSound(shared: Shared, c: CallState, glances: nat -> Glance)
    requires Sound(c)
    ensures Sound(Resume(shared, c, glances).1)
  {
    hide Noted, RetriesExactly, Exhausted, Advance;
    AdvanceEnds(shared, c.s, c.priority, glances);
    AdvanceNotes(shared, c.s, c.priority, glances);
    if !c.priority { AutomaticKeepsOrder(shared, c.s, glances); }
    var (s, phase) := Advance(shared, c.s, c.priority, glances);
    if phase.Over? {
      EndingIsExhausting(s, glances(s.pos));
      if phase.ending.RetryIn? { RetryIsExact(s, glances(s.pos)); }
    }
  }

  lemma EndingIsExhausting(s: Search, g: Glance)
    ensures Exhausting(Exhausted(s, g))
  {}

  lemma ResumeCovers(shared: Shared, c: CallState, glances: nat -> Glance)
    requires Sound(c) && Covers(c)
    ensures Covers(Resume(shared, c, glances).1)
  {
    hide Noted, RetriesExactly, Orderly, Advance;
    AdvanceIsOrderly(c.start, shared, c.s, c.priority, glances);
  }

  lemma ResumeKeepsCall(shared: Shared, c: CallState, glances: nat -> Glance)
    requires CallInv(c)
    ensures CallInv(Resume(shared, c, glances).1) && Resume(shared, c, glances).1.ids == c.ids
  {
    ResumeIsSound(shared, c, glances);
    if Distinct(c.ids) { ResumeCovers(shared, c, glances); }
    hide Sound, Covers, Distinct, Advance;
  }

  lemma OpenedKeeps(shared: Shared, ids: seq<string>, rule: Option<seq<string>>, glances: nat -> Glance)
    ensures CallInv(Opened(shared, ids, rule, glances).1)
  {
    hide Resume, StartOrder;
    BlankCall(ids, rule);
    if ids != [] {
      var start := StartOrder(ids, rule, shared.cursor, shared.inFlight);
      StartedCall(shared, ids, rule);
      hide CallInv;
      ResumeKeepsCall(shared, CallState(ids, rule.Some?, start, StartSearch(start), Sleeping), glances);
    }
  }

  lemma BlankCall(ids: seq<string>, rule: Option<seq<string>>)
    ensures var blank := CallState(ids, rule.Some?, [], StartSearch([]), Over(NothingConfigured));
            CallInv(blank) && CallInv(blank.(phase := Over(NothingUsable)))
  {}

  lemma StartedCall(shared: Shared, ids: seq<string>, rule: Option<seq<string>>)
    requires ids != []
    ensures var start := StartOrder(ids, rule, shared.cursor, shared.inFlight);
            CallInv(CallState(ids, rule.Some?, start, StartSearch(start), Sleeping))
  {
    var start := StartOrder(ids, rule, shared.cursor, shared.inFlight);
    if Distinct(ids) {
      StartOrderIsPermutation(ids, rule, shared.cursor, shared.inFlight);
      StartIsOrderly(start);
    }
    StartNotes(start);
    hide StartOrder, Orderly, Noted, Distinct;
  }

  lemma ConcludedKeeps(shared: Shared, c: CallState, answer: Answer, glances: nat -> Glance)
    requires CallInv(c) && c.phase.Inside?
    ensures CallInv(Concluded(shared, c, answer, glances).1)
  {
    var (left, ending) := EndAttempt(shared, c.ids, c.s.order, c.phase.id, answer);
    assert ending.Some? ==> !Exhausting(ending.value);
    hide EndAttempt, Resume, Noted, Orderly, RetriesExactly, Distinct;
    if ending.None? { ResumeKeepsCall(left, c, glances); }
  }

  lemma AbortKeeps(c: CallState)
    requires CallInv(c)
    ensures CallInv(c.(phase := Over(AbortedWaiting)))
  {
    hide Noted, Orderly, Distinct;
  }

  lemma StepKeepsCalls(w: World, e: Event)
    requires WorldInv(w)
    ensures WorldInv(Step(w, e))
  {
    hide Opened, Concluded, Resume, CallInv;
    match e
    case Opens(call, ids, rule, glances) => OpenedKeeps(w.shared, ids, rule, glances);
    case Answered(call, answer, glances) =>
      if call in w.calls && w.calls[call].phase.Inside? { ConcludedKeeps(w.shared, w.calls[call], answer, glances); }
    case Wakes(call, aborted, glances) =>
      if call in w.calls {
        AbortKeeps(w.calls[call]);
        ResumeKeepsCall(w.shared, w.calls[call], glances);
      }
    case Expires(ids, now) =>
  }

  lemma {:induction false} RunKeepsCalls(w: World, events: seq<Event>)
    requires WorldInv(w)
    ensures WorldInv(Run(w, events))
    decreases |events|
  {
    hide Step, WorldInv;
    if events != [] {
      StepKeepsCalls(w, events[0]);
      RunKeepsCalls(Step(w, events[0]), events[1..]);
    }
  }

  /** Whatever other calls do in between, no call visits an account twice or one that is not configured, and a call that
      ends because nothing is left has visited every configured account. */
  lemma EachAccountOnce(events: seq<Event>, call: nat)
    requires call in Run(Empty, events).calls && Distinct(Run(Empty, events).calls[call].ids)
    ensures var c := Run(Empty, events).calls[call];
            var visited := Ids(c.s.visits);
            && Distinct(visited)
            && (forall x :: x in visited ==> x in c.ids)
            && (c.phase.Over? && Exhausting(c.phase.ending) && c.start != [] ==>
                  forall x :: x in c.ids ==> x in visited)
  {
    hide Run, Orderly, Noted, RetriesExactly;
    EmptyIsExact();
    hide WorldInv;
    RunKeepsCalls(Empty, events);
    var c := Run(Empty, events).calls[call];
    CallOf(Run(Empty, events), call);
    OrderlyVisits(c.start, c.s);
    hide Distinct;
  }

  lemma CallOf(w: World, call: nat)
    requires WorldInv(w) && call in w.calls
    ensures CallInv(w.calls[call])
  {
    hide CallInv;
  }

  /** Over every run, a call that ends with a retry time names the second after the earliest cooldown it met. */
  lemma RetryTimeIsExact(events: seq<Event>, call: nat)
    requires call in Run(Empty, events).calls
    requires var c := Run(Empty, events).calls[call]; c.phase.Over? && c.phase.ending.RetryIn?
    ensures var c := Run(Empty, events).calls[call]; RetriesExactly(c.s, c.phase.ending.ms, c.phase.ending.at)
  {
    hide Run, Noted, RetriesExactly, Covers;
    EmptyIsExact();
    hide WorldInv;
    RunKeepsCalls(Empty, events);
    CallOf(Run(Empty, events), call);
  }

  /** So an attempt after that time, with the skipped accounts switched on and no later cooldown on them, finds one of
      them usable. */
  lemma RetryFindsAnAccount(events: seq<Event>, call: nat, later: Sight)
    requires call in Run(Empty, events).calls
    requires var c := Run(Empty, events).calls[call];
             c.phase.Over? && c.phase.ending.RetryIn? && later.now >= c.phase.ending.at + c.phase.ending.ms
    requires var visits := Run(Empty, events).calls[call].s.visits;
             forall i :: 0 <= i < |visits| && visits[i].block.Cooling? ==>
               && visits[i].id !in later.off
               && (visits[i].id in later.cooldowns ==> later.cooldowns[visits[i].id].until <= visits[i].block.until)
    ensures var visits := Run(Empty, events).calls[call].s.visits;
            exists i :: 0 <= i < |visits| && visits[i].block.Cooling? && IsFree(later, visits[i].id)
  {
    hide Run, RetriesExactly, IsFree;
    RetryTimeIsExact(events, call);
    var c := Run(Empty, events).calls[call];
    RetryMeetsAnAccount(c.s, c.phase.ending.ms, c.phase.ending.at, later);
  }

  // ---------------------------------------------------------------- overlapping calls

  /** An automatic call of these accounts that sees exactly these usable, at each look. */
  ghost predicate OpensOver(w: World, e: Event, ids: seq<string>, usable: set<string>) {
    && e.Opens? && e.ids == ids && e.rule == None && e.call !in w.calls
    && forall k: nat, i :: 0 <= i < |ids| ==> (IsFree(SightOf(w.shared, e.glances(k)), ids[i]) <==> ids[i] in usable)
  }

  lemma OrderIsFixed(shared: Shared, ids: seq<string>, glances: nat -> Glance, usable: set<string>)
    requires ids != []
    requires forall k: nat, i :: 0 <= i < |ids| ==> (IsFree(SightOf(shared, glances(k)), ids[i]) <==> ids[i] in usable)
    ensures Fixed(shared, StartOrder(ids, None, shared.cursor, shared.inFlight), glances, usable)
  {
    var c := CursorOrder(ids, shared.cursor);
    var order := ByDepth(c, shared.inFlight);
    CursorOrderMembers(ids, shared.cursor);
    ByDepthIsStableSort(c, shared.inFlight);
    hide ByDepth, CursorOrder, IsFree, SortedByDepth, InFlight.WithDepth;
    forall i | 0 <= i < |order| ensures order[i] in ids { assert order[i] in order; }
  }

  /** Such a call goes straight into an attempt on the first usable account of its order, a least busy one. */
  lemma OpeningEnters(w: World, e: Event, ids: seq<string>, usable: set<string>)
    requires OpensOver(w, e, ids, usable) && Usable(ids, usable) != []
    ensures e.Opens? && e.call in Step(w, e).calls && Step(w, e).calls[e.call].phase.Inside?
    ensures var id := Step(w, e).calls[e.call].phase.id;
            && Some(id) == FirstUsable(StartOrder(ids, None, w.shared.cursor, w.shared.inFlight), usable)
            && InFlight.LeastBusy(w.shared.inFlight, Usable(ids, usable), id)
            && Step(w, e) == World(w.shared.(inFlight := InFlight.Enter(w.shared.inFlight, id)),
                                   w.calls[e.call := Step(w, e).calls[e.call]])
  {
    var order := StartOrder(ids, None, w.shared.cursor, w.shared.inFlight);
    NotAllOff(w.shared, ids, e.glances(0), usable);
    OrderIsFixed(w.shared, ids, e.glances, usable);
    AdvanceFindsFirst(w.shared, StartSearch(order), e.glances, usable);
    FirstOfOrderIsLeastBusy(ids, w.shared.cursor, usable, w.shared.inFlight);
    assert order[0..] == order;
    hide StartOrder, Advance, FirstUsable, IsFree, Usable, Fixed, InFlight.LeastBusy, InFlight.Enter;
  }

  lemma NotAllOff(shared: Shared, ids: seq<string>, g: Glance, usable: set<string>)
    requires Usable(ids, usable) != []
    requires forall i :: 0 <= i < |ids| ==> (IsFree(SightOf(shared, g), ids[i]) <==> ids[i] in usable)
    ensures exists i :: 0 <= i < |ids| && ids[i] !in g.off
  {
    UsableMembers(ids, usable);
    var list := Usable(ids, usable);
    hide Usable;
    assert list[0] in list;
    var i :| 0 <= i < |ids| && ids[i] == list[0];
    assert IsFree(SightOf(shared, g), ids[i]);
  }

  /** All these events open automatic calls over the same usable accounts. */
  ghost predicate AllOpenOver(w: World, events: seq<Event>, ids: seq<string>, usable: set<string>)
    decreases |events|
  {
    events == [] || (OpensOver(w, events[0], ids, usable) && AllOpenOver(Step(w, events[0]), events[1..], ids, usable))
  }

  /** Automatic calls that overlap before any finishes load equally usable accounts, equally loaded before, within one
      of each other. */
  lemma {:induction false} OverlappingCallsSpread(w: World, events: seq<Event>, ids: seq<string>, usable: set<string>)
    requires Usable(ids, usable) != [] && InFlight.Balanced(w.shared.inFlight, Usable(ids, usable))
    requires AllOpenOver(w, events, ids, usable)
    ensures InFlight.Balanced(Run(w, events).shared.inFlight, Usable(ids, usable))
    decreases |events|
  {
    hide Step, Usable, OpensOver, InFlight.Balanced, InFlight.LeastBusy, InFlight.Enter;
    if events != [] {
      OpeningEnters(w, events[0], ids, usable);
      InFlight.StartBalances(w.shared.inFlight, Usable(ids, usable), Step(w, events[0]).calls[events[0].call].phase.id);
      OverlappingCallsSpread(Step(w, events[0]), events[1..], ids, usable);
    }
  }

  // ---------------------------------------------------------------- batches

  /** The world after k calls one after the other, each answered with the link by its first account. */
  function AfterServed(ids: seq<string>, glances: nat -> nat -> Glance, k: nat): World {
    if k == 0 then Empty
    else
      var w := AfterServed(ids, glances, k - 1);
      Step(Step(w, Opens(k - 1, ids, None, glances(k - 1))), Answered(k - 1, Served, glances(k - 1)))
  }

  ghost predicate InBatch(w: World, n: nat, k: nat)
    requires n > 0
  {
    && w.shared.cooldowns == map[] && w.shared.inFlight == map[]
    && w.shared.cursor % n == (k / 25) % n && w.shared.stickyCount == k % 25
    && forall call :: call in w.calls ==> call < k
  }

  /** No account is ever switched off or over its limit. */
  ghost predicate NoneOff(ids: seq<string>, glances: nat -> nat -> Glance) {
    forall c: nat, k: nat, i :: 0 <= i < |ids| ==> ids[i] !in glances(c)(k).off
  }

  lemma OpensOverAll(w: World, ids: seq<string>, glances: nat -> nat -> Glance, k: nat)
    requires NoneOff(ids, glances) && w.shared.cooldowns == map[] && k !in w.calls
    ensures OpensOver(w, Opens(k, ids, None, glances(k)), ids, set i | 0 <= i < |ids| :: ids[i])
  {}

  lemma {:induction false} AllUsable(ids: seq<string>, usable: set<string>)
    requires forall i :: 0 <= i < |ids| ==> ids[i] in usable
    ensures Usable(ids, usable) == ids
  {
    if ids != [] {
      AllUsable(ids[..|ids| - 1], usable);
      assert ids == ids[..|ids| - 1] + [ids[|ids| - 1]];
    }
  }

  /** The k-th call enters the account at the cursor. */
  lemma NextOpens(w: World, ids: seq<string>, glances: nat -> nat -> Glance, k: nat)
    requires ids != [] && Distinct(ids) && NoneOff(ids, glances) && InBatch(w, |ids|, k)
    ensures var v := Step(w, Opens(k, ids, None, glances(k)));
            && k in v.calls && v.calls[k].phase == Inside(ids[(k / 25) % |ids|]) && v.calls[k].ids == ids
            && v == World(w.shared.(inFlight := InFlight.Enter(w.shared.inFlight, ids[(k / 25) % |ids|])),
                          w.calls[k := v.calls[k]])
  {
    hide OpensOver, Usable, StartOrder, NoneOff, Step, FirstUsable;
    var e := Opens(k, ids, None, glances(k));
    var usable := set i | 0 <= i < |ids| :: ids[i];
    AllUsable(ids, usable);
    OpensOverAll(w, ids, glances, k);
    CursorComesFirst(w.shared, ids, usable);
    OpenedIds(w, e);
    hide InBatch, Distinct;
    OpeningEnters(w, e, ids, usable);
  }

  lemma CursorComesFirst(shared: Shared, ids: seq<string>, usable: set<string>)
    requires ids != [] && shared.inFlight == map[] && forall i :: 0 <= i < |ids| ==> ids[i] in usable
    ensures FirstUsable(StartOrder(ids, None, shared.cursor, shared.inFlight), usable)
            == Some(ids[shared.cursor % |ids|])
  {
    hide StartOrder;
    IdleOrderIsCursorOrder(ids, shared.cursor, shared.inFlight);
    assert Rotation(ids, shared.cursor % |ids|)[0] == ids[shared.cursor % |ids|];
  }

  lemma OpenedIds(w: World, e: Event)
    requires e.Opens? && e.call !in w.calls
    ensures Step(w, e).calls[e.call].ids == e.ids
  {
    hide Advance, StartOrder;
  }

  lemma ServedState(shared: Shared, ids: seq<string>, order: seq<string>, j: nat, k: nat, before: map<string, nat>)
    requires Distinct(ids) && j < |ids| && shared.cooldowns == map[] && before == map[]
    requires shared.inFlight == InFlight.Enter(before, ids[j]) && shared.stickyCount == k % 25 && j == (k / 25) % |ids|
    ensures var left := EndAttempt(shared, ids, order, ids[j], Served).0;
            && left.cooldowns == map[] && left.inFlight == map[]
            && left.cursor % |ids| == ((k + 1) / 25) % |ids| && left.stickyCount == (k + 1) % 25
  {
    IndexOfDistinct(ids, j);
    hide IndexIn;
    Twice(k / 25, |ids|);
    NextSlot(k / 25, |ids|);
    assert (k + 1) % 25 == 0 ==> (k + 1) / 25 == k / 25 + 1 && k % 25 == 24;
    assert (k + 1) % 25 != 0 ==> (k + 1) / 25 == k / 25 && (k + 1) % 25 == k % 25 + 1;
  }

  lemma KthCall(w: World, ids: seq<string>, glances: nat -> nat -> Glance, k: nat)
    requires ids != [] && Distinct(ids) && NoneOff(ids, glances) && InBatch(w, |ids|, k)
    ensures var v := Step(Step(w, Opens(k, ids, None, glances(k))), Answered(k, Served, glances(k)));
            && InBatch(v, |ids|, k + 1) && k in v.calls && v.calls[k].phase == Over(Done(ids[(k / 25) % |ids|]))
  {
    NextOpens(w, ids, glances, k);
    var j := (k / 25) % |ids|;
    var u := Step(w, Opens(k, ids, None, glances(k)));
    assert w.shared.stickyCount == k % 25;
    ServedState(u.shared, ids, u.calls[k].s.order, j, k, w.shared.inFlight);
    ServedEnds(u, k, glances(k), ids[j]);
    hide Step, EndAttempt, NoneOff, InFlight.Enter;
  }

  lemma ServedEnds(u: World, k: nat, glances: nat -> Glance, id: string)
    requires k in u.calls && u.calls[k].phase == Inside(id)
    ensures var c := u.calls[k];
            Step(u, Answered(k, Served, glances))
            == World(EndAttempt(u.shared, c.ids, c.s.order, id, Served).0, u.calls[k := c.(phase := Over(Done(id)))])
  {
    hide InFlight.Leave, IndexIn;
  }

  lemma {:induction false} BatchesKeep(ids: seq<string>, glances: nat -> nat -> Glance, k: nat)
    requires ids != [] && Distinct(ids) && NoneOff(ids, glances)
    ensures InBatch(AfterServed(ids, glances, k), |ids|, k)
  {
    hide Step, NoneOff, InBatch, Distinct;
    if k > 0 {
      BatchesKeep(ids, glances, k - 1);
      KthCall(AfterServed(ids, glances, k - 1), ids, glances, k - 1);
    } else {
      FreshBatch(|ids|);
    }
  }

  lemma FreshBatch(n: nat)
    requires n > 0
    ensures InBatch(Empty, n, 0)
  {}

  /** Twenty-five links each, round and round: of automatic calls one after the other from a reset, with every account
      usable and every attempt served, the k-th is served by account k / 25 modulo their number. */
  lemma BatchesOfTwentyFive(ids: seq<string>, glances: nat -> nat -> Glance, k: nat)
    requires ids != [] && Distinct(ids) && NoneOff(ids, glances)
    ensures var w := AfterServed(ids, glances, k + 1);
            k in w.calls && w.calls[k].phase == Over(Done(ids[(k / 25) % |ids|]))
  {
    hide Step, NoneOff, InBatch, Distinct;
    BatchesKeep(ids, glances, k);
    KthCall(AfterServed(ids, glances, k), ids, glances, k);
  }
}
