/** How Mega-Debrid calls wait and end (src/main/debrid.ts:2340-2446, 2458-2621). */
module MegaDebridEndings {
  import opened Common
  import opened Lists
  import opened AccountRules
  import InFlight
  import opened MegaDebridModel
  import opened MegaDebridTheorems
  import opened MegaDebridWorld
  import opened MegaDebridParking
  import opened MegaDebridCooldowns

  // ---------------------------------------------------------------- by an answer

  /** The call is over after going through all its accounts, or goes on. */
  predicate GoesOn(phase: Phase) { phase.Over? ==> Exhausting(phase.ending) }

  /** A link ends its call with it.  An abort ends its call too, as a slow link if the attempt ran long and no other
      account could take over.  So does a fatal failure; any other lets the loop go on. */
  lemma AnswerEnds(w: World, e: Event, id: string)
    requires WorldInv(w) && AnswerOn(w, e, id).Some?
    ensures e.call in Step(w, e).calls
    ensures var phase := Step(w, e).calls[e.call].phase;
            if e.answer.Served? then phase == Over(Done(id))
            else if e.answer.Aborted? then
              phase == Over(if e.answer.ranLong && !AnotherFree(w, w.calls[e.call], id, e.answer.g) then SlowLink(id)
                            else Thrown(id))
            else if e.answer.fatal then phase == Over(Thrown(id))
            else GoesOn(phase)
  {
    hide Resume, InFlight.Leave, SetCooldown, OtherUsable, AnotherFree, CallInv, IndexIn;
    if e.answer.Aborted? { AnotherIsUsable(w, w.calls[e.call], id, e.answer.g); }
    CallOf(w, e.call);
    PositionOf(w.calls[e.call]);
    ResumeGoesOn(EndAttempt(w.shared, w.calls[e.call].ids, w.calls[e.call].s.order, id, e.answer).0, w.calls[e.call],
                 e.glances);
  }

  lemma ResumeGoesOn(shared: Shared, c: CallState, glances: nat -> Glance)
    requires c.s.pos <= |c.s.order|
    ensures GoesOn(Resume(shared, c, glances).1.phase)
  {
    hide Exhausted, Turned;
    AdvanceGoesOn(shared, c.s, c.priority, glances);
    hide Advance;
  }

  lemma {:induction false} AdvanceGoesOn(shared: Shared, s: Search, priority: bool, glances: nat -> Glance)
    requires s.pos <= |s.order|
    ensures GoesOn(Advance(shared, s, priority, glances).1)
    decreases |s.order| - s.pos
  {
    hide Exhausted, Turned;
    if s.pos < |s.order| {
      var t := SightOf(shared, glances(s.pos));
      TurnedMovesOn(s, priority, t);
      if Turned(s, priority, t).Skipped? { AdvanceGoesOn(shared, Turned(s, priority, t).s, priority, glances); }
    } else {
      EndingIsExhausting(s, glances(s.pos));
    }
  }

  // ---------------------------------------------------------------- without an answer

  ghost predicate SomeTried(visits: seq<Visit>) { exists i :: 0 <= i < |visits| && visits[i].block == Free }

  /** A temporary cooldown was met, and each that was met still runs at this time. */
  ghost predicate AllRunning(visits: seq<Visit>, now: int) {
    && (exists i :: 0 <= i < |visits| && visits[i].block.Cooling? && !visits[i].block.parked)
    && (forall i :: 0 <= i < |visits| && visits[i].block.Cooling? && !visits[i].block.parked ==>
          visits[i].block.until > now)
  }

  ghost predicate ParkMet(visits: seq<Visit>) {
    exists i :: 0 <= i < |visits| && visits[i].block.Cooling? && visits[i].block.parked
  }

  /** The ending that the visits call for: failed if an account was tried; else to be retried when the first of the
      temporary cooldowns ends, if they all still run; else parked until a second after the next midnight, two minutes
      at least, if a parked account was met; else nothing was usable. */
  ghost predicate EndsAs(visits: seq<Visit>, ending: Ending, g: Glance) {
    if SomeTried(visits) then ending == AllFailed
    else if AllRunning(visits, g.now) then ending.RetryIn? && ending.at == g.now
    else if ParkMet(visits) then
      ending == ParkedUntilReset(1000 + if g.midnight - g.now < 120_000 then 120_000 else g.midnight - g.now)
    else ending == NothingUsable
  }

  lemma ExhaustedEndsAs(s: Search, g: Glance)
    requires Noted(s)
    ensures EndsAs(s.visits, Exhausted(s, g), g)
  {
    if s.earliest != 0 {
      var i :| 0 <= i < |s.visits| && s.visits[i].block == Cooling(s.earliest, false);
    }
    UsableIsTried(s.visits);
    hide UsableSeen, SomeTried;
  }

  lemma UsableIsTried(visits: seq<Visit>)
    ensures UsableSeen(visits) <==> SomeTried(visits)
  {}

  /** A call that went through all its accounts has ended as its visits call for, at some glance at the clock. */
  ghost predicate EndedRightly(c: CallState) {
    c.phase.Over? && Exhausting(c.phase.ending) && c.start != [] ==> exists g :: EndsAs(c.s.visits, c.phase.ending, g)
  }

  lemma ResumeEndsRightly(shared: Shared, c: CallState, glances: nat -> Glance)
    requires Noted(c.s) && c.s.pos <= |c.s.order| && c.s.pos == |c.s.visits|
    ensures EndedRightly(Resume(shared, c, glances).1)
  {
    hide Noted, Exhausted, EndsAs;
    AdvanceEnds(shared, c.s, c.priority, glances);
    AdvanceNotes(shared, c.s, c.priority, glances);
    hide Advance, CallInv;
    var (s, phase) := Advance(shared, c.s, c.priority, glances);
    if phase.Over? { ExhaustedEndsAs(s, glances(s.pos)); }
  }

  ghost predicate AllEndedRightly(w: World) { forall call :: call in w.calls ==> EndedRightly(w.calls[call]) }

  lemma SearchOf(c: CallState)
    requires CallInv(c)
    ensures Noted(c.s) && c.s.pos <= |c.s.order| && c.s.pos == |c.s.visits|
  {
    hide Noted, RetriesExactly, Covers;
  }

  lemma OpenedEndsRightly(shared: Shared, ids: seq<string>, rule: Option<seq<string>>, glances: nat -> Glance)
    ensures EndedRightly(Opened(shared, ids, rule, glances).1)
  {
    hide Resume, StartOrder, EndsAs, Noted;
    if ids != [] {
      var start := StartOrder(ids, rule, shared.cursor, shared.inFlight);
      StartNotes(start);
      ResumeEndsRightly(shared, CallState(ids, rule.Some?, start, StartSearch(start), Sleeping), glances);
    }
  }

  lemma ConcludedEndsRightly(shared: Shared, c: CallState, answer: Answer, glances: nat -> Glance)
    requires CallInv(c) && c.phase.Inside?
    ensures EndedRightly(Concluded(shared, c, answer, glances).1)
  {
    SearchOf(c);
    var (left, ending) := EndAttempt(shared, c.ids, c.s.order, c.phase.id, answer);
    assert ending.Some? ==> !Exhausting(ending.value);
    hide EndAttempt, Resume, CallInv, EndsAs, Noted;
    if ending.None? { ResumeEndsRightly(left, c, glances); }
  }

  lemma StepEndsRightly(w: World, e: Event)
    requires WorldInv(w) && AllEndedRightly(w)
    ensures AllEndedRightly(Step(w, e))
  {
    hide Opened, Concluded, Resume, CallInv, EndsAs, Noted;
    match e
    case Opens(call, ids, rule, glances) => OpenedEndsRightly(w.shared, ids, rule, glances);
    case Answered(call, answer, glances) =>
      if call in w.calls && w.calls[call].phase.Inside? {
        ConcludedEndsRightly(w.shared, w.calls[call], answer, glances);
      }
    case Wakes(call, aborted, glances) =>
      if call in w.calls && w.calls[call].phase.Sleeping? {
        SearchOf(w.calls[call]);
        ResumeEndsRightly(w.shared, w.calls[call], glances);
      }
    case Expires(ids, now) =>
  }

  lemma {:induction false} RunEndsRightly(w: World, events: seq<Event>)
    requires WorldInv(w) && AllEndedRightly(w)
    ensures AllEndedRightly(Run(w, events))
    decreases |events|
  {
    hide Step, WorldInv, AllEndedRightly;
    if events != [] {
      StepKeepsCalls(w, events[0]);
      StepEndsRightly(w, events[0]);
      RunEndsRightly(Step(w, events[0]), events[1..]);
    }
  }

  /** Over every run, a call that has gone through all its accounts has ended as the accounts it met call for. */
  lemma CallsEndRightly(events: seq<Event>, call: nat)
    requires call in Run(Empty, events).calls
    ensures EndedRightly(Run(Empty, events).calls[call])
  {
    hide Run, EndedRightly;
    EmptyIsExact();
    RunEndsRightly(Empty, events);
  }

  // ---------------------------------------------------------------- opening, waiting and waking

  /** Without accounts, or with all of them switched off or over their limit, a call is over at once. */
  lemma NothingToTry(w: World, e: Event)
    requires e.Opens? && e.call !in w.calls
    requires e.ids == [] || forall i :: 0 <= i < |e.ids| ==> e.ids[i] in e.glances(0).off
    ensures Step(w, e).shared == w.shared && e.call in Step(w, e).calls
    ensures Step(w, e).calls[e.call].phase == Over(if e.ids == [] then NothingConfigured else NothingUsable)
    ensures Step(w, e).calls[e.call].s.visits == []
  {
    hide Resume, StartOrder;
  }

  /** A call by rule takes its accounts in the order of the rule, and those it does not list after them in their own. */
  lemma RuleDecidesOrder(w: World, e: Event, x: string, y: string)
    requires e.Opens? && e.call !in w.calls && e.rule.Some? && Distinct(e.ids)
    requires x in e.ids && y in e.ids && x != y && exists i :: 0 <= i < |e.ids| && e.ids[i] !in e.glances(0).off
    ensures e.call in Step(w, e).calls
    ensures var c := Step(w, e).calls[e.call];
            && c.priority && x in c.start && y in c.start
            && (Before(c.start, x, y) <==> if x in e.rule.value && y in e.rule.value then Before(e.rule.value, x, y)
                                           else if x !in e.rule.value && y !in e.rule.value then Before(e.ids, x, y)
                                           else x in e.rule.value)
  {
    hide Advance, Ordered, Before, IndexIn;
    OrderedByRule(e.rule.value, e.ids, x, y);
  }

  /** A turn waits exactly if the call goes by rule, some account it has not visited yet is free, and each of those that
      are is busy. */
  lemma WaitsExactly(s: Search, priority: bool, t: Sight)
    requires s.pos < |s.order|
    ensures Turned(s, priority, t).Busy?
            <==> && priority
                 && (exists i :: s.pos <= i < |s.order| && IsFree(t, s.order[i]))
                 && (forall i :: s.pos <= i < |s.order| && IsFree(t, s.order[i]) ==>
                       InFlight.Depth(t.inFlight, s.order[i]) > 0)
  {
    hide IsFree, MoveTo, BlockOf, InFlight.Depth;
    var k := FirstIdle(s.order, s.pos, t);
  }

  /** An abort ends a waiting call, and changes nothing else. */
  lemma AbortedWhileWaiting(w: World, call: nat, glances: nat -> Glance)
    requires call in w.calls && w.calls[call].phase.Sleeping?
    ensures Step(w, Wakes(call, true, glances)).shared == w.shared
    ensures Step(w, Wakes(call, true, glances)).calls
            == w.calls[call := w.calls[call].(phase := Over(AbortedWaiting))]
  {}

  /** A waiting call that finds the account it waits for idle goes into an attempt on it: the first free and idle one in
      the rule's order of those it has not visited. */
  lemma WakingFindsIdle(w: World, call: nat, glances: nat -> Glance, k: nat)
    requires WorldInv(w) && call in w.calls && w.calls[call].phase.Sleeping? && w.calls[call].priority
    requires var s := w.calls[call].s;
             var t := SightOf(w.shared, glances(s.pos));
             && s.pos <= k < |s.order| && IsFree(t, s.order[k]) && InFlight.Depth(t.inFlight, s.order[k]) == 0
             && forall j :: s.pos <= j < k ==> !(IsFree(t, s.order[j]) && InFlight.Depth(t.inFlight, s.order[j]) == 0)
    ensures call in Step(w, Wakes(call, false, glances)).calls
    ensures var v := Step(w, Wakes(call, false, glances));
            var id := w.calls[call].s.order[k];
            v.calls[call].phase == Inside(id)
            && v == World(w.shared.(inFlight := InFlight.Enter(w.shared.inFlight, id)),
                          w.calls[call := v.calls[call]])
  {
    var c := w.calls[call];
    CallOf(w, call);
    PositionOf(c);
    hide CallInv, InFlight.Depth, InFlight.Enter, Exhausted, IsFree;
    var t := SightOf(w.shared, glances(c.s.pos));
    assert FirstIdle(c.s.order, c.s.pos, t) == k;
    TurnedMovesOn(c.s, true, t);
    MovedLook(c.s, t, k);
  }

  lemma MovedLook(s: Search, t: Sight, k: nat)
    requires s.pos <= k < |s.order| && IsFree(t, s.order[k])
    ensures Look(s.(order := MoveTo(s.order, k, s.pos)), t).Attempts?
    ensures Look(s.(order := MoveTo(s.order, k, s.pos)), t).id == s.order[k]
  {}
}
