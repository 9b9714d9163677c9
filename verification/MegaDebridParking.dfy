/** Limit signals, streaks and parked Mega-Debrid accounts over runs of overlapping calls (src/main/debrid.ts:313-341,
    402-433, 2485-2567). */
module MegaDebridParking {
  import opened Common
  import InFlight
  import opened MegaDebridModel
  import opened MegaDebridTheorems
  import opened MegaDebridWorld

  function StreakOf(w: World, id: string): nat { if id in w.shared.streaks then w.shared.streaks[id] else 0 }

  predicate Parked(w: World, id: string) { id in w.shared.cooldowns && w.shared.cooldowns[id].parked }

  /** The answer that an event gives to an attempt on the account, if it gives one. */
  function AnswerOn(w: World, e: Event, id: string): Option<Answer> {
    if e.Answered? && e.call in w.calls && w.calls[e.call].phase == Inside(id) then Some(e.answer) else None
  }

  /** Going on with the loop changes neither cooldowns nor streaks. */
  lemma ResumeKeepsMarks(shared: Shared, c: CallState, glances: nat -> Glance)
    ensures Resume(shared, c, glances).0.cooldowns == shared.cooldowns
    ensures Resume(shared, c, glances).0.streaks == shared.streaks
  {
    hide Advance;
  }

  /** Cooldowns and streaks change only by an answer, and cooldowns by running out. */
  lemma StepMarks(w: World, e: Event)
    ensures var v := Step(w, e);
            if e.Answered? && e.call in w.calls && w.calls[e.call].phase.Inside? then
              var c := w.calls[e.call];
              var left := EndAttempt(w.shared, c.ids, c.s.order, c.phase.id, e.answer).0;
              v.shared.cooldowns == left.cooldowns && v.shared.streaks == left.streaks
            else
              && v.shared.streaks == w.shared.streaks
              && v.shared.cooldowns
                 == if e.Expires? then Expired(w.shared, e.expired, e.now).cooldowns else w.shared.cooldowns
  {
    hide Resume, EndAttempt, StartOrder;
    match e
    case Opens(call, ids, rule, glances) =>
      if ids != [] {
        var start := StartOrder(ids, rule, w.shared.cursor, w.shared.inFlight);
        ResumeKeepsMarks(w.shared, CallState(ids, rule.Some?, start, StartSearch(start), Sleeping), glances);
      }
    case Answered(call, answer, glances) =>
      if call in w.calls && w.calls[call].phase.Inside? {
        var c := w.calls[call];
        ResumeKeepsMarks(EndAttempt(w.shared, c.ids, c.s.order, c.phase.id, answer).0, c, glances);
      }
    case Wakes(call, aborted, glances) => if call in w.calls { ResumeKeepsMarks(w.shared, w.calls[call], glances); }
    case Expires(ids, now) =>
  }

  // ---------------------------------------------------------------- the streak

  /** An answer ends the streak unless it is a limit signal, which lengthens it, or an abort, which says nothing. */
  function StreakAfter(streak: nat, answer: Answer): nat {
    match answer
    case Served => 0
    case Aborted(_, _) => streak
    case Failure(limitSignal, _, _, _, _) => if limitSignal then streak + 1 else 0
  }

  lemma StreakStep(w: World, e: Event, id: string)
    ensures StreakOf(Step(w, e), id)
            == if AnswerOn(w, e, id).Some? then StreakAfter(StreakOf(w, id), AnswerOn(w, e, id).value)
               else StreakOf(w, id)
  {
    StepMarks(w, e);
    hide Step, InFlight.Leave, SetCooldown, OtherUsable;
  }

  /** The answers to attempts on an account during a run, whichever calls made them. */
  function AnswersOn(w: World, events: seq<Event>, id: string): seq<Answer> {
    if events == [] then []
    else
      var init := events[..|events| - 1];
      var answer := AnswerOn(Run(w, init), events[|events| - 1], id);
      AnswersOn(w, init, id) + (if answer.Some? then [answer.value] else [])
  }

  /** How many limit signals the answers end with, aborted attempts left aside. */
  function SignalsAtEnd(answers: seq<Answer>): nat {
    if answers == [] then 0
    else
      match answers[|answers| - 1]
      case Aborted(_, _) => SignalsAtEnd(answers[..|answers| - 1])
      case Failure(limitSignal, _, _, _, _) => if limitSignal then 1 + SignalsAtEnd(answers[..|answers| - 1]) else 0
      case Served => 0
  }

  lemma {:induction false} RunSnoc(w: World, events: seq<Event>, e: Event)
    ensures Run(w, events + [e]) == Step(Run(w, events), e)
    decreases |events|
  {
    hide Step;
    if events != [] {
      assert (events + [e])[1..] == events[1..] + [e];
      RunSnoc(Step(w, events[0]), events[1..], e);
    } else {
      assert (events + [e])[1..] == [];
      assert Run(w, [e]) == Run(Step(w, e), []);
    }
  }

  lemma RunLast(w: World, events: seq<Event>)
    requires events != []
    ensures Run(w, events) == Step(Run(w, events[..|events| - 1]), events[|events| - 1])
  {
    hide Step, Run;
    assert events == events[..|events| - 1] + [events[|events| - 1]];
    RunSnoc(w, events[..|events| - 1], events[|events| - 1]);
  }

  lemma SignalsSnoc(answers: seq<Answer>, answer: Answer)
    ensures SignalsAtEnd(answers + [answer]) == StreakAfter(SignalsAtEnd(answers), answer)
  {
    assert (answers + [answer])[..|answers|] == answers;
  }

  lemma AnswersLast(w: World, events: seq<Event>, id: string)
    requires events != []
    ensures var init := events[..|events| - 1];
            var answer := AnswerOn(Run(w, init), events[|events| - 1], id);
            SignalsAtEnd(AnswersOn(w, events, id))
            == if answer.Some? then StreakAfter(SignalsAtEnd(AnswersOn(w, init, id)), answer.value)
               else SignalsAtEnd(AnswersOn(w, init, id))
  {
    hide Run, AnswerOn, SignalsAtEnd, StreakAfter;
    var init := events[..|events| - 1];
    var answer := AnswerOn(Run(w, init), events[|events| - 1], id);
    var before := AnswersOn(w, init, id);
    if answer.Some? { SignalsSnoc(before, answer.value); } else { assert before + [] == before; }
  }

  /** Over every run of any number of calls, the streak of an account is the number of limit signals in a row that the
      answers to its attempts end with. */
  lemma {:induction false} StreakCountsSignals(events: seq<Event>, id: string)
    ensures StreakOf(Run(Empty, events), id) == SignalsAtEnd(AnswersOn(Empty, events, id))
  {
    hide Step, Run, StreakOf, AnswerOn, AnswersOn, SignalsAtEnd, StreakAfter;
    if events != [] {
      var init, e := events[..|events| - 1], events[|events| - 1];
      StreakCountsSignals(init, id);
      RunLast(Empty, events);
      StreakStep(Run(Empty, init), e, id);
      AnswersLast(Empty, events, id);
    } else {
      NoStreakYet(id);
    }
  }

  lemma NoStreakYet(id: string)
    ensures StreakOf(Run(Empty, []), id) == 0 == SignalsAtEnd(AnswersOn(Empty, [], id))
  {}

  // ---------------------------------------------------------------- parking

  /** A limit signal that is at least the tenth in a row. */
  predicate Parks(w: World, e: Event, id: string) {
    var answer := AnswerOn(w, e, id);
    && answer.Some? && answer.value.Failure? && answer.value.limitSignal && StreakOf(w, id) + 1 >= STREAK_LIMIT
  }

  /** An answer to an attempt that was already under way and ends a park: the link was served, the attempt failed
      otherwise than by such a signal, or it was aborted after running long while another account could take over. */
  predicate Unparks(w: World, e: Event, id: string) {
    var answer := AnswerOn(w, e, id);
    answer.Some?
    && match answer.value
       case Served => true
       case Aborted(ranLong, g) => ranLong && OtherUsable(w.calls[e.call].s.order, id, SightOf(w.shared, g))
       case Failure(_, _, _, _, _) => !Parks(w, e, id)
  }

  /** The park has ended by the clock and is dropped. */
  predicate RunsOut(w: World, e: Event, id: string) {
    e.Expires? && id in e.expired && id in w.shared.cooldowns && w.shared.cooldowns[id].until <= e.now
  }

  /** What a park lasts for. */
  function ParkOf(e: Event): Cooldown
    requires e.Answered? && e.answer.Failure?
  {
    Cooldown(ParkExpiry(e.answer.now, e.answer.midnight), true)
  }

  /** After a step an account is parked exactly when the step parked it, or it was parked and the step neither ended the
      park nor dropped it as over; then the end of the park is as it was. */
  lemma ParkingStep(w: World, e: Event, id: string)
    ensures Parked(Step(w, e), id)
            <==> Parks(w, e, id) || (Parked(w, id) && !Unparks(w, e, id) && !RunsOut(w, e, id))
    ensures Parks(w, e, id) ==> Step(w, e).shared.cooldowns[id] == ParkOf(e)
    ensures !Parks(w, e, id) && Parked(Step(w, e), id) ==>
              Step(w, e).shared.cooldowns[id] == w.shared.cooldowns[id]
  {
    StepMarks(w, e);
    hide Step, InFlight.Leave, OtherUsable, ParkExpiry;
  }

  ghost predicate AlwaysParked(w: World, events: seq<Event>, id: string)
    decreases |events|
  {
    Parked(w, id) && (events == [] || AlwaysParked(Step(w, events[0]), events[1..], id))
  }

  ghost predicate NeverFreed(w: World, events: seq<Event>, id: string)
    decreases |events|
  {
    events == []
    || (!Unparks(w, events[0], id) && !RunsOut(w, events[0], id) && NeverFreed(Step(w, events[0]), events[1..], id))
  }

  /** A parked account stays parked at every point of a run if and only if no answer to an attempt already under way
      ends the park and it does not run out. */
  lemma {:induction false} ParkIsLostExactly(w: World, events: seq<Event>, id: string)
    requires Parked(w, id)
    ensures AlwaysParked(w, events, id) <==> NeverFreed(w, events, id)
    decreases |events|
  {
    hide Step, Parks, Unparks, RunsOut, Parked;
    if events != [] {
      ParkingStep(w, events[0], id);
      ParksExcludes(w, events[0], id);
      var v := Step(w, events[0]);
      if Parked(v, id) { ParkIsLostExactly(v, events[1..], id); } else { NotParked(w, events, id); }
    }
  }

  lemma NotParked(w: World, events: seq<Event>, id: string)
    requires events != [] && !Parked(Step(w, events[0]), id)
    ensures !AlwaysParked(w, events, id)
  {
    hide Step, Parked;
  }

  /** Through these events the account stays parked as it is. */
  ghost predicate Held(w: World, events: seq<Event>, id: string)
    decreases |events|
  {
    events == []
    || (!Unparks(w, events[0], id) && !RunsOut(w, events[0], id) && !Parks(w, events[0], id)
        && Held(Step(w, events[0]), events[1..], id))
  }

  lemma {:induction false} HeldSnoc(w: World, events: seq<Event>, e: Event, id: string)
    ensures Held(w, events + [e], id)
            <==> Held(w, events, id) && !Unparks(Run(w, events), e, id) && !RunsOut(Run(w, events), e, id)
                 && !Parks(Run(w, events), e, id)
    decreases |events|
  {
    hide Step, Unparks, RunsOut, Parks;
    var all := events + [e];
    if events != [] {
      assert all[1..] == events[1..] + [e];
      HeldSnoc(Step(w, events[0]), events[1..], e, id);
    } else {
      assert all[1..] == [] && all[0] == e;
      assert Held(Step(w, e), [], id);
    }
  }

  /** The n-th event parked the account and nothing since has ended the park or parked it anew. */
  ghost predicate ParkedSince(events: seq<Event>, n: nat, id: string) {
    && n < |events| && Parks(Run(Empty, events[..n]), events[n], id)
    && Held(Run(Empty, events[..n + 1]), events[n + 1..], id)
  }

  lemma SinceSnoc(events: seq<Event>, e: Event, n: nat, id: string)
    requires n < |events|
    ensures ParkedSince(events + [e], n, id)
            <==> ParkedSince(events, n, id) && !Unparks(Run(Empty, events), e, id)
                 && !RunsOut(Run(Empty, events), e, id) && !Parks(Run(Empty, events), e, id)
  {
    hide Held, Unparks, RunsOut, Parks, Run;
    var all := events + [e];
    assert all[..n] == events[..n] && all[..n + 1] == events[..n + 1] && all[n + 1..] == events[n + 1..] + [e];
    HeldSnoc(Run(Empty, events[..n + 1]), events[n + 1..], e, id);
    RunSplit(Empty, events, n + 1);
  }

  lemma {:induction false} RunSplit(w: World, events: seq<Event>, n: nat)
    requires n <= |events|
    ensures Run(w, events) == Run(Run(w, events[..n]), events[n..])
    decreases |events|
  {
    hide Step;
    if n == 0 {
      assert events[..0] == [] && events[0..] == events;
    } else {
      assert events[..n][1..] == events[1..][..n - 1] && events[1..][n - 1..] == events[n..];
      RunSplit(Step(w, events[0]), events[1..], n - 1);
    }
  }

  lemma SinceNow(events: seq<Event>, e: Event, id: string)
    ensures ParkedSince(events + [e], |events|, id) <==> Parks(Run(Empty, events), e, id)
  {
    hide Parks, Run;
    var all, n := events + [e], |events|;
    assert all[..n] == events && all[n + 1..] == [];
    assert Held(Run(Empty, all[..n + 1]), [], id);
  }

  /** Over every run of any number of calls, an account is parked exactly when some limit signal was at least the tenth
      in a row and, since the last such one, no answer to an attempt already under way has ended the park and it has not
      run out. */
  lemma {:induction false} TenSignalsPark(events: seq<Event>, id: string)
    ensures Parked(Run(Empty, events), id) <==> exists n: nat :: ParkedSince(events, n, id)
    decreases |events|
  {
    hide Step, Run, Parks, Unparks, RunsOut, ParkedSince;
    if events == [] {
      NothingParkedYet(id);
    } else {
      var init, e := events[..|events| - 1], events[|events| - 1];
      var w := Run(Empty, init);
      TenSignalsPark(init, id);
      RunLast(Empty, events);
      ParkingStep(w, e, id);
      forall n: nat
        ensures ParkedSince(events, n, id)
                <==> (n == |init| && Parks(w, e, id))
                     || (ParkedSince(init, n, id)
                         && !Unparks(w, e, id) && !RunsOut(w, e, id) && !Parks(w, e, id))
      {
        SinceLast(events, n, id);
      }
      ParksExcludes(w, e, id);
      if Parks(w, e, id) { assert ParkedSince(events, |init|, id); }
    }
  }

  lemma SinceLast(events: seq<Event>, n: nat, id: string)
    requires events != []
    ensures var init, e := events[..|events| - 1], events[|events| - 1];
            var w := Run(Empty, init);
            ParkedSince(events, n, id)
            <==> (n == |init| && Parks(w, e, id))
                 || (ParkedSince(init, n, id) && !Unparks(w, e, id) && !RunsOut(w, e, id) && !Parks(w, e, id))
  {
    hide Run, Parks, Unparks, RunsOut, ParkedSince;
    var init, e := events[..|events| - 1], events[|events| - 1];
    assert events == init + [e];
    SinceBound(events, n, id);
    SinceBound(init, n, id);
    SinceNow(init, e, id);
    if n < |init| { SinceSnoc(init, e, n, id); }
  }

  /** Its end is then the one that this signal set. */
  lemma {:induction false} ParkedUntil(events: seq<Event>, n: nat, id: string)
    requires ParkedSince(events, n, id)
    ensures events[n].Answered? && events[n].answer.Failure?
    ensures id in Run(Empty, events).shared.cooldowns
    ensures Run(Empty, events).shared.cooldowns[id] == ParkOf(events[n])
    decreases |events|
  {
    SinceIsAnswer(events, n, id);
    hide Step, Run, Parks, Unparks, RunsOut, ParkedSince, ParkOf;
    SinceBound(events, n, id);
    var init, e := events[..|events| - 1], events[|events| - 1];
    RunLast(Empty, events);
    ParkingStep(Run(Empty, init), e, id);
    TenSignalsPark(events, id);
    SinceLast(events, n, id);
    if n < |init| { ParkedUntil(init, n, id); } else { SinceBound(init, n, id); }
  }

  lemma SinceIsAnswer(events: seq<Event>, n: nat, id: string)
    requires ParkedSince(events, n, id)
    ensures n < |events| && events[n].Answered? && events[n].answer.Failure?
  {
    hide Run, Held;
  }

  lemma NothingParkedYet(id: string)
    ensures !Parked(Run(Empty, []), id) && forall n: nat :: !ParkedSince([], n, id)
  {}

  lemma SinceBound(events: seq<Event>, n: nat, id: string)
    ensures ParkedSince(events, n, id) ==> n < |events|
  {}

  lemma ParksExcludes(w: World, e: Event, id: string)
    ensures Parks(w, e, id) ==> !Unparks(w, e, id) && !RunsOut(w, e, id)
  {}

  /** Such a signal comes after at least nine others in a row, and parks to the next local midnight and for at least two
      minutes. */
  lemma ParkedByTheTenth(events: seq<Event>, n: nat, id: string)
    requires ParkedSince(events, n, id)
    ensures n < |events| && events[n].Answered? && events[n].answer.Failure?
    ensures SignalsAtEnd(AnswersOn(Empty, events[..n], id)) >= 9
    ensures id in Run(Empty, events).shared.cooldowns
    ensures var until := Run(Empty, events).shared.cooldowns[id].until;
            until >= events[n].answer.midnight && until >= events[n].answer.now + 120000
  {
    hide Run, Held, AnswersOn, SignalsAtEnd;
    StreakCountsSignals(events[..n], id);
    ParkedUntil(events, n, id);
  }

  // ---------------------------------------------------------------- what a park keeps out

  /** The clock of every look that this event takes is before that time. */
  ghost predicate LooksBefore(e: Event, until: int) {
    match e
    case Opens(_, _, _, glances) => forall k: nat :: glances(k).now < until
    case Answered(_, _, glances) => forall k: nat :: glances(k).now < until
    case Wakes(_, _, glances) => forall k: nat :: glances(k).now < until
    case Expires(_, _) => true
  }

  /** The loop only enters an account that it has seen free. */
  lemma {:induction false} AdvanceEntersFree(shared: Shared, s: Search, priority: bool, glances: nat -> Glance)
    requires s.pos <= |s.order|
    ensures var phase := Advance(shared, s, priority, glances).1;
            phase.Inside? ==> exists k: nat :: IsFree(SightOf(shared, glances(k)), phase.id)
    decreases |s.order| - s.pos
  {
    hide Exhausted, IsFree, Turned;
    if s.pos < |s.order| {
      var t := SightOf(shared, glances(s.pos));
      TurnedMovesOn(s, priority, t);
      var seen := Turned(s, priority, t);
      if seen.Attempts? { AttemptsFree(s, priority, t); }
      if seen.Skipped? { AdvanceEntersFree(shared, seen.s, priority, glances); }
    }
  }

  lemma AttemptsFree(s: Search, priority: bool, t: Sight)
    requires s.pos < |s.order| && Turned(s, priority, t).Attempts?
    ensures IsFree(t, Turned(s, priority, t).id)
  {
    hide MoveTo;
  }

  lemma ResumeStaysOut(shared: Shared, c: CallState, glances: nat -> Glance, id: string)
    requires id in shared.cooldowns && forall k: nat :: glances(k).now < shared.cooldowns[id].until
    requires c.s.pos <= |c.s.order|
    ensures Resume(shared, c, glances).1.phase != Inside(id)
  {
    AdvanceEntersFree(shared, c.s, c.priority, glances);
    forall k: nat ensures !IsFree(SightOf(shared, glances(k)), id) {}
    hide Advance, IsFree;
  }

  /** A step whose looks all come before the end of a cooldown lets no call into that account: whoever is inside after
      it was inside before, in the same attempt. */
  lemma CooldownKeepsOut(w: World, e: Event, id: string, call: nat)
    requires WorldInv(w)
    requires id in Step(w, e).shared.cooldowns && LooksBefore(e, Step(w, e).shared.cooldowns[id].until)
    requires call in Step(w, e).calls && Step(w, e).calls[call].phase == Inside(id)
    ensures call in w.calls && w.calls[call] == Step(w, e).calls[call]
  {
    StepMarks(w, e);
    hide Resume, EndAttempt, StartOrder, CallInv, Expired;
    match e
    case Opens(c, ids, rule, glances) =>
      if c == call && c !in w.calls && ids != [] {
        var start := StartOrder(ids, rule, w.shared.cursor, w.shared.inFlight);
        ResumeStaysOut(w.shared, CallState(ids, rule.Some?, start, StartSearch(start), Sleeping), glances, id);
      }
    case Answered(c, answer, glances) =>
      if c == call && c in w.calls && w.calls[c].phase.Inside? {
        PositionOf(w.calls[c]);
        var (left, ending) := EndAttempt(w.shared, w.calls[c].ids, w.calls[c].s.order, w.calls[c].phase.id, answer);
        if ending.None? { ResumeStaysOut(left, w.calls[c], glances, id); }
      }
    case Wakes(c, aborted, glances) =>
      if c == call && c in w.calls {
        PositionOf(w.calls[c]);
        ResumeStaysOut(w.shared, w.calls[c], glances, id);
      }
    case Expires(ids, now) =>
  }

  /** All looks of a run come before that time. */
  ghost predicate AllLookBefore(events: seq<Event>, until: int) {
    forall i :: 0 <= i < |events| ==> LooksBefore(events[i], until)
  }

  /** So until its end, and as long as no attempt already under way ends it, a park lets no new attempt in: over every
      such run, a call that is inside the account at the end has been in that attempt since before. */
  lemma {:induction false} ParkKeepsOut(w: World, events: seq<Event>, id: string, call: nat)
    requires WorldInv(w) && Parked(w, id) && Held(w, events, id)
    requires AllLookBefore(events, w.shared.cooldowns[id].until)
    requires call in Run(w, events).calls && Run(w, events).calls[call].phase == Inside(id)
    ensures call in w.calls && w.calls[call] == Run(w, events).calls[call]
    decreases |events|
  {
    hide Step, WorldInv, LooksBefore, Unparks, RunsOut, Parks;
    if events != [] {
      var v := Step(w, events[0]);
      StepKeepsCalls(w, events[0]);
      ParkingStep(w, events[0], id);
      ParkKeepsOut(v, events[1..], id, call);
      CooldownKeepsOut(w, events[0], id, call);
    }
  }

  // ---------------------------------------------------------------- an overlapping answer ends a park

  /** Every look sees the same. */
  function Always(g: Glance): nat -> Glance { _ => g }

  function OpenAll(id: string, n: nat, g: Glance): seq<Event> {
    if n == 0 then [] else OpenAll(id, n - 1, g) + [Opens(n - 1, [id], None, Always(g))]
  }

  /** Empty answers to the first k calls. */
  function SignalAll(k: nat, g: Glance): seq<Event> {
    if k == 0 then []
    else SignalAll(k - 1, g) + [Answered(k - 1, Failure(true, 20_000, false, g.now, g.midnight), Always(g))]
  }

  /** The calls from k on, out of n, are inside the account. */
  ghost predicate Crowded(w: World, id: string, k: nat, n: nat) {
    && (forall call :: k <= call < n ==> call in w.calls && w.calls[call].phase == Inside(id))
    && (forall call :: call in w.calls ==> call < n)
  }

  lemma OpenOne(w: World, id: string, call: nat, g: Glance)
    requires id !in g.off && w.shared.cooldowns == map[] && call !in w.calls
    ensures var v := Step(w, Opens(call, [id], None, Always(g)));
            && v.calls.Keys == w.calls.Keys + {call} && v.calls[call].phase == Inside(id)
            && (forall c :: c in w.calls ==> v.calls[c] == w.calls[c])
            && v.shared.cooldowns == map[] && v.shared.streaks == w.shared.streaks
  {
    hide OpensOver, Usable, Step, StartOrder, FirstUsable, IsFree;
    var e := Opens(call, [id], None, Always(g));
    OneUsable(id);
    OneIsFree(w, id, call, g);
    OpeningEnters(w, e, [id], {id});
  }

  lemma OneUsable(id: string)
    ensures Usable([id], {id}) == [id]
  {
    assert [id][..0] == [];
  }

  lemma OneIsFree(w: World, id: string, call: nat, g: Glance)
    requires id !in g.off && w.shared.cooldowns == map[] && call !in w.calls
    ensures OpensOver(w, Opens(call, [id], None, Always(g)), [id], {id})
  {}

  lemma {:induction false} OpenAllCrowds(id: string, n: nat, g: Glance)
    requires id !in g.off
    ensures var w := Run(Empty, OpenAll(id, n, g));
            Crowded(w, id, 0, n) && w.shared.cooldowns == map[] && w.shared.streaks == map[]
  {
    hide Step, Run;
    if n > 0 {
      OpenAllCrowds(id, n - 1, g);
      RunSnoc(Empty, OpenAll(id, n - 1, g), Opens(n - 1, [id], None, Always(g)));
      OpenOne(Run(Empty, OpenAll(id, n - 1, g)), id, n - 1, g);
    } else {
      RunNothing(Empty);
    }
  }

  lemma RunNothing(w: World)
    ensures Run(w, []) == w
  {}

  /** An answer changes no other call. */
  lemma AnswerTouchesOne(w: World, call: nat, answer: Answer, glances: nat -> Glance, other: nat)
    requires call in w.calls && other != call
    ensures other in Step(w, Answered(call, answer, glances)).calls <==> other in w.calls
    ensures other in w.calls ==> Step(w, Answered(call, answer, glances)).calls[other] == w.calls[other]
  {
    hide Resume, EndAttempt;
  }

  lemma {:induction false} SignalAllCounts(id: string, k: nat, n: nat, g: Glance)
    requires id !in g.off && k <= n
    ensures var w := Run(Run(Empty, OpenAll(id, n, g)), SignalAll(k, g));
            Crowded(w, id, k, n) && StreakOf(w, id) == k
  {
    hide Step, Run;
    var w0 := Run(Empty, OpenAll(id, n, g));
    if k > 0 {
      SignalAllCounts(id, k - 1, n, g);
      var e := Answered(k - 1, Failure(true, 20_000, false, g.now, g.midnight), Always(g));
      var w := Run(w0, SignalAll(k - 1, g));
      RunSnoc(w0, SignalAll(k - 1, g), e);
      StreakStep(w, e, id);
      forall other: nat | other != k - 1
        ensures other in Step(w, e).calls <==> other in w.calls
        ensures other in w.calls ==> Step(w, e).calls[other] == w.calls[other]
      {
        AnswerTouchesOne(w, k - 1, e.answer, e.glances, other);
      }
    } else {
      OpenAllCrowds(id, n, g);
      RunNothing(w0);
    }
  }

  /** A run in which a park is lost before its end: eleven calls overlap on an account, ten of them get an empty answer
      and the tenth parks it, and the eleventh then gives up waiting in the queue. */
  lemma OverlappingAnswerEndsPark(id: string, g: Glance)
    requires id !in g.off
    ensures var parking := OpenAll(id, 11, g) + SignalAll(10, g);
            var giveUp := Answered(10, Failure(false, 0, false, g.now, g.midnight), Always(g));
            && Parked(Run(Empty, parking), id) && Run(Empty, parking).shared.cooldowns[id].until >= g.now + 120000
            && id !in Run(Empty, parking + [giveUp]).shared.cooldowns
  {
    hide Step, Run;
    var parking := OpenAll(id, 11, g) + SignalAll(10, g);
    var tenth := Answered(9, Failure(true, 20_000, false, g.now, g.midnight), Always(g));
    var giveUp := Answered(10, Failure(false, 0, false, g.now, g.midnight), Always(g));
    var w0 := Run(Empty, OpenAll(id, 11, g));
    var w9 := Run(w0, SignalAll(9, g));
    SignalAllCounts(id, 9, 11, g);
    SignalAllCounts(id, 10, 11, g);
    RunSnoc(w0, SignalAll(9, g), tenth);
    assert SignalAll(10, g) == SignalAll(9, g) + [tenth];
    ParkingStep(w9, tenth, id);
    RunSplit(Empty, parking, |OpenAll(id, 11, g)|);
    assert parking[..|OpenAll(id, 11, g)|] == OpenAll(id, 11, g);
    assert parking[|OpenAll(id, 11, g)|..] == SignalAll(10, g);
    RunSnoc(Empty, parking, giveUp);
    GivingUpClears(Run(Empty, parking), 10, id, g);
  }

  lemma GivingUpClears(w: World, call: nat, id: string, g: Glance)
    requires call in w.calls && w.calls[call].phase == Inside(id)
    ensures id !in Step(w, Answered(call, Failure(false, 0, false, g.now, g.midnight), Always(g))).shared.cooldowns
  {
    StepMarks(w, Answered(call, Failure(false, 0, false, g.now, g.midnight), Always(g)));
    hide Step, InFlight.Leave;
  }
}
