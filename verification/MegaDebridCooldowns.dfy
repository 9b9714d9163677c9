/** What answers do to the cooldowns of Mega-Debrid accounts over runs of overlapping calls (src/main/debrid.ts:402-454,
    2458-2567), temporary ones and parks alike. */
module MegaDebridCooldowns {
  import opened Common
  import InFlight
  import opened MegaDebridModel
  import opened MegaDebridTheorems
  import opened MegaDebridWorld
  import opened MegaDebridParking

  function CooldownOf(w: World, id: string): Option<Cooldown> {
    if id in w.shared.cooldowns then Some(w.shared.cooldowns[id]) else None
  }

  /** An account is free when it is switched on, below its limit, and not cooling down. */
  lemma WhatIsFree(t: Sight, id: string)
    ensures IsFree(t, id) <==> id !in t.off && (id in t.cooldowns ==> t.cooldowns[id].until <= t.now)
  {}

  /** Another account that the call goes through is free at this glance. */
  ghost predicate AnotherFree(w: World, c: CallState, id: string, g: Glance) {
    exists i :: 0 <= i < |c.s.order| && c.s.order[i] != id && c.s.order[i] !in g.off
                && (c.s.order[i] in w.shared.cooldowns ==> w.shared.cooldowns[c.s.order[i]].until <= g.now)
  }

  lemma AnotherIsUsable(w: World, c: CallState, id: string, g: Glance)
    ensures AnotherFree(w, c, id, g) <==> OtherUsable(c.s.order, id, SightOf(w.shared, g))
  {}

  /** An answer leaves a cooldown as it is, ends it, or sets one. */
  datatype Mark = Leaves | Frees | Cools(cooldown: Cooldown)

  /** A link frees the account.  An abort after a long run cools it for two minutes if another account can take over,
      and says nothing otherwise.  A tenth limit signal in a row parks it to the next midnight, two minutes at least;
      any other failure cools it for as long as the failure asks, a second at least, or frees it if it asks for
      nothing. */
  ghost function MarkOf(w: World, e: Event, id: string): Mark {
    var answer := AnswerOn(w, e, id);
    if answer.None? then Leaves
    else
      match answer.value
      case Served => Frees
      case Aborted(ranLong, g) =>
        if ranLong && AnotherFree(w, w.calls[e.call], id, g)
        then Cools(Cooldown(g.now + 120_000, false)) else Leaves
      case Failure(limitSignal, ms, _, now, midnight) =>
        if limitSignal && StreakOf(w, id) >= 9
        then Cools(Cooldown(if midnight < now + 120_000 then now + 120_000 else midnight, true))
        else if ms <= 0 then Frees
        else Cools(Cooldown(if ms < 1000 then now + 1000 else now + ms, false))
  }

  function After(before: Option<Cooldown>, mark: Mark): Option<Cooldown> {
    match mark
    case Leaves => before
    case Frees => None
    case Cools(c) => Some(c)
  }

  /** One step changes the cooldown of an account by the answer to an attempt on that very account, or by dropping it
      once it has ended, and not otherwise. */
  lemma CooldownStep(w: World, e: Event, id: string)
    ensures CooldownOf(Step(w, e), id)
            == if RunsOut(w, e, id) then None else After(CooldownOf(w, id), MarkOf(w, e, id))
  {
    hide Step, InFlight.Leave, OtherUsable, AnotherFree;
    StepMarks(w, e);
    if e.Answered? && e.answer.Aborted? && e.call in w.calls { AnotherIsUsable(w, w.calls[e.call], id, e.answer.g); }
  }

  // ---------------------------------------------------------------- over whole runs

  /** What the last event that changed the cooldown of an account made of it; running out counts as being freed. */
  ghost function LastMark(w: World, events: seq<Event>, id: string): Mark {
    if events == [] then Leaves
    else
      var init, e := events[..|events| - 1], events[|events| - 1];
      if RunsOut(Run(w, init), e, id) then Frees
      else if MarkOf(Run(w, init), e, id) != Leaves then MarkOf(Run(w, init), e, id)
      else LastMark(w, init, id)
  }

  /** Over every run of any number of calls, the cooldown of an account is the one that the last answer to set or end it
      has left, whichever call the answer was for, until it runs out. */
  lemma {:induction false} CooldownIsTheLastMark(w: World, events: seq<Event>, id: string)
    ensures CooldownOf(Run(w, events), id) == After(CooldownOf(w, id), LastMark(w, events, id))
    decreases |events|
  {
    hide Step, Run, RunsOut, MarkOf, CooldownOf;
    if events != [] {
      var init, e := events[..|events| - 1], events[|events| - 1];
      CooldownIsTheLastMark(w, init, id);
      RunLast(w, events);
      CooldownStep(Run(w, init), e, id);
    } else {
      RunNothing(w);
    }
  }

  /** Through these events no answer touches the cooldown of the account and it does not run out. */
  ghost predicate Undisturbed(w: World, events: seq<Event>, id: string)
    decreases |events|
  {
    events == []
    || (MarkOf(w, events[0], id) == Leaves && !RunsOut(w, events[0], id)
        && Undisturbed(Step(w, events[0]), events[1..], id))
  }

  lemma {:induction false} UndisturbedKeepsOut(w: World, events: seq<Event>, id: string, call: nat)
    requires WorldInv(w) && id in w.shared.cooldowns && Undisturbed(w, events, id)
    requires AllLookBefore(events, w.shared.cooldowns[id].until)
    requires call in Run(w, events).calls && Run(w, events).calls[call].phase == Inside(id)
    ensures call in w.calls && w.calls[call] == Run(w, events).calls[call]
    decreases |events|
  {
    hide Step, WorldInv, LooksBefore, RunsOut, MarkOf;
    if events != [] {
      var v := Step(w, events[0]);
      StepKeepsCalls(w, events[0]);
      CooldownStep(w, events[0], id);
      UndisturbedKeepsOut(v, events[1..], id, call);
      CooldownKeepsOut(w, events[0], id, call);
    }
  }

  /** An answer that cools an account keeps every call out of it until that cooldown ends, the answered call included,
      as long as no answer to another attempt already under way there changes it: whoever is inside at the end of such a
      run has been in that attempt since before the answer. */
  lemma CoolingKeepsOut(w: World, e: Event, later: seq<Event>, id: string, call: nat)
    requires WorldInv(w) && MarkOf(w, e, id).Cools? && Undisturbed(Step(w, e), later, id)
    requires AllLookBefore([e] + later, MarkOf(w, e, id).cooldown.until)
    requires call in Run(w, [e] + later).calls && Run(w, [e] + later).calls[call].phase == Inside(id)
    ensures call in w.calls && w.calls[call] == Run(w, [e] + later).calls[call]
  {
    hide Step, WorldInv, LooksBefore, MarkOf, Undisturbed;
    var events := [e] + later;
    assert events[0] == e && events[1..] == later;
    assert forall i :: 0 <= i < |later| ==> later[i] == events[i + 1];
    AnswersDoNotExpire(w, e, id);
    CooldownStep(w, e, id);
    StepKeepsCalls(w, e);
    UndisturbedKeepsOut(Step(w, e), later, id, call);
    CooldownKeepsOut(w, e, id, call);
  }

  lemma AnswersDoNotExpire(w: World, e: Event, id: string)
    ensures MarkOf(w, e, id) != Leaves ==> !RunsOut(w, e, id)
  {}
}
