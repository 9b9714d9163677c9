/** What answers and turns do to the cooldowns of Real-Debrid accounts over runs of overlapping calls
    (src/main/debrid.ts:701-780, 4592-4674). */
module RealDebridCooldowns {
  import opened Common
  import opened Lists
  import opened InFlight
  import opened RealDebridModel
  import opened RealDebridTheorems
  import W = RealDebridWorld

  function CooldownOf(w: W.World, id: string): Option<Cooldown> {
    if id in w.pool.cooldowns then Some(w.pool.cooldowns[id]) else None
  }

  /** The answer that an event gives to an attempt on the account, if it gives one. */
  function AnswerOn(w: W.World, e: W.Event, id: string): Option<Answer> {
    if e.Answered? && e.call in w.calls && w.calls[e.call].phase.Waiting? && w.calls[e.call].phase.attempt.id == id
    then Some(e.answer) else None
  }

  /** At least two of the accounts are switched on. */
  ghost predicate SeveralEnabled(accounts: seq<Account>) {
    exists i, j :: 0 <= i < j < |accounts| && accounts[i].enabled && accounts[j].enabled
  }

  lemma {:induction false} SomeEnabled(accounts: seq<Account>)
    ensures EnabledCount(accounts) >= 1 <==> exists i :: 0 <= i < |accounts| && accounts[i].enabled
    decreases |accounts|
  {
    if accounts != [] {
      var n := |accounts| - 1;
      SomeEnabled(accounts[..n]);
      assert forall i :: 0 <= i < n ==> accounts[..n][i] == accounts[i];
    }
  }

  lemma {:induction false} CountMeansSeveral(accounts: seq<Account>)
    ensures EnabledCount(accounts) > 1 <==> SeveralEnabled(accounts)
    decreases |accounts|
  {
    if accounts != [] {
      var n := |accounts| - 1;
      CountMeansSeveral(accounts[..n]);
      SomeEnabled(accounts[..n]);
      assert forall i :: 0 <= i < n ==> accounts[..n][i] == accounts[i];
    }
  }

  datatype Mark = Leaves | Frees | Cools(cooldown: Cooldown)

  /** A link frees the account; a failure for which another account is tried cools it as long as the failure asks and a
      second at least, unless the failure is temporary and no other account is switched on; an abort or a failure that
      ends the call says nothing.  Dropping an account from the settings and releasing its cooldown free it. */
  ghost function MarkOf(w: W.World, e: W.Event, id: string): Mark {
    match e
    case Answered(call, _, failedAt) =>
      var answer := AnswerOn(w, e, id);
      if answer.None? || answer.value.Refused? then Leaves
      else if answer.value.Served? then Frees
      else if answer.value.category == Temporary && !SeveralEnabled(w.calls[call].accounts) then Leaves
      else
        var ms := answer.value.cooldownMs;
        Cools(Cooldown(if ms < 1000 then failedAt + 1000 else failedAt + ms, answer.value.category))
    case Prunes(active) => if id in active then Leaves else Frees
    case Releases(other) => if id == other then Frees else Leaves
    case _ => Leaves
  }

  /** A cooldown that has ended is dropped where it is looked at: elsewhere, or by a turn of a call that has the account
      switched on and below its limit. */
  ghost predicate RunsOut(w: W.World, e: W.Event, id: string) {
    && id in w.pool.cooldowns
    && match e
       case Expires(ids, now) => id in ids && w.pool.cooldowns[id].until <= now
       case Turns(call, aborted, now) =>
         && call in w.calls && w.calls[call].phase.Ready? && !aborted && w.pool.cooldowns[id].until <= now
         && Looks(w.calls[call].accounts, id)
       case _ => false
  }

  ghost predicate Looks(accounts: seq<Account>, id: string) {
    exists i :: 0 <= i < |accounts| && accounts[i].id == id && accounts[i].enabled && !accounts[i].limited
  }

  function After(before: Option<Cooldown>, mark: Mark): Option<Cooldown> {
    match mark
    case Leaves => before
    case Frees => None
    case Cools(c) => Some(c)
  }

  lemma {:induction false} PurgeDropsEnded(cooldowns: map<string, Cooldown>, accounts: seq<Account>, now: int,
                                           id: string)
    ensures id in Purge(cooldowns, accounts, now)
            <==> id in cooldowns && (cooldowns[id].until > now || !Looks(accounts, id))
    ensures id in Purge(cooldowns, accounts, now) ==> Purge(cooldowns, accounts, now)[id] == cooldowns[id]
    decreases |accounts|
  {
    if accounts != [] {
      var n := |accounts| - 1;
      PurgeDropsEnded(cooldowns, accounts[..n], now, id);
      assert forall i :: 0 <= i < n ==> accounts[..n][i] == accounts[i];
    }
  }

  lemma TurnCooldowns(w: W.World, call: nat, aborted: bool, now: int)
    ensures W.DoTurn(w, call, aborted, now).pool.cooldowns
            == if call in w.calls && w.calls[call].phase.Ready? && !aborted
               then Purge(w.pool.cooldowns, w.calls[call].accounts, now) else w.pool.cooldowns
  {
    hide Purge, Available, Choose, Enter;
  }

  lemma AnswerCooldowns(w: W.World, e: W.Event, id: string)
    requires e.Answered?
    ensures CooldownOf(W.Step(w, e), id) == After(CooldownOf(w, id), MarkOf(w, e, id))
  {
    hide EnabledCount, SeveralEnabled, Leave;
    if e.call in w.calls { CountMeansSeveral(w.calls[e.call].accounts); }
  }

  /** One step changes the cooldown of an account by such a mark, or by dropping it once it has ended, and not
      otherwise. */
  lemma CooldownStep(w: W.World, e: W.Event, id: string)
    ensures CooldownOf(W.Step(w, e), id)
            == if RunsOut(w, e, id) then None else After(CooldownOf(w, id), MarkOf(w, e, id))
  {
    hide Purge, Looks, W.DoTurn, W.DoAnswer;
    match e
    case Turns(call, aborted, now) =>
      TurnCooldowns(w, call, aborted, now);
      if call in w.calls { PurgeDropsEnded(w.pool.cooldowns, w.calls[call].accounts, now, id); }
    case Answered(call, answer, failedAt) => AnswerCooldowns(w, e, id);
    case _ =>
  }

  // ---------------------------------------------------------------- over whole runs

  /** No turn of this event comes at that time or later. */
  predicate TurnsBefore(e: W.Event, until: int) { e.Turns? ==> e.now < until }

  ghost predicate AllTurnBefore(events: seq<W.Event>, until: int) {
    forall i :: 0 <= i < |events| ==> TurnsBefore(events[i], until)
  }

  /** Through these events nothing touches the cooldown of the account and it does not run out. */
  ghost predicate Undisturbed(w: W.World, events: seq<W.Event>, id: string)
    decreases |events|
  {
    events == []
    || (MarkOf(w, events[0], id) == Leaves && !RunsOut(w, events[0], id)
        && Undisturbed(W.Step(w, events[0]), events[1..], id))
  }

  predicate Inside(w: W.World, call: nat, id: string) {
    call in w.calls && w.calls[call].phase.Waiting? && w.calls[call].phase.attempt.id == id
  }

  lemma TurnEntersUsable(w: W.World, e: W.Event, id: string, call: nat)
    requires Inside(W.Step(w, e), call, id) && !(Inside(w, call, id) && w.calls[call] == W.Step(w, e).calls[call])
    ensures e.Turns? && (id in w.pool.cooldowns ==> w.pool.cooldowns[id].until <= e.now)
  {
    hide Purge, Choose, EnabledCount, IndexIn, Leave, Available;
    if e.Turns? && e.call in w.calls {
      var c := w.calls[e.call];
      AvailableMembers(w.pool, c.accounts, c.tried, e.now);
    }
  }

  /** A turn never enters an account before its cooldown ends: whoever is inside after it was inside before, in the same
      attempt. */
  lemma CooldownKeepsOut(w: W.World, e: W.Event, id: string, call: nat)
    requires id in w.pool.cooldowns && TurnsBefore(e, w.pool.cooldowns[id].until)
    requires Inside(W.Step(w, e), call, id)
    ensures Inside(w, call, id) && w.calls[call] == W.Step(w, e).calls[call]
  {
    hide W.Step;
    if !(Inside(w, call, id) && w.calls[call] == W.Step(w, e).calls[call]) { TurnEntersUsable(w, e, id, call); }
  }

  lemma {:induction false} UndisturbedKeepsOut(w: W.World, events: seq<W.Event>, id: string, call: nat)
    requires id in w.pool.cooldowns && Undisturbed(w, events, id)
    requires AllTurnBefore(events, w.pool.cooldowns[id].until) && Inside(W.Run(w, events), call, id)
    ensures Inside(w, call, id) && w.calls[call] == W.Run(w, events).calls[call]
    decreases |events|
  {
    hide W.Step, RunsOut, MarkOf, Inside;
    if events != [] {
      CooldownStep(w, events[0], id);
      UndisturbedKeepsOut(W.Step(w, events[0]), events[1..], id, call);
      CooldownKeepsOut(w, events[0], id, call);
    }
  }

  /** An answer that cools an account keeps every call out of it until that cooldown ends, the answered call included,
      as long as no answer to another attempt already under way, no release and no change of the settings touches it. */
  lemma CoolingKeepsOut(w: W.World, e: W.Event, later: seq<W.Event>, id: string, call: nat)
    requires MarkOf(w, e, id).Cools? && Undisturbed(W.Step(w, e), later, id)
    requires AllTurnBefore(later, MarkOf(w, e, id).cooldown.until)
    requires Inside(W.Run(W.Step(w, e), later), call, id)
    ensures Inside(w, call, id) && w.calls[call] == W.Run(W.Step(w, e), later).calls[call]
  {
    CooldownStep(w, e, id);
    AnswersEnter(w, e, id, call);
    hide W.Step, MarkOf, Undisturbed, Inside;
    UndisturbedKeepsOut(W.Step(w, e), later, id, call);
  }

  lemma AnswersEnter(w: W.World, e: W.Event, id: string, call: nat)
    requires MarkOf(w, e, id).Cools?
    ensures !RunsOut(w, e, id)
    ensures Inside(W.Step(w, e), call, id) ==> Inside(w, call, id) && w.calls[call] == W.Step(w, e).calls[call]
  {
    hide EnabledCount, IndexIn, Leave, SeveralEnabled;
  }
}
