/** How Real-Debrid calls go on and end (src/main/debrid.ts:4592-4674). */
module RealDebridEndings {
  import opened Common
  import opened Lists
  import opened InFlight
  import opened RealDebridModel
  import opened RealDebridTheorems
  import W = RealDebridWorld

  /** An account of the call that it has not tried, switched on, below its limit and not cooling down. */
  ghost predicate CanTry(w: W.World, c: W.CallState, now: int, id: string) {
    id !in c.tried
    && exists i :: 0 <= i < |c.accounts| && c.accounts[i].id == id && c.accounts[i].enabled && !c.accounts[i].limited
                   && (id in w.pool.cooldowns ==> w.pool.cooldowns[id].until <= now)
  }

  lemma AvailableCanTry(w: W.World, c: W.CallState, now: int)
    ensures forall id :: id in Available(w.pool, c.accounts, c.tried, now) <==> CanTry(w, c, now, id)
  {
    AvailableMembers(w.pool, c.accounts, c.tried, now);
    hide Available;
  }

  /** A turn of a call that has not been aborted goes into an attempt on an account that it can try, and counts it in;
      if there is none the call is over, as failed if it has tried any.  An abort ends it before that. */
  lemma TurnsEnd(w: W.World, call: nat, aborted: bool, now: int)
    requires call in w.calls && w.calls[call].phase.Ready?
    ensures call in W.Step(w, W.Turns(call, aborted, now)).calls
    ensures var c := w.calls[call];
            var v := W.Step(w, W.Turns(call, aborted, now));
            var d := v.calls[call];
            if aborted then v.pool == w.pool && d == c.(phase := W.Ended(CallerAborted))
            else if exists id :: CanTry(w, c, now, id) then
              && d.phase.Waiting? && CanTry(w, c, now, d.phase.attempt.id)
              && d.tried == c.tried + [d.phase.attempt.id] && d.accounts == c.accounts && d.rule == c.rule
              && v.pool.inFlight == Enter(w.pool.inFlight, d.phase.attempt.id)
              && (forall id :: id in d.phase.attempt.available <==> CanTry(w, c, now, id))
            else
              && d == c.(phase := W.Ended(if c.tried == [] then Unavailable else PoolFailed))
              && v.pool.inFlight == w.pool.inFlight
  {
    hide Purge, Choose, Enter, CanTry;
    AvailableCanTry(w, w.calls[call], now);
    hide Available;
    var list := Available(w.pool, w.calls[call].accounts, w.calls[call].tried, now);
    if list != [] { assert list[0] in list; }
  }

  /** A link ends its call with it, an abort or a failure that does not ask for another account ends it with that, and
      after any other failure the call takes another turn.  The account is left in each case. */
  lemma AnswersEnd(w: W.World, call: nat, answer: Answer, failedAt: int)
    requires call in w.calls && w.calls[call].phase.Waiting?
    ensures call in W.Step(w, W.Answered(call, answer, failedAt)).calls
    ensures var id := w.calls[call].phase.attempt.id;
            var v := W.Step(w, W.Answered(call, answer, failedAt));
            var phase := if answer.Served? then W.Ended(Done(id))
                         else if answer.Refused? then W.Ended(Failed(id)) else W.Ready;
            && v.calls == w.calls[call := w.calls[call].(phase := phase)]
            && v.pool.inFlight == Leave(w.pool.inFlight, id)
  {
    hide Leave, IndexIn, EnabledCount;
  }

  // ---------------------------------------------------------------- the sticky account

  /** The sticky account is the one that served the last link, with the number of links it has served in a row, until a
      failure for which another account is tried, its release, or its removal from the settings. */
  lemma StickyStep(w: W.World, e: W.Event)
    ensures var (p, q) := (w.pool, W.Step(w, e).pool);
            var served := e.Answered? && e.answer.Served? && e.call in w.calls && w.calls[e.call].phase.Waiting?;
            var dropped := || (e.Answered? && e.answer.Rotate? && e.call in w.calls && w.calls[e.call].phase.Waiting?)
                           || (e.Releases? && e.id == p.stickyId)
                           || (e.Prunes? && p.stickyId != "" && p.stickyId !in e.active);
            if served then
              var id := w.calls[e.call].phase.attempt.id;
              q.stickyId == id && q.stickyCount == if p.stickyId == id then p.stickyCount + 1 else 1
            else if dropped then q.stickyId == "" && q.stickyCount == 0
            else q.stickyId == p.stickyId && q.stickyCount == p.stickyCount
  {
    hide Purge, Available, Choose, IndexIn, EnabledCount, Enter, Leave, Prune;
  }
}
