/** The Mega-Debrid module state and the calls under way as an object. */
module MegaDebridPool {
  import opened Common
  import opened Lists
  import InFlight
  import AccountRules
  import opened MegaDebridModel
  import W = MegaDebridWorld

  lemma TwoSplices(order: seq<string>, k: nat, pos: nat)
    requires pos <= k < |order|
    ensures var cut := order[..k] + order[k + 1..];
            cut[..pos] + [order[k]] + cut[pos..] == MoveTo(order, k, pos)
  {}

  class MegaDebridPool {
    var cooldowns: map<string, Cooldown>
    var streaks: map<string, nat>
    var cursor: nat
    var stickyCount: nat
    var inFlight: map<string, nat>
    var calls: map<nat, W.CallState>

    ghost function SharedView(): Shared
      reads this
    {
      Shared(cooldowns, streaks, cursor, stickyCount, inFlight)
    }

    ghost function View(): W.World
      reads this
    {
      W.World(SharedView(), calls)
    }

    constructor ()
      ensures View() == W.Empty
    {
      cooldowns, streaks, cursor, stickyCount, inFlight, calls := map[], map[], 0, 0, map[], map[];
    }

    // -------------------------------------------------------------- the pieces of a call

    /** The live cooldown of an account; an expired one is dropped. */
    method CooldownState(id: string, now: int) returns (live: Option<Cooldown>)
      modifies this
      ensures View() == W.Step(old(View()), W.Expires({id}, now))
      ensures live == if id in old(cooldowns) && old(cooldowns)[id].until > now then Some(old(cooldowns)[id]) else None
    {
      if id !in cooldowns {
        assert cooldowns == W.Expired(SharedView(), {id}, now).cooldowns;
        return None;
      }
      if cooldowns[id].until <= now {
        cooldowns := cooldowns - {id};
        assert cooldowns == W.Expired(old(SharedView()), {id}, now).cooldowns;
        return None;
      }
      assert cooldowns == W.Expired(SharedView(), {id}, now).cooldowns;
      return Some(cooldowns[id]);
    }

    method SetAccountCooldown(id: string, cooldownMs: int, untilRestart: bool, now: int, midnight: int)
      modifies this`cooldowns
      ensures cooldowns == SetCooldown(old(cooldowns), id, cooldownMs, untilRestart, now, midnight)
    {
      if untilRestart {
        cooldowns := cooldowns[id := Cooldown(ParkExpiry(now, midnight), true)];
        return;
      }
      if cooldownMs <= 0 {
        cooldowns := cooldowns - {id};
        return;
      }
      cooldowns := cooldowns[id := Cooldown(now + Max(1000, cooldownMs), false)];
    }

    method RecordServed(id: string, idx: nat)
      modifies this`cooldowns, this`streaks, this`cursor, this`stickyCount
      ensures SharedView() == OnServed(old(SharedView()), id, idx)
    {
      cooldowns, streaks := cooldowns - {id}, streaks - {id};
      stickyCount := stickyCount + 1;
      if stickyCount >= STICKY_LINKS {
        cursor, stickyCount := idx + 1, 0;
      } else {
        cursor := idx;
      }
    }

    method RecordFailure(id: string, limitSignal: bool, cooldownMs: int, now: int, midnight: int)
      modifies this`cooldowns, this`streaks
      ensures SharedView() == OnFailure(old(SharedView()), id, limitSignal, cooldownMs, now, midnight)
    {
      var park := false;
      if limitSignal {
        var streak := (if id in streaks then streaks[id] else 0) + 1;
        streaks := streaks[id := streak];
        park := streak >= STREAK_LIMIT;
      } else {
        streaks := streaks - {id};
      }
      SetAccountCooldown(id, cooldownMs, park, now, midnight);
    }

    method EnterAccount(id: string)
      modifies this`inFlight
      ensures inFlight == InFlight.Enter(old(inFlight), id)
    {
      inFlight := inFlight[id := (if id in inFlight then inFlight[id] else 0) + 1];
    }

    method LeaveAccount(id: string)
      modifies this`inFlight
      ensures inFlight == InFlight.Leave(old(inFlight), id)
    {
      var count: int := if id in inFlight then inFlight[id] else 1;
      var remaining := count - 1;
      if remaining <= 0 { inFlight := inFlight - {id}; } else { inFlight := inFlight[id := remaining]; }
    }

    /** The order of a call: by rule, or from the cursor round, sorted by load. */
    method OrderAccounts(ids: seq<string>, rule: Option<seq<string>>) returns (order: seq<string>)
      requires ids != []
      ensures order == StartOrder(ids, rule, cursor, inFlight)
    {
      if rule.Some? { return AccountRules.Ordered(rule.value, ids); }
      var start := cursor % |ids|;
      var cursorOrder := [];
      for step := 0 to |ids|
        invariant cursorOrder == Rotation(ids, start)[..step]
      {
        var idx := (start + step) % |ids|;
        NextInCycle(ids, start, step);
        cursorOrder := cursorOrder + [ids[idx]];
      }
      assert cursorOrder == Rotation(ids, start);
      order := ByDepth(cursorOrder, inFlight);
    }

    /** In priority mode the first usable idle account comes forward by two splices; if all usable ones are busy the
        order stays. */
    method BringForward(order: seq<string>, pos: nat, t: Sight) returns (forward: seq<string>, busy: bool)
      requires pos < |order|
      ensures |forward| == |order| && (busy ==> forward == order)
      ensures forall s: Search | s.order == order && s.pos == pos ::
                Turned(s, true, t) == if busy then Busy(s) else Look(s.(order := forward), t)
    {
      hide IsFree, Look, MoveTo;
      forward, busy := order, false;
      var k := FirstIdle(order, pos, t);
      if k < |order| {
        var entry := order[k];
        TwoSplices(order, k, pos);
        forward := order[..k] + order[k + 1..];
        forward := forward[..pos] + [entry] + forward[pos..];
      } else if AnyFree(order, pos, t) {
        busy := true;
      }
      assert forall s: Search | s.order == order :: s.(order := order) == s;
    }

    /** The account at the position is skipped or tried. */
    method LookAt(s: Search, t: Sight) returns (seen: Seen)
      requires s.pos < |s.order|
      ensures seen == Look(s, t)
    {
      hide BlockOf;
      var id := s.order[s.pos];
      var block := BlockOf(t, id);
      var n := s.(pos := s.pos + 1, visits := s.visits + [Visit(id, block)]);
      match block {
        case Off =>
        case Cooling(until, parked) =>
          if parked {
            n := n.(parkedSeen := true);
          } else if n.earliest == 0 || until < n.earliest {
            n := n.(earliest := until);
          }
        case Free => return Attempts(n, id);
      }
      return Skipped(n);
    }

    /** The account loop up to its next await or its end. */
    method SearchAccounts(s: Search, priority: bool, glances: nat -> Glance) returns (n: Search, phase: Phase)
      requires s.pos <= |s.order|
      ensures (n, phase) == Advance(SharedView(), s, priority, glances)
    {
      n := s;
      while n.pos < |n.order|
        invariant n.pos <= |n.order|
        invariant Advance(SharedView(), n, priority, glances) == Advance(SharedView(), s, priority, glances)
        decreases |n.order| - n.pos
      {
        hide Advance, Turned, Look;
        var t := Sight(glances(n.pos).off, cooldowns, inFlight, glances(n.pos).now);
        AdvanceTurns(SharedView(), n, priority, glances);
        TurnedMovesOn(n, priority, t);
        AutomaticTurn(n, t);
        if priority {
          var forward, busy := BringForward(n.order, n.pos, t);
          if busy { return n, Sleeping; }
          n := n.(order := forward);
        }
        var seen := LookAt(n, t);
        if seen.Attempts? { return seen.s, Inside(seen.id); }
        LookSkips(n, t);
        n := seen.s;
      }
      phase := Over(Exhausted(n, glances(n.pos)));
    }

    // -------------------------------------------------------------- calls beside each other

    /** The loop of a call goes on; an attempt counts it into its account. */
    method ResumeCall(c: W.CallState, glances: nat -> Glance) returns (d: W.CallState)
      modifies this`inFlight
      ensures (SharedView(), d) == W.Resume(old(SharedView()), c, glances)
    {
      hide Advance;
      if c.s.pos > |c.s.order| { return c; }
      var s, phase := SearchAccounts(c.s, c.priority, glances);
      if phase.Inside? { EnterAccount(phase.id); }
      d := c.(s := s, phase := phase);
    }

    /** A call of `unrestrictWithAccounts` begins. */
    method OpenCall(call: nat, ids: seq<string>, rule: Option<seq<string>>, glances: nat -> Glance)
      modifies this
      ensures View() == W.Step(old(View()), W.Opens(call, ids, rule, glances))
    {
      hide W.Resume, StartOrder;
      if call in calls { return; }
      var c := W.CallState(ids, rule.Some?, [], StartSearch([]), Over(NothingConfigured));
      if ids != [] {
        if forall i :: 0 <= i < |ids| ==> ids[i] in glances(0).off {
          c := c.(phase := Over(NothingUsable));
        } else {
          var start := OrderAccounts(ids, rule);
          c := ResumeCall(W.CallState(ids, rule.Some?, start, StartSearch(start), Sleeping), glances);
        }
      }
      calls := calls[call := c];
    }

    /** An attempt has been answered: its outcome is recorded, the call leaves the account, and the loop goes on unless
        that was the end. */
    method AnswerCall(call: nat, answer: Answer, glances: nat -> Glance)
      modifies this
      ensures View() == W.Step(old(View()), W.Answered(call, answer, glances))
    {
      hide W.Resume, OnServed, OnFailure, SetCooldown;
      if call !in calls || !calls[call].phase.Inside? { return; }
      var c := calls[call];
      var id := c.phase.id;
      var ending: Option<Ending> := None;
      match answer {
        case Served =>
          RecordServed(id, if id in c.ids then IndexIn(c.ids, id) else 0);
          ending := Some(Done(id));
        case Aborted(ranLong, g) =>
          var other := OtherUsable(c.s.order, id, Sight(g.off, cooldowns, inFlight, g.now));
          if ranLong && other {
            SetAccountCooldown(id, ACCOUNT_COOLDOWN_MS, false, g.now, g.midnight);
          }
          ending := Some(if ranLong && !other then SlowLink(id) else Thrown(id));
        case Failure(limitSignal, ms, fatal, now, midnight) =>
          RecordFailure(id, limitSignal, ms, now, midnight);
          if fatal { ending := Some(Thrown(id)); }
      }
      LeaveAccount(id);
      if ending.Some? {
        c := c.(phase := Over(ending.value));
      } else {
        c := ResumeCall(c, glances);
      }
      calls := calls[call := c];
    }

    /** A call that waited for a busy account looks again, unless it has been aborted meanwhile. */
    method WakeCall(call: nat, aborted: bool, glances: nat -> Glance)
      modifies this
      ensures View() == W.Step(old(View()), W.Wakes(call, aborted, glances))
    {
      hide W.Resume;
      if call !in calls || !calls[call].phase.Sleeping? { return; }
      var c := calls[call];
      if aborted {
        c := c.(phase := Over(AbortedWaiting));
      } else {
        c := ResumeCall(c, glances);
      }
      calls := calls[call := c];
    }
  }

  lemma LookSkips(s: Search, t: Sight)
    requires s.pos < |s.order|
    ensures !Look(s, t).Busy?
  {}

  lemma AutomaticTurn(s: Search, t: Sight)
    requires s.pos < |s.order|
    ensures Turned(s, false, t) == Look(s, t)
  {}

  lemma NextInCycle(ids: seq<string>, start: nat, step: nat)
    requires start < |ids| && step < |ids|
    ensures Rotation(ids, start)[..step + 1] == Rotation(ids, start)[..step] + [ids[(start + step) % |ids|]]
  {
    if start + step < |ids| {
      Remainder(start + step, 0, start + step, |ids|);
    } else {
      Remainder(start + step, 1, start + step - |ids|, |ids|);
    }
    var place := (start + step) % |ids|;
    assert place == if start + step < |ids| then start + step else start + step - |ids|;
    RotationAt(ids, start, step, place);
    OneMore(Rotation(ids, start), step);
  }

  lemma RotationAt(ids: seq<string>, start: nat, step: nat, place: nat)
    requires start < |ids| && step < |ids| && place < |ids|
    requires place == if start + step < |ids| then start + step else start + step - |ids|
    ensures |Rotation(ids, start)| == |ids| && Rotation(ids, start)[step] == ids[place]
  {}

  lemma OneMore(s: seq<string>, k: nat)
    requires k < |s|
    ensures s[..k + 1] == s[..k] + [s[k]]
  {}

  /** One turn of the loop. */
  lemma AdvanceTurns(shared: Shared, s: Search, priority: bool, glances: nat -> Glance)
    requires s.pos < |s.order|
    ensures var seen := Turned(s, priority, SightOf(shared, glances(s.pos)));
            && seen.s.pos <= |seen.s.order|
            && Advance(shared, s, priority, glances)
               == (if seen.Skipped? then Advance(shared, seen.s, priority, glances)
                   else if seen.Attempts? then (seen.s, Inside(seen.id))
                   else (seen.s, Sleeping))
  {
    hide Turned;
    TurnedMovesOn(s, priority, SightOf(shared, glances(s.pos)));
  }
}
