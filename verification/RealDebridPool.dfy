/** The Real-Debrid pool as an object: the shared state, the calls that are under way, and the failover loop. */
module RealDebridPool {
  import opened Common
  import InFlight
  import opened Lists
  import opened P = RealDebridModel
  import T = RealDebridTheorems
  import W = RealDebridWorld

  /** Dropping expired cooldowns changes no answer at that moment. */
  lemma PurgeKeepsCooling(cooldowns: map<string, Cooldown>, accounts: seq<Account>, now: int, id: string)
    ensures Cooling(Purge(cooldowns, accounts, now), id, now) <==> Cooling(cooldowns, id, now)
  {
    T.PurgeKeepsOthers(cooldowns, accounts, now);
  }

  class RealDebridPool {
    var cooldowns: map<string, Cooldown>
    var inFlight: map<string, nat>
    var cursor: nat
    var stickyId: string
    var stickyCount: nat
    var calls: map<nat, W.CallState>

    ghost function Shared(): Pool
      reads this
    {
      Pool(cooldowns, inFlight, cursor, stickyId, stickyCount)
    }

    ghost function View(): W.World
      reads this
    {
      W.World(Shared(), calls)
    }

    constructor ()
      ensures View() == W.Empty
    {
      cooldowns, inFlight, cursor, stickyId, stickyCount, calls := map[], map[], 0, "", 0, map[];
    }

    method AvailableAccounts(accounts: seq<Account>, tried: seq<string>, now: int) returns (ids: seq<string>)
      modifies this`cooldowns
      ensures ids == Available(old(Shared()), accounts, tried, now)
      ensures cooldowns == Purge(old(cooldowns), accounts, now)
    {
      ids := [];
      for n := 0 to |accounts|
        invariant ids == Available(old(Shared()), accounts[..n], tried, now)
        invariant cooldowns == Purge(old(cooldowns), accounts[..n], now)
      {
        var a := accounts[n];
        PurgeKeepsCooling(old(cooldowns), accounts[..n], now, a.id);
        assert accounts[..n + 1][..n] == accounts[..n];
        if a.enabled && !a.limited {
          if a.id in cooldowns && cooldowns[a.id].until > now { continue; }
          cooldowns := cooldowns - {a.id};
          if a.id !in tried { ids := ids + [a.id]; }
        }
      }
      assert accounts[..|accounts|] == accounts;
    }

    method RecordServed(id: string, available: seq<string>)
      requires id in available
      modifies this`cooldowns, this`cursor, this`stickyId, this`stickyCount
      ensures Shared() == OnServed(old(Shared()), id, available)
    {
      cooldowns := cooldowns - {id};
      if stickyId == id {
        stickyCount := stickyCount + 1;
      } else {
        stickyId, stickyCount := id, 1;
      }
      if stickyCount >= STICKY_LINKS { cursor := (IndexIn(available, id) + 1) % |available|; }
    }

    method RecordRotation(id: string, available: seq<string>, category: Category, cooldownMs: nat, at: int,
                          enabledAccounts: nat)
      requires id in available
      modifies this`cooldowns, this`cursor, this`stickyId, this`stickyCount
      ensures Shared() == OnRotate(old(Shared()), id, available, category, cooldownMs, at, enabledAccounts)
    {
      if !category.Temporary? || enabledAccounts > 1 {
        cooldowns := cooldowns[id := Cooldown(at + Max(1000, cooldownMs), category)];
      }
      stickyId, stickyCount := "", 0;
      cursor := IndexIn(available, id) % Max(1, |available| - 1);
    }

    method EnterAccount(id: string)
      modifies this`inFlight
      ensures inFlight == InFlight.Enter(old(inFlight), id)
    {
      var before := if id in inFlight then inFlight[id] else 0;
      inFlight := inFlight[id := before + 1];
    }

    method LeaveAccount(id: string)
      modifies this`inFlight
      ensures inFlight == InFlight.Leave(old(inFlight), id)
    {
      var count: int := if id in inFlight then inFlight[id] else 1;
      var remaining := count - 1;
      if remaining > 0 { inFlight := inFlight[id := remaining]; } else { inFlight := inFlight - {id}; }
    }

    /** From the head of the loop to the await. */
    method Begin(accounts: seq<Account>, rule: Option<seq<string>>, tried: seq<string>, aborted: bool, now: int)
      returns (begun: Begun)
      modifies this`cooldowns, this`inFlight
      ensures (Shared(), begun) == BeginTurn(old(Shared()), accounts, rule, tried, aborted, now)
    {
      hide Choose, Purge, Available;
      if aborted { return Over(CallerAborted); }
      var available := AvailableAccounts(accounts, tried, now);
      if available == [] { return Over(if tried == [] then Unavailable else PoolFailed); }
      var id := Choose(Pool(cooldowns, inFlight, cursor, stickyId, stickyCount), available, rule);
      EnterAccount(id);
      return Inside(Selection(id, available));
    }

    /** From the answer to the end of the attempt, the `finally` handler included. */
    method End(attempt: Attempt, answer: Answer, failedAt: int, enabledAccounts: nat) returns (ending: Option<Ending>)
      modifies this`cooldowns, this`inFlight, this`cursor, this`stickyId, this`stickyCount
      ensures (Shared(), ending) == EndTurn(old(Shared()), attempt, answer, failedAt, enabledAccounts)
    {
      hide OnServed, OnRotate;
      match answer {
        case Served =>
          RecordServed(attempt.id, attempt.available);
          ending := Some(Done(attempt.id));
        case Refused =>
          ending := Some(Failed(attempt.id));
        case Rotate(category, ms) =>
          RecordRotation(attempt.id, attempt.available, category, ms, failedAt, enabledAccounts);
          ending := None;
      }
      LeaveAccount(attempt.id);
    }

    /** A call of `unrestrictWithRealDebridAccounts` beside the others. */
    method OpenCall(call: nat, accounts: seq<Account>, rule: Option<seq<string>>)
      modifies this`calls
      ensures View() == W.Step(old(View()), W.Opens(call, accounts, rule))
    {
      if call !in calls { calls := calls[call := W.CallState(accounts, rule, [], W.Ready)]; }
    }

    method TurnOfCall(call: nat, aborted: bool, now: int)
      modifies this
      ensures View() == W.Step(old(View()), W.Turns(call, aborted, now))
    {
      hide BeginTurn;
      if call !in calls || !calls[call].phase.Ready? { return; }
      var c := calls[call];
      var begun := Begin(c.accounts, c.rule, c.tried, aborted, now);
      match begun {
        case Over(ending) => c := c.(phase := W.Ended(ending));
        case Inside(attempt) => c := c.(tried := c.tried + [attempt.id], phase := W.Waiting(attempt));
      }
      calls := calls[call := c];
    }

    method AnswerOfCall(call: nat, answer: Answer, failedAt: int)
      modifies this
      ensures View() == W.Step(old(View()), W.Answered(call, answer, failedAt))
    {
      hide EndTurn, EnabledCount;
      if call !in calls || !calls[call].phase.Waiting? { return; }
      var c := calls[call];
      var ending := End(c.phase.attempt, answer, failedAt, EnabledCount(c.accounts));
      calls := calls[call := c.(phase := if ending.Some? then W.Ended(ending.value) else W.Ready)];
    }

    /** The whole loop of one call, with no other call under way. */
    method Unrestrict(accounts: seq<Account>, rule: Option<seq<string>>, turns: nat -> Turn)
      returns (tried: seq<string>, ending: Ending)
      modifies this`cooldowns, this`inFlight, this`cursor, this`stickyId, this`stickyCount
      ensures Outcome(Shared(), tried, ending) == Call(old(Shared()), accounts, rule, turns, [])
    {
      tried := [];
      while true
        invariant Call(Shared(), accounts, rule, turns, tried) == Call(old(Shared()), accounts, rule, turns, [])
        decreases Untried(accounts, tried)
      {
        hide Call, BeginTurn, EndTurn, Untried, EnabledCount;
        var t := turns(|tried|);
        ghost var start := Shared();
        T.CallTurns(start, accounts, rule, turns, tried);
        var begun := Begin(accounts, rule, tried, t.aborted, t.now);
        if begun.Over? { return tried, begun.ending; }
        var attempt := begun.attempt;
        var over := End(attempt, t.answer, t.failedAt, EnabledCount(accounts));
        if over.Some? { return tried + [attempt.id], over.value; }
        AgainTriesAnother(start, accounts, rule, t, tried);
        tried := tried + [attempt.id];
      }
    }

    method PruneAccounts(active: set<string>)
      modifies this
      ensures View() == W.Step(old(View()), W.Prunes(active))
    {
      cooldowns := map id | id in cooldowns && id in active :: cooldowns[id];
      inFlight := map id | id in inFlight && id in active :: inFlight[id];
      if stickyId != "" && stickyId !in active { stickyId, stickyCount := "", 0; }
      cursor := if active == {} then 0 else cursor % |active|;
    }

    method ReleaseCooldown(id: string) returns (removed: bool)
      modifies this
      ensures View() == W.Step(old(View()), W.Releases(id))
      ensures removed <==> id in old(cooldowns)
    {
      removed := id in cooldowns;
      cooldowns := cooldowns - {id};
      if stickyId == id { stickyId, stickyCount := "", 0; }
    }
  }
}
