/** Failover order and batching of the Real-Debrid pool. */
module RealDebridTheorems {
  import opened Common
  import opened Lists
  import opened InFlight
  import opened AccountRules
  import opened RealDebridModel

  ghost predicate DistinctAccounts(accounts: seq<Account>) {
    forall i, j :: 0 <= i < j < |accounts| ==> accounts[i].id != accounts[j].id
  }

  ghost predicate HasAccount(accounts: seq<Account>, id: string) {
    exists k :: 0 <= k < |accounts| && accounts[k].id == id
  }

  ghost predicate IsPrefix(a: seq<string>, b: seq<string>) { |a| <= |b| && a == b[..|a|] }

  // ---------------------------------------------------------------- every call

  lemma TurnFacts(pool: Pool, accounts: seq<Account>, rule: Option<seq<string>>, t: Turn, tried: seq<string>)
    requires forall id :: id in pool.inFlight ==> pool.inFlight[id] > 0
    ensures var round := OneTurn(pool, accounts, rule, t, tried);
            && (round.Again? ==>
                  round.id !in tried && HasAccount(accounts, round.id) && round.pool.inFlight == pool.inFlight)
            && (round.Ends? ==>
                  var o := round.outcome;
                  && o.pool.inFlight == pool.inFlight
                  && (o.tried == tried || (|o.tried| > |tried| && HasAccount(accounts, o.tried[|tried|])
                                           && o.tried[|tried|] !in tried && o.tried == tried + [o.tried[|tried|]])))
  {
    hide Usable, OnServed, OnRotate, Choose, Purge, Available, LeastBusy, Enter, Leave;
    var available := Available(pool, accounts, tried, t.now);
    if !t.aborted && available != [] {
      var looked := pool.(cooldowns := Purge(pool.cooldowns, accounts, t.now));
      var id := Choose(looked, available, rule);
      AvailableMembers(pool, accounts, tried, t.now);
      assert UsableId(pool, accounts, t.now, id);
      LeaveUndoesEnter(pool.inFlight, id);
      OutcomesKeepInFlight(EnterPool(looked, id), id, available, t, EnabledCount(accounts));
    }
  }

  /** Whatever the provider answers and however the clock moves, a call tries no account twice and only configured
      ones, and leaves the in-flight map as it found it. */
  lemma {:induction false} CallTriesEachOnce(pool: Pool, accounts: seq<Account>, rule: Option<seq<string>>,
                                             turns: nat -> Turn, tried: seq<string>)
    requires Distinct(tried) && forall id :: id in pool.inFlight ==> pool.inFlight[id] > 0
    ensures var o := Call(pool, accounts, rule, turns, tried);
            && IsPrefix(tried, o.tried) && Distinct(o.tried)
            && (forall i :: |tried| <= i < |o.tried| ==> HasAccount(accounts, o.tried[i]))
            && o.pool.inFlight == pool.inFlight
    decreases Untried(accounts, tried)
  {
    hide OneTurn, HasAccount;
    var t := turns(|tried|);
    TurnFacts(pool, accounts, rule, t, tried);
    if OneTurn(pool, accounts, rule, t, tried).Again? {
      AgainTriesAnother(pool, accounts, rule, t, tried);
      var round := OneTurn(pool, accounts, rule, t, tried);
      CallTriesEachOnce(round.pool, accounts, rule, turns, tried + [round.id]);
    }
  }

  lemma LeaveUndoesEnter(m: map<string, nat>, id: string)
    requires forall x :: x in m ==> m[x] > 0
    ensures Leave(Enter(m, id), id) == m
  {}

  lemma OutcomesKeepInFlight(pool: Pool, id: string, available: seq<string>, t: Turn, enabledAccounts: nat)
    requires id in available
    ensures OnServed(pool, id, available).inFlight == pool.inFlight
    ensures t.answer.Rotate? ==>
              var (category, ms) := (t.answer.category, t.answer.cooldownMs);
              OnRotate(pool, id, available, category, ms, t.failedAt, enabledAccounts).inFlight == pool.inFlight
  {}

  // ---------------------------------------------------------------- a fixed list of usable accounts

  /** The usable accounts not yet tried, in configuration order. */
  function Pick(accounts: seq<Account>, usable: set<string>, tried: seq<string>): seq<string>
    decreases |accounts|
  {
    if accounts == [] then []
    else
      var id := accounts[|accounts| - 1].id;
      Pick(accounts[..|accounts| - 1], usable, tried) + (if id in usable && id !in tried then [id] else [])
  }

  /** During the call no untried account becomes usable or unusable. */
  ghost predicate Steady(pool: Pool, accounts: seq<Account>, turns: nat -> Turn, usable: set<string>,
                         tried: seq<string>)
  {
    forall i: nat, k: nat :: i < |accounts| && accounts[i].id !in tried ==>
      (Usable(pool, accounts[i], turns(k).now) <==> accounts[i].id in usable)
  }

  /** At this moment the usable ones among the untried accounts are these. */
  ghost predicate SteadyAt(pool: Pool, accounts: seq<Account>, now: int, usable: set<string>, tried: seq<string>) {
    forall i :: 0 <= i < |accounts| && accounts[i].id !in tried ==>
      (Usable(pool, accounts[i], now) <==> accounts[i].id in usable)
  }

  lemma {:induction false} AvailableNow(pool: Pool, accounts: seq<Account>, now: int, usable: set<string>,
                                        tried: seq<string>)
    requires SteadyAt(pool, accounts, now, usable, tried)
    ensures Available(pool, accounts, tried, now) == Pick(accounts, usable, tried)
    decreases |accounts|
  {
    hide Usable;
    if accounts != [] {
      var n := |accounts| - 1;
      assert forall i :: 0 <= i < n ==> accounts[..n][i] == accounts[i];
      AvailableNow(pool, accounts[..n], now, usable, tried);
    }
  }

  lemma AvailableIsPick(pool: Pool, accounts: seq<Account>, turns: nat -> Turn, usable: set<string>,
                        tried: seq<string>, k: nat)
    requires Steady(pool, accounts, turns, usable, tried)
    ensures Available(pool, accounts, tried, turns(k).now) == Pick(accounts, usable, tried)
  {
    hide Usable;
    AvailableNow(pool, accounts, turns(k).now, usable, tried);
  }

  lemma {:induction false} PickMembers(accounts: seq<Account>, usable: set<string>, tried: seq<string>)
    ensures forall id ::
              id in Pick(accounts, usable, tried) ==> id in usable && id !in tried && HasAccount(accounts, id)
    ensures DistinctAccounts(accounts) ==> Distinct(Pick(accounts, usable, tried))
    decreases |accounts|
  {
    if accounts != [] {
      var n := |accounts| - 1;
      var init := accounts[..n];
      PickMembers(init, usable, tried);
      forall id | HasAccount(init, id) ensures HasAccount(accounts, id) {
        var k :| 0 <= k < n && init[k].id == id;
        assert accounts[k].id == id;
      }
      assert HasAccount(accounts, accounts[n].id);
      if DistinctAccounts(accounts) {
        assert DistinctAccounts(init);
        assert !HasAccount(init, accounts[n].id);
      }
    }
  }

  lemma {:induction false} PickMinus(accounts: seq<Account>, usable: set<string>, tried: seq<string>, id: string)
    ensures Pick(accounts, usable, tried + [id]) == Minus(Pick(accounts, usable, tried), id)
    decreases |accounts|
  {
    if accounts != [] {
      var init, last := accounts[..|accounts| - 1], accounts[|accounts| - 1].id;
      PickMinus(init, usable, tried, id);
      MinusSplit(Pick(init, usable, tried), if last in usable && last !in tried then [last] else [], id);
      MinusOne(last, id);
    }
  }

  /** Trying an account takes it out of the list and leaves the others in place. */
  lemma PickWithout(accounts: seq<Account>, usable: set<string>, tried: seq<string>, i: nat)
    requires DistinctAccounts(accounts) && i < |Pick(accounts, usable, tried)|
    ensures var ids := Pick(accounts, usable, tried);
            Pick(accounts, usable, tried + [ids[i]]) == Without(ids, i)
  {
    hide Pick, DistinctAccounts, Distinct, Minus, Without, HasAccount;
    var ids := Pick(accounts, usable, tried);
    PickMembers(accounts, usable, tried);
    PickMinus(accounts, usable, tried, ids[i]);
    MinusAt(ids, i);
  }

  lemma {:induction false} PurgeKeepsOthers(cooldowns: map<string, Cooldown>, accounts: seq<Account>, now: int)
    ensures forall id :: id in Purge(cooldowns, accounts, now) ==>
              id in cooldowns && Purge(cooldowns, accounts, now)[id] == cooldowns[id]
    ensures forall id :: id in cooldowns && id !in Purge(cooldowns, accounts, now) ==>
              cooldowns[id].until <= now && exists k :: 0 <= k < |accounts| && accounts[k].id == id
                                                        && accounts[k].enabled && !accounts[k].limited
    decreases |accounts|
  {
    if accounts != [] {
      var init := accounts[..|accounts| - 1];
      PurgeKeepsOthers(cooldowns, init, now);
      forall id | id in cooldowns && id !in Purge(cooldowns, init, now)
        ensures exists k :: 0 <= k < |accounts| && accounts[k].id == id && accounts[k].enabled && !accounts[k].limited
      {
        var k :| 0 <= k < |init| && init[k].id == id && init[k].enabled && !init[k].limited;
        assert accounts[k] == init[k];
      }
    }
  }

  /** Looking at the clock and failing an account do not disturb the untried ones. */
  lemma RotateKeepsSteady(pool: Pool, next: Pool, accounts: seq<Account>, turns: nat -> Turn, usable: set<string>,
                          tried: seq<string>, k: nat, id: string)
    requires DistinctAccounts(accounts) && Steady(pool, accounts, turns, usable, tried)
    requires var purged := Purge(pool.cooldowns, accounts, turns(k).now);
             forall x :: x != id ==>
               (x in next.cooldowns <==> x in purged) && (x in purged ==> next.cooldowns[x] == purged[x])
    ensures Steady(next, accounts, turns, usable, tried + [id])
  {
    var purged := Purge(pool.cooldowns, accounts, turns(k).now);
    PurgeKeepsOthers(pool.cooldowns, accounts, turns(k).now);
    forall i: nat, j: nat | i < |accounts| && accounts[i].id !in tried + [id]
      ensures Usable(next, accounts[i], turns(j).now) <==> accounts[i].id in usable
    {
      var a := accounts[i];
      assert Usable(pool, a, turns(j).now) <==> a.id in usable;
      assert Usable(pool, a, turns(k).now) <==> a.id in usable;
      assert a.id != id;
    }
  }

  // ---------------------------------------------------------------- cyclic order

  lemma {:induction false} AllIdle(m: map<string, nat>, ids: seq<string>, depth: nat)
    requires ids != [] && m == map[] && depth == 0
    ensures MinDepth(m, ids) == depth && WithDepth(m, ids, depth) == ids
    decreases |ids|
  {
    var init := ids[..|ids| - 1];
    assert ids == init + [ids[|ids| - 1]];
    assert Depth(m, ids[|ids| - 1]) == 0;
    if |ids| > 1 { AllIdle(m, init, depth); } else { assert WithDepth(m, init, depth) == []; }
  }

  lemma IdleSelect(pool: Pool, ids: seq<string>)
    requires ids != [] && pool.inFlight == map[]
    ensures Select(pool, ids) == if pool.stickyId in ids && pool.stickyCount < STICKY_LINKS then pool.stickyId
                                 else ids[pool.cursor % |ids|]
  {
    hide MinDepth, WithDepth, LeastBusy, Depth;
    AllIdle(pool.inFlight, ids, 0);
  }

  lemma NextInRotation(ids: seq<string>, i: nat)
    requires i < |ids| && |ids| > 1
    ensures Rotation(Without(ids, i), i % (|ids| - 1)) == Rotation(ids, i)[1..]
    ensures Rotation(ids, i)[0] == ids[i]
  {
    var m := |ids| - 1;
    if i < m {
      Remainder(i, 0, i, m);
      WithoutBefore(ids, i);
    } else {
      Remainder(i, 1, 0, m);
      WithoutLast(ids);
    }
  }

  lemma WithoutBefore(ids: seq<string>, i: nat)
    requires i + 1 < |ids|
    ensures Rotation(Without(ids, i), i) == Rotation(ids, i)[1..]
  {
    var rest := Without(ids, i);
    assert rest[i..] == ids[i + 1..] && rest[..i] == ids[..i];
  }

  lemma WithoutLast(ids: seq<string>)
    requires |ids| > 1
    ensures Rotation(Without(ids, |ids| - 1), 0) == Rotation(ids, |ids| - 1)[1..]
  {
    var m := |ids| - 1;
    assert Without(ids, m) == ids[..m];
    assert Rotation(ids, m) == [ids[m]] + ids[..m];
  }

  /** No other call runs and the account at this place is the next one selected. */
  ghost predicate At(pool: Pool, ids: seq<string>, i: nat) {
    i < |ids| && pool.inFlight == map[] && Select(pool, ids) == ids[i]
  }

  lemma RotatedFields(pool: Pool, ids: seq<string>, i: nat, category: Category, ms: nat, at: int, enabledAccounts: nat)
    requires i < |ids| && Distinct(ids) && pool.inFlight == map[]
    ensures var id := ids[i];
            var next := LeavePool(OnRotate(EnterPool(pool, id), id, ids, category, ms, at, enabledAccounts), id);
            && next.inFlight == map[] && next.stickyId == "" && (|ids| > 1 ==> next.cursor == i % (|ids| - 1))
            && forall x :: x != ids[i] ==> (x in next.cooldowns <==> x in pool.cooldowns)
                                           && (x in pool.cooldowns ==> next.cooldowns[x] == pool.cooldowns[x])
  {
    IndexOfDistinct(ids, i);
    LeaveUndoesEnter(pool.inFlight, ids[i]);
  }

  ghost predicate Cyclic(accounts: seq<Account>, turns: nat -> Turn, usable: set<string>, tried: seq<string>, i: nat,
                         round: Round)
  {
    var ids := Pick(accounts, usable, tried);
    && i < |ids|
    && (round.Ends? ==>
          && (round.outcome.tried == tried || round.outcome.tried == tried + [ids[i]])
          && !round.outcome.ending.PoolFailed?)
    && (round.Again? ==>
          && round.id == ids[i] && Steady(round.pool, accounts, turns, usable, tried + [ids[i]])
          && (|ids| > 1 ==> At(round.pool, Pick(accounts, usable, tried + [ids[i]]), i % (|ids| - 1))))
  }

  lemma LookedSelects(pool: Pool, looked: Pool, ids: seq<string>, i: nat)
    requires At(pool, ids, i) && looked == pool.(cooldowns := looked.cooldowns)
    ensures Choose(looked, ids, None) == ids[i]
  {
    IdleSelect(pool, ids);
    IdleSelect(looked, ids);
    hide Select;
  }

  /** Which account a turn tries, and the pool it leaves after a failure. */
  lemma TurnChoice(pool: Pool, looked: Pool, accounts: seq<Account>, t: Turn, tried: seq<string>, ids: seq<string>,
                   id: string)
    requires looked == pool.(cooldowns := Purge(pool.cooldowns, accounts, t.now))
    requires ids != [] && Available(pool, accounts, tried, t.now) == ids && Choose(looked, ids, None) == id
    ensures var round := OneTurn(pool, accounts, None, t, tried);
            && (round.Ends? ==>
                  && (round.outcome.tried == tried || round.outcome.tried == tried + [id])
                  && !round.outcome.ending.PoolFailed?)
            && (round.Again? ==>
                  && t.answer.Rotate? && round.id == id
                  && round.pool == LeavePool(OnRotate(EnterPool(looked, id), id, ids, t.answer.category,
                                                      t.answer.cooldownMs, t.failedAt, EnabledCount(accounts)), id))
  {
    hide Available, Choose, Purge, OnServed, OnRotate, EnterPool, LeavePool, EnabledCount;
  }

  lemma NextSelected(pool: Pool, ids: seq<string>, i: nat)
    requires i < |ids| && |ids| > 1 && Distinct(ids) && "" !in ids
    requires pool.inFlight == map[] && pool.stickyId == "" && pool.cursor == i % (|ids| - 1)
    ensures At(pool, Without(ids, i), i % (|ids| - 1))
  {
    var rest := Without(ids, i);
    assert "" !in rest;
    IdleSelect(pool, rest);
    Twice(i, |rest|);
    hide Select;
  }

  /** One turn of the cycle: the account whose turn it is is tried; after a failure it is its successor's turn. */
  lemma CyclicTurn(pool: Pool, accounts: seq<Account>, turns: nat -> Turn, usable: set<string>, tried: seq<string>,
                   i: nat)
    requires DistinctAccounts(accounts) && !HasAccount(accounts, "") && Steady(pool, accounts, turns, usable, tried)
    requires At(pool, Pick(accounts, usable, tried), i)
    ensures Cyclic(accounts, turns, usable, tried, i, OneTurn(pool, accounts, None, turns(|tried|), tried))
  {
    hide Available, Pick, Steady, Usable, HasAccount, DistinctAccounts, OneTurn, Select, OnRotate, EnterPool, LeavePool,
         Purge, At, Without;
    var t := turns(|tried|);
    var ids := Pick(accounts, usable, tried);
    var round := OneTurn(pool, accounts, None, t, tried);
    AvailableIsPick(pool, accounts, turns, usable, tried, |tried|);
    PickedIds(accounts, usable, tried);
    AtFacts(pool, ids, i);
    var looked := pool.(cooldowns := Purge(pool.cooldowns, accounts, t.now));
    LookedSelects(pool, looked, ids, i);
    TurnChoice(pool, looked, accounts, t, tried, ids, ids[i]);
    if round.Again? {
      PickWithout(accounts, usable, tried, i);
      RotatedFields(looked, ids, i, t.answer.category, t.answer.cooldownMs, t.failedAt, EnabledCount(accounts));
      RotateKeepsSteady(pool, round.pool, accounts, turns, usable, tried, |tried|, ids[i]);
      if |ids| > 1 { NextSelected(round.pool, ids, i); }
    }
  }

  lemma PickedIds(accounts: seq<Account>, usable: set<string>, tried: seq<string>)
    requires DistinctAccounts(accounts) && !HasAccount(accounts, "")
    ensures var ids := Pick(accounts, usable, tried); Distinct(ids) && "" !in ids
  {
    hide DistinctAccounts, HasAccount, Pick, Distinct;
    PickMembers(accounts, usable, tried);
  }

  lemma AtFacts(pool: Pool, ids: seq<string>, i: nat)
    requires At(pool, ids, i)
    ensures i < |ids| && pool.inFlight == map[]
  {}

  /** The accounts tried are those before, then this run, cut where the call ends; a pool failure ends the whole run. */
  ghost predicate Follows(o: Outcome, tried: seq<string>, run: seq<string>) {
    IsPrefix(o.tried, tried + run) && (o.ending.PoolFailed? ==> o.tried == tried + run)
  }

  lemma FollowsNext(o: Outcome, tried: seq<string>, run: seq<string>)
    requires run != [] && Follows(o, tried + [run[0]], run[1..])
    ensures Follows(o, tried, run)
  {
    assert tried + [run[0]] + run[1..] == tried + run;
  }

  lemma FollowsEnd(o: Outcome, tried: seq<string>, run: seq<string>)
    requires run != [] && !o.ending.PoolFailed? && (o.tried == tried || o.tried == tried + [run[0]])
    ensures Follows(o, tried, run)
  {}

  /** Automatic failover goes round: with availability fixed and no other call running, the accounts tried are the
      cyclic run of the available list from the selected account, cut only where the call ends; it ends as a pool
      failure only after the whole run. */
  lemma {:induction false} FailoverIsCyclic(pool: Pool, accounts: seq<Account>, turns: nat -> Turn, usable: set<string>,
                                            tried: seq<string>, i: nat)
    requires DistinctAccounts(accounts) && !HasAccount(accounts, "") && Steady(pool, accounts, turns, usable, tried)
    requires At(pool, Pick(accounts, usable, tried), i)
    ensures Follows(Call(pool, accounts, None, turns, tried), tried, Rotation(Pick(accounts, usable, tried), i))
    decreases Untried(accounts, tried)
  {
    hide Call, Pick, OneTurn, Steady, HasAccount, DistinctAccounts, Untried, Follows, UsableId, Rotation, At, Without;
    hide Usable, Select, LeastBusy, Choose, Available;
    var ids := Pick(accounts, usable, tried);
    var round := OneTurn(pool, accounts, None, turns(|tried|), tried);
    CyclicTurn(pool, accounts, turns, usable, tried, i);
    CallTurns(pool, accounts, None, turns, tried);
    if round.Again? {
      AgainTriesAnother(pool, accounts, None, turns(|tried|), tried);
      PickWithout(accounts, usable, tried, i);
      if |ids| > 1 {
        FailoverIsCyclic(round.pool, accounts, turns, usable, tried + [round.id], i % (|ids| - 1));
        FollowsRotation(Call(round.pool, accounts, None, turns, tried + [round.id]), tried, ids, i);
      } else {
        OnlyOne(ids, i);
        NothingLeft(round.pool, accounts, None, turns, usable, tried + [round.id]);
        FollowsOnly(Call(round.pool, accounts, None, turns, tried + [round.id]), tried, ids, i);
      }
    } else {
      RotationStarts(ids, i);
      FollowsEnd(round.outcome, tried, Rotation(ids, i));
    }
  }

  lemma FollowsRotation(o: Outcome, tried: seq<string>, ids: seq<string>, i: nat)
    requires i < |ids| && |ids| > 1 && Follows(o, tried + [ids[i]], Rotation(Without(ids, i), i % (|ids| - 1)))
    ensures Follows(o, tried, Rotation(ids, i))
  {
    hide Follows;
    NextInRotation(ids, i);
    FollowsNext(o, tried, Rotation(ids, i));
  }

  lemma FollowsOnly(o: Outcome, tried: seq<string>, ids: seq<string>, i: nat)
    requires i < |ids| == 1 && Follows(o, tried + [ids[i]], [])
    ensures Follows(o, tried, Rotation(ids, i))
  {
    hide Follows;
    OnlyOne(ids, i);
    FollowsNext(o, tried, Rotation(ids, i));
  }

  lemma OnlyOne(ids: seq<string>, i: nat)
    requires i < |ids| == 1
    ensures Without(ids, i) == [] && Rotation(ids, i)[1..] == []
  {}

  lemma RotationStarts(ids: seq<string>, i: nat)
    requires i < |ids|
    ensures |Rotation(ids, i)| == |ids| && Rotation(ids, i)[0] == ids[i]
  {}

  lemma CallTurns(pool: Pool, accounts: seq<Account>, rule: Option<seq<string>>, turns: nat -> Turn, tried: seq<string>)
    ensures var round := OneTurn(pool, accounts, rule, turns(|tried|), tried);
            Call(pool, accounts, rule, turns, tried)
            == if round.Ends? then round.outcome else Call(round.pool, accounts, rule, turns, tried + [round.id])
  {
    hide OneTurn;
  }

  lemma NothingLeft(pool: Pool, accounts: seq<Account>, rule: Option<seq<string>>, turns: nat -> Turn,
                    usable: set<string>, tried: seq<string>)
    requires Steady(pool, accounts, turns, usable, tried) && Pick(accounts, usable, tried) == []
    ensures Follows(Call(pool, accounts, rule, turns, tried), tried, [])
  {
    AvailableIsPick(pool, accounts, turns, usable, tried, |tried|);
    hide Available, Pick, Steady;
  }

  /** The turns of a call in which every account fails so that another is tried. */
  ghost predicate AllRotate(turns: nat -> Turn) { forall k: nat :: !turns(k).aborted && turns(k).answer.Rotate? }

  lemma {:induction false} AllRotateEnds(pool: Pool, accounts: seq<Account>, rule: Option<seq<string>>,
                                         turns: nat -> Turn, tried: seq<string>)
    requires AllRotate(turns)
    ensures var o := Call(pool, accounts, rule, turns, tried);
            o.ending == if o.tried == [] then Unavailable else PoolFailed
    decreases Untried(accounts, tried)
  {
    hide Choose, Available, Purge, OnServed, OnRotate, EnterPool, LeavePool, UsableId, Untried;
    CallTurns(pool, accounts, rule, turns, tried);
    var round := OneTurn(pool, accounts, rule, turns(|tried|), tried);
    hide Call;
    if round.Again? {
      hide OneTurn;
      AgainTriesAnother(pool, accounts, rule, turns(|tried|), tried);
      AllRotateEnds(round.pool, accounts, rule, turns, tried + [round.id]);
    }
  }

  /** A call in automatic mode, alone, with availability fixed: it follows the cyclic run from the selected account,
      and when every account fails with a rotating error it has tried them all. */
  lemma AutomaticFailover(pool: Pool, accounts: seq<Account>, turns: nat -> Turn, usable: set<string>)
    requires DistinctAccounts(accounts) && !HasAccount(accounts, "") && Steady(pool, accounts, turns, usable, [])
    requires pool.inFlight == map[] && Pick(accounts, usable, []) != []
    ensures var ids := Pick(accounts, usable, []);
            var o := Call(pool, accounts, None, turns, []);
            var start := IndexIn(ids, Select(pool, ids));
            && Follows(o, [], Rotation(ids, start))
            && (AllRotate(turns) ==> o.ending == PoolFailed && o.tried == Rotation(ids, start))
  {
    var ids := Pick(accounts, usable, []);
    var start := IndexIn(ids, Select(pool, ids));
    assert At(pool, ids, start);
    hide Pick, Call, Steady, HasAccount, DistinctAccounts, Select, At, IndexIn;
    FailoverIsCyclic(pool, accounts, turns, usable, [], start);
    var o := Call(pool, accounts, None, turns, []);
    var run := Rotation(ids, start);
    assert [] + run == run;
    if AllRotate(turns) {
      AllRotateEnds(pool, accounts, None, turns, []);
      FirstTurnTries(pool, accounts, turns, usable);
    }
  }

  lemma RotatingTurn(pool: Pool, accounts: seq<Account>, t: Turn)
    requires !t.aborted && t.answer.Rotate? && Available(pool, accounts, [], t.now) != []
    ensures OneTurn(pool, accounts, None, t, []).Again?
  {
    hide Available, Select, Purge, OnRotate, EnterPool, LeavePool;
  }

  lemma FirstTurnTries(pool: Pool, accounts: seq<Account>, turns: nat -> Turn, usable: set<string>)
    requires AllRotate(turns) && Steady(pool, accounts, turns, usable, []) && Pick(accounts, usable, []) != []
    ensures Call(pool, accounts, None, turns, []).ending == PoolFailed
  {
    hide Pick, Steady, Available, Call, OneTurn, Usable, Untried;
    AvailableIsPick(pool, accounts, turns, usable, [], 0);
    assert !turns(0).aborted && turns(0).answer.Rotate?;
    RotatingTurn(pool, accounts, turns(0));
    CallTurns(pool, accounts, None, turns, []);
    var round := OneTurn(pool, accounts, None, turns(0), []);
    assert [] + [round.id] == [round.id];
    AllRotateEnds(round.pool, accounts, None, turns, [round.id]);
    TriedGrow(round.pool, accounts, None, turns, [round.id]);
  }

  lemma {:induction false} TriedGrow(pool: Pool, accounts: seq<Account>, rule: Option<seq<string>>, turns: nat -> Turn,
                                     tried: seq<string>)
    ensures |Call(pool, accounts, rule, turns, tried).tried| >= |tried|
    decreases Untried(accounts, tried)
  {
    hide Choose, Available, Purge, OnServed, OnRotate, EnterPool, LeavePool, UsableId, Untried;
    CallTurns(pool, accounts, rule, turns, tried);
    var round := OneTurn(pool, accounts, rule, turns(|tried|), tried);
    hide Call;
    if round.Again? {
      hide OneTurn;
      AgainTriesAnother(pool, accounts, rule, turns(|tried|), tried);
      TriedGrow(round.pool, accounts, rule, turns, tried + [round.id]);
    }
  }

  // ---------------------------------------------------------------- batches of four

  /** The ids that are enabled and within their daily limit. */
  function Eligible(accounts: seq<Account>): seq<string>
    decreases |accounts|
  {
    if accounts == [] then []
    else
      var a := accounts[|accounts| - 1];
      Eligible(accounts[..|accounts| - 1]) + (if a.enabled && !a.limited then [a.id] else [])
  }

  /** The pool after k calls since the reset, each served at its first attempt. */
  function AfterCalls(accounts: seq<Account>, calls: nat -> nat -> Turn, k: nat): Pool {
    if k == 0 then Fresh else Call(AfterCalls(accounts, calls, k - 1), accounts, None, calls(k - 1), []).pool
  }

  ghost predicate Batch(pool: Pool, ids: seq<string>, k: nat)
    requires ids != []
  {
    && pool.cooldowns == map[] && pool.inFlight == map[]
    && pool.cursor == (k / 4) % |ids|
    && (if k == 0 then pool.stickyId == "" && pool.stickyCount == 0
        else && pool.stickyId == ids[((k - 1) / 4) % |ids|]
             && pool.stickyCount == (if |ids| == 1 then k else (k - 1) % 4 + 1))
  }

  lemma {:induction false} NoCooldowns(pool: Pool, accounts: seq<Account>, now: int)
    requires pool.cooldowns == map[]
    ensures Purge(pool.cooldowns, accounts, now) == map[] && Available(pool, accounts, [], now) == Eligible(accounts)
    decreases |accounts|
  {
    if accounts != [] { NoCooldowns(pool, accounts[..|accounts| - 1], now); }
  }

  lemma {:induction false} EligibleDistinct(accounts: seq<Account>)
    requires DistinctAccounts(accounts)
    ensures Distinct(Eligible(accounts)) && forall id :: id in Eligible(accounts) ==> HasAccount(accounts, id)
    decreases |accounts|
  {
    if accounts != [] {
      var n := |accounts| - 1;
      var init := accounts[..n];
      EligibleDistinct(init);
      forall id | HasAccount(init, id) ensures HasAccount(accounts, id) {
        var k :| 0 <= k < n && init[k].id == id;
        assert accounts[k].id == id;
      }
      assert HasAccount(accounts, accounts[n].id);
      assert !HasAccount(init, accounts[n].id);
    }
  }

  lemma BatchArithmetic(k: nat, n: nat)
    requires n > 1
    ensures k > 0 && (k - 1) % 4 != 3 ==> (k - 1) / 4 == k / 4 && (k - 1) % 4 + 1 == k % 4
    ensures k > 0 && (k - 1) % 4 == 3 ==> (k - 1) / 4 + 1 == k / 4 && k % 4 == 0
    ensures (k + 1) / 4 == if k % 4 == 3 then k / 4 + 1 else k / 4
    ensures (k / 4 + 1) % n == if (k / 4) % n == n - 1 then 0 else (k / 4) % n + 1
  {
    var q := k / 4;
    var r := q % n;
    assert q == n * (q / n) + r;
    if r < n - 1 { Remainder(q + 1, q / n, r + 1, n); } else { Remainder(q + 1, q / n + 1, 0, n); }
  }

  /** The account the next call selects. */
  lemma NextOfBatch(pool: Pool, ids: seq<string>, k: nat)
    requires ids != [] && "" !in ids && Batch(pool, ids, k)
    ensures Select(pool, ids) == ids[(k / 4) % |ids|]
  {
    IdleSelect(pool, ids);
    hide Select, LeastBusy;
    if |ids| > 1 {
      BatchArithmetic(k, |ids|);
      Twice(k / 4, |ids|);
    }
  }

  lemma ServedFields(pool: Pool, ids: seq<string>, j: nat)
    requires Distinct(ids) && j < |ids| && pool.inFlight == map[] && pool.cooldowns == map[]
    ensures var count := if pool.stickyId == ids[j] then pool.stickyCount + 1 else 1;
            LeavePool(OnServed(EnterPool(pool, ids[j]), ids[j], ids), ids[j])
            == Pool(map[], map[], if count >= 4 then (j + 1) % |ids| else pool.cursor, ids[j], count)
  {
    IndexOfDistinct(ids, j);
    LeaveUndoesEnter(pool.inFlight, ids[j]);
    hide IndexIn;
  }

  lemma StickyCounts(pool: Pool, ids: seq<string>, k: nat, count: nat, cursor: nat)
    requires ids != [] && Distinct(ids) && "" !in ids && Batch(pool, ids, k)
    requires count == if pool.stickyId == ids[(k / 4) % |ids|] then pool.stickyCount + 1 else 1
    requires cursor == if count >= 4 then ((k / 4) % |ids| + 1) % |ids| else pool.cursor
    ensures count == (if |ids| == 1 then k + 1 else k % 4 + 1) && cursor == ((k + 1) / 4) % |ids|
  {
    var n := |ids|;
    if n > 1 {
      BatchArithmetic(k, n);
      SmallRemainder((k / 4) % n, n);
      if k > 0 && (k - 1) % 4 == 3 { assert ((k - 1) / 4 + 1) % n == k / 4 % n; DifferentSlot((k - 1) / 4, n); }
    }
  }

  lemma SmallRemainder(r: nat, n: nat)
    requires r < n
    ensures (r + 1) % n == if r == n - 1 then 0 else r + 1
  {}

  lemma DifferentSlot(q: nat, n: nat)
    requires n > 1
    ensures q % n != (q + 1) % n
  {
    var r := q % n;
    assert q == n * (q / n) + r;
    if r < n - 1 { Remainder(q + 1, q / n, r + 1, n); } else { Remainder(q + 1, q / n + 1, 0, n); }
  }

  /** The state a served call leaves. */
  lemma ServedBatch(pool: Pool, ids: seq<string>, k: nat)
    requires ids != [] && Distinct(ids) && "" !in ids && Batch(pool, ids, k)
    ensures var id := ids[(k / 4) % |ids|];
            Select(pool, ids) == id && Batch(LeavePool(OnServed(EnterPool(pool, id), id, ids), id), ids, k + 1)
  {
    var j := (k / 4) % |ids|;
    NextOfBatch(pool, ids, k);
    ServedFields(pool, ids, j);
    var count := if pool.stickyId == ids[j] then pool.stickyCount + 1 else 1;
    StickyCounts(pool, ids, k, count, if count >= 4 then (j + 1) % |ids| else pool.cursor);
    hide OnServed, Select, LeavePool, EnterPool;
  }

  lemma ServedTurn(pool: Pool, accounts: seq<Account>, turns: nat -> Turn, ids: seq<string>)
    requires !turns(0).aborted && turns(0).answer == Served && ids != [] && pool.cooldowns == map[]
    requires Available(pool, accounts, [], turns(0).now) == ids
    requires Purge(pool.cooldowns, accounts, turns(0).now) == map[]
    ensures var id := Select(pool, ids);
            Call(pool, accounts, None, turns, [])
            == Outcome(LeavePool(OnServed(EnterPool(pool, id), id, ids), id), [id], Done(id))
  {
    CallTurns(pool, accounts, None, turns, []);
    hide Call, Select, Available, Purge, OnServed, EnterPool, LeavePool;
    assert pool.(cooldowns := map[]) == pool;
  }

  lemma {:induction false} BatchesKeep(accounts: seq<Account>, calls: nat -> nat -> Turn, k: nat)
    requires DistinctAccounts(accounts) && !HasAccount(accounts, "") && Eligible(accounts) != []
    requires forall c: nat :: !calls(c)(0).aborted && calls(c)(0).answer == Served
    ensures Batch(AfterCalls(accounts, calls, k), Eligible(accounts), k)
  {
    hide Call, Eligible, DistinctAccounts, HasAccount;
    if k > 0 {
      assert !calls(k - 1)(0).aborted;
      BatchesKeep(accounts, calls, k - 1);
      KthCall(accounts, calls, k - 1);
      hide Batch;
    }
  }

  lemma KthCall(accounts: seq<Account>, calls: nat -> nat -> Turn, k: nat)
    requires DistinctAccounts(accounts) && !HasAccount(accounts, "") && Eligible(accounts) != []
    requires !calls(k)(0).aborted && calls(k)(0).answer == Served
    requires Batch(AfterCalls(accounts, calls, k), Eligible(accounts), k)
    ensures var ids := Eligible(accounts);
            var o := Call(AfterCalls(accounts, calls, k), accounts, None, calls(k), []);
            o.ending == Done(ids[(k / 4) % |ids|]) && Batch(o.pool, ids, k + 1)
  {
    var pool := AfterCalls(accounts, calls, k);
    var ids := Eligible(accounts);
    EligibleDistinct(accounts);
    assert "" !in ids;
    NoCooldowns(pool, accounts, calls(k)(0).now);
    ServedBatch(pool, ids, k);
    hide Available, Purge, Eligible, Select, HasAccount, DistinctAccounts, AfterCalls, Call, OnServed;
    ServedTurn(pool, accounts, calls(k), ids);
  }

  /** Since a reset, with every call served at once, the k-th call uses account k / 4 modulo the number of accounts:
      four links each, round and round. */
  lemma BatchesOfFour(accounts: seq<Account>, calls: nat -> nat -> Turn, k: nat)
    requires DistinctAccounts(accounts) && !HasAccount(accounts, "") && Eligible(accounts) != []
    requires forall c: nat :: !calls(c)(0).aborted && calls(c)(0).answer == Served
    ensures Call(AfterCalls(accounts, calls, k), accounts, None, calls(k), []).ending
            == Done(Eligible(accounts)[(k / 4) % |Eligible(accounts)|])
  {
    hide AfterCalls, Call, Batch, Eligible;
    BatchesKeep(accounts, calls, k);
    KthCall(accounts, calls, k);
  }
}
