/** Account rotation for Real-Debrid (src/main/debrid.ts:4267-4275, 4551-4560, 4592-4674, 723-735, 752-780). */
module RealDebridModel {
  import opened Common
  import opened Lists
  import opened InFlight
  import opened AccountRules

  datatype Account = Account(id: string, enabled: bool, limited: bool)

  datatype Category = Invalid | RateLimit | Quota | Temporary

  datatype Cooldown = Cooldown(until: int, category: Category)

  /** The module state shared by all calls. */
  datatype Pool = Pool(
    cooldowns: map<string, Cooldown>,
    inFlight: map<string, nat>,
    cursor: nat,
    stickyId: string,
    stickyCount: nat)

  const STICKY_LINKS: nat := 4

  const Fresh: Pool := Pool(map[], map[], 0, "", 0)

  /** What the provider answered, already classified; `Refused` also stands for a caller's abort. */
  datatype Answer = Served | Refused | Rotate(category: Category, cooldownMs: nat)

  /** One turn of the failover loop as the outside sees it: abort before it, the clock at its start and at its failure,
      the answer. */
  datatype Turn = Turn(aborted: bool, now: int, answer: Answer, failedAt: int)

  datatype Ending = Done(id: string) | Failed(id: string) | CallerAborted | PoolFailed | Unavailable

  // ---------------------------------------------------------------- one turn

  predicate Cooling(cooldowns: map<string, Cooldown>, id: string, now: int) {
    id in cooldowns && cooldowns[id].until > now
  }

  predicate Usable(pool: Pool, a: Account, now: int) {
    a.enabled && !a.limited && !Cooling(pool.cooldowns, a.id, now)
  }

  /** Asking for an account's cooldown drops an expired one. */
  function Purge(cooldowns: map<string, Cooldown>, accounts: seq<Account>, now: int): map<string, Cooldown>
    decreases |accounts|
  {
    if accounts == [] then cooldowns
    else
      var before := Purge(cooldowns, accounts[..|accounts| - 1], now);
      var a := accounts[|accounts| - 1];
      if a.enabled && !a.limited && !Cooling(before, a.id, now) then before - {a.id} else before
  }

  function Available(pool: Pool, accounts: seq<Account>, tried: seq<string>, now: int): (r: seq<string>)
    decreases |accounts|
  {
    if accounts == [] then []
    else
      var a := accounts[|accounts| - 1];
      Available(pool, accounts[..|accounts| - 1], tried, now)
      + (if Usable(pool, a, now) && a.id !in tried then [a.id] else [])
  }

  function MinDepth(m: map<string, nat>, ids: seq<string>): nat
    requires ids != []
    decreases |ids|
  {
    var last := Depth(m, ids[|ids| - 1]);
    if |ids| == 1 then last
    else
      var before := MinDepth(m, ids[..|ids| - 1]);
      if last < before then last else before
  }

  lemma {:induction false} MinDepthIsAttained(m: map<string, nat>, ids: seq<string>)
    requires ids != []
    ensures exists i :: 0 <= i < |ids| && Depth(m, ids[i]) == MinDepth(m, ids)
    ensures forall i :: 0 <= i < |ids| ==> MinDepth(m, ids) <= Depth(m, ids[i])
    decreases |ids|
  {
    if |ids| > 1 {
      var init := ids[..|ids| - 1];
      MinDepthIsAttained(m, init);
      var i :| 0 <= i < |init| && Depth(m, init[i]) == MinDepth(m, init);
      assert ids[i] == init[i];
      assert forall j :: 0 <= j < |init| ==> ids[j] == init[j];
    }
    assert MinDepth(m, ids) == Depth(m, ids[|ids| - 1]) || |ids| > 1;
  }

  lemma {:induction false} WithDepthMembers(m: map<string, nat>, ids: seq<string>, depth: nat)
    ensures forall id :: id in WithDepth(m, ids, depth) <==> id in ids && Depth(m, id) == depth
    decreases |ids|
  {
    if ids != [] {
      WithDepthMembers(m, ids[..|ids| - 1], depth);
      assert ids == ids[..|ids| - 1] + [ids[|ids| - 1]];
    }
  }

  lemma SomeLeastBusy(m: map<string, nat>, ids: seq<string>)
    requires ids != []
    ensures WithDepth(m, ids, MinDepth(m, ids)) != []
    ensures forall id :: id in WithDepth(m, ids, MinDepth(m, ids)) ==> LeastBusy(m, ids, id)
  {
    MinDepthIsAttained(m, ids);
    WithDepthMembers(m, ids, MinDepth(m, ids));
    var i :| 0 <= i < |ids| && Depth(m, ids[i]) == MinDepth(m, ids);
    assert ids[i] in WithDepth(m, ids, MinDepth(m, ids));
  }

  /** `selectRealDebridAccount`: the sticky account while its batch lasts, else by the cursor, among the least busy. */
  function Select(pool: Pool, available: seq<string>): (id: string)
    requires available != []
    ensures LeastBusy(pool.inFlight, available, id)
  {
    var leastBusy := WithDepth(pool.inFlight, available, MinDepth(pool.inFlight, available));
    SomeLeastBusy(pool.inFlight, available);
    if pool.stickyId in leastBusy && pool.stickyCount < STICKY_LINKS then pool.stickyId
    else leastBusy[pool.cursor % |leastBusy|]
  }

  function Choose(pool: Pool, available: seq<string>, rule: Option<seq<string>>): (id: string)
    requires available != []
    ensures id in available
  {
    match rule
    case Some(ids) =>
      OrderedMembers(ids, available);
      assert available[0] in Ordered(ids, available);
      Ordered(ids, available)[0]
    case None => Select(pool, available)
  }

  /** The state after a link was served by an account. */
  function OnServed(pool: Pool, id: string, available: seq<string>): Pool
    requires id in available
  {
    var count := if pool.stickyId == id then pool.stickyCount + 1 else 1;
    Pool(pool.cooldowns - {id}, pool.inFlight,
         if count >= STICKY_LINKS then (IndexIn(available, id) + 1) % |available| else pool.cursor,
         id, count)
  }

  /** The state after an account failed so that another one is tried; a single account is not parked for a temporary
      failure. */
  function OnRotate(pool: Pool, id: string, available: seq<string>, category: Category, cooldownMs: nat, at: int,
                    enabledAccounts: nat): Pool
    requires id in available
  {
    Pool(if !category.Temporary? || enabledAccounts > 1
           then pool.cooldowns[id := Cooldown(at + Max(1000, cooldownMs), category)] else pool.cooldowns,
         pool.inFlight, IndexIn(available, id) % Max(1, |available| - 1), "", 0)
  }

  function EnterPool(pool: Pool, id: string): Pool { pool.(inFlight := Enter(pool.inFlight, id)) }

  function LeavePool(pool: Pool, id: string): Pool { pool.(inFlight := Leave(pool.inFlight, id)) }

  /** The account a call is inside of, and the list it was selected from. */
  datatype Selection = Selection(id: string, available: seq<string>)

  type Attempt = s: Selection | s.id in s.available witness Selection("", [""])

  datatype Begun = Over(ending: Ending) | Inside(attempt: Attempt)

  /** A turn of the failover loop up to the await inside its attempt. */
  function BeginTurn(pool: Pool, accounts: seq<Account>, rule: Option<seq<string>>, tried: seq<string>, aborted: bool,
                     now: int): (Pool, Begun)
  {
    if aborted then (pool, Over(CallerAborted))
    else
      var looked := pool.(cooldowns := Purge(pool.cooldowns, accounts, now));
      var available := Available(pool, accounts, tried, now);
      if available == [] then (looked, Over(if tried == [] then Unavailable else PoolFailed))
      else
        var id := Choose(looked, available, rule);
        (EnterPool(looked, id), Inside(Selection(id, available)))
  }

  /** What follows the await, on whatever the pool has become meanwhile; no ending means another turn. */
  function EndTurn(pool: Pool, attempt: Attempt, answer: Answer, failedAt: int, enabledAccounts: nat)
    : (Pool, Option<Ending>)
  {
    var id := attempt.id;
    match answer
    case Served => (LeavePool(OnServed(pool, id, attempt.available), id), Some(Done(id)))
    case Refused => (LeavePool(pool, id), Some(Failed(id)))
    case Rotate(category, ms) =>
      (LeavePool(OnRotate(pool, id, attempt.available, category, ms, failedAt, enabledAccounts), id), None)
  }

  function EnabledCount(accounts: seq<Account>): nat
    decreases |accounts|
  {
    if accounts == [] then 0
    else EnabledCount(accounts[..|accounts| - 1]) + (if accounts[|accounts| - 1].enabled then 1 else 0)
  }

  /** How many accounts are still untried. */
  function Untried(accounts: seq<Account>, tried: seq<string>): nat
    decreases |accounts|
  {
    if accounts == [] then 0
    else Untried(accounts[..|accounts| - 1], tried) + (if accounts[|accounts| - 1].id !in tried then 1 else 0)
  }

  ghost predicate UsableId(pool: Pool, accounts: seq<Account>, now: int, id: string) {
    exists k :: 0 <= k < |accounts| && accounts[k].id == id && Usable(pool, accounts[k], now)
  }

  lemma {:induction false} AvailableMembers(pool: Pool, accounts: seq<Account>, tried: seq<string>, now: int)
    ensures forall id ::
              id in Available(pool, accounts, tried, now) <==> id !in tried && UsableId(pool, accounts, now, id)
    decreases |accounts|
  {
    hide Usable;
    if accounts != [] {
      var n := |accounts| - 1;
      var init := accounts[..n];
      AvailableMembers(pool, init, tried, now);
      forall id ensures UsableId(pool, accounts, now, id) <==>
                        (accounts[n].id == id && Usable(pool, accounts[n], now)) || UsableId(pool, init, now, id)
      {
        if k :| 0 <= k < |accounts| && accounts[k].id == id && Usable(pool, accounts[k], now) {
          if k < n { assert init[k] == accounts[k]; }
        }
        if k :| 0 <= k < n && init[k].id == id && Usable(pool, init[k], now) {
          assert accounts[k] == init[k];
        }
      }
    }
  }

  lemma {:induction false} TryingLeavesFewer(accounts: seq<Account>, tried: seq<string>, id: string)
    ensures Untried(accounts, tried + [id]) <= Untried(accounts, tried)
    ensures id !in tried && (exists k :: 0 <= k < |accounts| && accounts[k].id == id) ==>
              Untried(accounts, tried + [id]) < Untried(accounts, tried)
    decreases |accounts|
  {
    if accounts != [] {
      var n := |accounts| - 1;
      TryingLeavesFewer(accounts[..n], tried, id);
      if k :| 0 <= k < |accounts| && accounts[k].id == id {
        if k < n { assert accounts[..n][k].id == id; }
      }
    }
  }

  // ---------------------------------------------------------------- a whole call

  /** `pruneRealDebridRuntimeStateForAccounts`: forget what belongs to accounts that are no longer configured. */
  function Pruned(pool: Pool, active: set<string>): Pool {
    var orphaned := pool.stickyId != "" && pool.stickyId !in active;
    Pool(map id | id in pool.cooldowns && id in active :: pool.cooldowns[id],
         Prune(pool.inFlight, active),
         if active == {} then 0 else pool.cursor % |active|,
         if orphaned then "" else pool.stickyId,
         if orphaned then 0 else pool.stickyCount)
  }

  datatype Outcome = Outcome(pool: Pool, tried: seq<string>, ending: Ending)

  /** What one turn of the failover loop does: end the call, or leave an account behind. */
  datatype Round = Ends(outcome: Outcome) | Again(pool: Pool, id: string)

  function OneTurn(pool: Pool, accounts: seq<Account>, rule: Option<seq<string>>, t: Turn, tried: seq<string>): Round {
    var (entered, begun) := BeginTurn(pool, accounts, rule, tried, t.aborted, t.now);
    match begun
    case Over(ending) => Ends(Outcome(entered, tried, ending))
    case Inside(attempt) =>
      var (left, ending) := EndTurn(entered, attempt, t.answer, t.failedAt, EnabledCount(accounts));
      if ending.Some? then Ends(Outcome(left, tried + [attempt.id], ending.value)) else Again(left, attempt.id)
  }

  lemma AgainTriesAnother(pool: Pool, accounts: seq<Account>, rule: Option<seq<string>>, t: Turn, tried: seq<string>)
    requires OneTurn(pool, accounts, rule, t, tried).Again?
    ensures var id := OneTurn(pool, accounts, rule, t, tried).id;
            && id !in tried && UsableId(pool, accounts, t.now, id)
            && Untried(accounts, tried + [id]) < Untried(accounts, tried)
  {
    hide Choose;
    AvailableMembers(pool, accounts, tried, t.now);
    TryingLeavesFewer(accounts, tried, OneTurn(pool, accounts, rule, t, tried).id);
  }

  /** The failover loop of one call, from the accounts already tried; other calls hold still. */
  function Call(pool: Pool, accounts: seq<Account>, rule: Option<seq<string>>, turns: nat -> Turn, tried: seq<string>)
    : Outcome
    decreases Untried(accounts, tried)
  {
    match OneTurn(pool, accounts, rule, turns(|tried|), tried)
    case Ends(outcome) => outcome
    case Again(next, id) =>
      AgainTriesAnother(pool, accounts, rule, turns(|tried|), tried);
      Call(next, accounts, rule, turns, tried + [id])
  }
}
