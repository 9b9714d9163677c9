/** Account rotation for Mega-Debrid (src/main/debrid.ts:313-341, 372-382, 398-454, 2366-2446, 2456-2471, 2549-2567,
    2609-2620). */
module MegaDebridModel {
  import opened Common
  import opened Lists
  import opened InFlight
  import opened AccountRules

  datatype Cooldown = Cooldown(until: int, parked: bool)

  /** What the loop sees when it looks at an account: the accounts switched off or over their daily limit, cooldowns and
      loads as all calls have left them, and the clock. */
  datatype Sight = Sight(off: set<string>, cooldowns: map<string, Cooldown>, inFlight: map<string, nat>, now: nat)

  datatype Block = Free | Off | Cooling(until: int, parked: bool)

  function BlockOf(t: Sight, id: string): Block {
    if id in t.off then Off
    else if id in t.cooldowns && t.cooldowns[id].until > t.now then
      Cooling(t.cooldowns[id].until, t.cooldowns[id].parked)
    else Free
  }

  predicate IsFree(t: Sight, id: string) { BlockOf(t, id).Free? }

  // ---------------------------------------------------------------- the order of a call

  function Insert(sorted: seq<string>, id: string, m: map<string, nat>): seq<string> {
    if sorted != [] && Depth(m, id) < Depth(m, sorted[|sorted| - 1])
    then Insert(sorted[..|sorted| - 1], id, m) + [sorted[|sorted| - 1]]
    else sorted + [id]
  }

  /** The stable sort by load. */
  function ByDepth(ids: seq<string>, m: map<string, nat>): seq<string> {
    if ids == [] then [] else Insert(ByDepth(ids[..|ids| - 1], m), ids[|ids| - 1], m)
  }

  /** The accounts from the cursor on, round to the one before it. */
  function CursorOrder(ids: seq<string>, cursor: nat): seq<string>
    requires ids != []
  {
    Rotation(ids, cursor % |ids|)
  }

  ghost predicate SortedByDepth(ids: seq<string>, m: map<string, nat>) {
    forall i, j :: 0 <= i < j < |ids| ==> Depth(m, ids[i]) <= Depth(m, ids[j])
  }

  lemma {:induction false} InsertSorts(sorted: seq<string>, id: string, m: map<string, nat>)
    requires SortedByDepth(sorted, m)
    ensures SortedByDepth(Insert(sorted, id, m), m)
    ensures forall x :: x in Insert(sorted, id, m) <==> x in sorted || x == id
  {
    if sorted != [] && Depth(m, id) < Depth(m, sorted[|sorted| - 1]) {
      var init := sorted[..|sorted| - 1];
      assert sorted == init + [sorted[|sorted| - 1]];
      InsertSorts(init, id, m);
      var r := Insert(init, id, m);
      forall i | 0 <= i < |r| ensures Depth(m, r[i]) <= Depth(m, sorted[|sorted| - 1]) {
        assert r[i] in r;
      }
    } else {
      assert forall i :: 0 <= i < |sorted| ==> Depth(m, sorted[i]) <= Depth(m, id);
    }
  }

  lemma {:induction false} InsertKeepsGroups(sorted: seq<string>, id: string, m: map<string, nat>, depth: nat)
    requires SortedByDepth(sorted, m)
    ensures WithDepth(m, Insert(sorted, id, m), depth)
            == WithDepth(m, sorted, depth) + (if Depth(m, id) == depth then [id] else [])
  {
    if sorted != [] && Depth(m, id) < Depth(m, sorted[|sorted| - 1]) {
      var init, last := sorted[..|sorted| - 1], sorted[|sorted| - 1];
      InsertKeepsGroups(init, id, m, depth);
      assert Insert(sorted, id, m)[..|Insert(init, id, m)|] == Insert(init, id, m);
      if Depth(m, id) == depth { assert Depth(m, last) != depth; }
    } else {
      assert (sorted + [id])[..|sorted|] == sorted;
    }
  }

  /** The order of a call is sorted by load, keeps the cursor order among equally loaded accounts, and has the same
      accounts. */
  lemma {:induction false} ByDepthIsStableSort(ids: seq<string>, m: map<string, nat>)
    ensures SortedByDepth(ByDepth(ids, m), m)
    ensures forall x :: x in ByDepth(ids, m) <==> x in ids
    ensures forall depth :: WithDepth(m, ByDepth(ids, m), depth) == WithDepth(m, ids, depth)
    ensures |ByDepth(ids, m)| == |ids|
  {
    hide Depth;
    if ids != [] {
      var init, last := ids[..|ids| - 1], ids[|ids| - 1];
      assert ids == init + [last];
      ByDepthIsStableSort(init, m);
      InsertSorts(ByDepth(init, m), last, m);
      InsertLength(ByDepth(init, m), last, m);
      forall depth ensures WithDepth(m, ByDepth(ids, m), depth) == WithDepth(m, ids, depth) {
        InsertKeepsGroups(ByDepth(init, m), last, m, depth);
      }
    }
  }

  lemma {:induction false} InsertLength(sorted: seq<string>, id: string, m: map<string, nat>)
    ensures |Insert(sorted, id, m)| == |sorted| + 1
  {
    if sorted != [] { InsertLength(sorted[..|sorted| - 1], id, m); }
  }

  /** The accounts in the order in which a call goes through them. */
  function StartOrder(ids: seq<string>, rule: Option<seq<string>>, cursor: nat, m: map<string, nat>): seq<string>
    requires ids != []
  {
    match rule
    case Some(order) => Ordered(order, ids)
    case None => ByDepth(CursorOrder(ids, cursor), m)
  }

  // ---------------------------------------------------------------- the account loop

  /** Looked at: skipped while blocked, or tried. */
  datatype Visit = Visit(id: string, block: Block)

  datatype Search = Search(order: seq<string>, pos: nat, visits: seq<Visit>, earliest: int, parkedSeen: bool)

  function StartSearch(order: seq<string>): Search { Search(order, 0, [], 0, false) }

  /** How a call ends; `at` is the clock when the retry time is computed. */
  datatype Ending =
    | Done(id: string)
    | Thrown(id: string)
    | SlowLink(id: string)
    | AbortedWaiting
    | RetryIn(ms: int, at: nat)
    | ParkedUntilReset(ms: int)
    | NothingUsable
    | NothingConfigured
    | AllFailed

  function FirstIdle(order: seq<string>, pos: nat, t: Sight): (k: nat)
    requires pos <= |order|
    ensures pos <= k <= |order|
    ensures k < |order| ==> IsFree(t, order[k]) && Depth(t.inFlight, order[k]) == 0
    ensures forall j :: pos <= j < k ==> !(IsFree(t, order[j]) && Depth(t.inFlight, order[j]) == 0)
    decreases |order| - pos
  {
    if pos == |order| || (IsFree(t, order[pos]) && Depth(t.inFlight, order[pos]) == 0) then pos
    else FirstIdle(order, pos + 1, t)
  }

  predicate AnyFree(order: seq<string>, pos: nat, t: Sight)
    requires pos <= |order|
  {
    exists j :: pos <= j < |order| && IsFree(t, order[j])
  }

  /** The two splices: the entry at k moves to pos. */
  function MoveTo(order: seq<string>, k: nat, pos: nat): seq<string>
    requires pos <= k < |order|
  {
    order[..pos] + [order[k]] + order[pos..k] + order[k + 1..]
  }

  datatype Seen = Skipped(s: Search) | Attempts(s: Search, id: string) | Busy(s: Search)

  /** One account is looked at. */
  function Look(s: Search, t: Sight): Seen
    requires s.pos < |s.order|
  {
    var id := s.order[s.pos];
    var block := BlockOf(t, id);
    var next := s.(pos := s.pos + 1, visits := s.visits + [Visit(id, block)]);
    match block
    case Off => Skipped(next)
    case Cooling(until, parked) =>
      Skipped(if parked then next.(parkedSeen := true)
              else if s.earliest == 0 || until < s.earliest then next.(earliest := until)
              else next)
    case Free => Attempts(next, id)
  }

  /** One turn of the loop; in priority mode the first usable idle account comes forward, and if the usable ones are all
      busy the call waits. */
  function Turned(s: Search, priority: bool, t: Sight): Seen
    requires s.pos < |s.order|
  {
    if !priority then Look(s, t)
    else
      var k := FirstIdle(s.order, s.pos, t);
      if k < |s.order| then Look(s.(order := MoveTo(s.order, k, s.pos)), t)
      else if AnyFree(s.order, s.pos, t) then Busy(s)
      else Look(s, t)
  }

  predicate Tried(v: Visit) { v.block.Free? }

  predicate UsableSeen(visits: seq<Visit>) { exists i :: 0 <= i < |visits| && Tried(visits[i]) }

  predicate CoolingSeen(visits: seq<Visit>) { exists i :: 0 <= i < |visits| && visits[i].block.Cooling? }

  /** Settings, clock and next midnight at the moment the loop looks at a position, and at its end. */
  datatype Glance = Glance(off: set<string>, now: nat, midnight: int)

  /** What a call throws when it has gone through all accounts. */
  function Exhausted(s: Search, g: Glance): Ending {
    if UsableSeen(s.visits) then AllFailed
    else if CoolingSeen(s.visits) && s.earliest > g.now then RetryIn(Max(1000, s.earliest - g.now + 1000), g.now)
    else if s.parkedSeen then ParkedUntilReset(Max(1000, ParkExpiry(g.now, g.midnight) - g.now + 1000))
    else NothingUsable
  }

  // ---------------------------------------------------------------- shared state

  datatype Shared = Shared(
    cooldowns: map<string, Cooldown>,
    streaks: map<string, nat>,
    cursor: nat,
    stickyCount: nat,
    inFlight: map<string, nat>)

  const Fresh: Shared := Shared(map[], map[], 0, 0, map[])

  const STICKY_LINKS: nat := 25
  const STREAK_LIMIT: nat := 10
  const ACCOUNT_COOLDOWN_MS: nat := 120000

  function SightOf(shared: Shared, g: Glance): Sight { Sight(g.off, shared.cooldowns, shared.inFlight, g.now) }

  /** Where a call stands when it gives up control: inside an attempt, waiting for a busy account, or over. */
  datatype Phase = Inside(id: string) | Sleeping | Over(ending: Ending)

  /** The loop runs, without interruption, up to its next await or its end. */
  function Advance(shared: Shared, s: Search, priority: bool, glances: nat -> Glance): (Search, Phase)
    requires s.pos <= |s.order|
    decreases |s.order| - s.pos
  {
    if s.pos == |s.order| then (s, Over(Exhausted(s, glances(s.pos))))
    else
      TurnedMovesOn(s, priority, SightOf(shared, glances(s.pos)));
      match Turned(s, priority, SightOf(shared, glances(s.pos)))
      case Skipped(next) => Advance(shared, next, priority, glances)
      case Attempts(next, id) => (next, Inside(id))
      case Busy(next) => (next, Sleeping)
  }

  lemma TurnedMovesOn(s: Search, priority: bool, t: Sight)
    requires s.pos < |s.order|
    ensures var seen := Turned(s, priority, t);
            && |seen.s.order| == |s.order| && seen.s.pos == (if seen.Busy? then s.pos else s.pos + 1)
            && (seen.Busy? ==> seen.s == s)
  {
    hide BlockOf, IsFree;
  }

  /** Parking lasts to the next local midnight, and at least two minutes. */
  function ParkExpiry(now: int, midnight: int): int { Max(midnight, now + ACCOUNT_COOLDOWN_MS) }

  function SetCooldown(m: map<string, Cooldown>, id: string, cooldownMs: int, park: bool, now: int, midnight: int)
    : map<string, Cooldown>
  {
    if park then m[id := Cooldown(ParkExpiry(now, midnight), true)]
    else if cooldownMs <= 0 then m - {id}
    else m[id := Cooldown(now + Max(1000, cooldownMs), false)]
  }

  function OnServed(s: Shared, id: string, idx: nat): Shared {
    var count := s.stickyCount + 1;
    s.(cooldowns := s.cooldowns - {id}, streaks := s.streaks - {id},
       cursor := if count >= STICKY_LINKS then idx + 1 else idx,
       stickyCount := if count >= STICKY_LINKS then 0 else count)
  }

  /** A failure that does not abort; `limitSignal` is an answer that hints at the daily limit. */
  function OnFailure(s: Shared, id: string, limitSignal: bool, cooldownMs: int, now: int, midnight: int): Shared {
    var streak := (if id in s.streaks then s.streaks[id] else 0) + 1;
    var streaks := if limitSignal then s.streaks[id := streak] else s.streaks - {id};
    s.(streaks := streaks,
       cooldowns := SetCooldown(s.cooldowns, id, cooldownMs, limitSignal && streak >= STREAK_LIMIT, now, midnight))
  }

  /** What an attempt came to, already classified; an abort may have run long enough to count against the account. */
  datatype Answer =
    | Served
    | Aborted(ranLong: bool, g: Glance)
    | Failure(limitSignal: bool, cooldownMs: int, fatal: bool, now: int, midnight: int)

  /** Another account of the order could take over. */
  predicate OtherUsable(order: seq<string>, id: string, t: Sight) {
    exists i :: 0 <= i < |order| && order[i] != id && IsFree(t, order[i])
  }

  /** What follows the await of an attempt, up to its `finally` handler; no ending means that the loop goes on. */
  function EndAttempt(shared: Shared, ids: seq<string>, order: seq<string>, id: string, answer: Answer)
    : (Shared, Option<Ending>)
  {
    var (left, ending) :=
      match answer
      case Served => (OnServed(shared, id, if id in ids then IndexIn(ids, id) else 0), Some(Done(id)))
      case Aborted(ranLong, g) =>
        if ranLong && OtherUsable(order, id, SightOf(shared, g))
        then (shared.(cooldowns := SetCooldown(shared.cooldowns, id, ACCOUNT_COOLDOWN_MS, false, g.now, g.midnight)),
              Some(Thrown(id)))
        else (shared, Some(if ranLong then SlowLink(id) else Thrown(id)))
      case Failure(limitSignal, ms, fatal, now, midnight) =>
        (OnFailure(shared, id, limitSignal, ms, now, midnight), if fatal then Some(Thrown(id)) else None);
    (left.(inFlight := Leave(left.inFlight, id)), ending)
  }
}
