/** The account loop of one Mega-Debrid call: order, retry time and first attempt. */
module MegaDebridTheorems {
  import opened Common
  import opened Lists
  import opened InFlight
  import opened AccountRules
  import opened MegaDebridModel

  // ---------------------------------------------------------------- nothing is visited twice or left out

  function Ids(visits: seq<Visit>): seq<string> { seq(|visits|, i requires 0 <= i < |visits| => visits[i].id) }

  /** The ids of a list that are not in another, in order. */
  function Except(ids: seq<string>, gone: seq<string>): seq<string> {
    if ids == [] then []
    else Except(ids[..|ids| - 1], gone) + (if ids[|ids| - 1] in gone then [] else [ids[|ids| - 1]])
  }

  lemma {:induction false} ExceptOneMore(ids: seq<string>, gone: seq<string>, x: string)
    ensures Except(ids, gone + [x]) == Minus(Except(ids, gone), x)
  {
    if ids != [] {
      var init, last := ids[..|ids| - 1], ids[|ids| - 1];
      ExceptOneMore(init, gone, x);
      MinusSplit(Except(init, gone), if last in gone then [] else [last], x);
      MinusOne(last, x);
    }
  }

  lemma {:induction false} ExceptNothing(ids: seq<string>)
    ensures Except(ids, []) == ids
  {
    if ids != [] {
      ExceptNothing(ids[..|ids| - 1]);
      assert ids == ids[..|ids| - 1] + [ids[|ids| - 1]];
    }
  }

  /** The visited accounts stand first, in the order of their visits; the others follow in their original order. */
  ghost predicate Orderly(start: seq<string>, s: Search) {
    && s.pos == |s.visits| && s.pos <= |s.order|
    && s.order == Ids(s.visits) + Except(start, Ids(s.visits))
    && Distinct(s.order)
    && (forall x :: x in s.order <==> x in start)
  }

  lemma MoveKeepsDistinct(order: seq<string>, k: nat, pos: nat)
    requires pos <= k < |order| && Distinct(order)
    ensures Distinct(MoveTo(order, k, pos))
  {}

  lemma MoveKeepsMembers(order: seq<string>, k: nat, pos: nat)
    requires pos <= k < |order|
    ensures forall x :: x in MoveTo(order, k, pos) <==> x in order
  {
    assert order == order[..pos] + order[pos..k] + [order[k]] + order[k + 1..];
  }

  lemma MoveInSuffix(a: seq<string>, rest: seq<string>, j: nat)
    requires j < |rest|
    ensures MoveTo(a + rest, |a| + j, |a|) == a + [rest[j]] + Without(rest, j)
  {}

  lemma VisitIds(visits: seq<Visit>, v: Visit)
    ensures Ids(visits + [v]) == Ids(visits) + [v.id]
  {}

  lemma DistinctSuffix(a: seq<string>, rest: seq<string>)
    requires Distinct(a + rest)
    ensures Distinct(rest)
  {
    assert forall i :: 0 <= i < |rest| ==> rest[i] == (a + rest)[|a| + i];
  }

  lemma MoveIsOrderly(start: seq<string>, s: Search, k: nat, block: Block)
    requires Orderly(start, s) && s.pos <= k < |s.order|
    ensures var order := MoveTo(s.order, k, s.pos);
            var ids := Ids(s.visits + [Visit(s.order[k], block)]);
            && |ids| == |s.visits| + 1 && order == ids + Except(start, ids)
            && Distinct(order)
            && (forall x :: x in order <==> x in start)
  {
    hide Except, Minus, Distinct, Without, MoveTo;
    var a := Ids(s.visits);
    var rest := Except(start, a);
    var j := k - s.pos;
    assert s.order[k] == rest[j];
    MoveInSuffix(a, rest, j);
    DistinctSuffix(a, rest);
    MinusAt(rest, j);
    ExceptOneMore(start, a, rest[j]);
    VisitIds(s.visits, Visit(rest[j], block));
    MoveKeepsDistinct(s.order, k, s.pos);
    MoveKeepsMembers(s.order, k, s.pos);
  }

  lemma MoveInPlace(order: seq<string>, pos: nat)
    requires pos < |order|
    ensures MoveTo(order, pos, pos) == order
  {}

  lemma MoveHits(order: seq<string>, k: nat, pos: nat)
    requires pos <= k < |order|
    ensures |MoveTo(order, k, pos)| == |order| && MoveTo(order, k, pos)[pos] == order[k]
  {}

  lemma LookIsOrderly(start: seq<string>, s: Search, k: nat, t: Sight)
    requires Orderly(start, s) && s.pos <= k < |s.order|
    ensures Orderly(start, Look(s.(order := MoveTo(s.order, k, s.pos)), t).s)
  {
    hide Except, Ids, BlockOf, Distinct, MoveTo;
    MoveHits(s.order, k, s.pos);
    MoveIsOrderly(start, s, k, BlockOf(t, s.order[k]));
  }

  lemma TurnIsOrderly(start: seq<string>, s: Search, priority: bool, t: Sight)
    requires Orderly(start, s) && s.pos < |s.order|
    ensures Orderly(start, Turned(s, priority, t).s)
  {
    hide Orderly, Look, MoveTo, IsFree;
    var k := if priority && FirstIdle(s.order, s.pos, t) < |s.order| then FirstIdle(s.order, s.pos, t) else s.pos;
    LookIsOrderly(start, s, k, t);
    MoveInPlace(s.order, s.pos);
    assert s.(order := s.order) == s;
  }

  /** The splices permute only the accounts not yet visited: no account is visited twice, and none is lost. */
  lemma {:induction false} AdvanceIsOrderly(start: seq<string>, shared: Shared, s: Search, priority: bool,
                                            glances: nat -> Glance)
    requires Orderly(start, s) && s.pos <= |s.order|
    ensures Orderly(start, Advance(shared, s, priority, glances).0)
    decreases |s.order| - s.pos
  {
    hide Orderly, Turned, Exhausted;
    if s.pos < |s.order| {
      var t := SightOf(shared, glances(s.pos));
      TurnIsOrderly(start, s, priority, t);
      TurnedMovesOn(s, priority, t);
      var seen := Turned(s, priority, t);
      if seen.Skipped? { AdvanceIsOrderly(start, shared, seen.s, priority, glances); }
    }
  }

  lemma StartIsOrderly(start: seq<string>)
    requires Distinct(start)
    ensures Orderly(start, StartSearch(start))
  {
    ExceptNothing(start);
  }

  lemma OrderlyVisits(start: seq<string>, s: Search)
    requires Orderly(start, s)
    ensures var visited := Ids(s.visits);
            && Distinct(visited)
            && (forall x :: x in visited ==> x in start)
            && (s.pos == |s.order| ==> forall x :: x in start ==> x in visited)
  {
    var visited := Ids(s.visits);
    assert s.order[..|visited|] == visited;
    assert forall i :: 0 <= i < |visited| ==> s.order[i] == visited[i];
    if s.pos == |s.order| { assert s.order == visited; }
  }

  /** Automatic mode goes through the order it computed at the start. */
  lemma {:induction false} AutomaticKeepsOrder(shared: Shared, s: Search, glances: nat -> Glance)
    requires s.pos <= |s.order|
    ensures Advance(shared, s, false, glances).0.order == s.order && !Advance(shared, s, false, glances).1.Sleeping?
    decreases |s.order| - s.pos
  {
    hide BlockOf, Exhausted;
    if s.pos < |s.order| {
      var seen := Turned(s, false, SightOf(shared, glances(s.pos)));
      if seen.Skipped? { AutomaticKeepsOrder(shared, seen.s, glances); }
    }
  }

  /** An attempt is the last visit of the loop so far; a call that is over has ended as its visits say. */
  lemma {:induction false} AdvanceEnds(shared: Shared, s: Search, priority: bool, glances: nat -> Glance)
    requires s.pos <= |s.order| && s.pos == |s.visits|
    ensures var (n, phase) := Advance(shared, s, priority, glances);
            && n.pos <= |n.order| && n.pos == |n.visits|
            && (phase.Inside? ==> n.visits != [] && n.visits[|n.visits| - 1] == Visit(phase.id, Free))
            && (phase.Over? ==> n.pos == |n.order| && phase.ending == Exhausted(n, glances(n.pos)))
    decreases |s.order| - s.pos
  {
    hide Exhausted, MoveTo, BlockOf, IsFree;
    if s.pos < |s.order| {
      var t := SightOf(shared, glances(s.pos));
      var seen := Turned(s, priority, t);
      TurnedMovesOn(s, priority, t);
      TurnedVisits(s, priority, t);
      hide Turned;
      if seen.Skipped? { AdvanceEnds(shared, seen.s, priority, glances); }
    }
  }

  lemma TurnedVisits(s: Search, priority: bool, t: Sight)
    requires s.pos < |s.order| && s.pos == |s.visits|
    ensures var seen := Turned(s, priority, t);
            && |seen.s.visits| == seen.s.pos
            && (seen.Attempts? ==> seen.s.visits[s.pos] == Visit(seen.id, Free))
            && (seen.Skipped? ==> !Tried(seen.s.visits[s.pos]))
  {
    hide BlockOf, IsFree;
  }

  lemma PriorityTurn(s: Search, t: Sight)
    requires s.pos < |s.order| && Turned(s, true, t).Attempts?
    ensures var k := FirstIdle(s.order, s.pos, t); k < |s.order| && Turned(s, true, t).id == s.order[k]
  {
    hide BlockOf, Depth;
  }

  lemma RestOfOrder(start: seq<string>, s: Search)
    requires Orderly(start, s)
    ensures s.order[s.pos..] == Except(start, Ids(s.visits))
  {
    hide Except, Distinct;
  }

  /** A turn of priority mode that tries an account tries the first one, in the rule's order of those not yet visited,
      that is usable and idle at that moment. */
  lemma PriorityTriesFirstIdle(start: seq<string>, s: Search, t: Sight)
    requires Orderly(start, s) && s.pos < |s.order| && Turned(s, true, t).Attempts?
    ensures var id := Turned(s, true, t).id;
            var rest := Except(start, Ids(s.visits));
            exists j :: 0 <= j < |rest| && rest[j] == id && IsFree(t, id) && Depth(t.inFlight, id) == 0
                        && forall i :: 0 <= i < j ==> !(IsFree(t, rest[i]) && Depth(t.inFlight, rest[i]) == 0)
  {
    hide Except, Turned, IsFree, Depth, Orderly, Ids;
    PriorityTurn(s, t);
    RestOfOrder(start, s);
    var rest := s.order[s.pos..];
    var k := FirstIdle(s.order, s.pos, t);
    var j := k - s.pos;
    assert rest[j] == s.order[k];
    assert forall i :: 0 <= i < j ==> rest[i] == s.order[s.pos + i];
  }

  // ---------------------------------------------------------------- the retry time

  /** The record the loop keeps of the cooldowns it met. */
  ghost predicate Noted(s: Search) {
    && (s.earliest != 0 ==> exists i :: 0 <= i < |s.visits| && s.visits[i].block == Cooling(s.earliest, false))
    && (forall i :: 0 <= i < |s.visits| && s.visits[i].block.Cooling? && !s.visits[i].block.parked ==>
          s.earliest != 0 && s.earliest <= s.visits[i].block.until)
    && (s.parkedSeen <==> exists i :: 0 <= i < |s.visits| && s.visits[i].block.Cooling? && s.visits[i].block.parked)
  }

  lemma NotesMore(s: Search, n: Search, block: Block)
    requires Noted(s) && |n.visits| == |s.visits| + 1 && n.visits[..|s.visits|] == s.visits
    requires n.visits[|s.visits|].block == block && (block.Cooling? ==> block.until > 0)
    requires n.parkedSeen == (s.parkedSeen || (block.Cooling? && block.parked))
    requires n.earliest == (if block.Cooling? && !block.parked && (s.earliest == 0 || block.until < s.earliest)
                            then block.until else s.earliest)
    ensures Noted(n)
  {
    assert forall i :: 0 <= i < |s.visits| ==> n.visits[i] == n.visits[..|s.visits|][i];
  }

  lemma LookNotes(s: Search, t: Sight)
    requires Noted(s) && s.pos < |s.order|
    ensures Noted(Look(s, t).s)
  {
    var n := Look(s, t).s;
    var block := BlockOf(t, s.order[s.pos]);
    assert block.Cooling? ==> block.until > 0;
    hide BlockOf, Noted;
    NotesMore(s, n, block);
  }

  lemma TurnNotes(s: Search, priority: bool, t: Sight)
    requires Noted(s) && s.pos < |s.order|
    ensures Noted(Turned(s, priority, t).s)
  {
    hide Look, MoveTo, IsFree;
    assert Noted(s.(order := s.order));
    var k := FirstIdle(s.order, s.pos, t);
    if k < |s.order| {
      MoveHits(s.order, k, s.pos);
      LookNotes(s.(order := MoveTo(s.order, k, s.pos)), t);
    }
    LookNotes(s, t);
  }

  lemma {:induction false} AdvanceNotes(shared: Shared, s: Search, priority: bool, glances: nat -> Glance)
    requires Noted(s) && s.pos <= |s.order|
    ensures Noted(Advance(shared, s, priority, glances).0)
    decreases |s.order| - s.pos
  {
    hide Noted, Exhausted, Turned;
    if s.pos < |s.order| {
      var t := SightOf(shared, glances(s.pos));
      TurnNotes(s, priority, t);
      TurnedMovesOn(s, priority, t);
      if Turned(s, priority, t).Skipped? { AdvanceNotes(shared, Turned(s, priority, t).s, priority, glances); }
    }
  }

  lemma StartNotes(start: seq<string>)
    ensures Noted(StartSearch(start))
  {}

  /** The emitted retry time is one second past the earliest cooldown met: some skipped account is then out of its
      cooldown, and a second before that none of the skipped, unparked ones is. */
  ghost predicate RetriesExactly(s: Search, ms: int, at: nat) {
    var due := at + ms - 1000;
    && due > at
    && (exists i :: 0 <= i < |s.visits| && s.visits[i].block == Cooling(due, false))
    && (forall i :: 0 <= i < |s.visits| && s.visits[i].block.Cooling? && !s.visits[i].block.parked ==>
          s.visits[i].block.until >= due)
  }

  lemma RetryIsExact(s: Search, g: Glance)
    requires Noted(s) && Exhausted(s, g).RetryIn?
    ensures RetriesExactly(s, Exhausted(s, g).ms, Exhausted(s, g).at)
  {}

  /** After the emitted time, with no new failure and the settings as they were, some skipped account is usable. */
  lemma RetryMeetsAnAccount(s: Search, ms: int, at: nat, later: Sight)
    requires RetriesExactly(s, ms, at) && later.now >= at + ms
    requires forall i :: 0 <= i < |s.visits| && s.visits[i].block.Cooling? ==>
               && s.visits[i].id !in later.off
               && (s.visits[i].id in later.cooldowns ==>
                     later.cooldowns[s.visits[i].id].until <= s.visits[i].block.until)
    ensures exists i :: 0 <= i < |s.visits| && s.visits[i].block.Cooling? && IsFree(later, s.visits[i].id)
  {
    var i :| 0 <= i < |s.visits| && s.visits[i].block == Cooling(at + ms - 1000, false);
    assert IsFree(later, s.visits[i].id);
  }

  // ---------------------------------------------------------------- the first attempt

  function Usable(ids: seq<string>, usable: set<string>): seq<string> {
    if ids == [] then []
    else Usable(ids[..|ids| - 1], usable) + (if ids[|ids| - 1] in usable then [ids[|ids| - 1]] else [])
  }

  function FirstUsable(ids: seq<string>, usable: set<string>): (r: Option<string>)
    ensures r.None? ==> forall i :: 0 <= i < |ids| ==> ids[i] !in usable
    ensures r.Some? ==> exists i :: 0 <= i < |ids| && ids[i] == r.value && ids[i] in usable
                                    && forall j :: 0 <= j < i ==> ids[j] !in usable
  {
    if ids == [] then None
    else if ids[0] in usable then Some(ids[0])
    else
      var r := FirstUsable(ids[1..], usable);
      assert forall i :: 1 <= i < |ids| ==> ids[i] == ids[1..][i - 1];
      assert r.Some? ==> forall i :: 0 <= i < |ids[1..]| ==> ids[i + 1] == ids[1..][i];
      r
  }

  lemma {:induction false} UsableMembers(ids: seq<string>, usable: set<string>)
    ensures forall x :: x in Usable(ids, usable) <==> x in ids && x in usable
  {
    if ids != [] {
      UsableMembers(ids[..|ids| - 1], usable);
      assert ids == ids[..|ids| - 1] + [ids[|ids| - 1]];
    }
  }

  lemma CursorOrderMembers(accounts: seq<string>, cursor: nat)
    requires accounts != []
    ensures forall x :: x in CursorOrder(accounts, cursor) <==> x in accounts
  {
    var start := cursor % |accounts|;
    assert accounts == accounts[..start] + accounts[start..];
  }

  /** In an order sorted by load the first usable account is a least busy one. */
  lemma FirstIsLeastBusy(order: seq<string>, usable: set<string>, m: map<string, nat>, list: seq<string>)
    requires SortedByDepth(order, m) && list != [] && forall x :: x in list <==> x in order && x in usable
    ensures var r := FirstUsable(order, usable); r.Some? && LeastBusy(m, list, r.value)
  {
    hide Depth;
    assert list[0] in list;
    var r := FirstUsable(order, usable);
    assert r.Some?;
    var i :| 0 <= i < |order| && order[i] == r.value && order[i] in usable
             && forall j :: 0 <= j < i ==> order[j] !in usable;
    forall other | other in list ensures Depth(m, r.value) <= Depth(m, other) {
      var j :| 0 <= j < |order| && order[j] == other;
      assert i <= j;
    }
  }

  /** Whatever is free at each look of the loop is what this set says. */
  ghost predicate Fixed(shared: Shared, order: seq<string>, glances: nat -> Glance, usable: set<string>) {
    forall k: nat, i :: 0 <= i < |order| ==> (IsFree(SightOf(shared, glances(k)), order[i]) <==> order[i] in usable)
  }

  /** With a fixed set of usable accounts the loop of an automatic call attempts the first usable one of what is left of
      its order, and ends if there is none. */
  lemma {:induction false} AdvanceFindsFirst(shared: Shared, s: Search, glances: nat -> Glance, usable: set<string>)
    requires s.pos <= |s.order| && Fixed(shared, s.order, glances, usable)
    ensures var first := FirstUsable(s.order[s.pos..], usable);
            var phase := Advance(shared, s, false, glances).1;
            if first.Some? then phase == Inside(first.value) else phase.Over?
    decreases |s.order| - s.pos
  {
    hide Exhausted;
    if s.pos < |s.order| {
      var t := SightOf(shared, glances(s.pos));
      var seen := Turned(s, false, t);
      assert IsFree(t, s.order[s.pos]) <==> s.order[s.pos] in usable;
      hide BlockOf;
      assert s.order[s.pos..][1..] == s.order[s.pos + 1..];
      if seen.Skipped? { AdvanceFindsFirst(shared, seen.s, glances, usable); }
    }
  }

  /** The first usable account of a call's automatic order is a least busy one among the usable accounts. */
  lemma FirstOfOrderIsLeastBusy(ids: seq<string>, cursor: nat, usable: set<string>, m: map<string, nat>)
    requires ids != [] && Usable(ids, usable) != []
    ensures var r := FirstUsable(StartOrder(ids, None, cursor, m), usable);
            r.Some? && LeastBusy(m, Usable(ids, usable), r.value)
  {
    hide ByDepth, Depth, Usable, CursorOrder, WithDepth, FirstUsable, LeastBusy, SortedByDepth;
    var c := CursorOrder(ids, cursor);
    CursorOrderMembers(ids, cursor);
    ByDepthIsStableSort(c, m);
    UsableMembers(ids, usable);
    FirstIsLeastBusy(ByDepth(c, m), usable, m, Usable(ids, usable));
  }

  /** With nothing in flight that order is the cursor's. */
  lemma IdleOrderIsCursorOrder(ids: seq<string>, cursor: nat, m: map<string, nat>)
    requires ids != [] && m == map[]
    ensures StartOrder(ids, None, cursor, m) == Rotation(ids, cursor % |ids|)
  {
    AllIdle(CursorOrder(ids, cursor), m);
  }

  lemma {:induction false} AllIdle(ids: seq<string>, m: map<string, nat>)
    requires m == map[]
    ensures ByDepth(ids, m) == ids
  {
    if ids != [] {
      AllIdle(ids[..|ids| - 1], m);
      assert ids == ids[..|ids| - 1] + [ids[|ids| - 1]];
    }
  }

  /** A call's order is a permutation of its accounts, by rule or not. */
  lemma StartOrderIsPermutation(ids: seq<string>, rule: Option<seq<string>>, cursor: nat, m: map<string, nat>)
    requires ids != [] && Distinct(ids)
    ensures Distinct(StartOrder(ids, rule, cursor, m))
    ensures forall x :: x in StartOrder(ids, rule, cursor, m) <==> x in ids
  {
    match rule
    case Some(order) =>
      OrderedDistinct(order, ids);
      OrderedMembers(order, ids);
    case None =>
      var c := CursorOrder(ids, cursor);
      CursorOrderMembers(ids, cursor);
      RotationIsDistinct(ids, cursor % |ids|);
      ByDepthIsStableSort(c, m);
      ByDepthIsDistinct(c, m);
  }

  lemma RotationIsDistinct(ids: seq<string>, i: nat)
    requires i <= |ids| && Distinct(ids)
    ensures Distinct(Rotation(ids, i))
  {}

  lemma {:induction false} ByDepthIsDistinct(ids: seq<string>, m: map<string, nat>)
    requires Distinct(ids)
    ensures Distinct(ByDepth(ids, m))
  {
    hide Insert;
    if ids != [] {
      var init, last := ids[..|ids| - 1], ids[|ids| - 1];
      ByDepthIsDistinct(init, m);
      ByDepthIsStableSort(init, m);
      assert last !in init;
      InsertIsDistinct(ByDepth(init, m), last, m);
    }
  }

  lemma {:induction false} InsertIsDistinct(sorted: seq<string>, id: string, m: map<string, nat>)
    requires Distinct(sorted) && id !in sorted && SortedByDepth(sorted, m)
    ensures Distinct(Insert(sorted, id, m))
  {
    if sorted != [] && Depth(m, id) < Depth(m, sorted[|sorted| - 1]) {
      var init := sorted[..|sorted| - 1];
      assert sorted == init + [sorted[|sorted| - 1]];
      InsertIsDistinct(init, id, m);
      InsertSorts(init, id, m);
      var r := Insert(init, id, m);
      assert forall i :: 0 <= i < |r| ==> r[i] in r;
    }
  }
}
