/** The in-flight maps of the account pools (src/main/debrid.ts:326-331, 701-721, 2457, 2599-2606, 4611, 4661-4668). */
module InFlight {
  function Depth(m: map<string, nat>, id: string): nat { if id in m then m[id] else 0 }

  function Enter(m: map<string, nat>, id: string): map<string, nat> { m[id := Depth(m, id) + 1] }

  /** The `finally` handler: a missing entry counts as one call. */
  function Leave(m: map<string, nat>, id: string): map<string, nat> {
    var count: int := if id in m then m[id] else 1;
    var remaining := count - 1;
    if remaining <= 0 then m - {id} else m[id := remaining]
  }

  function Prune(m: map<string, nat>, active: set<string>): map<string, nat> {
    map id | id in m && id in active :: m[id]
  }

  /** The map, and for each running call that is inside an attempt the account it is inside of. */
  datatype Traffic = Traffic(tracked: map<string, nat>, inside: map<nat, string>)

  /** A call enters an account, leaves it, or the settings drop accounts. */
  datatype Event = Entered(call: nat, id: string) | Left(call: nat) | Pruned(active: set<string>)

  function Step(t: Traffic, e: Event): Traffic {
    match e
    case Entered(call, id) => if call in t.inside then t else Traffic(Enter(t.tracked, id), t.inside[call := id])
    case Left(call) =>
      if call in t.inside then Traffic(Leave(t.tracked, t.inside[call]), t.inside - {call}) else t
    case Pruned(active) => t.(tracked := Prune(t.tracked, active))
  }

  function CallsInside(inside: map<nat, string>, id: string): set<nat> {
    set call | call in inside && inside[call] == id
  }

  lemma EnterCounts(inside: map<nat, string>, call: nat, id: string, x: string)
    requires call !in inside
    ensures |CallsInside(inside[call := id], x)| == |CallsInside(inside, x)| + (if x == id then 1 else 0)
  {
    if x == id {
      assert CallsInside(inside[call := id], x) == CallsInside(inside, x) + {call};
    } else {
      assert CallsInside(inside[call := id], x) == CallsInside(inside, x);
    }
  }

  lemma LeaveCounts(inside: map<nat, string>, call: nat, x: string)
    requires call in inside
    ensures |CallsInside(inside - {call}, x)| == |CallsInside(inside, x)| - (if x == inside[call] then 1 else 0)
  {
    if x == inside[call] {
      assert CallsInside(inside - {call}, x) == CallsInside(inside, x) - {call};
    } else {
      assert CallsInside(inside - {call}, x) == CallsInside(inside, x);
    }
  }

  ghost predicate NoZero(t: Traffic) { forall id :: id in t.tracked ==> t.tracked[id] > 0 }

  ghost predicate NeverMore(t: Traffic) {
    NoZero(t) && forall id :: Depth(t.tracked, id) <= |CallsInside(t.inside, id)|
  }

  ghost predicate Exact(t: Traffic) {
    NoZero(t) && forall id :: Depth(t.tracked, id) == |CallsInside(t.inside, id)|
  }

  /** Accounts are dropped only while nothing runs on them. */
  ghost predicate DropsOnlyIdle(t: Traffic, e: Event) {
    e.Pruned? ==> forall call :: call in t.inside ==> t.inside[call] in e.active
  }

  lemma EnteringIsExact(t: Traffic, call: nat, id: string)
    requires call !in t.inside
    ensures Exact(t) ==> Exact(Step(t, Entered(call, id)))
    ensures NeverMore(t) ==> NeverMore(Step(t, Entered(call, id)))
  {
    var u := Step(t, Entered(call, id));
    forall x ensures |CallsInside(u.inside, x)| == |CallsInside(t.inside, x)| + (if x == id then 1 else 0) {
      EnterCounts(t.inside, call, id, x);
    }
    hide CallsInside;
  }

  lemma LeavingIsExact(t: Traffic, call: nat)
    requires call in t.inside
    ensures Exact(t) ==> Exact(Step(t, Left(call)))
    ensures NeverMore(t) ==> NeverMore(Step(t, Left(call)))
  {
    var id := t.inside[call];
    var u := Step(t, Left(call));
    forall x ensures |CallsInside(u.inside, x)| == |CallsInside(t.inside, x)| - (if x == id then 1 else 0) {
      LeaveCounts(t.inside, call, x);
    }
    hide CallsInside;
  }

  lemma PruningIsExact(t: Traffic, active: set<string>)
    requires Exact(t)
    ensures Exact(Step(t, Pruned(active))) <==> DropsOnlyIdle(t, Pruned(active))
  {
    var u := Step(t, Pruned(active));
    if DropsOnlyIdle(t, Pruned(active)) {
      forall x ensures Depth(u.tracked, x) == |CallsInside(u.inside, x)| {
        if x !in active { assert CallsInside(t.inside, x) == {}; }
      }
    } else {
      var call :| call in t.inside && t.inside[call] !in active;
      assert call in CallsInside(t.inside, t.inside[call]);
      assert Depth(u.tracked, t.inside[call]) == 0;
    }
  }

  /** One step keeps the map exact if and only if it drops no account with a call inside. */
  lemma StepIsExact(t: Traffic, e: Event)
    requires Exact(t)
    ensures Exact(Step(t, e)) <==> DropsOnlyIdle(t, e)
  {
    hide Exact, NeverMore, Enter, Leave, Prune;
    match e
    case Entered(call, id) => if call !in t.inside { EnteringIsExact(t, call, id); }
    case Left(call) => if call in t.inside { LeavingIsExact(t, call); }
    case Pruned(active) => PruningIsExact(t, active);
  }

  lemma StepNeverMore(t: Traffic, e: Event)
    requires NeverMore(t)
    ensures NeverMore(Step(t, e))
  {
    hide CallsInside;
    match e
    case Entered(call, id) => if call !in t.inside { EnteringIsExact(t, call, id); }
    case Left(call) => if call in t.inside { LeavingIsExact(t, call); }
    case Pruned(active) =>
  }

  // ---------------------------------------------------------------- balance

  /** The accounts of this load, in order. */
  function WithDepth(m: map<string, nat>, ids: seq<string>, depth: nat): seq<string>
    decreases |ids|
  {
    if ids == [] then []
    else WithDepth(m, ids[..|ids| - 1], depth) + (if Depth(m, ids[|ids| - 1]) == depth then [ids[|ids| - 1]] else [])
  }

  /** No account of the list is busier than this one. */
  ghost predicate LeastBusy(m: map<string, nat>, accounts: seq<string>, id: string) {
    id in accounts && forall other :: other in accounts ==> Depth(m, id) <= Depth(m, other)
  }

  /** The loads of any two accounts differ by at most one. */
  ghost predicate Balanced(m: map<string, nat>, accounts: seq<string>) {
    forall a, b :: a in accounts && b in accounts ==> Depth(m, a) <= Depth(m, b) + 1
  }

  /** A call that starts on a least busy account keeps balanced loads balanced. */
  lemma StartBalances(m: map<string, nat>, accounts: seq<string>, id: string)
    requires Balanced(m, accounts) && LeastBusy(m, accounts, id)
    ensures Balanced(Enter(m, id), accounts)
  {}
}
