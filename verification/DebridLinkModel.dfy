/** Debrid-Link cooldowns per key and per key and host (src/main/debrid.ts:54-62, 78-124, 140-294). */
module DebridLinkModel {
  import opened Common

  datatype Category = Invalid | RateLimit | Quota | Temporary | Skip

  datatype Detail = Detail(message: string, category: Category)

  /** The two maps that are always written together. */
  datatype Store = Store(until: map<string, int>, details: map<string, Detail>)

  /** A recorded failure: its cooldown (None when not finite), and the clock when its end is computed and when it is
      compared with the existing one. */
  datatype Failure = Failure(cooldownMs: Option<real>, message: string, category: Category, now: nat, check: nat)

  const NoCooldowns: Store := Store(map[], map[])

  const GRACE_MS: nat := 60 * 60 * 1000

  predicate Strong(c: Category) { c.RateLimit? || c.Quota? || c.Invalid? }

  function NewUntil(f: Failure): int
    requires f.cooldownMs.Some?
  {
    f.now + Max(1000, f.cooldownMs.value.Floor)
  }

  function Clear(s: Store, key: string): Store { Store(s.until - {key}, s.details - {key}) }

  predicate Lasts(f: Failure) { f.cooldownMs.Some? && f.cooldownMs.value > 0.0 }

  /** `setDebridLinkKeyCooldownState`, and for hosts `setDebridLinkKeyHostCooldownState`. */
  function Set(s: Store, key: string, f: Failure): Store {
    if !Lasts(f) then Clear(s, key)
    else
      var existing := if key in s.until then s.until[key] else 0;
      var existingStrong := key in s.details && Strong(s.details[key].category);
      if existing > f.check
         && ((existing >= NewUntil(f) && (!Strong(f.category) || existingStrong))
             || (existingStrong && !Strong(f.category)))
      then s
      else Store(s.until[key := NewUntil(f)], s.details[key := Detail(f.message, f.category)])
  }

  function Record(s: Store, key: string, fs: seq<Failure>): Store {
    if fs == [] then s else Set(Record(s, key, fs[..|fs| - 1]), key, fs[|fs| - 1])
  }

  ghost predicate EqualDomains(s: Store) { s.until.Keys == s.details.Keys }

  // ---------------------------------------------------------------- precedence

  datatype Standing = Standing(until: int, detail: Detail)

  function StandingOf(s: Store, key: string): Option<Standing> {
    if key in s.until && key in s.details then Some(Standing(s.until[key], s.details[key])) else None
  }

  function Entry(f: Failure): Standing
    requires Lasts(f)
  {
    Standing(NewUntil(f), Detail(f.message, f.category))
  }

  /** Lexicographic: strong categories first, then the later end. */
  predicate Beats(a: Standing, b: Standing) {
    if Strong(a.detail.category) != Strong(b.detail.category) then Strong(a.detail.category) else a.until > b.until
  }

  /** One failure: the winner of the new and the live old cooldown stands; the old one wins a tie. */
  lemma SetIsJoin(s: Store, key: string, f: Failure)
    requires EqualDomains(s)
    ensures var old_, new_ := StandingOf(s, key), StandingOf(Set(s, key, f), key);
            if !Lasts(f) then new_ == None
            else if old_.Some? && old_.value.until > f.check && !Beats(Entry(f), old_.value) then new_ == old_
            else new_ == Some(Entry(f))
    ensures forall other :: other != key ==> StandingOf(Set(s, key, f), other) == StandingOf(s, other)
    ensures EqualDomains(Set(s, key, f))
  {}

  /** The failures that still count: recorded while the cooldown before them was live, back to the last that was not. */
  function LiveTail(fs: seq<Failure>): (r: seq<Failure>)
    ensures forall i :: 0 <= i < |r| ==> Lasts(r[i])
  {
    if fs == [] then []
    else
      var f := fs[|fs| - 1];
      var before := LiveTail(fs[..|fs| - 1]);
      if !Lasts(f) then []
      else if before == [] || Best(before).until <= f.check then [f]
      else before + [f]
  }

  /** The first lexicographic maximum. */
  function Best(fs: seq<Failure>): Standing
    requires fs != [] && forall i :: 0 <= i < |fs| ==> Lasts(fs[i])
  {
    var last := Entry(fs[|fs| - 1]);
    if |fs| == 1 then last
    else
      var before := Best(fs[..|fs| - 1]);
      if Beats(last, before) then last else before
  }

  /** It is one of the entries, none beats it, and it beats every earlier one. */
  lemma {:induction false} BestIsFirstMaximum(fs: seq<Failure>)
    requires fs != [] && forall i :: 0 <= i < |fs| ==> Lasts(fs[i])
    ensures exists i :: 0 <= i < |fs| && Best(fs) == Entry(fs[i])
                        && forall j :: 0 <= j < i ==> Beats(Entry(fs[i]), Entry(fs[j]))
    ensures forall j :: 0 <= j < |fs| ==> !Beats(Entry(fs[j]), Best(fs))
  {
    var n := |fs| - 1;
    if n == 0 {
      assert Best(fs) == Entry(fs[0]);
    } else {
      var init := fs[..n];
      BestIsFirstMaximum(init);
      hide NewUntil;
      if Beats(Entry(fs[n]), Best(init)) {
        forall j | 0 <= j < n ensures Beats(Entry(fs[n]), Entry(fs[j])) { assert init[j] == fs[j]; }
        assert Best(fs) == Entry(fs[n]);
      } else {
        var i :| 0 <= i < n && Best(init) == Entry(init[i])
                 && forall j :: 0 <= j < i ==> Beats(Entry(init[i]), Entry(init[j]));
        assert forall j :: 0 <= j <= i ==> fs[j] == init[j];
        assert Best(fs) == Entry(fs[i]);
      }
      forall j | 0 <= j < |fs| ensures !Beats(Entry(fs[j]), Best(fs)) {
        if j < n { assert init[j] == fs[j]; }
      }
    }
  }

  /** Every history: what stands is the first maximum of the failures that still count. */
  lemma {:induction false} StandingIsBest(s: Store, key: string, fs: seq<Failure>)
    requires EqualDomains(s) && key !in s.until
    ensures EqualDomains(Record(s, key, fs))
    ensures StandingOf(Record(s, key, fs), key) == if LiveTail(fs) == [] then None else Some(Best(LiveTail(fs)))
  {
    if fs == [] { return; }
    hide Set, Entry, Beats, Lasts, EqualDomains, Best, StandingOf;
    var n := |fs| - 1;
    StandingIsBest(s, key, fs[..n]);
    SetIsJoin(Record(s, key, fs[..n]), key, fs[n]);
    BestSnoc(LiveTail(fs[..n]), fs[n]);
  }

  lemma BestSnoc(fs: seq<Failure>, f: Failure)
    ensures Lasts(f) ==> Best([f]) == Entry(f)
    ensures fs != [] && Lasts(f) && (forall i :: 0 <= i < |fs| ==> Lasts(fs[i])) ==>
              Best(fs + [f]) == if Beats(Entry(f), Best(fs)) then Entry(f) else Best(fs)
  {
    hide Lasts, Entry, Beats;
    assert (fs + [f])[..|fs|] == fs;
  }

  /** Every failure was recorded while each of the others was live. */
  ghost predicate AllLive(fs: seq<Failure>) {
    && (forall i :: 0 <= i < |fs| ==> Lasts(fs[i]))
    && forall i, j :: 0 <= i < |fs| && 0 <= j < |fs| ==> Entry(fs[i]).until > fs[j].check
  }

  lemma {:induction false} AllLiveCounts(fs: seq<Failure>)
    requires AllLive(fs)
    ensures LiveTail(fs) == fs
  {
    if fs != [] {
      var n := |fs| - 1;
      var init := fs[..n];
      assert fs == init + [fs[n]];
      assert forall i :: 0 <= i < n ==> init[i] == fs[i];
      AllLiveCounts(init);
      if init != [] { BestIsFirstMaximum(init); }
    }
  }

  /** While cooldowns are live, the order in which failures are recorded does not matter: any two orders leave the same
      rank, that of the lexicographic maximum. */
  lemma OrderDoesNotMatter(s: Store, key: string, fs: seq<Failure>, gs: seq<Failure>)
    requires EqualDomains(s) && key !in s.until && fs != [] && gs != [] && AllLive(fs) && AllLive(gs)
    requires forall f :: f in fs <==> f in gs
    ensures var a, b := StandingOf(Record(s, key, fs), key), StandingOf(Record(s, key, gs), key);
            && a.Some? && b.Some? && a.value.until == b.value.until
            && Strong(a.value.detail.category) == Strong(b.value.detail.category)
            && forall i :: 0 <= i < |fs| ==> !Beats(Entry(fs[i]), a.value)
  {
    hide Record, Best, NewUntil, LiveTail, EqualDomains, AllLive, StandingOf, Lasts, Beats;
    StandingIsBest(s, key, fs);
    StandingIsBest(s, key, gs);
    AllLiveCounts(fs);
    AllLiveCounts(gs);
    AllLiveLast(fs);
    AllLiveLast(gs);
    SameBest(fs, gs);
    BestIsFirstMaximum(fs);
  }

  lemma AllLiveLast(fs: seq<Failure>)
    requires AllLive(fs)
    ensures forall i :: 0 <= i < |fs| ==> Lasts(fs[i])
  {}

  lemma SameBest(fs: seq<Failure>, gs: seq<Failure>)
    requires fs != [] && gs != [] && forall f :: f in fs <==> f in gs
    requires forall i :: 0 <= i < |fs| ==> Lasts(fs[i])
    requires forall i :: 0 <= i < |gs| ==> Lasts(gs[i])
    ensures Best(fs).until == Best(gs).until && Strong(Best(fs).detail.category) == Strong(Best(gs).detail.category)
  {
    hide Best, NewUntil, Lasts;
    NoneBeats(fs, gs);
    NoneBeats(gs, fs);
  }

  lemma NoneBeats(fs: seq<Failure>, gs: seq<Failure>)
    requires fs != [] && gs != [] && forall f :: f in fs ==> f in gs
    requires forall i :: 0 <= i < |fs| ==> Lasts(fs[i])
    requires forall i :: 0 <= i < |gs| ==> Lasts(gs[i])
    ensures !Beats(Best(fs), Best(gs))
  {
    hide Best, NewUntil, Lasts, Beats;
    BestIsFirstMaximum(fs);
    BestIsFirstMaximum(gs);
    var i :| 0 <= i < |fs| && Best(fs) == Entry(fs[i]);
    assert fs[i] in gs;
    var k :| 0 <= k < |gs| && gs[k] == fs[i];
  }

  /** A live cooldown is cut short exactly when a strong failure with an earlier end follows a weak one, or a failure
      without a cooldown clears it. */
  lemma CutShort(s: Store, key: string, f: Failure)
    requires EqualDomains(s) && key in s.until && s.until[key] > f.check
    ensures var n := StandingOf(Set(s, key, f), key);
            (n.None? || n.value.until < s.until[key])
            <==> !Lasts(f) || (Strong(f.category) && !Strong(s.details[key].category) && NewUntil(f) < s.until[key])
  {}

  // ---------------------------------------------------------------- reading and pruning

  /** The live cooldown; reading an expired one drops it, and an end of zero counts as none. */
  function Get(s: Store, key: string, now: int): (Store, Option<Standing>) {
    if key !in s.until || s.until[key] == 0 then (s, None)
    else if s.until[key] <= now then (Clear(s, key), None)
    else (s, Some(Standing(s.until[key], if key in s.details then s.details[key] else Detail("", Temporary))))
  }

  function Keep(s: Store, keys: set<string>): Store {
    Store(map k | k in s.until && k in keys :: s.until[k],
          map k | k in s.details && (k in keys || k !in s.until) :: s.details[k])
  }

  /** The part of a host entry's key that names the account key. */
  function KeyPart(stateKey: string): string {
    if stateKey == "" || stateKey[0] == '|' then "" else [stateKey[0]] + KeyPart(stateKey[1..])
  }

  function HostKey(keyId: string, host: string): string { keyId + "|" + host }

  lemma {:induction false} KeyPartOfHostKey(keyId: string, host: string)
    requires '|' !in keyId
    ensures KeyPart(HostKey(keyId, host)) == keyId
  {
    if keyId != "" {
      assert keyId[0] in keyId;
      assert HostKey(keyId, host)[1..] == HostKey(keyId[1..], host);
      KeyPartOfHostKey(keyId[1..], host);
    }
  }

  function ActiveHosts(s: Store, active: set<string>): set<string> { set k | k in s.until && KeyPart(k) in active }

  function Unexpired(s: Store, now: int): set<string> { set k | k in s.until && s.until[k] + GRACE_MS >= now }

  /** Pruning keys keeps exactly the entries of active keys, as they were. */
  lemma PruneKeepsActive(s: Store, active: set<string>, key: string)
    requires EqualDomains(s)
    ensures EqualDomains(Keep(s, active))
    ensures StandingOf(Keep(s, active), key) == if key in active then StandingOf(s, key) else None
  {}

  /** Pruning by key keeps exactly the host entries of active keys. */
  lemma PruneKeepsActiveHosts(s: Store, active: set<string>, keyId: string, host: string)
    requires EqualDomains(s) && '|' !in keyId
    ensures EqualDomains(Keep(s, ActiveHosts(s, active)))
    ensures StandingOf(Keep(s, ActiveHosts(s, active)), HostKey(keyId, host))
            == if keyId in active then StandingOf(s, HostKey(keyId, host)) else None
  {
    KeyPartOfHostKey(keyId, host);
    PruneKeepsActive(s, ActiveHosts(s, active), HostKey(keyId, host));
    hide KeyPart;
  }

  /** Pruning expired entries never drops a live one, and drops every one that is past its grace. */
  lemma PruneExpiredKeepsLive(s: Store, now: int, key: string)
    requires EqualDomains(s)
    ensures EqualDomains(Keep(s, Unexpired(s, now)))
    ensures Get(s, key, now).1.Some? ==> StandingOf(Keep(s, Unexpired(s, now)), key) == StandingOf(s, key)
    ensures key in s.until && s.until[key] + GRACE_MS < now ==> StandingOf(Keep(s, Unexpired(s, now)), key) == None
  {}

  /** Reading keeps the domains equal and reports what stands while it is live. */
  lemma GetReadsStanding(s: Store, key: string, now: nat)
    requires EqualDomains(s)
    ensures EqualDomains(Get(s, key, now).0)
    ensures Get(s, key, now).1.Some? <==> StandingOf(s, key).Some? && StandingOf(s, key).value.until > now
    ensures Get(s, key, now).1.Some? ==> Get(s, key, now).1 == StandingOf(s, key)
  {}

  /** A failure of a key without a cooldown is reported until the time it asks for has passed, in whole milliseconds and
      a second at least, and not at all if it asks for none. */
  lemma FailureIsReported(s: Store, key: string, f: Failure, now: nat)
    requires EqualDomains(s) && key !in s.until
    ensures var end := f.now + if Lasts(f) && f.cooldownMs.value.Floor >= 1000 then f.cooldownMs.value.Floor else 1000;
            Get(Set(s, key, f), key, now).1
            == if f.cooldownMs.Some? && f.cooldownMs.value > 0.0 && now < end
               then Some(Standing(end, Detail(f.message, f.category))) else None
  {}

  /** A live cooldown for an invalid account, a rate limit or a quota is not replaced by one for a temporary failure or
      a skipped link, however long; the other way round it always is. */
  lemma SevereFailuresStand(s: Store, key: string, f: Failure)
    requires EqualDomains(s) && key in s.until && s.until[key] > f.check
    requires f.cooldownMs.Some? && f.cooldownMs.value > 0.0
    ensures s.details[key].category in {Invalid, RateLimit, Quota} && f.category in {Temporary, Skip} ==>
              Set(s, key, f) == s
    ensures s.details[key].category in {Temporary, Skip} && f.category in {Invalid, RateLimit, Quota} ==>
              Set(s, key, f).details[key] == Detail(f.message, f.category)
  {}

  // ---------------------------------------------------------------- every run

  datatype Event =
    | Recorded(key: string, f: Failure)
    | Read(key: string, now: int)
    | Cleared(key: string)
    | Pruned(keys: set<string>)

  function Step(s: Store, e: Event): Store {
    match e
    case Recorded(key, f) => Set(s, key, f)
    case Read(key, now) => Get(s, key, now).0
    case Cleared(key) => Clear(s, key)
    case Pruned(keys) => Keep(s, keys)
  }

  function Run(s: Store, events: seq<Event>): Store {
    if events == [] then s else Step(Run(s, events[..|events| - 1]), events[|events| - 1])
  }

  /** A cooldown that is read after its end; an end of zero counts as none. */
  predicate ReadLate(s: Store, e: Event, key: string) {
    e.Read? && e.key == key && key in s.until && s.until[key] != 0 && s.until[key] <= e.now
  }

  /** What stands for a key changes in four ways only: a failure of that key replaces it unless it is live and not
      beaten, one without a cooldown or clearing removes it, reading removes it after its end, and pruning if it is not
      wanted. */
  lemma StandingStep(s: Store, e: Event, key: string)
    requires EqualDomains(s)
    ensures var before := StandingOf(s, key);
            StandingOf(Step(s, e), key)
            == if e.Recorded? && e.key == key then
                 if !Lasts(e.f) then None
                 else if before.Some? && before.value.until > e.f.check && !Beats(Entry(e.f), before.value) then before
                 else Some(Entry(e.f))
               else if (e.Cleared? && e.key == key) || ReadLate(s, e, key) || (e.Pruned? && key !in e.keys) then None
               else before
  {
    hide Set, Beats, Entry, Lasts;
    if e.Recorded? { SetIsJoin(s, e.key, e.f); }
  }

  /** End and detail are kept for the same keys through every run of recording, reading, clearing and pruning. */
  lemma {:induction false} DomainsStayEqual(events: seq<Event>)
    ensures EqualDomains(Run(NoCooldowns, events))
  {
    if events != [] { DomainsStayEqual(events[..|events| - 1]); }
  }
}

/** The cooldown maps as an object. */
module DebridLinkCooldowns {
  import opened Common
  import opened P = DebridLinkModel

  class DebridLinkCooldowns {
    var until: map<string, int>
    var details: map<string, Detail>

    ghost function View(): Store
      reads this
    {
      Store(until, details)
    }

    constructor ()
      ensures View() == NoCooldowns
    {
      until, details := map[], map[];
    }

    method ClearState(key: string)
      modifies this
      ensures View() == Step(old(View()), Cleared(key))
    {
      until, details := until - {key}, details - {key};
    }

    method SetState(key: string, f: Failure)
      modifies this
      ensures View() == Step(old(View()), Recorded(key, f))
    {
      if f.cooldownMs.None? || f.cooldownMs.value <= 0.0 {
        ClearState(key);
        return;
      }
      var newUntil := f.now + Max(1000, f.cooldownMs.value.Floor);
      var existingUntil := if key in until then until[key] else 0;
      var newIsStrong := Strong(f.category);
      var existingIsStrong := key in details && Strong(details[key].category);
      if existingUntil > f.check {
        if existingUntil >= newUntil && (!newIsStrong || existingIsStrong) { return; }
        if existingIsStrong && !newIsStrong { return; }
      }
      until := until[key := newUntil];
      details := details[key := Detail(f.message, f.category)];
    }

    method GetState(key: string, now: int) returns (live: Option<Standing>)
      modifies this
      ensures View() == Step(old(View()), Read(key, now)) && live == Get(old(View()), key, now).1
    {
      if key !in until || until[key] == 0 { return None; }
      if until[key] <= now {
        ClearState(key);
        return None;
      }
      return Some(Standing(until[key], if key in details then details[key] else Detail("", Temporary)));
    }

    /** The pruning loops: every entry whose key is not to be kept goes, in both maps. */
    method Prune(keys: set<string>) returns (removed: nat)
      modifies this
      ensures View() == Step(old(View()), Pruned(keys))
      ensures removed == |old(until).Keys - keys|
    {
      hide Keep, Clear;
      removed := 0;
      var rest := until.Keys;
      KeepAll(View(), keys);
      while rest != {}
        invariant rest <= old(until).Keys
        invariant View() == Keep(old(View()), keys + rest)
        invariant removed + |rest - keys| == |old(until).Keys - keys|
        decreases rest
      {
        var key :| key in rest;
        KeepOneLess(old(View()), keys, rest, key);
        CountOneLess(rest, keys, key);
        rest := rest - {key};
        if key !in keys {
          ClearState(key);
          removed := removed + 1;
        }
      }
      NothingLeft(keys, rest);
    }
  }

  lemma NothingLeft(keys: set<string>, rest: set<string>)
    requires rest == {}
    ensures keys + rest == keys && |rest - keys| == 0
  {}

  lemma CountOneLess(rest: set<string>, keys: set<string>, key: string)
    requires key in rest
    ensures |rest - keys| == |(rest - {key}) - keys| + (if key in keys then 0 else 1)
  {
    if key in keys {
      assert (rest - {key}) - keys == rest - keys;
    } else {
      assert (rest - {key}) - keys == (rest - keys) - {key};
    }
  }

  lemma KeepAll(s: Store, keys: set<string>)
    ensures Keep(s, keys + s.until.Keys) == s
  {
    assert Keep(s, keys + s.until.Keys).until == s.until;
    assert Keep(s, keys + s.until.Keys).details == s.details;
  }

  lemma KeepOneLess(s: Store, keys: set<string>, rest: set<string>, key: string)
    requires key in rest && key in s.until
    ensures var kept := Keep(s, keys + rest);
            Keep(s, keys + (rest - {key})) == if key in keys then kept else Clear(kept, key)
  {
    if key in keys { assert keys + (rest - {key}) == keys + rest; }
  }
}
