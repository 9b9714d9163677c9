/** What a whole publication does to the target directory, in every conflict mode and wherever it stops. */
module PublicationTheorems {
  import opened Common
  import opened Lists
  import opened PublicationNames
  import opened PublicationModel

  /** Where files landed, in order: the recorded ones and, last, one whose recording failed. */
  ghost function Landed(p: Publication): seq<Path> {
    if p.stop.Some? && p.stop.value.Stopped? && p.stop.value.moved.Some? then p.dests + [p.stop.value.moved.value]
    else p.dests
  }

  ghost predicate Counted(p: Publication, n: nat) {
    && |p.dests| <= |Landed(p)| <= n
    && (p.stop.None? ==> |p.dests| == n)
  }

  /** Entries that were there stay, except a file overwritten in overwrite mode. */
  ghost predicate OldStays(s: Store, mode: Mode, p: Publication) {
    forall q :: q in s.target ==>
      (q in p.store.target && p.store.target[q] == s.target[q]) || (mode.Overwrite? && q in Landed(p))
  }

  /** New entries are the landed files and parent directories. */
  ghost predicate NewIsLanded(s: Store, p: Publication) {
    forall q :: q in p.store.target && q !in s.target ==> p.store.target[q].Directory? || q in Landed(p)
  }

  ghost predicate RecordsKept(s: Store, p: Publication) {
    forall q :: q !in p.dests ==>
      (q in s.registry <==> q in p.store.registry) && (q in s.registry ==> p.store.registry[q] == s.registry[q])
  }

  /** Staged files leave only by landing, in order. */
  ghost predicate StagingKept(s: Store, files: seq<Path>, p: Publication)
    requires |Landed(p)| <= |files|
  {
    && (forall q :: q in p.store.staging ==> q in s.staging && p.store.staging[q] == s.staging[q])
    && (forall q :: q in s.staging && q !in files[..|Landed(p)|] ==> q in p.store.staging)
  }

  /** A landed file sits at its own path, or in rename mode at a path that was free. */
  ghost predicate Located(s: Store, files: seq<Path>, mode: Mode, p: Publication)
    requires |Landed(p)| <= |files|
  {
    forall i :: 0 <= i < |Landed(p)| ==>
      if mode.Rename? then Landed(p)[i] !in s.target && Landed(p)[i] in p.store.target
      else Landed(p)[i] == files[i] && files[i] in p.store.target
  }

  /** The i-th landed file, as it was staged; in skip and ask mode an equal file that was there may stand for it. */
  ghost predicate LandedAt(s: Store, files: seq<Path>, mode: Mode, p: Publication, i: nat)
    requires i < |Landed(p)| <= |files|
  {
    var dest := Landed(p)[i];
    && files[i] in s.staging && dest in p.store.target
    && (|| (IsCopy(p.store.target[dest], s.staging[files[i]]) && files[i] !in p.store.staging)
        || ((mode.Skip? || mode.Ask?) && dest in s.target && p.store.target[dest] == s.target[dest]
            && s.target[dest].File? && s.target[dest].blob.content == s.staging[files[i]].content))
    && (i < |p.dests| ==> Verified(p.store, dest))
  }

  ghost predicate AllLanded(s: Store, files: seq<Path>, mode: Mode, p: Publication)
    requires |Landed(p)| <= |files|
  {
    forall i :: 0 <= i < |Landed(p)| ==> LandedAt(s, files, mode, p, i)
  }

  ghost predicate Account(s: Store, files: seq<Path>, mode: Mode, p: Publication, n: nat)
    requires n <= |files|
  {
    && Counted(p, n) && OldStays(s, mode, p) && NewIsLanded(s, p) && RecordsKept(s, p)
    && StagingKept(s, files, p) && Located(s, files, mode, p) && (mode.Rename? ==> Distinct(Landed(p)))
    && AllLanded(s, files, mode, p)
  }

  ghost function NextDest(p: Publication, v: Publication): Option<Path> {
    if |Landed(v)| > |p.dests| then Some(Landed(v)[|p.dests|]) else None
  }

  /** What one more file changes, in the vocabulary of `Landed`. */
  ghost predicate Delta(path: Path, mode: Mode, p: Publication, v: Publication) {
    var dest := NextDest(p, v);
    && Landed(p) == p.dests
    && (Landed(v) == p.dests + (if dest.Some? then [dest.value] else []))
    && (v.dests == p.dests || v.dests == Landed(v))
    && (forall q :: q in p.store.target && Some(q) != dest ==>
          q in v.store.target && v.store.target[q] == p.store.target[q])
    && (forall q :: q in v.store.target && q !in p.store.target && Some(q) != dest ==> v.store.target[q].Directory?)
    && (forall q :: Some(q) != dest || v.dests == p.dests ==>
          (q in p.store.registry <==> q in v.store.registry)
          && (q in p.store.registry ==> v.store.registry[q] == p.store.registry[q]))
    && (dest.None? ==> v.store.staging == p.store.staging)
    && (|v.dests| > |p.dests| ==> Verified(v.store, v.dests[|p.dests|]))
    && (dest.Some? ==>
          || (MovedTo(p.store, v.store, path, dest.value)
              && (dest.value in p.store.target ==> mode.Overwrite? && dest.value == path && p.store.target[path].File?)
              && (dest.value == path || (mode.Rename? && path in p.store.target)))
          || (v.store.staging == p.store.staging && (mode.Skip? || mode.Ask?) && dest.value == path
              && path in p.store.target && path in v.store.target && v.store.target[path] == p.store.target[path]
              && path in p.store.staging
              && p.store.target[path].File? && p.store.target[path].blob.content == p.store.staging[path].content))
  }

  lemma OutcomeIsDelta(p: Publication, path: Path, mode: Mode, t: Store, outcome: Outcome)
    requires p.stop.None? && OneFile(p.store, t, path, mode, outcome)
    ensures Delta(path, mode, p, if outcome.Published? then Publication(t, p.dests + [outcome.dest], None)
                                 else Publication(t, p.dests, Some(outcome)))
  {
    var v := if outcome.Published? then Publication(t, p.dests + [outcome.dest], None)
             else Publication(t, p.dests, Some(outcome));
    assert NextDest(p, v) == if outcome.Published? then Some(outcome.dest) else outcome.moved;
    hide Verified, MovedTo;
  }

  lemma DeltaKeepsFrame(s: Store, files: seq<Path>, mode: Mode, p: Publication, v: Publication, n: nat)
    requires n < |files| && Counted(p, n) && p.stop.None? && Delta(files[n], mode, p, v)
    requires OldStays(s, mode, p) && NewIsLanded(s, p)
    ensures OldStays(s, mode, v) && NewIsLanded(s, v)
  {
    hide Verified, MovedTo;
    assert forall q :: q in Landed(p) ==> q in Landed(v);
    assert NextDest(p, v).Some? ==> NextDest(p, v).value in Landed(v);
  }

  lemma DeltaKeepsRecords(s: Store, files: seq<Path>, mode: Mode, p: Publication, v: Publication, n: nat)
    requires n < |files| && Counted(p, n) && p.stop.None? && Delta(files[n], mode, p, v)
    requires RecordsKept(s, p)
    ensures RecordsKept(s, v)
  {
    hide Verified, MovedTo;
    assert forall q :: q in p.dests ==> q in v.dests;
    assert v.dests != p.dests ==> NextDest(p, v).Some? && NextDest(p, v).value in v.dests;
  }

  lemma DeltaKeepsStaging(s: Store, files: seq<Path>, mode: Mode, p: Publication, v: Publication, n: nat)
    requires n < |files| && Counted(p, n) && p.stop.None? && Delta(files[n], mode, p, v)
    requires StagingKept(s, files, p)
    ensures |Landed(v)| <= n + 1 && StagingKept(s, files, v)
  {
    hide Verified;
    if NextDest(p, v).Some? {
      assert files[..n + 1] == files[..n] + [files[n]];
    }
  }

  lemma DeltaKeepsLocated(s: Store, files: seq<Path>, mode: Mode, p: Publication, v: Publication, n: nat)
    requires n < |files| && Counted(p, n) && p.stop.None? && Delta(files[n], mode, p, v) && |Landed(v)| <= n + 1
    requires Located(s, files, mode, p) && OldStays(s, mode, p) && (mode.Rename? ==> Distinct(Landed(p)))
    ensures Located(s, files, mode, v) && (mode.Rename? ==> Distinct(Landed(v)))
  {
    hide Verified;
    assert forall i :: 0 <= i < |Landed(p)| ==> Landed(v)[i] == Landed(p)[i];
  }

  lemma DeltaKeepsLanded(s: Store, files: seq<Path>, mode: Mode, p: Publication, v: Publication, n: nat, i: nat)
    requires n < |files| && Counted(p, n) && p.stop.None? && Delta(files[n], mode, p, v) && |Landed(v)| <= n + 1
    requires Located(s, files, mode, p) && Distinct(files)
    requires i < |Landed(p)| && LandedAt(s, files, mode, p, i)
    ensures LandedAt(s, files, mode, v, i)
  {
    var dest := Landed(p)[i];
    assert Landed(v)[i] == dest;
    assert v.store.target[dest] == p.store.target[dest];
  }

  lemma DeltaLands(s: Store, files: seq<Path>, mode: Mode, p: Publication, v: Publication, n: nat)
    requires n < |files| && Counted(p, n) && p.stop.None? && Delta(files[n], mode, p, v) && |Landed(v)| == n + 1
    requires StagingKept(s, files, p) && OldStays(s, mode, p) && NewIsLanded(s, p)
    requires Located(s, files, mode, p) && Distinct(files)
    ensures LandedAt(s, files, mode, v, n)
  {
    var dest := Landed(v)[n];
    assert NextDest(p, v) == Some(dest);
  }

  lemma DeltaKeepsAllLanded(s: Store, files: seq<Path>, mode: Mode, p: Publication, v: Publication, n: nat)
    requires n < |files| && Distinct(files) && Counted(p, n) && p.stop.None? && Delta(files[n], mode, p, v)
    requires |Landed(p)| == n <= |Landed(v)| <= n + 1 && AllLanded(s, files, mode, p) && Located(s, files, mode, p)
    requires OldStays(s, mode, p) && NewIsLanded(s, p) && StagingKept(s, files, p)
    ensures AllLanded(s, files, mode, v)
  {
    hide Counted, OldStays, NewIsLanded, StagingKept, Located, LandedAt, Delta, Landed, Distinct;
    forall i | 0 <= i < |Landed(v)| ensures LandedAt(s, files, mode, v, i) {
      if i < n { DeltaKeepsLanded(s, files, mode, p, v, n, i); } else { DeltaLands(s, files, mode, p, v, n); }
    }
  }

  lemma DeltaKeepsAccount(s: Store, files: seq<Path>, mode: Mode, p: Publication, v: Publication, n: nat)
    requires n < |files| && Distinct(files) && p.stop.None?
    requires Delta(files[n], mode, p, v) && Account(s, files, mode, p, n)
    requires Counted(v, n + 1)
    ensures Account(s, files, mode, v, n + 1)
  {
    assert |Landed(p)| == n && n <= |Landed(v)| <= n + 1;
    hide Counted, OldStays, NewIsLanded, RecordsKept, StagingKept, Located, AllLanded, Delta, Landed, Distinct;
    DeltaKeepsFrame(s, files, mode, p, v, n);
    DeltaKeepsRecords(s, files, mode, p, v, n);
    DeltaKeepsStaging(s, files, mode, p, v, n);
    DeltaKeepsLocated(s, files, mode, p, v, n);
    DeltaKeepsAllLanded(s, files, mode, p, v, n);
  }

  lemma StepIsDelta(s: Store, files: seq<Path>, mode: Mode, weather: seq<Weather>, n: nat)
    requires 0 < n <= |files| == |weather|
    requires var p := PublishFirst(s, files, mode, weather, n - 1); p.stop.None? && Counted(p, n - 1)
    ensures var v := PublishFirst(s, files, mode, weather, n);
            && Delta(files[n - 1], mode, PublishFirst(s, files, mode, weather, n - 1), v)
            && Counted(v, n)
  {
    var p := PublishFirst(s, files, mode, weather, n - 1);
    var (t, outcome) := PublishOne(p.store, files[n - 1], mode, weather[n - 1]);
    PublishOneFile(p.store, files[n - 1], mode, weather[n - 1]);
    OutcomeIsDelta(p, files[n - 1], mode, t, outcome);
    hide OneFile, Delta, PublishOne;
  }

  lemma NothingPublished(s: Store, files: seq<Path>, mode: Mode, weather: seq<Weather>)
    requires |files| == |weather|
    ensures Account(s, files, mode, PublishFirst(s, files, mode, weather, 0), 0)
  {
    assert PublishFirst(s, files, mode, weather, 0) == Publication(s, [], None);
    hide PublishFirst;
  }

  lemma StopEnds(s: Store, files: seq<Path>, mode: Mode, weather: seq<Weather>, n: nat)
    requires 0 < n <= |files| == |weather| && PublishFirst(s, files, mode, weather, n - 1).stop.Some?
    ensures PublishFirst(s, files, mode, weather, n) == PublishFirst(s, files, mode, weather, n - 1)
  {}

  /** Every publication that starts from a listing without repetitions keeps this account, however it ends. */
  lemma {:induction false} PublicationAccount(s: Store, files: seq<Path>, mode: Mode, weather: seq<Weather>, n: nat)
    requires n <= |files| == |weather| && Distinct(files)
    ensures Account(s, files, mode, PublishFirst(s, files, mode, weather, n), n)
  {
    hide PublishFirst, Account, Delta, Counted, Distinct;
    if n == 0 {
      NothingPublished(s, files, mode, weather);
      return;
    }
    var p := PublishFirst(s, files, mode, weather, n);
    PublicationAccount(s, files, mode, weather, n - 1);
    var before := PublishFirst(s, files, mode, weather, n - 1);
    AccountIsCounted(s, files, mode, before, n - 1);
    if before.stop.None? {
      StepIsDelta(s, files, mode, weather, n);
      DeltaKeepsAccount(s, files, mode, before, p, n - 1);
    } else {
      StopEnds(s, files, mode, weather, n);
      AccountAfterStop(s, files, mode, p, n - 1);
    }
  }

  lemma AccountIsCounted(s: Store, files: seq<Path>, mode: Mode, p: Publication, n: nat)
    requires n <= |files| && Account(s, files, mode, p, n)
    ensures Counted(p, n)
  {}

  lemma AccountAfterStop(s: Store, files: seq<Path>, mode: Mode, p: Publication, n: nat)
    requires n < |files| && Account(s, files, mode, p, n) && p.stop.Some?
    ensures Account(s, files, mode, p, n + 1)
  {
    hide OldStays, NewIsLanded, RecordsKept, StagingKept, Located, AllLanded, Distinct;
  }

  // ---------------------------------------------------------------- what a caller may rely on

  /** In skip, ask and rename mode nothing that was in the target is changed or removed, wherever publication stops. */
  lemma ExistingEntriesAreKept(s: Store, files: seq<Path>, mode: Mode, weather: seq<Weather>, q: Path)
    requires |files| == |weather| && Distinct(files) && !mode.Overwrite? && q in s.target
    ensures var t := PublishFirst(s, files, mode, weather, |files|).store.target;
            q in t && t[q] == s.target[q]
  {
    hide PublishFirst;
    PublicationAccount(s, files, mode, weather, |files|);
  }

  /** In those modes a verified output stays verified. */
  lemma VerifiedStaysVerified(s: Store, files: seq<Path>, mode: Mode, weather: seq<Weather>, q: Path)
    requires |files| == |weather| && Distinct(files) && !mode.Overwrite? && Verified(s, q)
    ensures Verified(PublishFirst(s, files, mode, weather, |files|).store, q)
  {
    hide PublishFirst;
    PublicationAccount(s, files, mode, weather, |files|);
    var p := PublishFirst(s, files, mode, weather, |files|);
    if q in p.dests {
      var i :| 0 <= i < |p.dests| && p.dests[i] == q;
      assert LandedAt(s, files, mode, p, i);
    }
  }

  /** Overwrite mode that runs to its end is the map override: staged files at their own paths, everything else as it
      was, apart from new parent directories. */
  lemma OverwriteIsMapOverride(s: Store, files: seq<Path>, weather: seq<Weather>, q: Path)
    requires |files| == |weather| && Distinct(files)
    requires PublishFirst(s, files, Overwrite, weather, |files|).stop.None?
    ensures var t := PublishFirst(s, files, Overwrite, weather, |files|).store.target;
            && (q in files ==> q in s.staging && q in t && IsCopy(t[q], s.staging[q]))
            && (q !in files && q in s.target ==> q in t && t[q] == s.target[q])
            && (q !in files && q !in s.target && q in t ==> t[q].Directory?)
  {
    hide PublishFirst;
    PublicationAccount(s, files, Overwrite, weather, |files|);
    var p := PublishFirst(s, files, Overwrite, weather, |files|);
    assert Landed(p) == files by {
      assert forall i :: 0 <= i < |files| ==> Landed(p)[i] == files[i];
    }
    if q in files {
      var i :| 0 <= i < |files| && files[i] == q;
      assert LandedAt(s, files, Overwrite, p, i);
    }
  }

  /** Rename mode that runs to its end puts every staged file at exactly one fresh path, and adds no other file; names
      made up for one file never take the place of another. */
  lemma RenameLandsEachFileOnce(s: Store, files: seq<Path>, weather: seq<Weather>)
    requires |files| == |weather| && Distinct(files)
    requires PublishFirst(s, files, Rename, weather, |files|).stop.None?
    ensures var p := PublishFirst(s, files, Rename, weather, |files|);
            && |p.dests| == |files| && Distinct(p.dests)
            && (forall i :: 0 <= i < |files| ==>
                  && p.dests[i] !in s.target && files[i] in s.staging && files[i] !in p.store.staging
                  && p.dests[i] in p.store.target && IsCopy(p.store.target[p.dests[i]], s.staging[files[i]]))
            && (forall q :: q in p.store.target && p.store.target[q].File? && q !in s.target ==> q in p.dests)
  {
    hide PublishFirst;
    PublicationAccount(s, files, Rename, weather, |files|);
    var p := PublishFirst(s, files, Rename, weather, |files|);
    forall i | 0 <= i < |files|
      ensures files[i] in s.staging && files[i] !in p.store.staging
      ensures IsCopy(p.store.target[p.dests[i]], s.staging[files[i]])
    {
      assert LandedAt(s, files, Rename, p, i);
    }
  }

  /** Wherever publication stops, no staged content is lost: a file is at its recorded or last landing place, or still
      staged as it was. The recorded ones are verified outputs, and no other record changes. */
  lemma NothingStagedIsLost(s: Store, files: seq<Path>, mode: Mode, weather: seq<Weather>)
    requires |files| == |weather| && Distinct(files) && forall q :: q in files ==> q in s.staging
    ensures var p := PublishFirst(s, files, mode, weather, |files|);
            && |p.dests| <= |Landed(p)| <= |files|
            && (forall i :: 0 <= i < |Landed(p)| ==> LandedAt(s, files, mode, p, i))
            && (forall i :: |Landed(p)| <= i < |files| ==>
                  files[i] in p.store.staging && p.store.staging[files[i]] == s.staging[files[i]])
            && (forall d :: d in p.dests ==> Verified(p.store, d))
            && RecordsKept(s, p)
  {
    hide PublishFirst;
    PublicationAccount(s, files, mode, weather, |files|);
    var p := PublishFirst(s, files, mode, weather, |files|);
    forall d | d in p.dests ensures Verified(p.store, d) {
      var i :| 0 <= i < |p.dests| && p.dests[i] == d;
      assert LandedAt(s, files, mode, p, i);
    }
  }

  /** Skip and ask mode succeed only if the target ends with every staged file's content at its own path. */
  lemma SkipSucceedsOnlyOnEqualContent(s: Store, files: seq<Path>, mode: Mode, weather: seq<Weather>, i: nat)
    requires |files| == |weather| && Distinct(files) && (mode.Skip? || mode.Ask?) && i < |files|
    requires PublishFirst(s, files, mode, weather, |files|).stop.None?
    ensures var t := PublishFirst(s, files, mode, weather, |files|).store;
            && files[i] in s.staging && Verified(t, files[i])
            && t.target[files[i]].blob.content == s.staging[files[i]].content
  {
    hide PublishFirst;
    PublicationAccount(s, files, mode, weather, |files|);
    assert LandedAt(s, files, mode, PublishFirst(s, files, mode, weather, |files|), i);
  }
}
