/** Exactly when extracted files are published (src/main/extraction-output.ts:133-199): one file in every mode, and a
    whole publication in the modes that keep the staged names. */
module PublicationOutcomes {
  import opened Common
  import opened Lists
  import opened PublicationNames
  import opened PublicationModel
  import opened PublicationTheorems

  ghost predicate Above(q: Path, path: Path) { |q| < |path| && path[..|q|] == q }

  /** What is there of the directories above the path are directories. */
  ghost predicate Room(target: map<Path, Entry>, path: Path) {
    forall q :: q in target && Above(q, path) ==> target[q].Directory?
  }

  /** No abort, and no file operation fails. */
  predicate Calm(w: Weather, path: Path) {
    && !w.abortedAtStart && !w.abortedAtRename && w.directories >= |path|
    && !w.statFails && !w.compareFails && !w.disturbed && !w.renameFails && !w.recordFails
  }

  /** Preparing the parents adds the missing directories above the path, and fails only if one of them is something
      else. */
  lemma {:induction false} ParentsExactly(target: map<Path, Entry>, path: Path, k: nat, directories: nat)
    requires 1 <= k <= |path| && directories >= |path| - k
    ensures var (more, failed) := Parents(target, path, k, directories);
            && (failed.None? <==> forall j :: k <= j < |path| && path[..j] in target ==> target[path[..j]].Directory?)
            && (failed.Some? ==> failed.value == UnsafeParent)
            && (forall q :: q in target ==> q in more && more[q] == target[q])
            && (forall q :: q in more && q !in target ==> Above(q, path) && more[q].Directory?)
            && (failed.None? ==> forall j :: k <= j < |path| ==> path[..j] in more)
    decreases |path| - k
  {
    if k < |path| {
      var here := path[..k];
      assert Above(here, path);
      if here in target {
        if target[here].Directory? {
          ParentsExactly(target, path, k + 1, directories);
        }
      } else {
        var more := target[here := Directory];
        ParentsExactly(more, path, k + 1, directories - 1);
        forall j | k < j < |path| ensures path[..j] in more <==> path[..j] in target {
          assert |path[..j]| != |here|;
        }
      }
    }
  }

  lemma RoomIsPrefixes(target: map<Path, Entry>, path: Path)
    ensures Room(target, path)
            <==> forall j :: 1 <= j < |path| && path[..j] in target ==> target[path[..j]].Directory?
  {
    if Room(target, path) {
      forall j | 1 <= j < |path| && path[..j] in target ensures target[path[..j]].Directory? {
        assert Above(path[..j], path);
      }
    } else {
      var q :| q in target && Above(q, path) && !target[q].Directory?;
      assert path[..|q|] == q;
    }
  }

  /** Whether the mode allows what stands at the path: nothing, or a file that is overwritten, that has the staged
      file's bytes, or beside which one of ten thousand names is free. */
  ghost predicate Allows(s: Store, path: Path, mode: Mode)
    requires path in s.staging
  {
    path in s.target ==>
      && s.target[path].File?
      && match mode
         case Overwrite => true
         case Rename => exists i :: 1 <= i <= 10_000 && Candidate(path, i) !in s.target
         case _ => s.target[path].blob.content == s.staging[path].content
  }

  /** The failure reported when it does not. */
  ghost function Refusal(s: Store, path: Path, mode: Mode, w: Weather): Failure
    requires path in s.target
  {
    if !s.target[path].File? then UnsafeTarget
    else if mode.Rename? then RenameLimit
    else if w.abortedAfterCompare then Aborted
    else Different
  }

  lemma PlacedExactly(s: Store, path: Path, mode: Mode, w: Weather)
    requires Calm(w, path) && path in s.staging
    ensures var (t, outcome) := Place(s, path, mode, w);
            && (outcome.Published? <==> Allows(s, path, mode))
            && (!outcome.Published? ==> path in s.target && outcome == Stopped(Refusal(s, path, mode, w), None))
            && (outcome.Published? && !mode.Rename? ==> outcome.dest == path)
            && (!outcome.Published? ==> t == s)
  {
    FirstFreeIsFirst(s.target, path, 1);
    hide FirstFree, Candidate;
  }

  /** With nothing else in the way, one file is published exactly if what is there of the directories above it are
      directories and the mode allows what stands at its path; otherwise the failure names the first of the two that
      does not hold. */
  lemma PublishedExactly(s: Store, path: Path, mode: Mode, w: Weather)
    requires Calm(w, path) && path in s.staging
    ensures var (t, outcome) := PublishOne(s, path, mode, w);
            && (outcome.Published? <==> Room(s.target, path) && Allows(s, path, mode))
            && (!Room(s.target, path) ==> outcome == Stopped(UnsafeParent, None))
            && (Room(s.target, path) && !Allows(s, path, mode) ==>
                  path in s.target && outcome == Stopped(Refusal(s, path, mode, w), None))
            && (outcome.Published? && !mode.Rename? ==> outcome.dest == path)
  {
    RoomIsPrefixes(s.target, path);
    ParentsExactly(s.target, path, 1, w.directories);
    var target := Parents(s.target, path, 1, w.directories).0;
    hide Parents, Room, Place;
    SameAllowance(s, target, path, mode);
    PlacedExactly(s.(target := target), path, mode, w);
    hide Allows;
  }

  /** A file that is moved is recorded under the identity that it has after the move, so it counts as verified; in skip
      and ask mode the record is of the file that was there. */
  lemma RecordsPresentIdentity(s: Store, path: Path, mode: Mode, w: Weather)
    requires PublishOne(s, path, mode, w).1.Published?
    ensures var (t, outcome) := PublishOne(s, path, mode, w);
            && outcome.dest in t.registry
            && t.registry[outcome.dest]
               == if (mode.Skip? || mode.Ask?) && path in s.target && s.target[path].File?
                  then s.target[path].blob.identity else w.identity
  {
    ParentsExtend(s.target, path, 1, w.directories);
    hide Parents, FirstFree;
  }

  /** New directories above a path are not among its candidates. */
  lemma SameAllowance(s: Store, target: map<Path, Entry>, path: Path, mode: Mode)
    requires path in s.staging
    requires forall q :: q in s.target ==> q in target && target[q] == s.target[q]
    requires forall q :: q in target && q !in s.target ==> Above(q, path)
    ensures Allows(s.(target := target), path, mode) <==> Allows(s, path, mode)
    ensures path in target <==> path in s.target
  {
    assert forall i: nat :: |Candidate(path, i)| == |path|;
    hide Candidate;
  }

  // ---------------------------------------------------------------- a whole publication

  /** The staged files are those of a tree: none stands where another needs a directory. */
  ghost predicate IsTree(files: seq<Path>) {
    Distinct(files) && forall i, j :: 0 <= i < |files| && 0 <= j < |files| ==> !Above(files[i], files[j])
  }

  ghost predicate AllCalm(weather: seq<Weather>, files: seq<Path>)
    requires |files| == |weather|
  {
    forall i :: 0 <= i < |files| ==> Calm(weather[i], files[i])
  }

  /** Old entries stay, but for a file that is overwritten. */
  ghost predicate OldEntries(s: Store, t: Store, done: seq<Path>) {
    forall q :: q in s.target ==>
      q in t.target && (t.target[q] == s.target[q] || (q in done && t.target[q].File? && s.target[q].File?))
  }

  /** New entries are published files and the directories above them. */
  ghost predicate NewEntries(s: Store, t: Store, done: seq<Path>) {
    forall q :: q in t.target && q !in s.target ==>
      q in done || (t.target[q].Directory? && exists i :: 0 <= i < |done| && Above(q, done[i]))
  }

  /** The other files are still staged. */
  ghost predicate StillStaged(s: Store, t: Store, done: seq<Path>) {
    forall q :: q in s.staging && q !in done ==> q in t.staging && t.staging[q] == s.staging[q]
  }

  /** What publishing some of the files has made of the store. */
  ghost predicate Grown(s: Store, t: Store, done: seq<Path>) {
    OldEntries(s, t, done) && NewEntries(s, t, done) && StillStaged(s, t, done)
  }

  /** For the files to come it makes no difference. */
  lemma GrownIsSame(s: Store, t: Store, files: seq<Path>, n: nat, mode: Mode)
    requires n < |files| && IsTree(files) && Grown(s, t, files[..n]) && !mode.Rename? && files[n] in s.staging
    ensures files[n] in t.staging && t.staging[files[n]] == s.staging[files[n]]
    ensures Room(t.target, files[n]) <==> Room(s.target, files[n])
    ensures Allows(t, files[n], mode) <==> Allows(s, files[n], mode)
  {
    var path := files[n];
    assert path !in files[..n];
    assert path in t.target <==> path in s.target;
    forall q | q in t.target && Above(q, path)
      ensures if q in s.target then t.target[q] == s.target[q] else t.target[q].Directory?
    {
      assert q !in files[..n];
    }
    if Room(t.target, path) { assert Room(s.target, path); }
    if Room(s.target, path) { assert Room(t.target, path); }
  }

  lemma StillGrown(s: Store, t: Store, u: Store, done: seq<Path>, path: Path, mode: Mode, w: Weather)
    requires Grown(s, t, done) && !mode.Rename? && Calm(w, path) && path in t.staging
    requires PublishOne(t, path, mode, w) == (u, Published(path))
    ensures Grown(s, u, done + [path])
  {
    OneFileGrows(t, u, path, mode, w);
    hide PublishOne, Calm;
    OldStill(s, t, u, done, path);
    NewStill(s, t, u, done, path);
    hide OldEntries, NewEntries;
  }

  lemma OldStill(s: Store, t: Store, u: Store, done: seq<Path>, path: Path)
    requires OldEntries(s, t, done) && OldEntries(t, u, [path])
    ensures OldEntries(s, u, done + [path])
  {}

  lemma NewStill(s: Store, t: Store, u: Store, done: seq<Path>, path: Path)
    requires NewEntries(s, t, done) && OldEntries(t, u, [path]) && NewEntries(t, u, [path])
    ensures NewEntries(s, u, done + [path])
  {
    hide Above;
    var more := done + [path];
    assert forall i :: 0 <= i < |done| ==> more[i] == done[i];
    assert more[|done|] == path;
    forall q | q in u.target && q !in s.target && q !in more
      ensures u.target[q].Directory? && exists i :: 0 <= i < |more| && Above(q, more[i])
    {
      if q in t.target {
        var i :| 0 <= i < |done| && Above(q, done[i]);
        assert Above(q, more[i]);
      } else {
        assert Above(q, more[|done|]);
      }
    }
  }

  lemma OneFileGrows(t: Store, u: Store, path: Path, mode: Mode, w: Weather)
    requires Calm(w, path) && path in t.staging && PublishOne(t, path, mode, w) == (u, Published(path))
    ensures Grown(t, u, [path])
  {
    hide Parents, Place, Above, OldEntries, NewEntries, StillStaged;
    ParentsExactly(t.target, path, 1, w.directories);
    var v := t.(target := Parents(t.target, path, 1, w.directories).0);
    PlaceGrows(v, u, path, mode, w);
    NotAboveItself(path);
    GrownFrom(t, v, u, path);
  }

  lemma NotAboveItself(path: Path)
    ensures !Above(path, path)
  {}

  lemma GrownFrom(t: Store, v: Store, u: Store, path: Path)
    requires v.staging == t.staging && !Above(path, path)
    requires forall q :: q in t.target ==> q in v.target && v.target[q] == t.target[q]
    requires forall q :: q in v.target && q !in t.target ==> Above(q, path) && v.target[q].Directory?
    requires PlacedAt(v, u, path)
    ensures Grown(t, u, [path])
  {
    hide Above;
    assert [path][0] == path;
  }

  /** Only the entry at the path, and only its staged file, may have changed. */
  ghost predicate PlacedAt(t: Store, u: Store, path: Path) {
    && (forall q :: q in t.target && q != path ==> q in u.target && u.target[q] == t.target[q])
    && (path in t.target ==> path in u.target && u.target[path].File? && t.target[path].File?)
    && (forall q :: q in u.target && q !in t.target ==> q == path)
    && (forall q :: q in t.staging && q != path ==> q in u.staging && u.staging[q] == t.staging[q])
  }

  lemma PlaceGrows(t: Store, u: Store, path: Path, mode: Mode, w: Weather)
    requires Place(t, path, mode, w) == (u, Published(path))
    ensures PlacedAt(t, u, path)
  {
    FirstFreeIsFirst(t.target, path, 1);
    hide FirstFree, Candidate;
  }

  /** Exactly when a publication succeeds, in every mode but rename: with nothing else in the way, the files of a staged
      tree are all published if and only if, in the target as it is before, what is there of the directories above each
      of them are directories and the mode allows what stands at its path. */
  lemma {:induction false} PublicationSucceedsExactly(s: Store, files: seq<Path>, mode: Mode, weather: seq<Weather>,
                                                      n: nat)
    requires n <= |files| == |weather| && IsTree(files) && AllCalm(weather, files) && !mode.Rename?
    requires forall i :: 0 <= i < |files| ==> files[i] in s.staging
    ensures var p := PublishFirst(s, files, mode, weather, n);
            && (p.stop.None? <==> forall i :: 0 <= i < n ==> Room(s.target, files[i]) && Allows(s, files[i], mode))
            && (p.stop.None? ==> Grown(s, p.store, files[..n]))
  {
    hide Room, Allows, PublishOne, IsTree, Calm, Grown;
    if n > 0 {
      PublicationSucceedsExactly(s, files, mode, weather, n - 1);
      var before := PublishFirst(s, files, mode, weather, n - 1);
      if before.stop.None? {
        GrownIsSame(s, before.store, files, n - 1, mode);
        PublishedExactly(before.store, files[n - 1], mode, weather[n - 1]);
        var (u, outcome) := PublishOne(before.store, files[n - 1], mode, weather[n - 1]);
        if outcome.Published? {
          StillGrown(s, before.store, u, files[..n - 1], files[n - 1], mode, weather[n - 1]);
          assert files[..n] == files[..n - 1] + [files[n - 1]];
        }
      }
    } else {
      NothingGrown(s);
    }
  }

  lemma NothingGrown(s: Store)
    ensures Grown(s, s, [])
  {}
}
