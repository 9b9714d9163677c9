/** Publishing extracted files (src/main/extraction-output.ts:47-102, 141-199) over an abstract file map. */
module PublicationNames {
  import opened Numerals

  type Path = p: seq<string> | |p| > 0 witness [""]

  /** The position after which `path.parse` splits off the extension: the last dot, unless nothing precedes it. */
  function StemLength(name: string, n: nat): (k: nat)
    requires n <= |name|
    ensures k <= |name|
  {
    if n <= 1 || name == ".." then |name|
    else if name[n - 1] == '.' then n - 1
    else StemLength(name, n - 1)
  }

  function Candidate(path: Path, index: nat): Path {
    var name := path[|path| - 1];
    var k := StemLength(name, |name|);
    path[|path| - 1 := name[..k] + " (" + Decimal(index) + ")" + name[k..]]
  }

  /** A candidate puts the index between stem and extension.  The extension begins at the last dot of the name, unless
      that is its first character or there is none; the name of the directory above has none. */
  lemma CandidateKeepsExtension(path: Path, index: nat)
    ensures var name := path[|path| - 1];
            var k := StemLength(name, |name|);
            && Candidate(path, index) == path[..|path| - 1] + [name[..k] + " (" + Decimal(index) + ")" + name[k..]]
            && (k < |name| ==> k > 0 && name[k] == '.' && name != ".." && forall j :: k < j < |name| ==> name[j] != '.')
            && (k == |name| && name != ".." ==> forall j :: 0 < j < |name| ==> name[j] != '.')
  {
    var name := path[|path| - 1];
    StemIsBeforeLastDot(name, |name|);
  }

  lemma {:induction false} StemIsBeforeLastDot(name: string, n: nat)
    requires n <= |name|
    ensures var k := StemLength(name, n);
            && (k < |name| ==> 0 < k < n && name[k] == '.' && name != ".." && forall j :: k < j < n ==> name[j] != '.')
            && (k == |name| && name != ".." ==> forall j :: 0 < j < n ==> name[j] != '.')
  {
    if n > 1 && name != ".." && name[n - 1] != '.' { StemIsBeforeLastDot(name, n - 1); }
  }

  lemma CandidatesDiffer(path: Path, i: nat, j: nat)
    requires Candidate(path, i) == Candidate(path, j)
    ensures i == j
  {
    var name := path[|path| - 1];
    var k := StemLength(name, |name|);
    var a, b := Decimal(i), Decimal(j);
    var left, right := name[..k] + " (", ")" + name[k..];
    var u, v := name[..k] + " (" + a + ")" + name[k..], name[..k] + " (" + b + ")" + name[k..];
    assert u == Candidate(path, i)[|path| - 1] && v == Candidate(path, j)[|path| - 1];
    assert u == left + a + right && v == left + b + right;
    assert |a| == |b|;
    assert a == u[|left|..|left| + |a|] && b == v[|left|..|left| + |b|];
    DecimalIsInjective(i, j);
  }

  /** The candidate names tried up to an index, and the name itself. */
  ghost function Tried(path: Path, n: nat): set<Path> {
    if n == 0 then {path} else Tried(path, n - 1) + {Candidate(path, n)}
  }

  lemma {:induction false} TriedMembers(path: Path, n: nat, q: Path)
    ensures q in Tried(path, n) <==> q == path || exists i :: 1 <= i <= n && q == Candidate(path, i)
  {
    if n > 0 { TriedMembers(path, n - 1, q); }
  }

  lemma {:induction false} TriedCount(path: Path, n: nat)
    ensures |Tried(path, n)| == n + 1
  {
    if n > 0 {
      TriedCount(path, n - 1);
      var c := Candidate(path, n);
      TriedMembers(path, n - 1, c);
      CandidateIsLonger(path, n);
      if c in Tried(path, n - 1) {
        var i :| 1 <= i <= n - 1 && c == Candidate(path, i);
        CandidatesDiffer(path, i, n);
      }
    }
  }

  lemma CandidateIsLonger(path: Path, n: nat)
    ensures Candidate(path, n) != path
  {
    assert |Candidate(path, n)[|path| - 1]| > |path[|path| - 1]|;
  }
}

module PublicationModel {
  import opened Common
  import opened PublicationNames

  /** A file's bytes and its identity (size, times, inode) as `lstat` reports it. */
  datatype Blob = Blob(content: string, identity: nat)

  datatype Entry = File(blob: Blob) | Directory | Special

  datatype Mode = Overwrite | Skip | Rename | Ask

  datatype Failure = Aborted | UnsafeParent | UnsafeTarget | Different | RenameLimit | Io

  /** Staged files, the target directory and its provenance registry. */
  datatype Store = Store(staging: map<Path, Blob>, target: map<Path, Entry>, registry: map<Path, nat>)

  /** What aborts and failing file operations do while one file is published; `directories` is how many `mkdir` calls
      succeed, `disturbed` that the comparison gives up or sees a file change under it, and
      `identity` the one that the file has after its rename. */
  datatype Weather = Weather(
    abortedAtStart: bool,
    directories: nat,
    statFails: bool,
    compareFails: bool,
    disturbed: bool,
    abortedAfterCompare: bool,
    abortedAtRename: bool,
    renameFails: bool,
    identity: nat,
    recordFails: bool)

  /** `moved` is where the file landed when only recording it failed. */
  datatype Outcome = Published(dest: Path) | Stopped(failure: Failure, moved: Option<Path>)

  const RENAME_LIMIT: nat := 10000

  function Parents(target: map<Path, Entry>, path: Path, k: nat, directories: nat)
    : (r: (map<Path, Entry>, Option<Failure>))
    requires 1 <= k <= |path|
    decreases |path| - k
  {
    if k == |path| then (target, None)
    else if path[..k] in target then
      if target[path[..k]].Directory? then Parents(target, path, k + 1, directories) else (target, Some(UnsafeParent))
    else if directories == 0 then (target, Some(Io))
    else Parents(target[path[..k] := Directory], path, k + 1, directories - 1)
  }

  function FirstFree(target: map<Path, Entry>, path: Path, index: nat): (r: Option<Path>)
    decreases RENAME_LIMIT + 1 - index
  {
    if index > RENAME_LIMIT then None
    else if Candidate(path, index) !in target then Some(Candidate(path, index))
    else FirstFree(target, path, index + 1)
  }

  function Record(s: Store, dest: Path, moved: Option<Path>, w: Weather): (Store, Outcome)
    requires dest in s.target && s.target[dest].File?
  {
    if w.recordFails then (s, Stopped(Io, moved))
    else (s.(registry := s.registry[dest := s.target[dest].blob.identity]), Published(dest))
  }

  function Move(s: Store, path: Path, dest: Path, w: Weather): (Store, Outcome) {
    if w.abortedAtRename then (s, Stopped(Aborted, None))
    else if path !in s.staging || w.renameFails then (s, Stopped(Io, None))
    else
      var moved := File(s.staging[path].(identity := w.identity));
      Record(s.(staging := s.staging - {path}, target := s.target[dest := moved]), dest, Some(dest), w)
  }

  function Place(s: Store, path: Path, mode: Mode, w: Weather): (Store, Outcome) {
    if w.statFails then (s, Stopped(Io, None))
    else if path !in s.target then Move(s, path, path, w)
    else if !s.target[path].File? then (s, Stopped(UnsafeTarget, None))
    else if mode.Skip? || mode.Ask? then
      if path !in s.staging || w.compareFails then (s, Stopped(Io, None))
      else if !w.disturbed && s.staging[path].content == s.target[path].blob.content then Record(s, path, None, w)
      else (s, Stopped(if w.abortedAfterCompare then Aborted else Different, None))
    else if mode.Rename? then
      match FirstFree(s.target, path, 1)
      case None => (s, Stopped(RenameLimit, None))
      case Some(dest) => Move(s, path, dest, w)
    else Move(s, path, path, w)
  }

  function PublishOne(s: Store, path: Path, mode: Mode, w: Weather): (Store, Outcome) {
    if w.abortedAtStart then (s, Stopped(Aborted, None))
    else
      var (target, failed) := Parents(s.target, path, 1, w.directories);
      if failed.Some? then (s.(target := target), Stopped(failed.value, None))
      else Place(s.(target := target), path, mode, w)
  }

  /** The store, where the files went, and why publication ended early, if it did. */
  datatype Publication = Publication(store: Store, dests: seq<Path>, stop: Option<Outcome>)

  /** Publication of the first n files; an error ends it. */
  function PublishFirst(s: Store, files: seq<Path>, mode: Mode, weather: seq<Weather>, n: nat): Publication
    requires n <= |files| && |files| == |weather|
  {
    if n == 0 then Publication(s, [], None)
    else
      var before := PublishFirst(s, files, mode, weather, n - 1);
      if before.stop.Some? then before
      else
        var (store, outcome) := PublishOne(before.store, files[n - 1], mode, weather[n - 1]);
        if outcome.Published? then Publication(store, before.dests + [outcome.dest], None)
        else Publication(store, before.dests, Some(outcome))
  }

  /** `isVerifiedExtractionOutput`: the registry knows the file under its present identity. */
  predicate Verified(s: Store, path: Path) {
    path in s.target && s.target[path].File? && path in s.registry && s.registry[path] == s.target[path].blob.identity
  }

  // ---------------------------------------------------------------- one file

  ghost predicate Extends(target: map<Path, Entry>, more: map<Path, Entry>) {
    && (forall q :: q in target ==> q in more && more[q] == target[q])
    && (forall q :: q in more && q !in target ==> more[q].Directory?)
  }

  lemma {:induction false} ParentsExtend(target: map<Path, Entry>, path: Path, k: nat, directories: nat)
    requires 1 <= k <= |path|
    ensures Extends(target, Parents(target, path, k, directories).0)
    ensures path in Parents(target, path, k, directories).0 ==> path in target
    ensures Parents(target, path, k, directories).1 in {None, Some(UnsafeParent), Some(Io)}
    decreases |path| - k
  {
    if k < |path| && path[..k] in target && target[path[..k]].Directory? {
      ParentsExtend(target, path, k + 1, directories);
    } else if k < |path| && path[..k] !in target && directories > 0 {
      ParentsExtend(target[path[..k] := Directory], path, k + 1, directories - 1);
    }
  }

  /** Success means that every proper prefix of the path is a directory. */
  lemma {:induction false} ParentsAreDirectories(target: map<Path, Entry>, path: Path, k: nat, directories: nat)
    requires 1 <= k <= |path| && Parents(target, path, k, directories).1.None?
    ensures forall j :: k <= j < |path| ==> path[..j] in Parents(target, path, k, directories).0
                                            && Parents(target, path, k, directories).0[path[..j]].Directory?
    decreases |path| - k
  {
    if k < |path| {
      var (t, d) :=
        if path[..k] in target then (target, directories) else (target[path[..k] := Directory], directories - 1);
      ParentsAreDirectories(t, path, k + 1, d);
      ParentsExtend(t, path, k + 1, d);
    }
  }

  lemma {:induction false} FirstFreeIsFirst(target: map<Path, Entry>, path: Path, index: nat)
    ensures var r := FirstFree(target, path, index);
            match r
            case Some(dest) => exists i :: index <= i <= RENAME_LIMIT && dest == Candidate(path, i) && dest !in target
                                           && forall j :: index <= j < i ==> Candidate(path, j) in target
            case None => forall j :: index <= j <= RENAME_LIMIT ==> Candidate(path, j) in target
    decreases RENAME_LIMIT + 1 - index
  {
    hide Candidate;
    if index <= RENAME_LIMIT && Candidate(path, index) in target {
      FirstFreeIsFirst(target, path, index + 1);
    }
  }

  /** A file with the bytes of this one; a rename may have given it another identity. */
  predicate IsCopy(e: Entry, blob: Blob) { e.File? && e.blob.content == blob.content }

  /** The file left staging for a path of the target. */
  ghost predicate MovedTo(s: Store, t: Store, path: Path, dest: Path) {
    && path in s.staging && t.staging == s.staging - {path}
    && dest in t.target && IsCopy(t.target[dest], s.staging[path])
  }

  /** The target changes at most at the destination, apart from new directories. */
  ghost predicate TargetKept(s: Store, t: Store, dest: Option<Path>) {
    && (forall q :: q in s.target && Some(q) != dest ==> q in t.target && t.target[q] == s.target[q])
    && (forall q :: q in t.target && q !in s.target && Some(q) != dest ==> t.target[q].Directory?)
  }

  /** No other record changes. */
  ghost predicate RegistryKept(s: Store, t: Store, recorded: Option<Path>) {
    && (forall q :: Some(q) != recorded ==> (q in s.registry <==> q in t.registry))
    && (forall q :: q in s.registry && Some(q) != recorded ==> t.registry[q] == s.registry[q])
  }

  /** The staged file is moved to a free path, or over a file in overwrite mode, or an equal file stands for it. */
  ghost predicate Lands(s: Store, t: Store, path: Path, mode: Mode, published: bool, dest: Path) {
    || (MovedTo(s, t, path, dest)
        && (dest in s.target ==> mode.Overwrite? && dest == path && s.target[path].File?)
        && (dest == path || (mode.Rename? && path in s.target)))
    || (t.staging == s.staging && (mode.Skip? || mode.Ask?) && published && dest == path
        && path in s.target && path in t.target && t.target[path] == s.target[path] && path in s.staging
        && s.target[path].File? && s.target[path].blob.content == s.staging[path].content)
  }

  /** What one file's publication may change: at most the destination and missing parent directories of the target, the
      staged file, and the destination's record. */
  ghost predicate OneFile(s: Store, t: Store, path: Path, mode: Mode, outcome: Outcome) {
    var dest := if outcome.Published? then Some(outcome.dest) else outcome.moved;
    && TargetKept(s, t, dest)
    && RegistryKept(s, t, if outcome.Published? then Some(outcome.dest) else None)
    && (dest.None? ==> t.staging == s.staging)
    && (outcome.Published? ==> Verified(t, outcome.dest))
    && (dest.Some? ==> Lands(s, t, path, mode, outcome.Published?, dest.value))
  }

  lemma MoveIsOneFile(s: Store, path: Path, dest: Path, mode: Mode, w: Weather)
    requires dest in s.target ==> mode.Overwrite? && dest == path && s.target[path].File?
    requires dest == path || (mode.Rename? && path in s.target)
    ensures var (t, outcome) := Move(s, path, dest, w);
            OneFile(s, t, path, mode, outcome)
  {
    var (t, outcome) := Move(s, path, dest, w);
    MoveKeeps(s, path, dest, w);
    if t.staging != s.staging { MoveLands(s, path, dest, mode, w); }
    hide TargetKept, RegistryKept, Lands;
  }

  lemma MoveKeeps(s: Store, path: Path, dest: Path, w: Weather)
    ensures var (t, outcome) := Move(s, path, dest, w);
            && TargetKept(s, t, if outcome.Published? then Some(outcome.dest) else outcome.moved)
            && RegistryKept(s, t, if outcome.Published? then Some(outcome.dest) else None)
  {}

  lemma MoveLands(s: Store, path: Path, dest: Path, mode: Mode, w: Weather)
    requires dest in s.target ==> mode.Overwrite? && dest == path && s.target[path].File?
    requires dest == path || (mode.Rename? && path in s.target)
    requires !w.abortedAtRename && path in s.staging && !w.renameFails
    ensures var (t, outcome) := Move(s, path, dest, w);
            Lands(s, t, path, mode, outcome.Published?, dest)
  {}

  lemma PlaceIsOneFile(s: Store, path: Path, mode: Mode, w: Weather)
    ensures var (t, outcome) := Place(s, path, mode, w);
            OneFile(s, t, path, mode, outcome)
  {
    hide Move;
    if !w.statFails {
      if path !in s.target || mode.Overwrite? {
        if path !in s.target || s.target[path].File? { MoveIsOneFile(s, path, path, mode, w); }
      } else if mode.Rename? && s.target[path].File? {
        FirstFreeIsFirst(s.target, path, 1);
        hide FirstFree;
        var free := FirstFree(s.target, path, 1);
        if free.Some? { MoveIsOneFile(s, path, free.value, mode, w); }
      }
    }
  }

  lemma ExtendedFirst(s: Store, u: Store, t: Store, path: Path, mode: Mode, outcome: Outcome)
    requires u == s.(target := u.target) && Extends(s.target, u.target)
    requires path in u.target ==> path in s.target
    requires OneFile(u, t, path, mode, outcome)
    ensures OneFile(s, t, path, mode, outcome)
  {
    var dest := if outcome.Published? then Some(outcome.dest) else outcome.moved;
    hide Verified;
    ExtendedTarget(s, u, t, dest);
  }

  lemma ExtendedTarget(s: Store, u: Store, t: Store, dest: Option<Path>)
    requires u == s.(target := u.target) && Extends(s.target, u.target) && TargetKept(u, t, dest)
    ensures TargetKept(s, t, dest)
  {}

  /** The frame and the effect of publishing one file, whatever fails. */
  lemma PublishOneFile(s: Store, path: Path, mode: Mode, w: Weather)
    ensures var (t, outcome) := PublishOne(s, path, mode, w);
            OneFile(s, t, path, mode, outcome)
  {
    if !w.abortedAtStart {
      var (target, failed) := Parents(s.target, path, 1, w.directories);
      ParentsExtend(s.target, path, 1, w.directories);
      hide Parents, Place;
      if failed.None? {
        var u := s.(target := target);
        PlaceIsOneFile(u, path, mode, w);
        var (t, outcome) := Place(u, path, mode, w);
        ExtendedFirst(s, u, t, path, mode, outcome);
      }
    }
  }

  lemma RenameLimitReason(s: Store, path: Path, mode: Mode, w: Weather)
    requires PublishOne(s, path, mode, w).1 == Stopped(RenameLimit, None)
    ensures var target := Parents(s.target, path, 1, w.directories).0;
            mode.Rename? && path in target && FirstFree(target, path, 1).None?
  {
    ParentsExtend(s.target, path, 1, w.directories);
    hide Parents, FirstFree, Extends;
  }

  /** Renaming gives up only in a directory that already holds more than ten thousand entries. */
  lemma RenameLimitMeansCrowded(s: Store, path: Path, mode: Mode, w: Weather)
    requires PublishOne(s, path, mode, w).1 == Stopped(RenameLimit, None)
    ensures |Parents(s.target, path, 1, w.directories).0| > RENAME_LIMIT
    ensures mode.Rename?
  {
    hide PublishOne, Parents, Candidate, FirstFree, Tried;
    var target := Parents(s.target, path, 1, w.directories).0;
    RenameLimitReason(s, path, mode, w);
    FirstFreeIsFirst(target, path, 1);
    forall q | q in Tried(path, RENAME_LIMIT) ensures q in target.Keys {
      TriedMembers(path, RENAME_LIMIT, q);
    }
    TriedCount(path, RENAME_LIMIT);
    Subset(Tried(path, RENAME_LIMIT), target.Keys);
  }

  lemma {:induction false} Subset<T>(a: set<T>, b: set<T>)
    requires a <= b
    ensures |a| <= |b|
    decreases |a|
  {
    if a != {} {
      var x :| x in a;
      Subset(a - {x}, b - {x});
    }
  }
}
