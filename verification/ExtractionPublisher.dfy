/** Publication step by step, and the registry operations around it. */
module ExtractionPublisher {
  import opened Common
  import opened PublicationNames
  import P = PublicationModel

  /** A file renamed on disk; the rename may give it new times and with them a new identity. */
  function RenamedOnDisk(s: P.Store, from: Path, to: Path, identity: nat): P.Store
    requires from in s.target && s.target[from].File?
  {
    var blob := s.target[from].blob;
    s.(target := (s.target - {from})[to := P.File(blob.(identity := identity))])
  }

  /** `moveVerifiedExtractionOutput`: false when the new path holds no regular file. */
  function MoveRecord(s: P.Store, from: Path, to: Path): (P.Store, bool) {
    if from !in s.registry then (s, true)
    else if to !in s.target || !s.target[to].File? then (s, false)
    else (s.(registry := (s.registry - {from})[to := s.target[to].blob.identity]), true)
  }

  /** A rename followed by the move of its record: the verification is carried to the new path exactly when the old path
      had a record, and every other path is as verified as before. */
  lemma MoveCarriesTheRecord(s: P.Store, from: Path, to: Path, identity: nat, q: Path)
    requires from in s.target && s.target[from].File? && from != to
    ensures var (t, moved) := MoveRecord(RenamedOnDisk(s, from, to, identity), from, to);
            && moved && !P.Verified(t, from)
            && (P.Verified(t, to) <==> from in s.registry || (to in s.registry && s.registry[to] == identity))
            && (q != from && q != to ==> (P.Verified(t, q) <==> P.Verified(s, q)))
            && t.target[to].blob.content == s.target[from].blob.content
            && from !in t.registry
  {}

  /** Without a record there is nothing to move, and a record stays where it is if no file is at the new path. */
  lemma MoveNeedsRecordAndFile(s: P.Store, from: Path, to: Path)
    requires from !in s.registry || to !in s.target || !s.target[to].File?
    ensures MoveRecord(s, from, to) == (s, from !in s.registry)
  {}

  /** The record alone decides, not whether it still matched: a file changed after it was recorded counts as verified
      once it has been moved. */
  lemma MoveVerifiesAChangedFile()
    ensures var from, to := ["a"], ["b"];
            var s := P.Store(map[], map[from := P.File(P.Blob("changed", 2))], map[from := 1]);
            && !P.Verified(s, from)
            && P.Verified(MoveRecord(RenamedOnDisk(s, from, to, 3), from, to).0, to)
  {
    assert ["a"][0] != ["b"][0];
  }

  class ExtractionPublisher {
    var staging: map<Path, P.Blob>
    var target: map<Path, P.Entry>
    var registry: map<Path, nat>

    ghost function View(): P.Store
      reads this
    {
      P.Store(staging, target, registry)
    }

    constructor (staging: map<Path, P.Blob>, target: map<Path, P.Entry>, registry: map<Path, nat>)
      ensures View() == P.Store(staging, target, registry)
    {
      this.staging, this.target, this.registry := staging, target, registry;
    }

    method PrepareParent(path: Path, directories: nat) returns (failed: Option<P.Failure>)
      modifies this`target
      ensures (target, failed) == P.Parents(old(target), path, 1, directories)
    {
      var k, left := 1, directories;
      while k < |path|
        invariant 1 <= k <= |path|
        invariant P.Parents(target, path, k, left) == P.Parents(old(target), path, 1, directories)
      {
        var parent := path[..k];
        if parent in target {
          if !target[parent].Directory? { return Some(P.UnsafeParent); }
        } else {
          if left == 0 { return Some(P.Io); }
          target, left := target[parent := P.Directory], left - 1;
        }
        k := k + 1;
      }
      return None;
    }

    method FreeName(path: Path) returns (dest: Option<Path>)
      ensures dest == P.FirstFree(target, path, 1)
    {
      var index := 1;
      while index <= P.RENAME_LIMIT
        invariant P.FirstFree(target, path, index) == P.FirstFree(target, path, 1)
        decreases P.RENAME_LIMIT + 1 - index
      {
        var candidate := Candidate(path, index);
        if candidate !in target { return Some(candidate); }
        index := index + 1;
      }
      return None;
    }

    method Record(dest: Path, moved: Option<Path>, w: P.Weather) returns (outcome: P.Outcome)
      requires dest in target && target[dest].File?
      modifies this`registry
      ensures (View(), outcome) == P.Record(old(View()), dest, moved, w)
    {
      if w.recordFails { return P.Stopped(P.Io, moved); }
      registry := registry[dest := target[dest].blob.identity];
      return P.Published(dest);
    }

    /** One turn of the publication loop. */
    method PublishFile(path: Path, mode: P.Mode, w: P.Weather) returns (outcome: P.Outcome)
      modifies this
      ensures (View(), outcome) == P.PublishOne(old(View()), path, mode, w)
    {
      hide P.Parents, P.FirstFree;
      if w.abortedAtStart { return P.Stopped(P.Aborted, None); }
      var failed := PrepareParent(path, w.directories);
      if failed.Some? { return P.Stopped(failed.value, None); }
      if w.statFails { return P.Stopped(P.Io, None); }
      var dest := path;
      if path in target {
        if !target[path].File? { return P.Stopped(P.UnsafeTarget, None); }
        if mode.Skip? || mode.Ask? {
          if path !in staging || w.compareFails { return P.Stopped(P.Io, None); }
          if w.disturbed || staging[path].content != target[path].blob.content {
            return P.Stopped(if w.abortedAfterCompare then P.Aborted else P.Different, None);
          }
          outcome := Record(path, None, w);
          return;
        }
        if mode.Rename? {
          var free := FreeName(path);
          if free.None? { return P.Stopped(P.RenameLimit, None); }
          dest := free.value;
        }
      }
      if w.abortedAtRename { return P.Stopped(P.Aborted, None); }
      if path !in staging || w.renameFails { return P.Stopped(P.Io, None); }
      var blob := staging[path].(identity := w.identity);
      staging, target := staging - {path}, target[dest := P.File(blob)];
      outcome := Record(dest, Some(dest), w);
    }

    method PublishFiles(files: seq<Path>, mode: P.Mode, weather: seq<P.Weather>)
      returns (dests: seq<Path>, stop: Option<P.Outcome>)
      requires |files| == |weather|
      modifies this
      ensures P.Publication(View(), dests, stop) == P.PublishFirst(old(View()), files, mode, weather, |files|)
    {
      hide P.PublishOne;
      dests, stop := [], None;
      var n := 0;
      while n < |files|
        invariant n <= |files| && stop.None?
        invariant P.Publication(View(), dests, stop) == P.PublishFirst(old(View()), files, mode, weather, n)
      {
        var outcome := PublishFile(files[n], mode, weather[n]);
        n := n + 1;
        if outcome.Stopped? {
          stop := Some(outcome);
          StopStays(old(View()), files, mode, weather, n, |files|);
          return;
        }
        dests := dests + [outcome.dest];
      }
    }

    method MoveVerified(from: Path, to: Path) returns (ok: bool)
      modifies this`registry
      ensures (View(), ok) == MoveRecord(old(View()), from, to)
    {
      if from !in registry { return true; }
      if to !in target || !target[to].File? { return false; }
      registry := registry - {from};
      registry := registry[to := target[to].blob.identity];
      return true;
    }
  }

  /** An error ends the publication: the files after it are not looked at. */
  lemma {:induction false} StopStays(s: P.Store, files: seq<Path>, mode: P.Mode, weather: seq<P.Weather>,
                                     k: nat, n: nat)
    requires k <= n <= |files| == |weather| && P.PublishFirst(s, files, mode, weather, k).stop.Some?
    ensures P.PublishFirst(s, files, mode, weather, n) == P.PublishFirst(s, files, mode, weather, k)
  {
    if k < n { StopStays(s, files, mode, weather, k, n - 1); }
  }
}
