/** The crash-consistent double write of the link collector (src/main/collector-store.ts).

    The store keeps its state in two files, `<file>.bak` and `<file>`.  Asynchronous writes run one after
    the other; each of them may have one rename in the thread pool that lands long after a newer synchronous
    flush.  This module is the protocol as a step system over values.  Every step is one stretch of code that
    runs without interruption; what the environment decides (clock, I/O failures, when a rename lands) is
    part of the event. */
module CollectorProtocol {
  import opened Common

  /** One version of the collector state: the `born`-th state that was ever accepted (0 is the empty state a
      new store starts with) together with the `updatedAt` stamp it is stored under. */
  datatype File = File(born: nat, stamp: nat)

  /** How far the chained write at the head of the queue has come. */
  datatype Stage =
    | BackupTemp     // writing the temporary file for `.bak`
    | BackupRename   // found itself current; the rename onto `.bak` is in the thread pool
    | BackupLanded   // that rename has landed; the continuation has not run
    | PrimaryTemp
    | PrimaryRename
    | PrimaryLanded
    | Settling       // only the `finally` handler is left

  datatype Job = Job(revision: nat, file: File, stage: Stage)

  datatype Store = Store(
    current: File,            // state and updatedAt
    revision: nat,
    timer: Option<nat>,       // delay of the armed timer
    retryAttempt: nat,
    jobs: seq<Job>,           // chain of asynchronous writes, the running one first
    backup: Option<File>,
    primary: Option<File>,
    births: nat)              // number of states accepted so far, in this process and before it

  /** What the environment decides about one synchronous double write: the clock, whether each of the two
      file replacements succeeds, and whether a rename from the thread pool lands between them. */
  datatype Sync = Sync(now: nat, backupOk: bool, racedIn: bool, primaryOk: bool)

  datatype Event =
    | Update(now: nat, accepted: bool)
    | FlushSync(sync: Sync)
    | TimerFires
    | TempWritten(sync: Sync)
    | WriteFails
    | RenameLands
    | WriteResumes(sync: Sync)
    | WriteSettles(sync: Sync)
    | Crash(sync: Sync)

  const WRITE_DELAY_MS: nat := 300

  function Pow2(n: nat): nat { if n == 0 then 1 else 2 * Pow2(n - 1) }

  function RetryDelayMs(attempt: nat): nat {
    var delay := 1_000 * Pow2(if attempt == 0 then 0 else attempt - 1);
    if delay < 60_000 then delay else 60_000
  }

  /** The file a reload takes: the primary unless the backup carries a strictly later stamp. */
  function Choose(primary: Option<File>, backup: Option<File>): Option<File> {
    if primary.Some? && (backup.None? || primary.value.stamp >= backup.value.stamp) then primary else backup
  }

  function Initial(): Store { Store(File(0, 0), 0, None, 0, [], None, None, 0) }

  function WithStage(s: Store, stage: Stage): Store
    requires s.jobs != []
  {
    s.(jobs := [s.jobs[0].(stage := stage)] + s.jobs[1..])
  }

  /** A rename in the thread pool, if there is one, replaces its target. */
  function Land(s: Store): Store {
    if s.jobs == [] then s
    else if s.jobs[0].stage.BackupRename? then WithStage(s.(backup := Some(s.jobs[0].file)), BackupLanded)
    else if s.jobs[0].stage.PrimaryRename? then WithStage(s.(primary := Some(s.jobs[0].file)), PrimaryLanded)
    else s
  }

  function SyncPayload(s: Store, now: nat): File {
    File(s.current.born, if s.current.stamp != 0 then s.current.stamp else now)
  }

  function WriteSync(s: Store, o: Sync): Store {
    var payload := SyncPayload(s, o.now);
    if !o.backupOk then s
    else
      var afterBackup := s.(backup := Some(payload));
      var raced := if o.racedIn then Land(afterBackup) else afterBackup;
      if o.primaryOk then raced.(primary := Some(payload)) else raced
  }

  function DoUpdate(s: Store, now: nat, accepted: bool): Store {
    if !accepted then s
    else
      s.(current := File(s.births + 1, Max(now, s.current.stamp + 1)),
         births := s.births + 1,
         revision := s.revision + 1,
         timer := Some(if s.retryAttempt > 0 then RetryDelayMs(s.retryAttempt) else WRITE_DELAY_MS))
  }

  function DoFlush(s: Store, o: Sync): Store { WriteSync(s.(timer := None), o) }

  function DoTimer(s: Store): Store {
    if s.timer.None? then s
    else s.(timer := None, jobs := s.jobs + [Job(s.revision, s.current, BackupTemp)])
  }

  /** The temporary file is on disk: the currency check either starts the rename or gives the write up. */
  function DoTempWritten(s: Store, o: Sync): Store {
    if s.jobs == [] then s
    else
      var isCurrent := s.jobs[0].revision == s.revision;
      match s.jobs[0].stage
      case BackupTemp => WithStage(s, if isCurrent then BackupRename else Settling)
      case PrimaryTemp =>
        if isCurrent then WithStage(s, PrimaryRename) else WriteSync(WithStage(s, Settling), o)
      case _ => s
  }

  function InFlight(stage: Stage): bool {
    stage.BackupTemp? || stage.BackupRename? || stage.PrimaryTemp? || stage.PrimaryRename?
  }

  /** A file operation of the running write rejects: a current write arms the retry timer. */
  function DoFails(s: Store): Store {
    if s.jobs == [] || !InFlight(s.jobs[0].stage) then s
    else if s.jobs[0].revision != s.revision then WithStage(s, Settling)
    else
      WithStage(s.(retryAttempt := s.retryAttempt + 1, timer := Some(RetryDelayMs(s.retryAttempt + 1))), Settling)
  }

  /** The continuation after a landed rename checks again whether the write is still current. */
  function DoResumes(s: Store, o: Sync): Store {
    if s.jobs == [] then s
    else
      var isCurrent := s.jobs[0].revision == s.revision;
      match s.jobs[0].stage
      case BackupLanded => WithStage(s, if isCurrent then PrimaryTemp else Settling)
      case PrimaryLanded =>
        if isCurrent then WithStage(s.(retryAttempt := 0), Settling) else WriteSync(WithStage(s, Settling), o)
      case _ => s
  }

  /** The `finally` handler: the next write may start, and an overtaken one heals what it may have left. */
  function DoSettles(s: Store, o: Sync): Store {
    if s.jobs == [] || !s.jobs[0].stage.Settling? then s
    else
      var popped := s.(jobs := s.jobs[1..]);
      if s.jobs[0].revision != s.revision && s.timer.None? then WriteSync(popped, o) else popped
  }

  /** The process dies and a new one loads; a newer backup is copied back onto the primary. */
  function DoCrash(s: Store, o: Sync): Store {
    var loaded := Choose(s.primary, s.backup);
    var loadedStore := Store(if loaded.Some? then loaded.value else File(0, 0), 0, None, 0, [],
                       s.backup, s.primary, s.births);
    if s.backup.Some? && (s.primary.None? || s.backup.value.stamp > s.primary.value.stamp)
    then WriteSync(loadedStore, o) else loadedStore
  }

  function Step(s: Store, e: Event): Store {
    match e
    case Update(now, accepted) => DoUpdate(s, now, accepted)
    case FlushSync(o) => DoFlush(s, o)
    case TimerFires => DoTimer(s)
    case TempWritten(o) => DoTempWritten(s, o)
    case WriteFails => DoFails(s)
    case RenameLands => Land(s)
    case WriteResumes(o) => DoResumes(s, o)
    case WriteSettles(o) => DoSettles(s, o)
    case Crash(o) => DoCrash(s, o)
  }

  function Run(s: Store, events: seq<Event>): Store
    decreases |events|
  {
    if events == [] then s else Run(Step(s, events[0]), events[1..])
  }

  // ---------------------------------------------------------------- what every step keeps

  /** `f` is in memory, in a queued write, or on disk. */
  ghost predicate Holds(s: Store, f: File) {
    || f == s.current
    || s.backup == Some(f)
    || s.primary == Some(f)
    || exists i :: 0 <= i < |s.jobs| && s.jobs[i].file == f
  }

  /** States accepted later carry later stamps.  (The empty state is outside this order: a flush of a store
      that was never used stamps it with the wall clock.) */
  predicate Ordered(f: File, g: File) {
    f.born >= 1 && g.born >= 1 ==> (f.born < g.born ==> f.stamp < g.stamp) && (f.born == g.born ==> f == g)
  }

  ghost predicate Chronological(s: Store) {
    && (forall f, g :: Holds(s, f) && Holds(s, g) ==> Ordered(f, g))
    && (forall f :: Holds(s, f) ==> f.born <= s.births && (f.born >= 1 ==> 1 <= f.stamp <= s.current.stamp))
  }

  ghost predicate JobsValid(s: Store) {
    && (s.timer.Some? || s.jobs != [] ==> s.revision > 0)
    && (s.revision > 0 ==> s.current.born >= 1)
    && (forall i :: 0 <= i < |s.jobs| ==>
          && s.jobs[i].file.born >= 1
          && s.jobs[i].revision <= s.revision
          && (s.jobs[i].revision == s.revision ==> s.jobs[i].file == s.current)
          && (i > 0 ==> s.jobs[i].stage.BackupTemp?))
  }

  predicate BackupDone(stage: Stage) {
    stage.BackupLanded? || stage.PrimaryTemp? || stage.PrimaryRename? || stage.PrimaryLanded?
  }

  /** A write that is still current finds on disk what it has put there. */
  ghost predicate Progress(s: Store) {
    s.jobs != [] && s.jobs[0].revision == s.revision ==>
      && (BackupDone(s.jobs[0].stage) ==> s.backup == Some(s.current))
      && (s.jobs[0].stage.PrimaryLanded? ==> s.primary == Some(s.current))
  }

  ghost predicate Inv(s: Store) { Chronological(s) && JobsValid(s) && Progress(s) }

  /** The file that a rename now in the thread pool will publish. */
  function Straggler(s: Store): Option<File> {
    if s.jobs != [] && (s.jobs[0].stage.BackupRename? || s.jobs[0].stage.PrimaryRename?)
    then Some(s.jobs[0].file) else None
  }

  predicate Behind(cell: Option<File>, d: nat) { cell.None? || cell.value.born < d }

  /** State number `d` cannot be lost: memory holds nothing older, at most one file is behind, and while a
      straggler older than `d` is about, no file is. */
  ghost predicate Safe(s: Store, d: nat) {
    && s.current.born >= d
    && !(Behind(s.backup, d) && Behind(s.primary, d))
    && (Straggler(s).Some? && Straggler(s).value.born < d ==> !Behind(s.backup, d) && !Behind(s.primary, d))
    && s.backup.Some? && s.primary.Some?
    && (d >= 1 ==> s.backup.value.born >= 1 && s.primary.value.born >= 1)
  }

  ghost predicate Settled(s: Store) { s.backup == Some(s.current) && s.primary == Some(s.current) }
}
