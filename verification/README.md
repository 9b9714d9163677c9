# Verified models of the download manager

The download manager keeps several small protocols and arithmetic cores beside its window and network code. This
project models them in Dafny and proves what each of them is for. Every core has a specification over values (a state,
its steps, runs of steps) with the theorems about it and, where the program updates fields step by step, a class whose
methods are proved to be those steps.

| files | part of the program |
|---|---|
| CollectorProtocol, CollectorTheorems, CollectorProgress, CollectorStore | crash-consistent double write of the link collector |
| Crc32, CrcCheckValue, FileDigest | CRC-32 as in section 8 of RFC 1952, chunked file hash |
| Calendar, LocalDate, DailyStart, DailyStartProtocol, DailyStartOutcomes, DailyStartScheduler | daily start: dates, predictor, persisted protocol |
| HealthEvaluation, HealthTheorems, HealthRuns, HealthIncidents, HealthTiming, HealthLaws, DownloadHealthMonitor | download health machine |
| InFlight, AccountRules | in-flight maps and priority rules of the account pools |
| RealDebridModel, RealDebridTheorems, RealDebridWorld, RealDebridCooldowns, RealDebridEndings, RealDebridPool | Real-Debrid account pool |
| MegaDebridModel, MegaDebridTheorems, MegaDebridWorld, MegaDebridParking, MegaDebridCooldowns, MegaDebridEndings, MegaDebridPool | Mega-Debrid account rotation |
| DebridLinkModel | Debrid-Link cooldowns |
| DiskProtocol, DiskGrants, DiskReservationCoordinator | disk reservations |
| PublicationModel, PublicationTheorems, PublicationOutcomes, ExtractionPublisher | publication of extracted files and its registry |
| ExtractionLimiter, LimiterOutcomes | extraction semaphore |
| DiagnosticWriter, DiagnosticOutcomes | diagnostic log writer |
| FileNames, SafeNames, PackageMerge, PackageContents | sanitized names, package merge |
| Common, Lists, Numerals | shared vocabulary |

Besides what every step keeps, the laws say what is reached: a store or a writer left to itself comes to rest with
everything written (`StoreComesToRest`, `WriterComesToRest`), and a due start, a stall, a grant, a cooldown or a
publication comes exactly when it should.

Await points are step boundaries: what the environment decides (clock readings, I/O failures, answers, when a rename
lands) is part of an event, so a theorem about runs speaks about every interleaving. The account pools have such runs
too, of any number of calls (RealDebridWorld, MegaDebridWorld); the laws about a call alone say so.

Five properties one might expect are false of the code. For each the project gives the exact condition and a failing
run. Convergence of the link collector is lost exactly by a failing flush with nothing else under way or a failing heal
of the last write (`ConvergenceIsLostExactly`, `FailedHealLeavesStoreUnsettled`). A cooldown of the health monitor is
forgotten exactly by a restart while its acknowledgement is in memory only (`CooldownIsRememberedExactly`,
`ForgettingAllowsAStall`, `ForgottenAcknowledgement`). Disk totals are the live leases exactly while no release
overtakes its own lease's growth (`TotalsAreLiveLeasesExactly`, `OvertakenUpdateLeaks`). The Real-Debrid in-flight map
is right exactly while no account with a call inside is dropped (`RealDebridWorld.CountsExactly`,
`DroppedAccountLooksIdle`). A parked Mega-Debrid account is freed before its reset exactly when an attempt already under
way is served, fails otherwise than by a further limit signal, or is aborted late while another account could take over
(`ParkIsLostExactly`, `OverlappingAnswerEndsPark`). One more observation: moving a registry record does not check that
it still matched (`MoveCarriesTheRecord`, `MoveVerifiesAChangedFile`).

## Model

| member | source | states |
|---|---|---|
| `CollectorTheorems.FlushedStateIsNeverLost` | src/main/collector-store.ts:175-181 | After a successful flush in any run, no later interleaving of updates, timers, queued writes, late renames, heal writes, I/O errors and crashes makes the reload rule choose a state accepted earlier than the flushed one. |
| `CollectorTheorems.WrittenStateIsNeverLost` | src/main/collector-store.ts:201-208 | The same for an asynchronous write whose last continuation finds it current: both files hold the current state, the retry count is reset, and the state cannot be lost afterwards. |
| `CollectorTheorems.QuiescentStoreIsSettled` | src/main/collector-store.ts:163-225 | Convergence: after an accepted update or a successful flush, if no synchronous write fails, then whenever no timer is armed and no write is active both files hold the latest state, stragglers, failing asynchronous writes and crashes included. |
| `CollectorTheorems.ConvergenceIsLostExactly` | src/main/collector-store.ts:175-223 | For every run after an accepted update or a successful flush: the store gets stranded, at rest or about to rest with the latest state not on disk, if and only if a double write fails at one of two places: in a flush with nothing else under way, or in the heal of the last overtaken write with no timer armed. |
| `CollectorTheorems.StepAnswers` | src/main/collector-store.ts:163-223 | The step form: whatever is not on disk stays attended to by a timer or a write, except by exactly these failures. |
| `CollectorTheorems.FailedHealLeavesStoreUnsettled` | src/main/collector-store.ts:216-223 | A concrete run of the second kind: a failing flush and a failing heal write leave the latest state in memory only, with nothing scheduled. |
| `CollectorTheorems.SafeChoice` | src/main/collector-store.ts:145-151 | In a safe state the reload rule (primary unless the backup is strictly newer) finds a file, and not one older than the protected state. |
| `CollectorTheorems.StepKeepsSafe` | src/main/collector-store.ts:110-131 | Every step keeps a protected state safe: memory holds nothing older, at most one file is behind, and none while an older rename is still in flight. |
| `CollectorTheorems.RunKeepsSafe` | src/main/collector-store.ts:196-225 | Safety of a protected state over whole runs. |
| `CollectorTheorems.FlushMakesSafe` | src/main/collector-store.ts:175-181 | A flush that succeeds makes the state in memory protected, even when a stale rename lands between its two file replacements. |
| `CollectorTheorems.StepKeepsInv` | src/main/collector-store.ts:163-231 | Every step keeps the protocol invariant: later states carry later stamps, a write of the current revision carries the current state, and a current write finds on disk what it has put there. |
| `CollectorTheorems.RunKeepsInv` | src/main/collector-store.ts:163-231 | The protocol invariant over whole runs. |
| `CollectorProgress.StoreComesToRest` | src/main/collector-store.ts:187-225 | After any run and an accepted update or a successful flush, the store can take only so many steps of its own, and while nothing fails one is always left until no timer is armed and no write is active; both files then hold the latest state. |
| `CollectorProgress.OwnStepWorks` | src/main/collector-store.ts:187-225 | Each own step, from the timer to the settling of a write, leaves strictly less to do. |
| `CollectorProgress.OvertakenWriteHeals` | src/main/collector-store.ts:206-223 | An overtaken write that gets past its first rename, or settles with no timer armed, leaves both files with the state in memory. |
| `CollectorProgress.ReloadRepairs` | src/main/collector-store.ts:145-156 | A new process takes the newer file; if that is the backup, or the only file, both files are written from it again, and a primary at least as new leaves both files untouched. Nothing is pending afterwards. |
| `CollectorProgress.RepairedFilesAreInterchangeable` | src/main/collector-store.ts:152-156 | After a repair either file alone makes the next process load that same state. |
| `CollectorProgress.FailedRepairIsTriedAgain` | src/main/collector-store.ts:152-156 | If the copy fails, the next process picks the same backup and tries again. |
| `CollectorProgress.UpdateIsScheduled` | src/main/collector-store.ts:163-173 | An accepted update gets the first stamp neither before the clock nor up to the last stamp, overtakes every write under way, and is scheduled after 300 ms or the retry delay; a rejected one changes nothing. |
| `CollectorProgress.FailureIsRetried` | src/main/collector-store.ts:209-215 | A failing file operation ends its write and touches no file; a current write is tried again after the delay for one more failure, an overtaken one is not. |
| `CollectorProgress.RetryDelays` | src/main/collector-store.ts:183-185 | The delays are 1, 2, 4, 8, 16, 32 and from then on 60 seconds. |
| `CollectorStore.CollectorStore.constructor` | src/main/collector-store.ts:141-157 | A new process reloads by the choice rule and copies a strictly newer backup onto the primary; a failure of that copy is ignored. |
| `CollectorStore.CollectorStore.Update` | src/main/collector-store.ts:163-173 | Is the protocol update: revision and stamp advance, the stamp strictly, and a write is scheduled with the retry delay while retrying. |
| `CollectorStore.CollectorStore.FlushSync` | src/main/collector-store.ts:175-181 | Is the protocol flush: the timer is cancelled and both files are replaced, backup first; succeeds exactly when both replacements do. |
| `CollectorStore.CollectorStore.TimerFires` | src/main/collector-store.ts:189-192 | Is the protocol timer step: the current state is queued as a write behind the running one. |
| `CollectorStore.CollectorStore.TempWritten` | src/main/collector-store.ts:115-124 | Is the protocol currency check before the rename of either file. |
| `CollectorStore.CollectorStore.RenameLands` | src/main/collector-store.ts:124 | Is the protocol step in which a rename replaces its target, however late. |
| `CollectorStore.CollectorStore.WriteResumes` | src/main/collector-store.ts:125-125 | Is the protocol continuation after a landed rename: go on, heal by a synchronous write, or finish and reset the retry count. |
| `CollectorStore.CollectorStore.WriteFails` | src/main/collector-store.ts:209-215 | Is the protocol failure step: only a current write counts a retry and arms the timer. |
| `CollectorStore.CollectorStore.WriteSettles` | src/main/collector-store.ts:216-223 | Is the protocol settle step: an overtaken write with no timer armed heals by a synchronous write. |
| `CollectorStore.CollectorStore.WriteSync` | src/main/collector-store.ts:227-231 | Replaces the backup, then the primary, with the state in memory; stops at the first failure. |
| `Crc32.BuildTable` | src/main/integrity.ts:191-196 | The nested loops fill a 256-entry table whose i-th entry is eight bit steps of i under the reflected polynomial 0xEDB88320. |
| `Crc32.TableEntry` | src/main/integrity.ts:193-195 | The inner loop computes one entry: eight bit steps. |
| `Crc32.TableStep` | src/main/integrity.ts:201 | One table lookup and an eight-bit shift do the work of eight bit steps, for every register. |
| `Crc32.ProgramStep` | src/main/integrity.ts:201 | The loop body, with the table looked up at the xor of register and byte, is feeding that byte bit by bit. |
| `Crc32.Crc32Buffer` | src/main/integrity.ts:198-204 | The table-driven loop equals bit-serial division of the data by the polynomial, seeded and complemented as in section 8 of RFC 1952. |
| `Crc32.SerialOfWord` | src/main/integrity.ts:198-204 | Feeding the low bits of a word one at a time equals xoring the word into the register and stepping, up to the unread rest of the word. |
| `Crc32.BitStepInjective` | src/main/integrity.ts:194 | A bit step loses no information. |
| `Crc32.SerialInjective` | src/main/integrity.ts:198-204 | Different registers stay different under equal input. |
| `Crc32.SerialSeparates` | src/main/integrity.ts:198-204 | Any two different bit sequences of equal length up to 32 lead to different registers. |
| `Crc32.BurstChangesRegister` | src/main/integrity.ts:198-204 | Equal-length bit messages that differ only inside a window of 32 bits never have the same register. |
| `CrcCheckValue.CheckValue` | src/main/integrity.ts:191-204 | The reference the loop is proved against gives the digits 1 to 9 their published check value, CBF43926, so polynomial, bit order, seed and complement are those of CRC-32. |
| `FileDigest.SeedChains` | src/main/integrity.ts:208-213 | Seeding a call with the previous result continues the same checksum. |
| `FileDigest.FeedAppend` | src/main/integrity.ts:208-213 | The register does not depend on where the stream is cut. |
| `FileDigest.HashFile` | src/main/integrity.ts:206-215 | For every cut of the file into chunks the digest is the eight-digit hexadecimal form of the checksum of the whole content. |
| `FileDigest.Hex8Facts` | src/main/integrity.ts:214 | The digest has exactly eight lower-case digits and denotes the unsigned checksum. |
| `FileDigest.DigestMatches` | src/main/integrity.ts:241-242 | A file is accepted exactly when the eight manifest digits, in any case, denote its checksum. |
| `FileDigest.ValueInjective` | src/main/integrity.ts:214 | Equally long digests of the same number are equal. |
| `FileDigest.BurstIsDetected` | src/main/integrity.ts:198-215 | Files of equal length that differ only inside 32 consecutive bits have different checksums. |
| `FileDigest.FourBytesAreDetected` | src/main/integrity.ts:198-215 | Replacing up to four consecutive bytes by others always changes the checksum. |
| `Calendar.CivilRoundTrip` | src/main/daily-start-scheduler.ts:26-51 | Date to day number and back is the identity on valid dates of the Gregorian calendar. |
| `Calendar.CivilOfIsValid` | src/main/daily-start-scheduler.ts:26-51 | Every day number is the number of exactly one valid date. |
| `Calendar.DayNumberOrders` | src/main/daily-start-scheduler.ts:26-51 | Valid dates are ordered like their day numbers. |
| `Calendar.YearLength` | src/main/daily-start-scheduler.ts:26-51 | Years have 365 or 366 days by the leap-year rule. |
| `Calendar.MonthLength` | src/main/daily-start-scheduler.ts:26-48 | The first of a month is as many days after the first of the month before as that has, and days are counted from the first of January 1970. |
| `Calendar.MonthDays` | src/main/daily-start-scheduler.ts:26-48 | The Gregorian lengths of the months. |
| `LocalDate.ParseFormat` | src/main/daily-start-scheduler.ts:26-43 | Parsing inverts formatting on years 1000 to 9999. |
| `LocalDate.FormatParse` | src/main/daily-start-scheduler.ts:26-43 | A string is accepted only if it is the zero-padded spelling of an existing date. |
| `LocalDate.OrderIsChronological` | src/main/daily-start-scheduler.ts:76-86 | The code-unit order of valid date strings is chronological order. |
| `DailyStart.AddOneDay` | src/main/daily-start-scheduler.ts:45-51 | Adding one day gives the immediate successor across month ends and leap years; only 9999-12-31 has none. |
| `DailyStart.CandidateIsTodayOrLater` | src/main/daily-start-scheduler.ts:76-88 | The predicted day is never before today, and is today exactly when no date gate holds the reconciler back. |
| `DailyStartOutcomes.PredictionExactly` | src/main/daily-start-scheduler.ts:62-91 | The prediction of an enabled rule is the minute, rounded down and within the day, of the first day that is today or later, not before the first day of the rule nor the pending day, and after the handled one; there is none only without a rule or a minute, or past the year 9999. |
| `DailyStart.PredictorAgrees` | src/main/daily-start-scheduler.ts:66-90 | For every setting with a minute that is not infinite, the reconciler passes all its time gates exactly when the predicted instant exists and has been reached. |
| `DailyStart.InfiniteMinuteIsClamped` | src/main/daily-start-scheduler.ts:58-89 | An infinite minute, which saved settings never hold, would not be predicted, and the reconciler would pass its time gates exactly when the prediction for the clamped minute has been reached. |
| `DailyStart.DeferredMeansClosed` | src/main/daily-start-scheduler.ts:118-124 | While the automatic resume is deferred, the reconciler would not start anything. |
| `DailyStart.MissedIsNotToday` | src/main/daily-start-scheduler.ts:193-211 | Handling a missed date never marks today as handled. |
| `DailyStartProtocol.AtMostOneStartPerDate` | src/main/daily-start-scheduler.ts:176-262 | Over every run from any persisted settings, at most one start per local date did not throw. |
| `DailyStartProtocol.DatesAreKept` | src/main/daily-start-scheduler.ts:167-262 | Every step keeps or advances the handled date, and drops a pending date only by handling it or because the start it stands for threw. |
| `DailyStartProtocol.PredictedStartHappens` | src/main/daily-start-scheduler.ts:219-247 | Once the predicted instant has come, with queued items, an account, an idle session, no reconcile in flight and today not already pending, the next tick calls start for today. |
| `DailyStartProtocol.StepKeepsInv` | src/main/daily-start-scheduler.ts:136-262 | Every step keeps the protocol invariant tying started dates to the handled and pending dates. |
| `DailyStartProtocol.RunKeepsInv` | src/main/daily-start-scheduler.ts:136-262 | The protocol invariant over whole runs. |
| `DailyStartProtocol.FinishCovers` | src/main/daily-start-scheduler.ts:167-174 | Marking today as handled covers every date that was covered before. |
| `DailyStartOutcomes.StartIsRecorded` | src/main/daily-start-scheduler.ts:246-261 | In every run, a start that returns is recorded as handled and started with nothing pending, one that throws gives up its date as failed, and one whose generation has passed leaves the settings alone; its call is marked in each case. |
| `DailyStartOutcomes.DueDayIsDecided` | src/main/daily-start-scheduler.ts:207-246 | Once the predicted instant has come, a reconcile settles the day: an unanswered start of today under the outcome it left, a running or paused session, an empty queue; a missing account leaves the day open; otherwise the start is called. |
| `DailyStartOutcomes.OnlyMissedIsRecorded` | src/main/daily-start-scheduler.ts:176-217 | Before the predicted instant a reconcile changes at most one thing: a date before today that is still pending is recorded as missed, and the later of it and the handled date is handled. |
| `DailyStartOutcomes.HandledDayIsOver` | src/main/daily-start-scheduler.ts:188-193 | Until the day after the handled one no reconcile changes anything. |
| `DailyStartOutcomes.StartedDayIsOver` | src/main/daily-start-scheduler.ts:126-193 | So no later event of a handled day, restarts and crashes included, calls its start again or changes what is on record. |
| `DailyStartOutcomes.Lifecycle` | src/main/daily-start-scheduler.ts:150-165 | Beginning and ending make results of earlier operations void; beginning reconciles at once and ticks; a crash keeps the settings and leaves a start under way unanswered; a change of the rule leaves the record of days alone. |
| `DailyStartScheduler.DailyStartScheduler.constructor` | src/main/daily-start-scheduler.ts:131-134 | A new process starts from the persisted settings with no reconcile in flight. |
| `DailyStartScheduler.DailyStartScheduler.Reconcile` | src/main/daily-start-scheduler.ts:136-148 | Is the single-flight reconcile step of the protocol. |
| `DailyStartScheduler.DailyStartScheduler.ReconcileOnce` | src/main/daily-start-scheduler.ts:176-209 | Is the first half of the reconcile: gates and the missed date. |
| `DailyStartScheduler.DailyStartScheduler.Dispatch` | src/main/daily-start-scheduler.ts:211-247 | Is the second half up to the call of start: remaining gates, then what the session allows. |
| `DailyStartScheduler.DailyStartScheduler.StartSettles` | src/main/daily-start-scheduler.ts:246-261 | Is what follows a returned or thrown start, dropped when the lifecycle generation has moved. |
| `DailyStartScheduler.DailyStartScheduler.Begin` | src/main/daily-start-scheduler.ts:150-157 | Is the protocol begin: a new generation, one reconcile, and ticking. |
| `DailyStartScheduler.DailyStartScheduler.End` | src/main/daily-start-scheduler.ts:159-165 | Is the protocol end: a new generation and no ticking. |
| `DailyStartScheduler.DailyStartScheduler.Finish` | src/main/daily-start-scheduler.ts:167-174 | Records the date as handled, clears the pending date and notes the outcome. |
| `HealthEvaluation.EvaluateDownloadHealth` | src/main/download-health-monitor.ts:269-401 | The step-by-step evaluation equals the classification of the sample: awaiting a restart, nothing to watch, new run, restart grace, open incident, expected wait, progress, suspicion. |
| `HealthEvaluation.WatchRun` | src/main/download-health-monitor.ts:315-350 | The part after the run checks equals the specification for an open and for no open incident. |
| `HealthEvaluation.JudgeRun` | src/main/download-health-monitor.ts:352-400 | The part without an open incident equals its specification. |
| `HealthEvaluation.Advance` | src/main/download-health-monitor.ts:320-323 | Counters advance to the maximum of the known and the sampled ones. |
| `HealthTheorems.IncidentEffect` | src/main/download-health-monitor.ts:269-401 | What any sample may do to the incident: which events it emits and how alert time, suspicion and cooldown may move. |
| `HealthTheorems.StallBelongsToRun` | src/main/download-health-monitor.ts:141-143 | A stall is emitted only for the run the state already belongs to, under that run's id prefix. |
| `HealthTheorems.RetriedStallKeepsItsId` | src/main/download-health-monitor.ts:523-538 | If a stall was enqueued and saving then failed, a stall emitted later from the uncommitted state carries the same id, whatever the later sample. |
| `HealthTheorems.RetriedRecoveryKeepsItsId` | src/main/download-health-monitor.ts:166-172 | The same for a recovery. |
| `HealthRuns.BracketedExactly` | src/main/download-health-monitor.ts:325-398 | Over every run of samples, failed saves, acknowledgements and restarts, stalls and recoveries are well bracketed at every point if and only if no stall is committed at time zero. |
| `HealthRuns.WellBracketed` | src/main/download-health-monitor.ts:325-350 | So under a positive clock they always are, and an incident is open exactly while the state says so. |
| `HealthRuns.StallBetweenRecoveries` | src/main/download-health-monitor.ts:325-340 | Between two recoveries there is a stall. |
| `HealthRuns.CooldownIsRememberedExactly` | src/main/download-health-monitor.ts:506-521 | Over every run the end of the last acknowledged cooldown is in force at every point if and only if no restart comes while it is in memory only, neither its acknowledgement nor a later sample having been saved. |
| `HealthRuns.StallsRespectCooldowns` | src/main/download-health-monitor.ts:393 | Then no stall is committed before the last acknowledged cooldown ends, whatever resets, run changes, failed saves and restarts intervene. |
| `HealthRuns.SavedRunsRemember` | src/main/download-health-monitor.ts:506-521 | If every acknowledgement is saved that condition holds, however often the monitor restarts. |
| `HealthRuns.ForgettingAllowsAStall` | src/main/download-health-monitor.ts:380-398 | It matters: from any state that holds an earlier end than the one acknowledged, a run not watched before, suspicious over the stall threshold, stalls inside the acknowledged cooldown. |
| `HealthRuns.UninterruptedRunsRemember` | src/main/download-health-monitor.ts:506-521 | Without restarts that condition always holds, whether acknowledgements can be saved or not. |
| `HealthRuns.RestartKeepsWhatWasSaved` | src/main/download-health-monitor.ts:453-491 | A restart keeps what was saved, forgets the time of the last sample, and waits for its run to be resumed if it had one. |
| `HealthRuns.FirstDeliveryIsNoted` | src/main/download-health-monitor.ts:506-522 | The first delivery of a stall is noted with its time and starts the cooldown, in memory even if it cannot be saved; any other changes nothing. |
| `HealthRuns.ForgottenAcknowledgement` | src/main/download-health-monitor.ts:513-519 | A concrete run with the default threshold and cooldown: a stall is committed, its acknowledgement cannot be saved, the program is restarted, and a new run stalls two minutes later. |
| `HealthIncidents.SameIdMeansSameIncident` | src/main/download-health-monitor.ts:523-538 | Over every run with a strictly increasing clock, two stalls that were enqueued, committed or not, carry the same id exactly when they report the same incident. |
| `HealthRuns.DifferentStallsHaveDifferentIds` | src/main/download-health-monitor.ts:141-143 | Under a strictly increasing clock different committed stalls carry different ids. |
| `HealthRuns.StepKeepsInv` | src/main/download-health-monitor.ts:493-545 | Every committed or failed operation keeps brackets, the copy on disk and the start time of a suspicion in step. |
| `HealthTiming.QuietRun` | src/main/download-health-monitor.ts:380-385 | Without progress and until a stall is reported, accumulated suspicion equals the sum of the gaps that end in counted samples since suspicion was zero. |
| `HealthTiming.SuspicionIsCountedTime` | src/main/download-health-monitor.ts:380-385 | Whatever else happens it never exceeds that sum. |
| `HealthTiming.StallIsNeverEarly` | src/main/download-health-monitor.ts:352-398 | A stall never comes before the threshold has passed in counted time, expected waits excluded, and never with fewer than three suspicious samples. |
| `HealthTiming.StallIsForced` | src/main/download-health-monitor.ts:380-398 | Conversely, samples without progress of which at least three count and whose counted gaps reach the threshold do report a stall, at the latest at a counted sample with notification on and the cooldown over. |
| `HealthTiming.QuietStep` | src/main/download-health-monitor.ts:352-398 | The exact effect of one sample without progress while no incident is open. |
| `HealthLaws.StallExactly` | src/main/download-health-monitor.ts:325-398 | After a sign of life, and while the run stands still, a sample that counts reports a stall if and only if the time that counts since that sign of life reaches the threshold, at least three samples since have counted, stalls are to be reported and the cooldown is over. |
| `HealthLaws.StallComesLongAfterLife` | src/main/download-health-monitor.ts:358-398 | Over every run, whatever other samples come between, a stall is reported only when the counted time since every sign of life has reached the threshold with at least three counted samples since it. |
| `HealthLaws.MovingClears` | src/main/download-health-monitor.ts:358-378 | Progress, or a living scheduler with nothing active, clears suspicion, samples, start and type, unless an incident is open or a wait is expected. |
| `HealthLaws.WaitingKeeps` | src/main/download-health-monitor.ts:352-356 | An expected wait neither clears nor adds, whatever has moved. |
| `HealthLaws.CountingAdds` | src/main/download-health-monitor.ts:369-398 | A sample that counts adds itself and the gap before it, none across a restart, and reports a stall under its exact condition, with the id of its run and the time of the first such sample. |
| `HealthLaws.WhatCounts` | src/main/download-health-monitor.ts:249-267 | Field by field, when a sample counts: the run is watched, nothing is waited for, and something is active, or nothing could be started, or the scheduler has not ticked for 30 seconds. |
| `HealthLaws.WhatIsWatched` | src/main/download-health-monitor.ts:277-293 | Field by field, when there is a run to watch: active, with open files and two fingerprints of 64 hexadecimal digits, and neither failed, stopped nor shutting down. |
| `HealthLaws.IncidentEndsExactly` | src/main/download-health-monitor.ts:325-340 | After a stall, while its run is followed, the incident ends at the first sample at which a file has been completed or progress is seen for the second time, and not before, whatever waits and idle samples come between. |
| `HealthLaws.OpenIncident` | src/main/download-health-monitor.ts:325-350 | What one sample does to an open incident, and when a recovery is reported, under the id of the stall it closes. |
| `HealthLaws.OtherRunStartsOver` | src/main/download-health-monitor.ts:295-300 | A sample of another run drops suspicion and incident and is itself the first that can count. |
| `HealthLaws.FirstSampleIsNotJudged` | src/main/download-health-monitor.ts:302-311 | The first sample of the resumed run after a restart is not judged. |
| `HealthLaws.UnresumedKeeps` | src/main/download-health-monitor.ts:281-285 | Until the run is resumed after a restart everything is kept. |
| `HealthLaws.UnwatchedForgets` | src/main/download-health-monitor.ts:287-293 | Without a run to watch, suspicion and incident are gone and the run is forgotten. |
| `HealthLaws.CountersAdvance` | src/main/download-health-monitor.ts:304-323 | The known counters never go back, but are taken as they are in another run, at the first sample after a restart and at the end of an incident. |
| `HealthLaws.NewMonitorKnowsNothing` | src/main/download-health-monitor.ts:191-216 | A new monitor suspects nothing, has alerted of nothing, and counts all progress from zero. |
| `HealthLaws.AlertsAreKept` | src/main/download-health-monitor.ts:218-247 | No sample touches the time of the last alert or the end of the cooldown. |
| `DownloadHealthMonitor.DownloadHealthMonitor.constructor` | src/main/download-health-monitor.ts:498-500 | A new monitor continues from what was saved, with sampling restarted. |
| `DownloadHealthMonitor.DownloadHealthMonitor.TakeSample` | src/main/download-health-monitor.ts:523-538 | Evaluate, enqueue, save, and only then commit; a failure anywhere leaves the state as it was. |
| `DownloadHealthMonitor.DownloadHealthMonitor.AcknowledgeDelivery` | src/main/download-health-monitor.ts:506-521 | A first delivery of a stall starts the cooldown in memory even if it cannot be saved; anything else changes nothing. |
| `DiskProtocol.ReservationsAreConserved` | src/main/disk-space.ts:105-179 | Over every run and interleaving, the total of each volume is the sum of its live leases plus the growth of updates overtaken by their own release. |
| `DiskProtocol.LeakIsTheOvertakenGrowth` | src/main/disk-space.ts:145-170 | Only a granted update whose lease was released meanwhile adds to that rest, and exactly its growth. |
| `DiskProtocol.TotalsAreLiveLeasesExactly` | src/main/disk-space.ts:105-179 | After any run the totals of all volumes are exactly the live leases if and only if no update was overtaken by the release of its own lease. |
| `DiskProtocol.TotalsAreLiveLeases` | src/main/disk-space.ts:105-179 | The same per volume, for runs without such updates. |
| `DiskProtocol.OvertakenUpdateLeaks` | src/main/disk-space.ts:145-170 | A concrete run in which a release overtakes its own growing update and leaves bytes reserved for nobody. |
| `DiskProtocol.GrantFitsFreeSpace` | src/main/disk-space.ts:111-113 | Each granted reservation with bytes, and each granted growth, leaves total plus safety margin within the measured free space. |
| `DiskProtocol.ReleaseGivesBack` | src/main/disk-space.ts:162-170 | Release gives back exactly its lease, the zero clamp does not bite, a second release does nothing, the lease is marked released, and other leases and volumes are untouched. |
| `DiskGrants.ReservationExactly` | src/main/disk-space.ts:60-125 | A reservation of known size, whatever is released and queued while its volume is measured, is granted exactly if what is missing fits beside what is then reserved under the larger of margin and headroom; it then holds exactly what is missing, and otherwise nothing is booked. |
| `DiskGrants.GrowthExactly` | src/main/disk-space.ts:145-160 | A growing update waits for a measurement and is granted exactly if its growth then fits under the margin of the lease; the lease then holds what is missing now, and otherwise what it held. |
| `DiskGrants.ShrinkingIsImmediate` | src/main/disk-space.ts:145-160 | An update to no more than the lease holds is made at once and gives the difference back. |
| `DiskGrants.OneAtATime` | src/main/disk-space.ts:174-178 | Operations start in the order of their calls: while one waits, others queue up behind it and leases are only released. |
| `DiskGrants.UnknownSizeBooksNothing` | src/main/disk-space.ts:107-108 | A reservation of unknown size is granted at once and books nothing. |
| `DiskGrants.OnlyGrantsBook` | src/main/disk-space.ts:105-178 | Only grants, shrinking updates and releases change a lease or a total; rejections, failing measurements and updates of unknown size or released leases do not, and each operation that ends makes way for the next. |
| `DiskGrants.ResumedDownloadFits` | src/main/disk-space.ts:60-63 | A concrete run: with 60 of 100 bytes present, 40 are reserved where 50 are free. |
| `DiskProtocol.StepKeepsInv` | src/main/disk-space.ts:105-179 | Every step keeps conservation and the link between a waiting update and its lease. |
| `DiskProtocol.RunKeepsInv` | src/main/disk-space.ts:105-179 | The invariant over whole runs. |
| `DiskReservationCoordinator.DiskReservationCoordinator.constructor` | src/main/disk-space.ts:98-103 | Starts empty, with a safety margin of at least zero. |
| `DiskReservationCoordinator.DiskReservationCoordinator.Enqueue` | src/main/disk-space.ts:174-178 | Operations run in call order. |
| `DiskReservationCoordinator.DiskReservationCoordinator.Start` | src/main/disk-space.ts:106-110 | Is the protocol start of the next operation up to its measurement, with the cases that need none. |
| `DiskReservationCoordinator.DiskReservationCoordinator.Measured` | src/main/disk-space.ts:111-125 | Is the protocol step after a measurement: grant or capacity error. |
| `DiskReservationCoordinator.DiskReservationCoordinator.MeasureFails` | src/main/disk-space.ts:110-110 | A failed measurement ends the operation without a booking. |
| `DiskReservationCoordinator.DiskReservationCoordinator.Release` | src/main/disk-space.ts:162-170 | Is the protocol release, synchronous and idempotent. |
| `DiskReservationCoordinator.DiskReservationCoordinator.CreateLease` | src/main/disk-space.ts:133-139 | Is the protocol creation of a lease; without a volume nothing is booked. |
| `DiskReservationCoordinator.DiskReservationCoordinator.ApplyUpdate` | src/main/disk-space.ts:152-159 | Is the protocol resize, which books the difference even on a lease that is gone. |
| `LimiterProtocol.StepKeepsInv` | src/main/extraction-limiter.ts:13-52 | Every operation keeps first-come order, single settlement, the count of active extractions and the absence of waiters beside a free slot; active never rises above the limit then in force. |
| `LimiterProtocol.FirstComeFirstServed` | src/main/extraction-limiter.ts:46-52 | Over every run, a request overtaken by a later grant was granted before it or aborted, and nobody waits while a slot is free. |
| `LimiterProtocol.SettledOnce` | src/main/extraction-limiter.ts:21-44 | Each request is granted or rejected at most once, active is grants minus releases, and a second release changes nothing. |
| `LimiterOutcomes.GrantsExactly` | src/main/extraction-limiter.ts:3-55 | In every run, after each event the free slots under the limit last asked for, between one and the ceiling, go to the first of those who wait and no further; a request is rejected exactly when aborted before or while it waits, and a slot is free again exactly when its holder first gives it back. |
| `LimiterOutcomes.DrainExactly` | src/main/extraction-limiter.ts:46-52 | Draining fills the free slots from the front of the queue. |
| `LimiterProtocol.DrainKeepsOrder` | src/main/extraction-limiter.ts:46-52 | Draining grants from the front until slots or waiters run out, never above the limit. |
| `ExtractionLimiter.ExtractionLimiter.constructor` | src/main/extraction-limiter.ts:3-7 | Starts with limit one and no waiter. |
| `ExtractionLimiter.ExtractionLimiter.UpdateLimit` | src/main/extraction-limiter.ts:13-16 | Is the protocol limit change. |
| `ExtractionLimiter.ExtractionLimiter.Acquire` | src/main/extraction-limiter.ts:18-44 | Is the protocol request: rejected at once when aborted, else queued and drained under the new limit. |
| `ExtractionLimiter.ExtractionLimiter.Abort` | src/main/extraction-limiter.ts:24-28 | Is the protocol abort of a waiter. |
| `ExtractionLimiter.ExtractionLimiter.Release` | src/main/extraction-limiter.ts:31-37 | Is the protocol release, idempotent. |
| `ExtractionLimiter.ExtractionLimiter.DrainQueue` | src/main/extraction-limiter.ts:46-52 | The loop grants what the specification grants. |
| `WriterProtocol.BytesAreAccounted` | src/main/diagnostic-log-writer.ts:32-81 | Over every run, pending bytes are those of the unsettled writes and stay within 16 MiB, and accepted plus dropped bytes are the bytes offered. |
| `WriterProtocol.WritesToOneFileAreOrdered` | src/main/diagnostic-log-writer.ts:43-45 | A write that has left its chain finds every earlier write to the same file settled. |
| `WriterProtocol.AtMostTwoWrites` | src/main/diagnostic-log-writer.ts:14-22 | At most two writes hold a slot, the counter is exact through hand-overs, and writes wait only while both slots are held. |
| `WriterProtocol.PendingIsExact` | src/main/diagnostic-log-writer.ts:28-30 | A file is reported pending exactly while it has an unsettled write. |
| `WriterProtocol.SomeWriteCanProceed` | src/main/diagnostic-log-writer.ts:14-84 | No write is stuck: while one is unsettled some write can begin, finish or settle. |
| `WriterProtocol.StepKeepsInv` | src/main/diagnostic-log-writer.ts:14-84 | Every step keeps budget, slots, per-file order and the chain map. |
| `WriterOutcomes.WriterComesToRest` | src/main/diagnostic-log-writer.ts:13-84 | After any run the writes under way can take only so many steps, in whatever order, and one is always left until every accepted entry has settled; then nothing is pending, no slot is held and no file is chained. |
| `WriterOutcomes.AcceptedExactly` | src/main/diagnostic-log-writer.ts:33-43 | In every run an entry is accepted exactly if it fits, with what has not settled yet, into 16 MiB; it is chained behind the last unsettled write to its file, and a dropped one is counted and changes no write. |
| `WriterOutcomes.OverflowIsReportedOnce` | src/main/diagnostic-log-writer.ts:35-41 | Over every run the overflow is on report exactly while an entry has been dropped since the queue was last empty. |
| `WriterOutcomes.SlotsGoInOrder` | src/main/diagnostic-log-writer.ts:13-21 | Writes that find both slots taken queue up, and a slot given back goes to the first of them. |
| `DiagnosticLogWriter.DiagnosticLogWriter.constructor` | src/main/diagnostic-log-writer.ts:6-12 | Starts with nothing pending. |
| `DiagnosticLogWriter.DiagnosticLogWriter.Append` | src/main/diagnostic-log-writer.ts:32-45 | Is the protocol append: dropped exactly when the budget would be exceeded, else chained behind the file's last write. |
| `DiagnosticLogWriter.DiagnosticLogWriter.Begin` | src/main/diagnostic-log-writer.ts:14-16 | Is the protocol acquisition of a slot. |
| `DiagnosticLogWriter.DiagnosticLogWriter.Finish` | src/main/diagnostic-log-writer.ts:17-21 | Is the protocol release: the slot is handed to the longest waiting write or freed. |
| `DiagnosticLogWriter.DiagnosticLogWriter.Settle` | src/main/diagnostic-log-writer.ts:77-81 | Is the protocol settlement: bytes are given back and the file leaves the map if this was its last write. |
| `DiagnosticLogWriter.DiagnosticLogWriter.HasPendingWrites` | src/main/diagnostic-log-writer.ts:28-30 | Answers from the chain map. |
| `PublicationTheorems.PublicationAccount` | src/main/extraction-output.ts:157-199 | The account every publication keeps however it ends: what stays, what is new, which records change, what is left staged and where each landed file is. |
| `PublicationTheorems.ExistingEntriesAreKept` | src/main/extraction-output.ts:172-194 | In skip, ask and rename mode no entry of the target is changed or removed, wherever publication stops. |
| `PublicationTheorems.VerifiedStaysVerified` | src/main/extraction-output.ts:75-85 | In those modes a verified output stays verified. |
| `PublicationTheorems.RenameLandsEachFileOnce` | src/main/extraction-output.ts:186-197 | Rename mode that ends puts every staged file with its bytes at exactly one fresh path, pairwise different even when made-up names collide with later staged names, and adds no other file. |
| `PublicationTheorems.OverwriteIsMapOverride` | src/main/extraction-output.ts:195-197 | Overwrite mode that ends is the map override, apart from new parent directories. |
| `PublicationTheorems.SkipSucceedsOnlyOnEqualContent` | src/main/extraction-output.ts:177-185 | Skip and ask mode succeed only if the target ends with every staged content at its own path, recorded. |
| `PublicationTheorems.NothingStagedIsLost` | src/main/extraction-output.ts:167-198 | Wherever publication stops, each staged file is at its landing place or still staged unchanged; all but possibly the last landed file are recorded, and no other record changes. |
| `PublicationOutcomes.PublicationSucceedsExactly` | src/main/extraction-output.ts:157-199 | With no abort and no failing operation, the files of a staged tree are all published, in every mode but rename, if and only if in the target as it is before what is there of the directories above each are directories and the mode allows what stands at its path: nothing, a file to be overwritten, or in skip and ask mode a file with the same bytes. |
| `PublicationOutcomes.PublishedExactly` | src/main/extraction-output.ts:166-196 | The same for one file in every mode, in rename mode if one of ten thousand names is free, with the failure reported otherwise. |
| `PublicationOutcomes.RecordsPresentIdentity` | src/main/extraction-output.ts:178-196 | A moved file is recorded under the identity it has after the move, an equal one under its own. |
| `PublicationOutcomes.ParentsExactly` | src/main/extraction-output.ts:141-155 | Preparing the parents adds exactly the missing directories above a path, and fails only if something else is there. |
| `PublicationModel.PublishOneFile` | src/main/extraction-output.ts:167-198 | Frame and effect of publishing one file, whatever fails. |
| `PublicationModel.ParentsAreDirectories` | src/main/extraction-output.ts:141-155 | When parents have been prepared, every proper prefix of the path is a directory. |
| `PublicationModel.ParentsExtend` | src/main/extraction-output.ts:141-155 | Preparing parents only adds directories, whether it succeeds or not. |
| `PublicationModel.FirstFreeIsFirst` | src/main/extraction-output.ts:186-193 | The rename loop finds the first free candidate up to 10 000, or none is free. |
| `PublicationModel.RenameLimitMeansCrowded` | src/main/extraction-output.ts:190 | The rename limit is only reached in a target with more than ten thousand entries. |
| `PublicationNames.CandidatesDiffer` | src/main/extraction-output.ts:187-191 | Candidate names of different indices differ. |
| `PublicationNames.CandidateKeepsExtension` | src/main/extraction-output.ts:186-190 | A candidate puts the index between stem and extension, which begins at the last dot unless that is the first character. |
| `ExtractionPublisher.MoveCarriesTheRecord` | src/main/extraction-output.ts:93-102 | After a rename on disk and the move of its record, the new path is verified exactly when the old path had a record (or the new one already matched), and all other paths are as verified as before. |
| `ExtractionPublisher.MoveVerifiesAChangedFile` | src/main/extraction-output.ts:96-101 | A file changed after it was recorded counts as verified once it has been moved: only the existence of the record is checked. |
| `ExtractionPublisher.MoveNeedsRecordAndFile` | src/main/extraction-output.ts:93-102 | Without a record there is nothing to move, and a record stays where it is if no file is at the new path. |
| `ExtractionPublisher.StopStays` | src/main/extraction-output.ts:167-198 | An error ends publication: later files are not touched. |
| `ExtractionPublisher.ExtractionPublisher.PublishFiles` | src/main/extraction-output.ts:157-199 | The loop equals the specification of publication, store, destinations and error included. |
| `ExtractionPublisher.ExtractionPublisher.PublishFile` | src/main/extraction-output.ts:168-197 | One turn of the loop equals its specification. |
| `ExtractionPublisher.ExtractionPublisher.PrepareParent` | src/main/extraction-output.ts:141-155 | The loop over the path's prefixes equals its specification. |
| `ExtractionPublisher.ExtractionPublisher.FreeName` | src/main/extraction-output.ts:188-192 | The rename-index loop finds the first free candidate. |
| `ExtractionPublisher.ExtractionPublisher.Record` | src/main/extraction-output.ts:87-91 | Records the identity the file has now, or fails and changes nothing. |
| `ExtractionPublisher.ExtractionPublisher.MoveVerified` | src/main/extraction-output.ts:93-102 | Moves a record to the identity of the new path; no record means no change. |
| `FileNames.SanitizeIsIdempotent` | src/main/utils.ts:94-117 | A sanitized name is not empty, needs no trimming, and sanitizing it again changes nothing. |
| `FileNames.TrimIsIdempotent` | src/main/link-parser.ts:10 | Trimming twice is trimming once. |
| `FileNames.EscapeEscapes` | src/main/utils.ts:110-114 | A name escaped because it is reserved on Windows is no longer reserved. |
| `SafeNames.SanitizedIsSafe` | src/main/utils.ts:94-117 | A sanitized name is not empty, has no forbidden character, no white space but single spaces, no dot or space at its ends, and does not name a device of Windows in any letter case, with or without extensions; and a name is left as it is exactly if that holds of it. |
| `SafeNames.SanitizeKeepsLetters` | src/main/utils.ts:94-117 | All other characters are kept in their order, and only a device gets an underscore behind its base; a name without any becomes "Paket". |
| `SafeNames.DevicesAreReserved` | src/main/utils.ts:12-16 | The reserved names are con, prn, aux, nul, com1 to com9 and lpt1 to lpt9, in any letter case. |
| `SafeNames.WhatIsSpace` | src/main/utils.ts:98-103 | White space is that of ECMAScript, character by character. |
| `PackageMergeModel.MergeIsCompositional` | src/main/link-parser.ts:4-35 | Merging merged parts is merging all of it, for every inference of missing names. |
| `PackageMergeModel.MergeIsIdempotent` | src/main/link-parser.ts:4-35 | Merging twice is merging once. |
| `PackageMergeModel.MergeContents` | src/main/link-parser.ts:4-35 | Names and links come out once each; a link is listed under a name exactly when a package of that name has it, with the first non-empty file name given there; file names are listed only if some link has one. |
| `PackageContents.MergedExactly` | src/main/link-parser.ts:6-20 | A merged list has a package of a name exactly if some package goes by it, by its own name or, only without one, by the name inferred from its links, sanitized; and that package has a link exactly if an entry of such a package gives it, trimmed and not blank. |
| `PackageContents.MergedFileIsGiven` | src/main/link-parser.ts:16-22 | The file name of a link is one that such an entry gives, trimmed and sanitized, and is missing only if none does. |
| `PackageMergeModel.FirstFileIsFirst` | src/main/link-parser.ts:18-22 | The file name kept is that of the first row for the link that has one. |
| `PackageMergeModel.DedupKeepsOrder` | src/main/link-parser.ts:14-17 | Distinct elements stand in the order of their first occurrences. |
| `PackageMergeModel.RowsOfMerged` | src/main/link-parser.ts:26-34 | Read back, a merged list holds under every name exactly the merged rows of the original. |
| `PackageMerge.MergePackageInputs` | src/main/link-parser.ts:4-35 | The nested loops over map, set and arrays compute the declarative merge. |
| `PackageMerge.AddPackage` | src/main/link-parser.ts:9-23 | The inner loop adds a package's rows to its group. |
| `PackageMerge.ProjectGroup` | src/main/link-parser.ts:26-34 | The projection lists first file names, and none at all when every one is empty. |
| `InFlight.StepIsExact` | src/main/debrid.ts:701-711 | For calls entering and leaving accounts one step keeps the in-flight map the exact number of calls inside each account if and only if it drops no account with a call inside. |
| `InFlight.StartBalances` | src/main/debrid.ts:2377-2387 | A call that starts on a least busy account keeps loads that are within one of each other so. |
| `RealDebridModel.Select` | src/main/debrid.ts:4551-4560 | The selected account is a least busy one of the available accounts. |
| `RealDebridTheorems.AutomaticFailover` | src/main/debrid.ts:4592-4674 | Automatic mode, no other call running, availability fixed: the accounts tried are the cyclic run of the available list from the selected account, cut where the call ends; if all fail with rotating errors, all have been tried. |
| `RealDebridTheorems.FailoverIsCyclic` | src/main/debrid.ts:4657-4660 | The cyclic run from any point of the loop, with the cursor after a failure at the failed index modulo the accounts left. |
| `RealDebridWorld.CountsExactly` | src/main/debrid.ts:4611-4668 | Over every run of any number of calls interleaved with pruning, the in-flight map is exactly the number of calls inside an attempt per account, without zeros, at every point if and only if no prune drops an account with a call inside. |
| `RealDebridWorld.CountsExactlyFromReset` | src/main/debrid.ts:4611-4668 | In particular for runs from the reset on. |
| `RealDebridWorld.DroppedAccountLooksIdle` | src/main/debrid.ts:707-711 | A concrete run of two calls: the settings drop an account while the first is inside it and bring it back, the second enters it, and once the first is answered the account counts as idle. |
| `RealDebridWorld.StepIsExact` | src/main/debrid.ts:4611-4668 | The step form, for every step of every call. |
| `RealDebridWorld.NeverCountsTooMany` | src/main/debrid.ts:4661-4668 | Whatever is dropped, the map never counts a call that is not there and never holds a zero. |
| `RealDebridWorld.EachAccountOnce` | src/main/debrid.ts:4597-4610 | Whatever is answered and whatever other calls, pruning and the clock do in between, no call tries an account twice or one that is not configured. |
| `RealDebridWorld.FailoverFollowsRule` | src/main/debrid.ts:4607-4608 | In priority mode a call follows the rule's order through every interleaving in which the usability of its untried accounts is the same at each of its turns, and has tried all of it when it fails as a pool. |
| `RealDebridWorld.CallIsARun` | src/main/debrid.ts:4592-4674 | A call alone is a run of the shared pool, so what is proved of it is proved of the pool. |
| `RealDebridWorld.PruningKeepsActive` | src/main/debrid.ts:701-721 | Pruning keeps cooldown, count and stickiness of every active account and nothing of the others, and leaves the cursor where it is unless it is past their number. |
| `RealDebridCooldowns.CoolingKeepsOut` | src/main/debrid.ts:4601-4660 | An answer that cools an account keeps every call out of it, the answered one included, until the cooldown ends, over every run in which no answer to another attempt under way, no release and no change of the settings touches it. |
| `RealDebridCooldowns.CooldownStep` | src/main/debrid.ts:4624-4653 | A step changes the cooldown of an account exactly so: a link, a release and dropping the account end it; a failure for which another account is tried sets it to what the failure asks, a second at least, unless the failure is temporary and no other account is switched on; one that has ended goes where it is looked at. |
| `RealDebridCooldowns.CooldownKeepsOut` | src/main/debrid.ts:774-780 | No turn enters an account before its cooldown ends. |
| `RealDebridCooldowns.CountMeansSeveral` | src/main/debrid.ts:4650 | The count of enabled accounts exceeds one exactly if two different ones are switched on. |
| `RealDebridEndings.TurnsEnd` | src/main/debrid.ts:4599-4613 | A turn not aborted goes into an attempt on an untried account that is switched on, below its limit and not cooling down, and counts it in; if there is none the call is over, failed if it has tried any and unavailable if not. |
| `RealDebridEndings.AnswersEnd` | src/main/debrid.ts:4618-4668 | A link ends the call with it, a failure that asks for no other account or an abort ends it with that, any other failure leads to another turn; the account is left each time. |
| `RealDebridEndings.StickyStep` | src/main/debrid.ts:4626-4657 | The sticky account is the one that served the last link, with its links in a row, until a failure that rotates, its release or its removal from the settings. |
| `AccountRules.OrderedTail` | src/shared/account-usage-rules.ts:14-17 | The rule's order without its first account is the order of the accounts left. |
| `AccountRules.OrderedByRule` | src/shared/account-usage-rules.ts:14-17 | By rule, the accounts it lists come first, in the order of the rule, and the others follow in their own order. |
| `RealDebridTheorems.CallTriesEachOnce` | src/main/debrid.ts:4597-4610 | A call alone tries no account twice and only configured ones, however the clock moves, and leaves the in-flight map as it found it. |
| `RealDebridTheorems.AllRotateEnds` | src/main/debrid.ts:4603-4606 | If every attempt fails with a rotating error the call ends as a pool failure, or as unavailable when nothing was tried. |
| `RealDebridTheorems.BatchesOfFour` | src/main/debrid.ts:4623-4633 | From a reset, with every call served, the k-th call uses account k / 4 modulo the number of accounts. |
| `RealDebridTheorems.PurgeKeepsOthers` | src/main/debrid.ts:768-778 | Looking at availability removes only expired cooldowns. |
| `RealDebridPool.RealDebridPool.constructor` | src/main/debrid.ts:692-699 | The reset state. |
| `RealDebridPool.RealDebridPool.OpenCall` | src/main/debrid.ts:4592-4598 | A call begins beside the others. |
| `RealDebridPool.RealDebridPool.TurnOfCall` | src/main/debrid.ts:4599-4616 | Is the stretch of the shared pool from the head of a call's loop to the await inside its attempt. |
| `RealDebridPool.RealDebridPool.AnswerOfCall` | src/main/debrid.ts:4616-4668 | Is the stretch from the answer to the end of the attempt, its finally handler included, on whatever the pool has become. |
| `RealDebridPool.RealDebridPool.Begin` | src/main/debrid.ts:4599-4611 | The turn up to the await on the pool itself: abort, nothing available, or the selected account entered. |
| `RealDebridPool.RealDebridPool.End` | src/main/debrid.ts:4623-4668 | The rest of the turn on the pool itself. |
| `RealDebridPool.RealDebridPool.Unrestrict` | src/main/debrid.ts:4592-4674 | The failover loop of a call alone equals its specification: accounts tried, ending and pool state. |
| `RealDebridPool.RealDebridPool.AvailableAccounts` | src/main/debrid.ts:4271-4275 | The accounts enabled, within their limit, not cooling down and not tried, in order; expired cooldowns are dropped on the way. |
| `RealDebridPool.RealDebridPool.RecordServed` | src/main/debrid.ts:4623-4633 | Clears the cooldown, counts the sticky batch and moves the cursor past the account when the batch is full. |
| `RealDebridPool.RealDebridPool.RecordRotation` | src/main/debrid.ts:4650-4660 | Sets the cooldown unless a single account failed temporarily, clears stickiness and moves the cursor. |
| `RealDebridPool.RealDebridPool.EnterAccount` | src/main/debrid.ts:4611 | Counts a call into the in-flight map. |
| `RealDebridPool.RealDebridPool.LeaveAccount` | src/main/debrid.ts:4661-4668 | Counts it out; at zero the entry goes. |
| `RealDebridPool.RealDebridPool.PruneAccounts` | src/main/debrid.ts:701-721 | Is the prune step of the shared pool. |
| `RealDebridPool.RealDebridPool.ReleaseCooldown` | src/main/debrid.ts:723-730 | Is the release step: the cooldown goes, and stickiness if it was to that account. |
| `MegaDebridModel.ByDepthIsStableSort` | src/main/debrid.ts:2382-2387 | The order of an automatic call is a permutation sorted by load that keeps the cursor order among equal loads. |
| `MegaDebridTheorems.StartOrderIsPermutation` | src/main/debrid.ts:2371-2391 | The order of a call, by rule or from the cursor sorted by load, is a permutation of its accounts. |
| `MegaDebridWorld.EachAccountOnce` | src/main/debrid.ts:2371-2446 | Over every run of any number of calls, no call visits an account twice or one not configured, and a call that ends because nothing is left has visited every configured account. |
| `MegaDebridWorld.CountsExactly` | src/main/debrid.ts:2457-2606 | Over every run of any number of calls, the in-flight map is exactly the number of calls inside an attempt per account, and holds no zero. |
| `MegaDebridWorld.OpeningEnters` | src/main/debrid.ts:2371-2457 | An automatic call that opens over a fixed set of usable accounts goes straight into an attempt on the first usable one of its order, a least busy one of them, and changes nothing else. |
| `MegaDebridWorld.OverlappingCallsSpread` | src/main/debrid.ts:326-331 | Automatic calls that overlap before any finishes load equally usable accounts, balanced before, within one of each other. |
| `MegaDebridWorld.BatchesOfTwentyFive` | src/main/debrid.ts:2465-2471 | Of automatic calls one after the other from a reset, all accounts usable and every attempt served, the k-th is served by account k / 25 modulo their number. |
| `MegaDebridWorld.KthCall` | src/main/debrid.ts:2366-2471 | One such call, from the order it computes to the state it leaves. |
| `MegaDebridWorld.RetryTimeIsExact` | src/main/debrid.ts:2440-2444 | Over every run, a call that ends with a retry time names one second past the earliest cooldown it met, before which no skipped unparked account is out of its cooldown. |
| `MegaDebridWorld.RetryFindsAnAccount` | src/main/debrid.ts:2609-2613 | After that time, with no new failure, at least one skipped account is usable. |
| `MegaDebridWorld.StepKeepsCalls` | src/main/debrid.ts:2392-2446 | Every step keeps for every call: what its visits say about order, cooldowns met and how it ended. |
| `MegaDebridEndings.CallsEndRightly` | src/main/debrid.ts:2609-2620 | Over every run, a call that has gone through all its accounts has ended as the accounts it met call for: failed if one was tried; else to be retried if temporary cooldowns were met and all still run; else parked to a second after the reset if a parked account was met; else as nothing usable. |
| `MegaDebridEndings.AnswerEnds` | src/main/debrid.ts:2458-2580 | A link ends its call with it; an abort ends it, as a slow link if the attempt ran long and no other account could take over; a fatal failure ends it; any other lets the loop go on. |
| `MegaDebridEndings.RuleDecidesOrder` | src/main/debrid.ts:2388-2391 | A call by rule takes its accounts in the order of the rule, and those it does not list after them in their own. |
| `MegaDebridEndings.WaitsExactly` | src/main/debrid.ts:2393-2406 | A turn waits exactly if the call goes by rule, some account it has not visited is free, and each of those that are is busy. |
| `MegaDebridEndings.WakingFindsIdle` | src/main/debrid.ts:2393-2457 | A waiting call that finds an unvisited account free and idle goes into the first such one by rule and counts it in. |
| `MegaDebridEndings.AbortedWhileWaiting` | src/main/debrid.ts:2403 | An abort ends a waiting call and changes nothing else. |
| `MegaDebridEndings.NothingToTry` | src/main/debrid.ts:2346-2358 | Without accounts, or with all switched off or over their limit, a call is over at once. |
| `MegaDebridTheorems.AdvanceFindsFirst` | src/main/debrid.ts:2392-2457 | With a fixed set of usable accounts the loop of an automatic call attempts the first usable one of what is left of its order, and ends if there is none. |
| `MegaDebridTheorems.FirstOfOrderIsLeastBusy` | src/main/debrid.ts:2377-2387 | That account is a least busy one of the usable accounts. |
| `MegaDebridTheorems.AdvanceIsOrderly` | src/main/debrid.ts:2393-2402 | The splices permute only the accounts not yet visited. |
| `MegaDebridTheorems.AutomaticKeepsOrder` | src/main/debrid.ts:2389-2391 | Automatic mode goes through the order computed at the start, and never waits. |
| `MegaDebridTheorems.PriorityTriesFirstIdle` | src/main/debrid.ts:2393-2407 | A priority turn that tries an account tries the first one, in the rule's order of those not yet visited, that is usable and idle. |
| `MegaDebridParking.TenSignalsPark` | src/main/debrid.ts:2485-2567 | Over every run of any number of calls, an account is parked exactly when some limit signal was at least the tenth in a row and since the last such one no answer to an attempt already under way has ended the park and it has not run out. |
| `MegaDebridParking.ParkedByTheTenth` | src/main/debrid.ts:2549-2563 | Such a signal follows at least nine others in a row, aborted attempts left aside, and the park ends no earlier than the next local midnight and two minutes later. |
| `MegaDebridParking.ParkIsLostExactly` | src/main/debrid.ts:2461-2567 | A park is lost before its end exactly by an answer to an attempt already under way: the link was served, the attempt failed otherwise than by such a signal, or it was aborted after a long run while another account could take over. |
| `MegaDebridParking.ParkingStep` | src/main/debrid.ts:402-433 | The step form, with what every other step leaves as it was. |
| `MegaDebridParking.ParkKeepsOut` | src/main/debrid.ts:2424-2446 | Until its end, and as long as it is not lost so, a park lets no new attempt in: a call inside the account has been in that attempt since before. |
| `MegaDebridParking.CooldownKeepsOut` | src/main/debrid.ts:2424-2446 | The same for any cooldown and one step. |
| `MegaDebridCooldowns.CoolingKeepsOut` | src/main/debrid.ts:2424-2567 | An answer that cools an account keeps every call out of it, the answered one included, until the cooldown ends, over every run in which no answer to another attempt already under way changes it: whoever is inside at the end has been in that attempt since before. |
| `MegaDebridCooldowns.CooldownIsTheLastMark` | src/main/debrid.ts:402-454 | Over every run of any number of calls, the cooldown of an account is what the last answer that changed it has left, whichever call it was for, until it runs out. |
| `MegaDebridCooldowns.CooldownStep` | src/main/debrid.ts:408-433 | The step form, for every account and event: a link ends the cooldown; a long abort with another account free sets two minutes; a tenth limit signal parks to the next midnight, two minutes at least; any other failure sets what it asks for, a second at least, or ends it if it asks for nothing; all other accounts keep theirs. |
| `MegaDebridCooldowns.WhatIsFree` | src/main/debrid.ts:2408-2446 | An account is free exactly if it is switched on, below its limit, and not cooling down. |
| `MegaDebridParking.OverlappingAnswerEndsPark` | src/main/debrid.ts:2549-2567 | A concrete run: eleven calls overlap on an account, the tenth empty answer parks it, and the eleventh call, which gives up in the queue, frees it at once. |
| `MegaDebridParking.StreakCountsSignals` | src/main/debrid.ts:333-341 | Over every run of any number of calls, the streak of an account is the number of limit signals in a row that the answers to its attempts end with, aborted ones left aside. |
| `MegaDebridPool.MegaDebridPool.constructor` | src/main/debrid.ts:343-351 | The reset state. |
| `MegaDebridPool.MegaDebridPool.OpenCall` | src/main/debrid.ts:2348-2457 | Is the opening of a call on the shared state: early exits, order, and the loop up to its first await. |
| `MegaDebridPool.MegaDebridPool.AnswerCall` | src/main/debrid.ts:2458-2606 | Is the conclusion of an attempt: served, aborted or failed, recorded on what the shared state has become, the account left, and the loop continued unless that was the end. |
| `MegaDebridPool.MegaDebridPool.WakeCall` | src/main/debrid.ts:2402-2406 | Is the waking of a call that waited for a busy account. |
| `MegaDebridPool.MegaDebridPool.OrderAccounts` | src/main/debrid.ts:2371-2391 | The loop from the cursor round and the sort give the order of a call. |
| `MegaDebridPool.MegaDebridPool.SearchAccounts` | src/main/debrid.ts:2392-2457 | The account loop on the shared state runs to the same await or end as its specification. |
| `MegaDebridPool.MegaDebridPool.BringForward` | src/main/debrid.ts:2393-2407 | The two splices bring the first usable idle account forward, or find all usable ones busy. |
| `MegaDebridPool.MegaDebridPool.LookAt` | src/main/debrid.ts:2408-2446 | An account is skipped or tried, and the cooldown met is noted. |
| `MegaDebridPool.MegaDebridPool.ResumeCall` | src/main/debrid.ts:2392-2457 | The loop goes on and an attempt is counted into its account. |
| `MegaDebridPool.MegaDebridPool.CooldownState` | src/main/debrid.ts:435-454 | Reports exactly a live cooldown and drops an expired one. |
| `MegaDebridPool.MegaDebridPool.SetAccountCooldown` | src/main/debrid.ts:408-433 | Parks, clears, or sets a cooldown of at least a second. |
| `MegaDebridPool.MegaDebridPool.RecordServed` | src/main/debrid.ts:2461-2471 | Clears cooldown and streak and moves the cursor on after a batch of 25. |
| `MegaDebridPool.MegaDebridPool.RecordFailure` | src/main/debrid.ts:2549-2567 | Counts or clears the streak and sets, parks or clears the cooldown. |
| `MegaDebridPool.MegaDebridPool.EnterAccount` | src/main/debrid.ts:2457 | Counts a call into the in-flight map. |
| `MegaDebridPool.MegaDebridPool.LeaveAccount` | src/main/debrid.ts:2600-2605 | Counts it out; at zero the entry goes. |
| `DebridLinkModel.OrderDoesNotMatter` | src/main/debrid.ts:187-194 | While cooldowns are live, any order of the recorded failures leaves the same rank: the lexicographic maximum of strong category and end. |
| `DebridLinkModel.StandingIsBest` | src/main/debrid.ts:170-198 | For every history: what stands is the first lexicographic maximum of the failures recorded since the cooldown was last not live. |
| `DebridLinkModel.SetIsJoin` | src/main/debrid.ts:187-196 | One failure: the winner of the new and the live old cooldown stands, the old one on a tie; other keys are untouched. |
| `DebridLinkModel.CutShort` | src/main/debrid.ts:188-193 | A live cooldown ends earlier than before exactly when a strong failure with an earlier end follows a weak one, or a failure clears it. |
| `DebridLinkModel.StandingStep` | src/main/debrid.ts:140-219 | What stands for a key changes in four ways only: a failure of that key replaces it unless it is live and not beaten, one without a cooldown or clearing removes it, reading removes it after its end, and pruning if it is not wanted. |
| `DebridLinkModel.BestIsFirstMaximum` | src/main/debrid.ts:183-193 | The fold's winner is an entry that no other beats and that beats every earlier one. |
| `DebridLinkModel.DomainsStayEqual` | src/main/debrid.ts:140-143 | End and detail are kept for the same keys through every run of recording, reading, clearing and pruning. |
| `DebridLinkModel.PruneKeepsActive` | src/main/debrid.ts:78-84 | Pruning keys keeps exactly the entries of active keys, as they were. |
| `DebridLinkModel.PruneKeepsActiveHosts` | src/main/debrid.ts:90-97 | Pruning by key keeps exactly the host entries of active keys. |
| `DebridLinkModel.PruneExpiredKeepsLive` | src/main/debrid.ts:100-123 | Pruning expired entries never drops a live one. |
| `DebridLinkModel.GetReadsStanding` | src/main/debrid.ts:200-219 | Reading reports what stands while it is live. |
| `DebridLinkModel.FailureIsReported` | src/main/debrid.ts:145-219 | A failure of a key without a cooldown is reported until the time it asks for has passed, in whole milliseconds and a second at least, and not at all if it asks for none. |
| `DebridLinkModel.SevereFailuresStand` | src/main/debrid.ts:180-196 | A live cooldown for an invalid account, a rate limit or a quota is not replaced by a temporary or skipped one, however long; the other way round it always is. |
| `DebridLinkModel.KeyPartOfHostKey` | src/main/debrid.ts:224-226 | The key part of a host entry is recovered for key ids without a bar. |
| `DebridLinkCooldowns.DebridLinkCooldowns.constructor` | src/main/debrid.ts:54-63 | Starts with no cooldown. |
| `DebridLinkCooldowns.DebridLinkCooldowns.SetState` | src/main/debrid.ts:170-196 | Records a failure by the precedence specification. |
| `DebridLinkCooldowns.DebridLinkCooldowns.GetState` | src/main/debrid.ts:200-219 | Reads a cooldown and drops an expired one. |
| `DebridLinkCooldowns.DebridLinkCooldowns.ClearState` | src/main/debrid.ts:140-143 | Clears end and detail together. |
| `DebridLinkCooldowns.DebridLinkCooldowns.Prune` | src/main/debrid.ts:78-98 | The pruning loop keeps exactly the wanted keys and counts what it removed. |

## Left out

- Collector store: the content of a state is abstracted to its ordinal; validation and the size limit of an update are one flag; transient rename retries (src/main/collector-store.ts:100, 124) are stutter steps.
- CollectorTheorems.QuiescentStoreIsSettled: asks that no synchronous write fails; `ConvergenceIsLostExactly` gives the exact condition.
- CollectorProgress.StoreComesToRest: asks that none of the store's own steps fails; `FailureIsRetried` and `RetryDelays` say what follows a failure.
- Integrity: MD5 and SHA-1, the manifest parser and its cache, and `filesHaveEqualContent` beyond "equal bytes, unless disturbed".
- Daily start: zones whose local date runs backwards or that skip a civil day; clocks outside the years 1000 to 9999; other code writing the handled and pending dates.
- DailyStart.PredictorAgrees: excludes an infinite minute, which saved settings never hold (src/main/storage.ts:714); `InfiniteMinuteIsClamped` says what the code would do.
- DailyStart.DeferredMeansClosed: asks for a clock at or after the epoch, since 0 means "no start".
- Health monitor: numbers are integers, so fractions are not modelled and a value that is not a number counts as zero; texts, colours and expiry of notifications.
- HealthRuns.StallsRespectCooldowns: asks that no restart forgets an acknowledgement; `CooldownIsRememberedExactly` gives the exact condition, `UninterruptedRunsRemember` and `SavedRunsRemember` when it holds.
- HealthRuns.WellBracketed: asks for a positive clock, as the system clock is; `BracketedExactly` gives the exact condition.
- HealthRuns.DifferentStallsHaveDifferentIds: asks for a strictly increasing clock, as incidents are named by their start time.
- Disk reservations: lease ids are fresh numbers, free space is an input, retry times and error payloads are not modelled.
- DiskProtocol.TotalsAreLiveLeases: asks that no update is overtaken by the release of its own lease; `TotalsAreLiveLeasesExactly` shows that to be the exact condition.
- Limiter: one abort signal per request, and the snapshot.
- Diagnostic writer: what a write does to the file (rotation, header, missing directory), the synchronous finish, and the promise of the flush.
- Publication: other processes changing the target meanwhile, case folding on Windows, the listing of staged files with its reserved names, and the staging directory's own life; registry updates are atomic, as their queue makes them.
- PublicationOutcomes.PublicationSucceedsExactly: leaves out rename mode, in which a name chosen for one file may stand where a later one needs a directory; `PublishedExactly` covers that mode file by file.
- Package merge: inference of a missing name is an arbitrary function of the links; strings are sequences of characters, and only ASCII letters are folded when reserved names are compared.
- Account pools: HTTP, classification of errors, log lines, abort timers and per-account runtime statistics; the classified answer is an input.
- RealDebridTheorems.AutomaticFailover: speaks of a call alone, as the order is the cursor's only while no other call moves it; `RealDebridWorld` covers concurrent calls.
- RealDebridTheorems.BatchesOfFour: calls one after the other, each served at its first attempt.
- Mega-Debrid: dropping expired cooldowns while reading them is a step of its own and not part of the stretch that reads; the clock readings inside one account look (src/main/debrid.ts:2396, 2425) and at the end (2610-2611) are one each.
- MegaDebridWorld.BatchesOfTwentyFive: speaks of calls of one mode. Cursor and sticky count are shared by the api and web modes (src/main/debrid.ts:2366-2380, 2465-2471); in the model an account id carries its mode and calls of both may share a run, but their interleaved batches are not described.
- MegaDebridWorld.OverlappingCallsSpread: speaks of calls that have not failed over; a failover goes on in the order computed at its call's start.
- Debrid-Link: the runtime status shown per key, and lower-casing of host names; host cooldowns use the same store under a joined key.
