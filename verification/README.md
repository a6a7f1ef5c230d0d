# Models and proofs for the home gateway

A Dafny 4.11 project that models the parts of the gateway in which correctness is decided by the code and
proves what they promise. `dafny verify dfyconfig.toml` checks all of it.

How to read it. Each area has a specification on values (functions and state machines), classes and methods in
the form of the source (the C tables and buffers as arrays, the Go stores as objects with map fields, loops as
loops) that are proved equal to that specification, and theorems about the specification, over all inputs, all
runs and all interleavings.

| area | files |
|---|---|
| solar roll-up, energy accounting, charts | `Calendar`, `PlainCalendar`, `Queries`, `SolarModel`, `SolarLog`, `SolarRoll`, `SolarPass`, `SolarDays`, `SolarMonths`, `SolarRuns`, `SolarTheorems`, `SolarReadings`, `SolarSilence`, `SolarCharts`, `SolarChartRuns`, `SolarStore` |
| live backup | `Backup`, `BackupProofs`, `BackupRebuild`, `BackupStore` |
| RPMsg framing and CRC-16 | `Crc16`, `Framing`, `CrcParity` |
| rule upload | `Crc32`, `RuleUpload`, `RuleWire` |
| rule meaning | `RuleEngine`, `RuleMeaning` |
| minute tick | `MinuteTick` |
| reliable messaging | `Limits`, `SeqWindow`, `PendingAcks`, `M4fPending`, `RxRing` |
| node registry | `Registry` |
| CC1310 and nodes | `PendingCommands`, `RfFrames`, `RfBuffers`, `Touch` |

Assumptions that the theorems rest on:

- Local time (`Calendar.Valid`): hours, days, months and years tile the seconds, each coarse tile starts with a
  fine one, hours last 3600 s, the two retention cut-offs fall on a day and a month start, do not go back, and
  lie at least three hours in the past. The repeated hour at the end of daylight saving is outside this.
- The gateway's clock does not step back (`SolarRuns.InOrder`).
- `IncrementalEqualsBatch` and `RowsAreFinal` ask that no silence between two accepted readings is so long that the
  hourly row before it has been pruned (`SolarLog.NoLongSilence`; `ShortSilencesAreKept` puts it in seconds).
  Everything else about the tables and charts holds after silences of any length: there an hour whose previous row
  is gone is measured against zero, and `World.zeroed` is the set of these hours. `BatchIffNothingToTake` says
  exactly when they make a difference to the batch, and `TwoMonthsOfSilence` gives a run in which they do.
- Energy is an integer in the wire's unit of kWh * 10000; thresholds and readings of rules are reals.

Where the code does less than its comments say, the model follows the code and a theorem gives the exact
condition:

- The rebuild of the aggregates deletes rows that no trigger captures, and the import, its one caller, runs in a
  process that never switches backup on, so that its inserts are queued and its prunes are not:
  `RebuildAgreesIffRawCovers`, `OldImportDisagrees`.
- A request that times out is retried in a later batch, but the server may still commit the first one afterwards:
  `LateCommitAgreesIff`.
- With no raw row left, as after a start that follows a long silence, the year chart shows nothing for the month
  that the month chart still adds up, if that is not 0: `MonthBarIsMonthTotal`.
- A service start prunes while backup is not yet switched on, and the catch-up lists only nodes that still have
  hourly or daily rows, so the mirror of a node whose rows have all aged out keeps them: `RestartAgreesIffSafe`.
- The server stamps `last_push_at` into the mirrored config table, a key that the triggers also mirror:
  `LastPushIsTheServers`; that key and the `backup%` keys are outside the agreement.
- A COMMIT retried after its ACK was lost is answered with ERROR although the swap happened: `LostAckAfterSwap`.
- The first item of the upload after a swap overwrites rules that an evaluation may still be reading:
  `NextUploadOverwrites`.
- A node event that is handled at or after the boundary of the minute due makes the engine skip that minute:
  `LateEventSkips`. The comment on engineTask says that an event never shifts the tick.
- A retransmission across the wrap of the sequence number is delivered again (`RetransmissionRefusedIff`), a
  first copy that arrives late is acknowledged and dropped (`LateFirstCopyIsDropped`), and the M4F takes every
  DATA message after number 65535 for a duplicate (`M4fAcceptsIff`, `NothingAfterTheLast`).
- A message that finds its channel full is acknowledged and gone, and its number counts as received, so its
  retransmission is dropped too: `Receiver.OnReliable`.
- A HELLO restarts the M4F's numbering without clearing its table, so an ACK can free the slot of another
  message: `AckFreesIffFirst`, `TwinsAfterHello`.
- A message longer than 255 bytes is cut by the receive ring and then refused: `FrameSurvivesIff`.
- `ProvisionNode` reports success with address 0 for a live detached chip (`ProvisionGivesZeroIff`) and fails on
  the unique index for a trashed one (`TrashedChipIsRefused`).
- A different command armed between the look-up and the disarm of a confirming uplink is lost; an arm of anything
  else there is as good as atomic (`ArmBetweenIsAtomicIff`), and so is any sequence of arms and disarms that does not
  leave the chip with a different command (`ControlsBetweenAreAtomicIff`).

## Model

| member | source | states |
|---|---|---|
| `SolarTheorems.IncrementalEqualsBatch` | Gateway/Software/rpmsg-service/solaragg.go:95-375 | after any run that ends in a pass, all four tables are what one pass over the whole unpruned history of accepted readings leaves |
| `SolarTheorems.RowsAreFinal` | Gateway/Software/rpmsg-service/solaragg.go:198-375 | a row of a period closed before some pass is the same in every later state that still has it, if no silence is too long: re-aggregation and pruning change no row |
| `SolarTheorems.RowsAreFinalUnlessRemeasured` | Gateway/Software/rpmsg-service/solaragg.go:180-237 | after silences of any length too, as long as no closed hour is measured anew after the row before it has been pruned |
| `SolarTheorems.EnergyIsAccounted` | Gateway/Software/rpmsg-service/solaragg.go:198-237 | over any whole hours, the increments reported equal the hour yields plus, for each reset, the smaller of the cumulatives before and after it |
| `SolarTheorems.HourIsAccounted` | Gateway/Software/rpmsg-service/solaragg.go:198-237 | the same for one hour, with what a reset inside it hides |
| `SolarReadings.RowsAccount` | Gateway/Software/rpmsg-service/solaragg.go:198-341 | over every run without negative increments, with duplicates, silences of any length, pruning, failed passes and restarts: each hourly, daily and monthly row and each running column, plus for each reset the smaller of what the hour was measured against and its new cumulative, is exactly the sum of the deltas, and of 2 pump minutes for each positive one, of the messages of its period that count |
| `SolarReadings.NothingIsInvented` | Gateway/Software/rpmsg-service/solaragg.go:198-341 | so no row and no running column ever holds more than those messages said |
| `SolarReadings.RefusedIff` | Gateway/Software/rpmsg-service/store.go:1104-1128 | in every reachable state a reading is refused exactly if it comes less than 60 s after the last one that counted, else stored with its own delta and 2 pump minutes if that is positive |
| `SolarReadings.RunTakes` | Gateway/Software/rpmsg-service/store.go:1104-1145 | over every run what was accepted is, in order, the messages that come at least 60 s after the last that counted |
| `SolarReadings.LiveDayIsSaid` | Gateway/Software/rpmsg-service/solaragg.go:462-480 | in every reachable state the live amount is exactly what the messages that count have said since the cumulative last started afresh, on the local day of the newest |
| `SolarReadings.LiveDayIsWholeDay` | Gateway/Software/rpmsg-service/solaragg.go:462-480 | that is all of the day, if no two of its readings lie more than two hours apart |
| `SolarSilence.ShortSilencesAreKept` | Gateway/Software/rpmsg-service/solaragg.go:353-375 | readings no further apart than the hourly retention less four hours meet the condition on silences |
| `SolarSilence.BatchIffNothingToTake` | Gateway/Software/rpmsg-service/solaragg.go:198-237 | after silences of any length the tables are the batch's exactly if, at each hour measured against zero because the row before it was pruned, the pruned cumulative would have taken nothing away; no other row can make up for it |
| `SolarSilence.LongSilenceBreaks` | Gateway/Software/rpmsg-service/solaragg.go:198-375 | a family of reachable runs in which it would have: one silence beyond the retention, energy on both sides of it |
| `SolarSilence.TwoMonthsOfSilence` | Gateway/Software/rpmsg-service/solaragg.go:198-375 | one such run in figures |
| `SolarRuns.RunIsRight` | Gateway/Software/rpmsg-service/solaragg.go:95-117 | over every run, whatever its silences, the tables hold exactly the rows that the accepted readings, the time of the last pass and the hours measured against zero determine; the cumulatives are chained; each hour measured against zero is one in which the cumulative starts afresh |
| `SolarRuns.NothingZeroedInRun` | Gateway/Software/rpmsg-service/solaragg.go:216-222 | with no silence too long no hour is measured against zero for want of a row |
| `SolarRuns.ResetAfterPruned` | Gateway/Software/rpmsg-service/solaragg.go:216-222 | the hour after a pruned row lies on another day, so its first reading starts the cumulative afresh |
| `SolarRuns.PassIsRight` | Gateway/Software/rpmsg-service/solaragg.go:95-375 | one pass brings the tables from the last pass's state to the present one, and changes what an hour is measured against only at hours it visits |
| `SolarRuns.RecordIsRight` | Gateway/Software/rpmsg-service/store.go:1104-1145 | a stored reading leaves every closed row as it was and becomes the newest raw row |
| `SolarRuns.ArrivalExtendsLog` | Gateway/Software/rpmsg-service/store.go:1104-1145 | what is stored continues the last accepted cumulative on the same local day and starts afresh otherwise |
| `SolarPass.RollHoursIsRight` | Gateway/Software/rpmsg-service/solaragg.go:180-237 | the hourly table after the hour level of a pass, for every hour closed so far |
| `SolarDays.RollDaysIsRight` | Gateway/Software/rpmsg-service/solaragg.go:239-291 | the same for the daily table and its month column |
| `SolarMonths.RollMonthsIsRight` | Gateway/Software/rpmsg-service/solaragg.go:293-341 | the same for the monthly table and its year column |
| `SolarMonths.LastDayOfMonth` | Gateway/Software/rpmsg-service/solaragg.go:311-325 | the last daily row of a complete month carries the yield of the whole month |
| `SolarRuns.PruneIsRight` | Gateway/Software/rpmsg-service/solaragg.go:345-375 | pruning only narrows each table to its retention window |
| `SolarRoll.RollList` | Gateway/Software/rpmsg-service/solaragg.go:155-178 | the periods a level visits: one for each row from the last bucket on, in ascending order, all before the boundary |
| `SolarRoll.HoursAreRight` | Gateway/Software/rpmsg-service/solaragg.go:198-237 | the chain of hours: each visited hour is measured against the cumulative before it, or against zero if no row is left before it |
| `SolarStore.DistinctBuckets` | Gateway/Software/rpmsg-service/solaragg.go:155-178 | the loop with its seen set returns that list |
| `SolarStore.Store.AggregateOneHour` | Gateway/Software/rpmsg-service/solaragg.go:198-237 | in place: the hour row from the last raw reading inside it and the previous hour's cumulative, clamped at zero |
| `SolarStore.Store.AggregateHoursUpTo` | Gateway/Software/rpmsg-service/solaragg.go:180-196 | in place: the hour level of a pass |
| `SolarStore.Store.AggregateOneDay` | Gateway/Software/rpmsg-service/solaragg.go:257-291 | in place: the day row from the sum of its hours and the previous day of the same month |
| `SolarStore.Store.AggregateDaysUpTo` | Gateway/Software/rpmsg-service/solaragg.go:239-255 | in place: the day level of a pass |
| `SolarStore.Store.AggregateOneMonth` | Gateway/Software/rpmsg-service/solaragg.go:311-341 | in place: the month row from its last day and the previous month of the same year |
| `SolarStore.Store.AggregateMonthsUpTo` | Gateway/Software/rpmsg-service/solaragg.go:293-309 | in place: the month level of a pass |
| `SolarStore.Store.PruneSolar` | Gateway/Software/rpmsg-service/solaragg.go:345-375 | in place: the three retention deletes |
| `SolarStore.Store.AggregateSolar` | Gateway/Software/rpmsg-service/solaragg.go:95-117 | in place: the whole pass if its transaction commits, nothing if it does not |
| `SolarStore.Store.RecordSolarHistory` | Gateway/Software/rpmsg-service/store.go:1104-1145 | in place: the duplicate guard, the daily accumulation, the new raw row |
| `SolarChartRuns.ChartsAddUp` | Gateway/Software/rpmsg-service/solaragg.go:667-813 | in every reachable state each month, year and all-time total is the sum of its bars, the all-time one in pump minutes too |
| `SolarChartRuns.MonthChartAddsUp` | Gateway/Software/rpmsg-service/solaragg.go:667-733 | the month total, from the running column and the live day, is the sum of day bars |
| `SolarChartRuns.YearChartAddsUp` | Gateway/Software/rpmsg-service/solaragg.go:737-800 | the year total, from the running column and the live month, is the sum of month bars |
| `SolarChartRuns.TotalChartAddsUp` | Gateway/Software/rpmsg-service/solaragg.go:803-813 | the all-time total, energy and pump minutes, is the sum of year bars |
| `SolarChartRuns.BarsAreTheTiles` | Gateway/Software/rpmsg-service/solaragg.go:684-691 | the live tile shows the live amount even if its row was written, every other tile its own row |
| `SolarChartRuns.BarsAscend` | Gateway/Software/rpmsg-service/solaragg.go:684-691 | bars come in order, none twice |
| `SolarChartRuns.TileHasBar` | Gateway/Software/rpmsg-service/solaragg.go:684-691 | no tile of the period is without its bar |
| `SolarChartRuns.DayBarIs` | Gateway/Software/rpmsg-service/solaragg.go:667-691 | the bar of a day is the newest raw row's cumulative if that is its day, else the day's row, else 0, and no other |
| `SolarChartRuns.TotalsAre` | Gateway/Software/rpmsg-service/solaragg.go:694-790 | month and year totals are the running column of the newest row before the live tile and the live amount |
| `SolarChartRuns.ColumnsAre` | Gateway/Software/rpmsg-service/solaragg.go:709-733 | a running column is that of the newest row of its stretch, zero without one |
| `SolarChartRuns.MonthBarIsMonthTotal` | Gateway/Software/rpmsg-service/solaragg.go:667-759 | over every run the year chart's bar of a month still kept by days is the month chart's total, live month included, exactly unless the month is still open, no raw row of it is left, and its days so far add up to other than 0 |
| `SolarChartRuns.RunKeepsCharts` | Gateway/Software/rpmsg-service/solaragg.go:95-375 | every run keeps the running columns linked and no row ahead of the newest reading |
| `SolarStore.DrawBars` | Gateway/Software/rpmsg-service/solaragg.go:684-691 | the bar loop |
| `SolarStore.Store.MonthSeries` | Gateway/Software/rpmsg-service/solaragg.go:667-719 | in place: the month chart |
| `SolarStore.Store.YearSeries` | Gateway/Software/rpmsg-service/solaragg.go:737-790 | in place: the year chart |
| `SolarStore.Store.TotalSeries` | Gateway/Software/rpmsg-service/solaragg.go:803-813 | in place: the all-time chart |
| `PlainCalendar.ValidCalendarsExist` | Gateway/Software/rpmsg-service/solaragg.go:64-89 | the assumptions made about local time can all hold together |
| `BackupProofs.MirrorFollows` | Gateway/Software/rpmsg-service/backup.go:42-105 | from an empty mirror, through every write, prune, purge, seeding, push, lost reply, replay and late commit, the pending queue applied to the mirror gives the gateway's mirrored rows, as long as rebuilds, restarts and late commits meet their exact conditions |
| `BackupProofs.CapturedIff` | Gateway/Software/rpmsg-service/backup.go:42-91 | the triggers watch every node, parameter and aggregate row, and every config row whose key does not begin with backup in any mixture of cases |
| `BackupProofs.TriggersQueue` | Gateway/Software/rpmsg-service/backup.go:42-91 | exactly what a write and a config delete queue |
| `BackupProofs.BookkeepingStaysHome` | Gateway/Software/rpmsg-service/backup.go:48-52 | in no run does a key that begins with backup reach queue or mirror |
| `BackupProofs.ApplyIs` | Gateway/Software/server/gw-backup.php:52-119 | what each operation does to each row, and what it leaves |
| `BackupProofs.LateCommitAgreesIff` | Gateway/Software/rpmsg-service/backup.go:200-228 | a request committed after the worker gave up on it leaves gateway and mirror in agreement exactly if each key it writes is still to be overwritten by the queue or gets what the gateway holds, and they still agree once the batch in flight is answered exactly if that holds of what is then left of the queue; the condition asks nothing of the mirror |
| `BackupProofs.LateCommitBeforeAck` | Gateway/Software/rpmsg-service/backup.go:200-228 | it is harmless as long as what it carries is still queued and no later batch has been committed unacknowledged |
| `BackupProofs.LateCommitCanHarm` | Gateway/Software/rpmsg-service/backup.go:200-228 | a run in which it harms: the first value given up on, the second acknowledged, then the first committed |
| `BackupProofs.MirrorIsGateway` | Gateway/Software/rpmsg-service/backup.go:149-181 | once every table is seeded the queue applied to the mirror, and the mirror itself when the queue is empty, has exactly the gateway's node, parameter and aggregate rows, and its config rows but last_push_at and the bookkeeping |
| `BackupProofs.LastWriterWins` | Gateway/Software/server/gw-backup.php:52-119 | a key that a list of operations touches ends up the same whatever was there before; another keeps its value |
| `BackupProofs.ReplayIsHarmless` | Gateway/Software/rpmsg-service/backup.go:200-228 | a batch applied again, or as the start of a longer one, changes nothing |
| `BackupProofs.ApplyAllIsAfter` | Gateway/Software/server/gw-backup.php:52-119 | the server's loop, seen one key at a time |
| `BackupProofs.SeedAgrees` | Gateway/Software/rpmsg-service/backup.go:149-181 | seeding a table between any other steps makes it complete on the mirror |
| `BackupProofs.SeedingIsPossible` | Gateway/Software/rpmsg-service/backup.go:149-181 | every table can be seeded at any time, by a list of exactly its watched rows |
| `BackupProofs.ServerAppliesAgrees` | Gateway/Software/server/gw-backup.php:50-136 | a committed batch, acknowledged or not, keeps the agreement |
| `BackupProofs.AckAgrees` | Gateway/Software/rpmsg-service/backup.go:253-270 | dropping an acknowledged batch keeps the agreement, with whatever was queued meanwhile |
| `BackupProofs.RetainIsFaithful` | Gateway/Software/rpmsg-service/solaragg.go:358-393 | a retention delete and the one range operation queued for it say the same |
| `BackupProofs.PurgeIsFaithful` | Gateway/Software/rpmsg-service/store.go:926-953 | a node purge and the one operation queued for it say the same |
| `BackupProofs.RestartAgreesIffSafe` | Gateway/Software/rpmsg-service/solaragg.go:358-458 | a service start, which prunes before backup is switched on, keeps the agreement exactly if each node that lost rows still has hourly or daily ones and no row falls between the two cut-offs |
| `BackupRebuild.RebuildAgreesIffRawCovers` | Gateway/Software/rpmsg-service/solaragg.go:123-151 | a rebuild, whose deletes are not captured, keeps the agreement: in a process without backup, as the import is, exactly if a kept raw row lies in the period of each row it deletes and no raw row is older than the hourly cut-off; with backup switched on exactly if each row it deletes is so covered or falls to a prune that the rebuild queues |
| `BackupRebuild.OldImportDisagrees` | Gateway/Software/rpmsg-service/gen1import.go:87-92 | the import of a history older than the hourly cut-off leaves gateway and mirror apart, even on a node without aggregate rows |
| `BackupRebuild.RecomputedIffRaw` | Gateway/Software/rpmsg-service/solaragg.go:123-151 | a rebuild recomputes exactly the closed periods that still hold raw rows, at every level |
| `BackupProofs.LastPushIsTheServers` | Gateway/Software/server/gw-backup.php:128-135 | over every run of stamped commits the mirror's row last_push_at is the server's stamp of the last one although the triggers also mirror that row |
| `BackupStore.Server.Push` | Gateway/Software/server/gw-backup.php:50-136 | in place: all items in order, or nothing; then the stamp, which may fail on its own |
| `BackupStore.Gateway.Write` | Gateway/Software/rpmsg-service/backup.go:42-91 | in place: a row and what its trigger queues |
| `BackupStore.Gateway.DeleteConfig` | Gateway/Software/rpmsg-service/backup.go:50-52 | in place: a config row and what its trigger queues |
| `BackupStore.Gateway.Prune` | Gateway/Software/rpmsg-service/solaragg.go:358-393 | in place: one table's retention delete, queued only if it removed something |
| `BackupStore.Gateway.DropNode` | Gateway/Software/rpmsg-service/store.go:926-953 | in place: every row of a node and one purge |
| `BackupStore.Gateway.SeedTable` | Gateway/Software/rpmsg-service/backup.go:149-181 | in place: one upsert for each captured row |
| `BackupStore.Gateway.ReadBackupBatch` | Gateway/Software/rpmsg-service/backup.go:230-251 | the oldest entries up to the limit, with their ids |
| `BackupStore.Gateway.DeleteBackupRows` | Gateway/Software/rpmsg-service/backup.go:253-270 | in place: exactly those entries go |
| `BackupStore.WorkerTurn` | Gateway/Software/rpmsg-service/backup.go:200-228 | one turn of the worker is the matching steps of the replication machine |
| `Framing.RoundTrip` | Shared/Protocol/protocol.h:161-235 | decoding an encoded message returns its type, number and payload |
| `Framing.WireLayout` | Shared/Protocol/protocol.h:161-191 | where type, number, length, payload and register lie, high bytes first |
| `Framing.RefusalIs` | Shared/Protocol/protocol.h:200-235 | which of the three errors is returned, and that nothing above 480 bytes is accepted |
| `Framing.AcceptsOnlyEncodings` | Shared/Protocol/protocol.h:200-235 | only encodings are accepted, and they are read as what was encoded |
| `Framing.AcceptsIffZeroResidue` | Shared/Protocol/protocol.h:200-235 | acceptance is agreement of the lengths and a zero register over the whole frame |
| `Framing.BurstIsRejected` | Shared/Protocol/protocol.h:121-235 | a frame altered only within 16 consecutive bits is rejected, wherever they lie |
| `Framing.EncodeInto` | Shared/Protocol/protocol.h:161-191 | in place: the frame, or nothing for too large a payload |
| `Framing.DecodeBuffer` | Shared/Protocol/protocol.h:200-235 | the C function on a buffer decides as the specification |
| `Crc16.ComputeCrc` | Shared/Protocol/protocol.h:121-138 | the nested loops compute the register |
| `Crc16.CrcXor` | Shared/Protocol/protocol.h:121-138 | the register is linear over exclusive-or |
| `Crc16.ResidueIffStored` | Shared/Protocol/protocol.h:224-229 | the register over data and two more bytes is zero exactly if they are the register of the data |
| `Crc16.BurstChangesCrc` | Shared/Protocol/protocol.h:121-138 | two different strings that agree outside 16 consecutive bits have different registers |
| `Crc16.CheckValue` | Shared/Protocol/protocol.h:121-138 | the register after the digits 1 to 9 is the catalogued 0x29B1 |
| `CrcParity.CrcParity` | Shared/Protocol/protocol.h:121-138 | the register carries the parity of all bits that went in |
| `CrcParity.OddFlipsAreRejected` | Shared/Protocol/protocol.h:200-235 | a frame in which an odd number of bits was flipped is rejected |
| `RuleUpload.NilMeansPushed` | Gateway/Software/rpmsg-service/rules.go:217-261 | a nil error means that the engine runs exactly the pushed rules, with nothing assumed of the checksum |
| `RuleUpload.PushIsAtomic` | Gateway/Firmware/M4F/engine.c:468-517 | whatever the link does to a push, the live rules are the pushed ones or the old ones |
| `RuleUpload.PushSucceedsIff` | Gateway/Software/rpmsg-service/rules.go:217-261 | the error is nil exactly if everything before the COMMIT was acknowledged, each item arrived once and the first copy of the COMMIT was answered first |
| `RuleUpload.LostAckAfterSwap` | Gateway/Firmware/M4F/engine_rpmsg.c:86-101 | with the first answer to the COMMIT lost the push fails although the swap happened |
| `RuleUpload.CommitSwaps` | Gateway/Firmware/M4F/engine.c:493-517 | a commit swaps exactly if each item arrived once |
| `RuleUpload.CommitIsAckedIff` | Gateway/Firmware/M4F/engine.c:493-517 | in every command sequence a COMMIT is acknowledged exactly if an upload is open, as many rules were announced and as many items accepted as it says, and the shadow's images have its checksum |
| `RuleUpload.CommitInstallsItems` | Gateway/Firmware/M4F/engine.c:480-517 | each rule then in force is the last image accepted for its place |
| `RuleUpload.CommitChecks` | Gateway/Firmware/M4F/engine.c:493-517 | an acknowledged COMMIT puts that many rules with that checksum in force; a refused one leaves rules and side as they were and closes the upload |
| `RuleUpload.LiveRulesAreChecked` | Gateway/Firmware/M4F/engine.c:468-517 | whatever commands come, from one push or several at once, the live rules are the first ones or have number and checksum of the last acknowledged COMMIT |
| `RuleUpload.OnlyCommitSwaps` | Gateway/Firmware/M4F/engine.c:468-517 | only a COMMIT answered with ACK changes the live rules |
| `RuleUpload.SlotsChangeIff` | Gateway/Firmware/M4F/engine.c:480-491 | a buffer changes exactly by an accepted item with another image |
| `RuleUpload.LatchedRulesStay` | Gateway/Firmware/M4F/engine.c:345-349 | an evaluation that latched the active buffer sees the same rules up to the first item accepted after a swap |
| `RuleUpload.NextUploadOverwrites` | Gateway/Firmware/M4F/engine.c:480-491 | that item does overwrite them |
| `RuleUpload.AtMostFourCopies` | Gateway/Software/rpmsg-service/protocol.go:597-634 | what the link can do with one message: up to four copies, and the reply to one that arrived, or none |
| `RuleUpload.DispatchIsSound` | Gateway/Firmware/M4F/engine.c:468-517 | building implies that the shadow is not the active buffer, after every command |
| `RuleUpload.Engine.RulesBegin` | Gateway/Firmware/M4F/engine.c:468-478 | in place: BEGIN |
| `RuleUpload.Engine.RulesItem` | Gateway/Firmware/M4F/engine.c:480-491 | in place: ITEM |
| `RuleUpload.Engine.RulesCommit` | Gateway/Firmware/M4F/engine.c:493-517 | in place: COMMIT with its count and checksum tests |
| `RuleUpload.Engine.OnCommand` | Gateway/Firmware/M4F/engine_rpmsg.c:57-97 | in place: the three upload cases once unpacked, with ACK or ERROR |
| `RuleUpload.Engine.Receive` | Gateway/Software/rpmsg-service/protocol.go:302-341 | one reliable message: every copy that arrives is handled, the first answer heard decides |
| `RuleUpload.PushRules` | Gateway/Software/rpmsg-service/rules.go:236-261 | in place: the push of encoded rules |
| `RuleWire.PushRulesFrom` | Gateway/Software/rpmsg-service/rules.go:217-261 | in place: the whole push, with its refusals before anything is sent |
| `RuleWire.PushAllMeansAll` | Gateway/Software/rpmsg-service/rules.go:217-261 | nil means that every rule could be encoded and the engine runs exactly those; an error leaves it with those or the old ones |
| `RuleWire.WireRoundTrip` | Gateway/Firmware/M4F/engine_rpmsg.c:48-101 | unpacking undoes packing, the length test is the only refusal, and what is unpacked packs to the bytes it came from |
| `RuleWire.WireLayout` | Gateway/Software/rpmsg-service/rules.go:236-256 | where count, index, image and checksum lie, high bytes first |
| `RuleWire.PayloadMeansCommand` | Gateway/Firmware/M4F/engine_rpmsg.c:48-101 | the bytes of an upload message do to the engine what its command does |
| `RuleWire.OnMessage` | Gateway/Firmware/M4F/engine_rpmsg.c:48-101 | in place: the three upload cases on bytes, with their length tests |
| `Crc32.Crc32Calc` | Gateway/Firmware/M4F/engine.c:91-105 | the bitwise loop computes the checksum |
| `Crc32.StreamingIsWhole` | Gateway/Software/rpmsg-service/rules.go:225-234 | hashing rule by rule gives the engine's checksum over the concatenation |
| `Crc32.TableIsBitwise` | Gateway/Firmware/M4F/engine.c:91-105 | the table form of section 8 of RFC 1952 and the bitwise loop agree |
| `Crc32.CheckValue` | Gateway/Firmware/M4F/engine.c:91-105 | the checksum of the digits 1 to 9 is the catalogued 0xCBF43926 |
| `RuleMeaning.MeaningIsKept` | Gateway/Software/rpmsg-service/rulesjson.go:73-131 | over every run of reports and ticks, the engine on the resolved rules fires exactly what the app's enabled and available rules say, in order; the app's side keeps values by parameter code and has comparisons of its own |
| `RuleMeaning.ReadsLastSaid` | Gateway/Firmware/M4F/engine.c:130-259 | after any reports of a node the engine reads for a parameter what the last report that carries it said, if the parameter is one of the node's type, else 0 |
| `RuleMeaning.ReportIsReadBack` | Gateway/Firmware/M4F/engine.c:130-259 | each field of each kind of report is what the parameter with its code reads next |
| `RuleMeaning.ComparisonLaws` | Gateway/Firmware/M4F/engine.c:299-324 | less than, more than and between, each end on its own side; any other code never holds |
| `RuleMeaning.WindowInMinutes` | Gateway/Firmware/M4F/engine.c:285-297 | a time window is an interval of minutes of the day, both ends included |
| `RuleMeaning.SameActs` | Gateway/Firmware/M4F/engine.c:345-463 | the same for one evaluation |
| `RuleMeaning.SameFiring` | Gateway/Firmware/M4F/engine.c:371-436 | a rule acts on node ids exactly if it resolves and its resolution fires |
| `RuleMeaning.AvailableIffResolves` | Gateway/Software/rpmsg-service/rulesjson.go:84-127 | a rule is pushed exactly if it is enabled and every node it names has an address |
| `RuleMeaning.SameScope` | Gateway/Firmware/M4F/engine.c:327-343 | a rule's trigger survives resolution |
| `RuleMeaning.AppRulesToWire` | Gateway/Software/rpmsg-service/rulesjson.go:73-131 | the loop with its ok flag resolves as specified |
| `RuleMeaning.ResolveOne` | Gateway/Software/rpmsg-service/rulesjson.go:84-127 | one rule of it |
| `RuleEngine.Engine.UpdateNode` | Gateway/Firmware/M4F/engine.c:130-171 | in place: the record of the sender, and no other |
| `RuleEngine.Engine.MatchesScope` | Gateway/Firmware/M4F/engine.c:327-343 | the scan for kinds of condition |
| `RuleEngine.Engine.AllHold` | Gateway/Firmware/M4F/engine.c:391-432 | the scan of conditions with its early exit is their conjunction, false for a node that never reported |
| `RuleEngine.Engine.EvaluateRules` | Gateway/Firmware/M4F/engine.c:345-463 | in place: minute guard, scope, relay guard, conditions, and the list of what fires |
| `MinuteTick.MinutesAreConsecutive` | Gateway/Firmware/M4F/ipc_rpmsg_echo.c:490-530 | with timeouts on time and no late node event, TIME rules run for consecutive minutes from the first boundary on, early wakes included |
| `MinuteTick.LateEventSkips` | Gateway/Firmware/M4F/ipc_rpmsg_echo.c:490-530 | a node event after which the sleep is sized at or past the boundary of the minute due loses that minute for good |
| `MinuteTick.EventOnBoundaryIsLate` | Gateway/Firmware/M4F/ipc_rpmsg_echo.c:497-498 | handling an event on the boundary is late enough |
| `MinuteTick.WindowMinute` | Gateway/Firmware/M4F/engine.c:264-283 | exactly the times from 4 s before to 56 s after a boundary read as its minute |
| `MinuteTick.RoundedMinute` | Gateway/Firmware/M4F/engine.c:271-283 | the rounding within the day, across midnight |
| `MinuteTick.SizedAtLastWake` | Gateway/Firmware/M4F/ipc_rpmsg_echo.c:490-530 | each sleep is sized at the last wake, whatever it was for |
| `MinuteTick.Wall.WallNow` | Gateway/Firmware/M4F/engine.c:180-195 | hour, minute and second of the advanced wall clock |
| `MinuteTick.Wall.WallNowRounded` | Gateway/Firmware/M4F/engine.c:271-283 | the minute being ticked |
| `MinuteTick.Wall.MsToNextMinute` | Gateway/Firmware/M4F/engine.c:209-223 | between 1 and 60000 ms, ending exactly on the next boundary |
| `MinuteTick.Wall.SetTime` | Gateway/Firmware/M4F/engine.c:197-202 | in place: a new base and anchor |
| `SeqWindow.TwiceMeansRestart` | Gateway/Software/rpmsg-service/protocol.go:374-382 | a number accepted twice has a reset or a jump back past the window in between |
| `SeqWindow.DuplicateIff` | Gateway/Software/rpmsg-service/protocol.go:374-382 | a number is a duplicate exactly if it is the last accepted one or one of the sixteen below it; after a reset none is |
| `SeqWindow.AcceptedIncrease` | Gateway/Software/rpmsg-service/protocol.go:374-382 | between such events accepted numbers strictly increase |
| `SeqWindow.StreamIsAccepted` | Gateway/Firmware/M4F/ipc_rpmsg_echo.c:290-292 | a loss-free in-order stream of any length is accepted completely, wraps included |
| `SeqWindow.RetransmissionRefusedIff` | Gateway/Software/rpmsg-service/protocol.go:360-382 | a retransmission within the window is refused exactly if no wrap lies in between |
| `SeqWindow.LateFirstCopyIsDropped` | Gateway/Software/rpmsg-service/protocol.go:500-518 | in any run a lower number that arrives after a higher one was accepted is dropped unless the receiver restarted in between, even if it is a first copy |
| `SeqWindow.M4fAcceptsIff` | Gateway/Firmware/M4F/ipc_rpmsg_echo.c:645-660 | of a loss-free stream the M4F accepts exactly the first 65535 DATA messages of a session |
| `SeqWindow.M4fAcceptsAbove` | Gateway/Firmware/M4F/ipc_rpmsg_echo.c:645-660 | the M4F accepts the first DATA after a HELLO and then exactly what lies above the last |
| `SeqWindow.NothingAfterTheLast` | Gateway/Firmware/M4F/ipc_rpmsg_echo.c:645-660 | after number 65535 it accepts nothing, in whatever order it comes, until the next HELLO |
| `SeqWindow.Receiver.OnReliable` | Gateway/Software/rpmsg-service/protocol.go:476-518 | in place: always acknowledge, deliver unless a duplicate or the channel is full; the number counts as received either way |
| `SeqWindow.Receiver.OnHelloAck` | Gateway/Software/rpmsg-service/protocol.go:420-435 | in place: a session starts only when asked for |
| `PendingAcks.OneResultFourSends` | Gateway/Software/rpmsg-service/protocol.go:597-634 | in every interleaving, with ticks however late, each message goes out at most four times and gets at most one result |
| `PendingAcks.UnansweredIsGivenUp` | Gateway/Software/rpmsg-service/protocol.go:597-634 | in every run with ticks at most 100 ms apart, a message that is neither answered nor withdrawn gets its error between 4 s and 4.4 s after it was sent, before the caller's 5 s |
| `PendingAcks.AnswerIsHandedOver` | Gateway/Software/rpmsg-service/protocol.go:445-474 | an answer to a waiting message is handed over once and ends its wait; a withdrawn message waits no more and gets nothing; other numbers are not touched |
| `PendingAcks.TickOutcome` | Gateway/Software/rpmsg-service/protocol.go:597-634 | at a tick an entry stays, is sent again, or is given up with an error, by its age and retries |
| `PendingAcks.SafetyNetIsIdle` | Gateway/Software/rpmsg-service/protocol.go:334-340 | with ticks at most 100 ms apart, a caller that times out finds nothing of its own in the table |
| `PendingAcks.GiveUpTakesFour` | Gateway/Software/rpmsg-service/protocol.go:597-634 | in every interleaving no entry is given up before four full timeouts |
| `PendingAcks.Pending.Register` | Gateway/Software/rpmsg-service/protocol.go:307-326 | in place: a new entry |
| `PendingAcks.Pending.OnReply` | Gateway/Software/rpmsg-service/protocol.go:445-474 | in place: an ACK or ERROR takes its entry out and resolves it |
| `PendingAcks.Pending.ProcessRetries` | Gateway/Software/rpmsg-service/protocol.go:597-634 | in place: who is sent again, who is given up, who waits on |
| `M4fPending.RunIsSound` | Gateway/Firmware/M4F/ipc_rpmsg_echo.c:552-579 | over every run on the M4F each message goes out at most four times and no call waits in two slots |
| `M4fPending.AckFreesItsMessage` | Gateway/Firmware/M4F/ipc_rpmsg_echo.c:675-690 | among messages of the present session, with fewer than 65535 sent since, an ACK frees exactly the slot of the message it answers |
| `M4fPending.AckFreesIffFirst` | Gateway/Firmware/M4F/ipc_rpmsg_echo.c:156-164 | in every state an ACK frees the slot it answers exactly if no slot before it waits under the same number |
| `M4fPending.TwinsAfterHello` | Gateway/Firmware/M4F/ipc_rpmsg_echo.c:628-634 | a HELLO makes such twins: a new message shares its number with one still waiting |
| `M4fPending.SendOutcome` | Gateway/Firmware/M4F/ipc_rpmsg_echo.c:272-317 | when a call returns 0, -1 or -2, what then waits, and that a refusal changes nothing |
| `M4fPending.RetryOutcome` | Gateway/Firmware/M4F/ipc_rpmsg_echo.c:552-579 | what a pass of the retry loop does to a slot, by its age and retries |
| `M4fPending.FourPassesGiveUp` | Gateway/Firmware/M4F/ipc_rpmsg_echo.c:552-579 | an unacknowledged message has k + 1 copies out after the k-th pass a second apart and is given up at the fourth |
| `M4fPending.HelloOutcome` | Gateway/Firmware/M4F/ipc_rpmsg_echo.c:628-634 | a HELLO starts the numbers again from 1 |
| `M4fPending.Table.SendReliable` | Gateway/Firmware/M4F/ipc_rpmsg_echo.c:272-317 | in place: the first free slot, the next number, or a refusal |
| `M4fPending.Table.OnAckMessage` | Gateway/Firmware/M4F/ipc_rpmsg_echo.c:156-164 | in place: the first slot that waits for the number is freed |
| `M4fPending.Table.ProcessEventRetries` | Gateway/Firmware/M4F/ipc_rpmsg_echo.c:552-579 | in place: which slots are sent again, given up, left alone |
| `RxRing.OrderIsKept` | Gateway/Firmware/M4F/ipc_rpmsg_echo.c:98-104 | in every interleaving what was taken in is what was handled, in order, followed by what is in the ring |
| `RxRing.StepRefines` | Gateway/Firmware/M4F/ipc_rpmsg_echo.c:178-201 | each atomic step is a step of a queue of at most three; a message is dropped exactly when three are queued |
| `RxRing.HandledSlotIsStable` | Gateway/Firmware/M4F/ipc_rpmsg_echo.c:1015-1018 | the slot being handled does not change until it is released |
| `RxRing.FrameSurvivesIff` | Gateway/Firmware/M4F/ipc_rpmsg_echo.c:188-194 | a protocol frame gets through exactly if it is at most 255 bytes long; cut short it is refused |
| `RxRing.RingBuffer.Receive` | Gateway/Firmware/M4F/ipc_rpmsg_echo.c:178-195 | in place: test for room, truncate, write |
| `RxRing.RingBuffer.Publish` | Gateway/Firmware/M4F/ipc_rpmsg_echo.c:196-196 | in place: move the head |
| `RxRing.RingBuffer.Take` | Gateway/Firmware/M4F/ipc_rpmsg_echo.c:1015-1016 | the test and the slot handed on |
| `RxRing.RingBuffer.Release` | Gateway/Firmware/M4F/ipc_rpmsg_echo.c:1017-1017 | in place: move the tail |
| `Registry.RunKeeps` | Gateway/Software/rpmsg-service/store.go:489-613 | over every run: addresses distinct, archived nodes without one, live nodes without one exactly if detached, chips distinct, ids only from above the counter |
| `Registry.IdsAreNotReused` | Gateway/Software/rpmsg-service/store.go:920-953 | an id that has gone never comes back |
| `Registry.LowestFree` | Gateway/Software/rpmsg-service/store.go:1000-1004 | the lowest free pool address, or none if every address is held |
| `Registry.ExhaustedMeansFull` | Gateway/Software/rpmsg-service/store.go:983-1006 | allocation fails only with all 224 addresses held, by as many nodes |
| `Registry.ProvisionGivesZeroIff` | Gateway/Software/rpmsg-service/store.go:499-520 | success with address 0 is reported exactly for the chip of a live detached node |
| `Registry.ProvisionIsIdempotent` | Gateway/Software/rpmsg-service/store.go:485-533 | approving a chip again gives the same address and no second node |
| `Registry.TrashedChipIsRefused` | Gateway/Software/rpmsg-service/store.go:499-533 | the chip of a trashed node cannot be provisioned |
| `Registry.BackFromTrash` | Gateway/Software/rpmsg-service/store.go:562-613 | trash, restore and repair with its own chip bring a node back under its id with name, room and type |
| `Registry.ReplaceGivesChip` | Gateway/Software/rpmsg-service/store.go:541-556 | a replacement succeeds exactly if a node holds the address and no other node the chip; the node keeps id, address, name, room and type, has the new chip and waits for it, the old chip is forgotten, and approving the new one finds that address |
| `Registry.RepairGivesChip` | Gateway/Software/rpmsg-service/store.go:562-613 | the same for a repair, on the lowest free address, with its exact conditions |
| `Registry.ProvisionGivesNode` | Gateway/Software/rpmsg-service/store.go:489-533 | what an approval changes, field by field, for a known chip and for a new one |
| `Registry.JoinCompletes` | Gateway/Software/rpmsg-service/store.go:489-533 | a chip approved for the first time that reports from its address is active there, and no other node is touched |
| `Registry.ConfirmActivates` | Gateway/Software/rpmsg-service/store.go:656-660 | the first report activates exactly the node waiting at its address |
| `Registry.TrashAndRestore` | Gateway/Software/rpmsg-service/store.go:847-888 | what trash and restore change, and when they do nothing |
| `Registry.PurgeTakesExpired` | Gateway/Software/rpmsg-service/store.go:893-918 | exactly the nodes trashed before the cut-off go, the others stay as they are |
| `Registry.LabelsOnly` | Gateway/Software/rpmsg-service/store.go:620-622 | a rename changes name and room, and a report type and time, of the node at the address, nothing else |
| `Registry.NothingAtAddress` | Gateway/Software/rpmsg-service/store.go:549-553 | a replacement at an address that no node holds is refused and changes nothing |
| `Registry.TrashFreesAddress` | Gateway/Software/rpmsg-service/store.go:847-852 | a trashed node's address is free at once |
| `Registry.Store.Alloc` | Gateway/Software/rpmsg-service/store.go:983-1007 | the scan over the set of used addresses |
| `Registry.Store.ProvisionNode` | Gateway/Software/rpmsg-service/store.go:489-533 | in place: known chip, or new node on the lowest free address |
| `Registry.Store.ReplaceNode` | Gateway/Software/rpmsg-service/store.go:541-556 | in place: another chip on an address |
| `Registry.Store.RepairNode` | Gateway/Software/rpmsg-service/store.go:562-613 | in place: a chip and an address for a detached node, with its five refusals |
| `Registry.Store.MarkActive` | Gateway/Software/rpmsg-service/store.go:656-660 | in place: pending_join to active, nothing else |
| `Registry.Store.DeleteNodeByID` | Gateway/Software/rpmsg-service/store.go:847-852 | in place: into the trash, address freed, once |
| `Registry.Store.RestoreNodeLocal` | Gateway/Software/rpmsg-service/store.go:879-888 | in place: out of the trash, detached |
| `Registry.Store.PurgeExpiredTrash` | Gateway/Software/rpmsg-service/store.go:893-918 | in place: exactly the nodes archived before the cut-off go |
| `PendingCommands.TableRefinesMap` | Gateway/Firmware/CC1310/radio_task.c:168-212 | after every history the slots hold distinct chips and stand for a map of at most eight |
| `PendingCommands.MappedIffLastArm` | Gateway/Firmware/CC1310/radio_task.c:191-212 | a command waits for a chip exactly if it was its last effective arm, with no arm, disarm or confirm after it |
| `PendingCommands.NackIff` | Gateway/Firmware/CC1310/radio_task.c:421-444 | an uplink is answered with a NACK exactly if its chip is mapped to a command other than 0 and its own |
| `PendingCommands.ArmRefines` | Gateway/Firmware/CC1310/radio_task.c:191-203 | arming replaces a mapped chip, adds a new one while there is room, else changes nothing |
| `PendingCommands.DisarmRefines` | Gateway/Firmware/CC1310/radio_task.c:207-212 | disarming removes that chip only |
| `PendingCommands.UplinkRefines` | Gateway/Firmware/CC1310/radio_task.c:421-444 | an uplink confirms or is told, and changes no other chip |
| `PendingCommands.ArmBetweenIsAtomicIff` | Gateway/Firmware/CC1310/radio_task.c:429-437 | an arm of any chip between the look-up and the disarm of an uplink gives the table and reply of one of the two atomic orders, exactly unless it gives the confirming chip another command |
| `PendingCommands.ArmedBetweenRefines` | Gateway/Firmware/CC1310/radio_task.c:181-212 | the slots after such an interleaving stand for the map after it |
| `PendingCommands.ControlsBetweenAreAtomicIff` | Gateway/Firmware/CC1310/radio_task.c:429-437 | any arms and disarms between the two are as good as some placement of the whole uplink among them unless they leave the confirming chip with another command; exactly unless they do, while the table has room for every arm |
| `PendingCommands.FullTableHidesLoss` | Gateway/Firmware/CC1310/radio_task.c:191-212 | in a full table even that loss can coincide with an atomic order, in which the command finds no slot |
| `PendingCommands.PendingTable.FindLocked` | Gateway/Firmware/CC1310/radio_task.c:171-177 | the scan for a chip's slot |
| `PendingCommands.PendingTable.LookupChip` | Gateway/Firmware/CC1310/radio_task.c:181-187 | the command of a chip, 0 if none |
| `PendingCommands.PendingTable.ArmChip` | Gateway/Firmware/CC1310/radio_task.c:191-203 | in place: arm |
| `PendingCommands.PendingTable.DisarmChip` | Gateway/Firmware/CC1310/radio_task.c:207-212 | in place: disarm |
| `PendingCommands.PendingTable.Answer` | Gateway/Firmware/CC1310/radio_task.c:421-444 | in place: the reply to an uplink |
| `RfFrames.UplinkEndToEnd` | Gateway/Firmware/CC1310/radio_task.c:471-481 | from the node's message to the gateway service over radio, SPI and RPMsg: same chip id, the sent bytes, a zero tail |
| `RfFrames.DownlinkEndToEnd` | Nodes/LightSwitchNode/Firmware/rfEchoTx.c:302-343 | from the gateway service to the node: exactly the addressed node and, with a chip id, exactly that chip takes the message |
| `RfFrames.UplinkRoundTrip` | Nodes/LightSwitchNode/Firmware/rfEchoTx.c:239-251 | the radio hop up |
| `RfFrames.NodeFrameLayout` | Nodes/LightSwitchNode/Firmware/rfEchoTx.c:239-251 | where everything lies in the node's frame |
| `RfFrames.SentIs` | Nodes/LightSwitchNode/Firmware/rfEchoTx.c:239-251 | as many bytes of a message travel as its byte 3 says |
| `RfFrames.GatewayFrameLayout` | Gateway/Firmware/CC1310/radio_task.c:322-342 | where everything lies in the gateway's, with and without a chip id |
| `RfFrames.DownlinkRoundTrip` | Gateway/Firmware/CC1310/radio_task.c:322-342 | the radio hop down, for frames with and without a chip id |
| `RfFrames.SpiRoundTrip` | Gateway/Firmware/CC1310/spi_slave_task.c:150-164 | a node frame built for SPI is routed as it was, in both directions |
| `RfFrames.SpiBurstIsRejected` | Gateway/Firmware/M4F/spi_master.c:126-135 | an SPI frame altered only within 16 consecutive bits is invalid |
| `RfFrames.SplitOfPack` | Gateway/Software/rpmsg-service/telemetry.go:101-113 | the gateway service splits a node frame into what it was made of |
| `RfFrames.SpiRouteIff` | Gateway/Firmware/CC1310/spi_slave_task.c:150-164 | which SPI frames are routed and how, by validity, kind and the length in byte 4 |
| `RfFrames.SplitIff` | Gateway/Software/rpmsg-service/telemetry.go:101-113 | which payloads the gateway service splits and how, by length |
| `RfFrames.GatewayAcceptsIff` | Gateway/Firmware/CC1310/radio_task.c:405-420 | a radio frame is accepted by the gateway exactly with one of its two addresses, one of the two tags, and a zero exclusive-or from byte 2 on |
| `RfFrames.NodeAcceptsIff` | Nodes/LightSwitchNode/Firmware/rfEchoTx.c:302-343 | a node accepts exactly with its own address, its own chip id in a v2 frame, and a zero exclusive-or |
| `RfFrames.AlteredByteIsRefused` | Gateway/Firmware/CC1310/radio_task.c:405-420 | an accepted frame with exactly one byte behind the tag altered is refused by gateway and nodes |
| `RfBuffers.NodeBuildInto` | Nodes/LightSwitchNode/Firmware/rfEchoTx.c:239-251 | in place: the node's frame |
| `RfBuffers.GatewayBuildInto` | Gateway/Firmware/CC1310/radio_task.c:322-342 | in place: the gateway's frame, with or without chip id |
| `RfBuffers.CalcChecksum` | Gateway/Firmware/CC1310/radio_task.c:214-221 | the checksum loop |
| `RfBuffers.Finalize` | Gateway/Firmware/CC1310/spi_slave_task.c:125-132 | in place: magic and register |
| `RfBuffers.FrameValid` | Gateway/Firmware/M4F/spi_master.c:126-135 | the validity test of an SPI frame |
| `RfBuffers.MakeNodeFrame` | Gateway/Firmware/M4F/spi_master.c:145-162 | in place: an SPI frame around a node frame |
| `Touch.PressMeansOneThing` | Nodes/LightSwitchNode/Firmware/gpiointerrupt.c:88-128 | each completed press lasts at least 100 ms and causes exactly one toggle on release (under 4 s) or one JOIN |
| `Touch.EveryTurnIsRight` | Nodes/LightSwitchNode/Firmware/gpiointerrupt.c:88-128 | over every sample stream each turn of the loop puts out what the debounced press so far asks for |
| `Touch.NothingWithoutPress` | Nodes/LightSwitchNode/Firmware/gpiointerrupt.c:113-123 | nothing happens outside presses |
| `Touch.LoopTracks` | Nodes/LightSwitchNode/Firmware/gpiointerrupt.c:91-112 | the counters of the loop, wraps included, in terms of the samples |
| `Touch.DebouncedBySame` | Nodes/LightSwitchNode/Firmware/gpiointerrupt.c:91-97 | the debounced state is the value of the last five equal samples, else the old one |
| `Touch.TouchLoop.Poll` | Nodes/LightSwitchNode/Firmware/gpiointerrupt.c:88-125 | in place: one turn of the loop |

## Left out

- HTTP, WebSocket, TLS, device discovery, restore from the mirror, the gen1 import, schema migrations, the
  database monitor, drivers, logging and reboot paths: I/O plumbing or one-off code.
- SQLite and MySQL: tables are maps, triggers are atomic appends, unique indexes are refusals; case-insensitive
  collation of config keys on the server is not modelled.
- IEEE floats: energy is kept in integers, rule thresholds in reals; the rounding of float64 to float32 is not
  modelled.
- The day chart, whose bars cover only 6:00 to 21:00 and are not meant to add up to its total; chart labels and
  the choice of how many periods to draw.
- Pump minutes are carried through the tables and chart totals; only the bars of the all-time chart show them.
- BackupStore.Gateway.DropNode: its deletes are one atomic step here, in the code one statement for each table.
- BackupRebuild.RebuildAgreesIffRawCovers: the rebuild and the service start are modelled on values, the worker, the
  server and the other writes in place.
- Switching backup off and on again: the triggers go, and what was written meanwhile is not seeded a second time.
- The archive_node operation of the server, which the gateway no longer sends.
- RuleWire.PushRulesFrom: a rule that encodeRule refuses is None here; what it refuses, and the fields inside a
  rule's image, are left out.
- RuleEngine.Engine.UpdateNode: the record's per-type fields are kept apart, in the code they share a union; a
  node that changes its type without a full report would read stale bytes there.
- RuleEngine.Engine.EvaluateRules: the clock is read once for an evaluation, in the code once for each time
  condition.
- RuleMeaning.MeaningIsKept: the truncation of message texts to the wire's text field is left out.
- PendingAcks.OneResultFourSends: two calls whose 16-bit numbers coincide while both wait are allowed; the older
  entry is then overwritten and gets no result, which the theorem permits.
- RfFrames.UplinkEndToEnd: radio packets shorter than any frame or longer than a message buffer are not
  modelled, nor are the retransmissions of the radio and SPI tasks.
- The payload length of the Go encoder is not bounded before its cast to 16 bits; only encoding within the
  limit of 480 bytes is modelled.
- Touch.TouchLoop.Poll: the red pairing light and its window are left out.
- The reboot breaker, a short table look-up.
