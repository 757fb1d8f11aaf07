# Verified model of the address-management and automation backend

This project models, in Dafny, the stateful and arithmetic core of the network-operations
backend and proves properties of it for all inputs, all runs and all interleavings.

| file | what it models |
|---|---|
| `Cidr.dfy` | IPv4 addresses as integers below 2^32, networks as aligned power-of-two blocks (section 3.1 of RFC 4632), nesting of blocks |
| `RangeCover.dfy` | the greedy split of an address interval into CIDR blocks: tiling, minimality, shape, the 62-block bound |
| `FreeSpace.dfy`, `FreeSpaceLaws.dfy` | the free-space sweep over an aggregate's prefixes and the utilisation count; when the sweep raises, exactly when its answer is the free space, exactly when sizes add up |
| `LongestMatch.dfy` | the "smallest containing network" lookups (section 5.1 of RFC 4632) |
| `IpamTables.dfy`, `IpamHandlers.dfy` | the two tables, a database session with unsaved changes, the validators and the create, update and delete handlers |
| `HandlerLaws.dfy` | what each request answers and stores, column by column |
| `CsvImport.dfy`, `CsvLaws.dfy`, `CsvOutcomes.dfy` | the two CSV imports with their row-by-row commits and rollbacks; accounting, importing twice, which rows fail and what the others store |
| `ExternalMerge.dfy`, `MergeLaws.dfy`, `MergeOutcomes.dfy` | the NetBox and phpIPAM merges, when they are refused and what they store |
| `Phpipam.dfy` | phpIPAM's split into folders and subnets |
| `IpamRuns.dfy` | disjointness, containment and conservation over every sequence of operations |
| `Scheduler.dfy` | the job scheduler on any number of processes and the job edits beside it, as interleaved steps under row locks |
| `SchedulerScan.dfy` | every claim is executed; what one scan and one edit do |
| `DhcpWriteBack.dfy` | folding lease counts into scopes and servers |
| `DhcpSync.dfy` | storing collected servers, scopes and leases, linked by name |
| `Backups.dfy` | 90-deep backup retention |
| `Text.dfy`, `ConfigFormat.dfy` | Python string operations and the configuration formatter |
| `PolicyXml.dfy`, `PolicyXmlLaws.dfy` | the two policy readers, the report exporter and the report import over parsed XML trees |
| `ProcessHistory.dfy` | process definitions, their version snapshots and rollback |

Code that the program writes with loops and assignments appears as methods with loops, in-place
arrays or classes whose fields the methods reassign; each is tied by its `ensures` to a function
or a relation, and the lemmas are about that function. Clocks, database failures and the results
of text parsing are parameters.

Where the code falls short of what its comments promise, the model follows the code:

* A prefix nested in an earlier one makes the sweep step back and offer used addresses
  (`NestedPrefixReportedFree`), and a linked prefix that reaches out of the aggregate is ignored
  (`WiderPrefixIgnored`). `AnswerIsFreeSpaceIff` gives the exact condition on the prefixes under
  which the answer is the free space.
* A prefix ending at 255.255.255.255 makes the free-space request fail
  (`RaisesIffTopAddressUsed`).
* Giving an aggregate a new network is not checked against the prefixes linked to it
  (`ReaddressCanStrand`), and the external merges skip the overlap check (`MergeCanOverlap`).
  `ContainedOverRuns` and `DisjointOverRuns` give the exact conditions over whole runs.
* The 90-backup limit is promised for a device, but the rows counted are those stored under the
  exact trimmed host, or those of the device id whatever their host. A device stored under two
  spellings of its host, or a device id used with a host and without, can exceed it
  (`HalfSpacedHost`, `HostlessBreaksLimit`), and a request without a host can delete a host's row
  (`HostlessTakesHostRow`). `LimitOverRunsIff` and `RetentionIff` give the exact conditions.
* A lease whose own scope was not collected is stored under the first scope of that name on any
  server (`LeaseOnForeignScope`, `EveryLeaseHomeIff`).
* A due job without a valid cron expression is claimed and executed again on every scan
  (`SameOccurrenceTwice`, `CommitMovesOnIffCron`). `create_job` never leaves one, because it gives
  such a job no `next_run_at`; `update_job` does, because it keeps the old one
  (`EditToBrokenRepeats`).
* Executing a claimed job makes it active again, even if it was terminated meanwhile
  (`ExecutionRevives`).
* `update_job` computes the next time before it waits for the row lock, so it can write back an
  occurrence that was claimed meanwhile (`StaleEditRepeats`, `SaveKeepsOrderIff`).
* An update after a rollback reuses a version number (`VersionsReused`, `OneSnapshotPerVersionIff`),
  and the abandoned version itself is never snapshotted (`RollbackRestores`).

## Model

| member | source | states |
|---|---|---|
| Cidr.Laminar | netops-backend/routes/ipam_router.py:94-98 | two CIDR blocks that share an address are nested, whatever their sizes |
| RangeCover.AddressRangeToCidrs | netops-backend/routes/ipam_router.py:84-100 | the nested loops end and build the greedy decomposition; every prefix length is 0 to 32 |
| RangeCover.AlignedMask | netops-backend/routes/ipam_router.py:97 | `strict=False` never clears a bit of a block the loop emits |
| RangeCover.RangeTiling | netops-backend/routes/ipam_router.py:89-100 | blocks are contiguous, the first starts at `start`, the last ends at `end` |
| RangeCover.RangeSaturates | netops-backend/routes/ipam_router.py:84-100 | every CIDR block inside the interval lies inside one returned block |
| RangeCover.SaturatedIsShortest | netops-backend/routes/ipam_router.py:84-100 | any exact cover by CIDR blocks needs at least one block per member of a saturating list |
| RangeCover.RangeIsShortestCover | netops-backend/routes/ipam_router.py:84-100 | the list covers exactly the interval, ascends, and no exact CIDR cover is shorter |
| RangeCover.Shape | netops-backend/routes/ipam_router.py:89-100 | sizes strictly rise, may repeat once at the peak, then strictly fall |
| RangeCover.LengthBound | netops-backend/routes/ipam_router.py:89-100 | any IPv4 range gives at most 62 blocks |
| RangeCover.LengthBoundAttained | netops-backend/routes/ipam_router.py:89-100 | 0.0.0.1 to 255.255.255.254 gives exactly 62 |
| RangeCover.RangeTotal | netops-backend/routes/ipam_router.py:89-100 | block sizes add up to the length of the interval |
| FreeSpace.AvailableRanges | netops-backend/routes/ipam_router.py:103-136 | collecting, sorting, sweeping with the early break and decomposing give `Available`, or the address error |
| FreeSpace.ArrangedIff | netops-backend/routes/ipam_router.py:114-122 | the sweep sees the readable prefixes inside the aggregate, each as often as listed, ascending by network address and then by number of addresses; there is one such arrangement |
| FreeSpace.Utilization | netops-backend/routes/ipam_router.py:139-163 | the count of rows and the sum over every readable prefix, inside the aggregate or not |
| FreeSpaceLaws.RaisesIffTopAddressUsed | netops-backend/routes/ipam_router.py:128 | the request raises iff a listed prefix inside the aggregate ends at 255.255.255.255 |
| FreeSpaceLaws.AnswerIsFreeSpaceIff | netops-backend/routes/ipam_router.py:103-136 | the answer is exactly the aggregate's addresses in no linked prefix at all iff, in that arrangement, no prefix hides a gap, and either no prefix reaches out of the aggregate or those inside fill it |
| FreeSpaceLaws.WiderPrefixIgnored | netops-backend/routes/ipam_router.py:114-118 | with a single linked prefix wider than the aggregate, every address of the aggregate is offered although the prefix covers it |
| FreeSpaceLaws.AnswerIsShortestCover | netops-backend/routes/ipam_router.py:103-136 | exactly under that condition the list is a shortest CIDR cover of those addresses, and it then ascends |
| FreeSpaceLaws.FittingPrefixesExact | netops-backend/routes/ipam_router.py:103-136 | prefixes in the aggregate with non-decreasing ends in that arrangement, below the top address: success, and the shortest cover of the addresses in no listed prefix |
| FreeSpaceLaws.CommonStartsExact | netops-backend/routes/ipam_router.py:103-136 | the same, in any listing order, for prefixes that nest only at a common network address, such as 10.0.0.0/25 and 10.0.0.0/26 |
| FreeSpaceLaws.DisjointNeverHides | netops-backend/routes/ipam_router.py:122-130 | pairwise disjoint prefixes meet the condition |
| FreeSpaceLaws.NestedPrefixReportedFree | netops-backend/routes/ipam_router.py:128 | a concrete nested prefix makes the sweep offer a used address |
| FreeSpaceLaws.ConservationIff | netops-backend/routes/ipam_router.py:103-163 | free plus used never falls short of the aggregate's size, and equals it iff all readable prefixes lie inside it and are pairwise disjoint |
| LongestMatch.ResolveAggregateId | netops-backend/routes/ipam_router.py:493-513 | None iff there is no prefix or no row contains it; otherwise the id of a row whose network contains the prefix and lies inside every other that does, the first such row |
| LongestMatch.LongestMatchCorrect | netops-backend/services/phpipam_import.py:14-34 | None iff no row contains the prefix; otherwise the chosen network lies inside every other containing one |
| LongestMatch.OrderIrrelevant | netops-backend/routes/ipam_router.py:493-513 | permuting the rows cannot change the chosen network |
| LongestMatch.SuggestPrefix | netops-backend/routes/ipam_router.py:751-779 | collecting candidates and taking the longest prefix gives that same row among the first 500 |
| LongestMatch.FirstMaxIsBest | netops-backend/routes/ipam_router.py:774-778 | first longest prefix and first smallest network are the same row |
| IpamTables.Session.Commit | netops-backend/database/session.py:11 | stores changed and new rows together, or nothing when the database refuses or the unique constraint breaks |
| IpamTables.Session.Rollback | netops-backend/services/ipam_csv_import.py:181-184 | drops every unsaved change and new row |
| IpamHandlers.CreateAggregate | netops-backend/routes/ipam_router.py:196-219 | new row iff readable and overlapping no existing aggregate; any error leaves the tables alone |
| IpamHandlers.UpdateAggregate | netops-backend/routes/ipam_router.py:245-269 | overlap check that skips the row itself, then the given fields; any error leaves the tables alone |
| IpamHandlers.DeleteAggregate | netops-backend/routes/ipam_router.py:273-279 | removes the row and unlinks its prefixes (ON DELETE SET NULL) |
| IpamHandlers.CreatePrefix | netops-backend/routes/ipam_router.py:339-355 | new row iff readable and inside the aggregate it names |
| IpamHandlers.UpdatePrefix | netops-backend/routes/ipam_router.py:370-396 | a failed aggregate check leaves the stored row alone although its new text was already assigned |
| IpamHandlers.DeletePrefix | netops-backend/routes/ipam_router.py:400-406 | removes the row with the id |
| HandlerLaws.CreateAggregateLaw | netops-backend/routes/ipam_router.py:196-219 | refused when unreadable or when it shares an address with an aggregate; else appended as given under a new id, nothing else changes |
| HandlerLaws.UpdateAggregateLaw | netops-backend/routes/ipam_router.py:245-269 | exactly which error, and each column of an accepted update: the given value or the old one; all other rows stay |
| HandlerLaws.DeleteAggregateLaw | netops-backend/routes/ipam_router.py:273-279 | exactly that row goes, and exactly its prefixes lose their link |
| HandlerLaws.CreatePrefixLaw | netops-backend/routes/ipam_router.py:339-355 | exactly which error; else appended as given |
| HandlerLaws.UpdatePrefixLaw | netops-backend/routes/ipam_router.py:370-396 | the aggregate check runs iff text or link is sent, on the values the row would have; each column is the given value or the old one |
| HandlerLaws.CheckLaw | netops-backend/services/ipam_validators.py:39-53 | the containment check accepts iff there is no link, or the aggregate with that id holds the prefix; otherwise which error |
| HandlerLaws.DeletePrefixLaw | netops-backend/routes/ipam_router.py:400-406 | exactly that row goes |
| CsvImport.ImportAggregatesCsv | netops-backend/services/ipam_csv_import.py:131-191 | counters, errors and stored tables after any file and any set of refused commits |
| CsvImport.ImportAggregateRow | netops-backend/services/ipam_csv_import.py:152-189 | a failed row leaves the stored tables as they were |
| CsvImport.ImportPrefixesCsv | netops-backend/services/ipam_csv_import.py:194-278 | counters, errors and stored tables after any file and any set of refused commits |
| CsvImport.ImportPrefixRow | netops-backend/services/ipam_csv_import.py:213-276 | a failed row leaves the stored tables as they were even when it fails between two field assignments |
| CsvLaws.AggregateAccounting | netops-backend/services/ipam_csv_import.py:134-191 | imported + updated + failed is the number of rows, one error per failed row |
| CsvLaws.PrefixAccounting | netops-backend/services/ipam_csv_import.py:196-278 | the same, aggregates untouched, and the table grows by exactly `imported` |
| CsvLaws.AggregateReimport | netops-backend/services/ipam_csv_import.py:131-191 | from any tables and for any set of rows whose commit the database refuses both times: a second import imports 0, updates what was imported or updated, fails exactly the same rows and changes no table; every error is repeated, except that a refused new row may then be reported as overlapping |
| CsvLaws.RefusedRowOverlapsLater | netops-backend/services/ipam_csv_import.py:171-184 | that exception happens: a refused row followed by a row inside its network |
| CsvLaws.PrefixReimport | netops-backend/services/ipam_csv_import.py:194-278 | the same for the prefix file, where every error is repeated exactly |
| CsvLaws.PrefixNetsStayUnique | netops-backend/services/ipam_csv_import.py:236-265 | networks of prefix rows stay unique if they were |
| CsvOutcomes.PrefixFileOutcome | netops-backend/services/ipam_csv_import.py:194-278 | a row of the file has an error iff its network is unreadable or named earlier, a cell is unreadable, its aggregate does not hold it, or the database refuses it; otherwise the stored row of its network has every given column, keeps the others, and is linked to what the aggregate cells name |
| CsvOutcomes.PrefixesElsewhereKept | netops-backend/services/ipam_csv_import.py:236-265 | a stored row changes only for an accepted row of the file that names its network |
| CsvOutcomes.PrefixReason | netops-backend/services/ipam_csv_import.py:199-276 | the error of a failed row is the first thing wrong with it |
| CsvOutcomes.AggregateFileOutcome | netops-backend/services/ipam_csv_import.py:131-191 | the same for the aggregate file, where a network that is new must overlap neither the table nor an accepted earlier row |
| CsvOutcomes.AggregateReason | netops-backend/services/ipam_csv_import.py:138-189 | the error of a failed aggregate row is the first thing wrong with it |
| ExternalMerge.MergeExternal | netops-backend/routes/ipam_router.py:566-667 | the two loops, each with its commit; new rows stay invisible to the lookups; a refused first commit stores nothing, a refused second one keeps the aggregates |
| Phpipam.ApplyPhpipam | netops-backend/services/phpipam_import.py:154-236 | every readable folder has an aggregate and every other readable subnet a prefix, with the values the rows give, and nothing else is added |
| MergeOutcomes.MergedAggregates | netops-backend/routes/ipam_router.py:566-592 | old aggregate rows keep id and text and take the last value given for each column; behind them come the items of new texts, in order, with their values; the two counts |
| MergeOutcomes.MergedPrefixes | netops-backend/routes/ipam_router.py:593-659 | the same for prefix rows, where the first row of a text takes the values and the others stay |
| MergeOutcomes.MergedLinks | netops-backend/services/phpipam_import.py:206-231 | a new prefix row is linked to an innermost aggregate that holds it or to none; an old row keeps its link unless it is named and some aggregate holds it |
| MergeLaws.MergeLinksBySmallest | netops-backend/services/phpipam_import.py:197-232 | after a merge the row found under an imported text that some aggregate contains is linked to one whose network lies inside every other that contains it |
| MergeLaws.RefusedIffRepeated | netops-backend/services/phpipam_import.py:174-195 | because unsaved rows are invisible to the lookup, a merge is refused as a whole iff its batch names a text not yet stored as an aggregate twice |
| IpamRuns.DisjointOverRuns | netops-backend/routes/ipam_router.py:195-279 | in every run of handlers, CSV imports and external merges from disjoint aggregates, they are disjoint at every point iff every merge that stores its aggregates adds networks that overlap no aggregate and not one another |
| IpamRuns.MergeKeepsDisjointIff | netops-backend/services/phpipam_import.py:174-195 | one stored merge keeps disjoint aggregates disjoint iff its new networks are apart from the rows and from one another |
| IpamRuns.RowKeepsDisjoint | netops-backend/services/ipam_csv_import.py:152-180 | one CSV row keeps them disjoint |
| IpamRuns.UpdateKeepsDisjoint | netops-backend/services/ipam_validators.py:18-36 | the self-excluding overlap check is enough on update |
| IpamRuns.MergeCanOverlap | netops-backend/routes/ipam_router.py:567-590 | an external merge can store an aggregate inside another |
| IpamRuns.ContainedOverRuns | netops-backend/routes/ipam_router.py:338-396 | in every run a linked prefix lies inside its aggregate at every point iff every accepted aggregate update that carries a network carries one that holds the prefixes linked then |
| IpamRuns.MergeKeepsContained | netops-backend/services/phpipam_import.py:206-231 | both merge loops keep it, including rows whose old link is kept |
| IpamRuns.PrefixRowKeepsContained | netops-backend/services/ipam_csv_import.py:220-265 | every row of the prefix import keeps it |
| IpamRuns.ReaddressKeepsContainedIff | netops-backend/routes/ipam_router.py:249-253 | an accepted update that carries a network keeps it iff every linked prefix lies inside that network |
| IpamRuns.ResentNetworkFits | netops-backend/routes/ipam_router.py:245-269 | sending the present network again, as the edit forms do, always meets that condition |
| IpamRuns.ReaddressCanStrand | netops-backend/routes/ipam_router.py:249-253 | moving an aggregate away from its prefix is accepted |
| IpamRuns.ConservationOverRuns | netops-backend/routes/ipam_router.py:103-163 | in every state such a run reaches, free plus used equals the aggregate's size iff its prefixes are disjoint |
| IpamRuns.FreeSpaceOverRuns | netops-backend/routes/ipam_router.py:103-136 | in every such state the answer is the addresses in no linked prefix iff no prefix hides a gap |
| Scheduler.OccurrencesIncrease | netops-backend/main.py:188-214 | over every interleaving of workers and job edits, the `next_run_at` values claimed for a job strictly increase, provided each commit that claims it finds a valid cron schedule and no edit writes back a time already reached by a claim |
| Scheduler.UneditedOccurrencesIncrease | netops-backend/main.py:188-214 | for a job with a valid cron schedule that nobody edits this holds over every interleaving |
| Scheduler.SaveKeepsOrderIff | netops-backend/app/services/job.py:156-179 | in any reachable state with a worker, a write-back after which the job's schedule is valid cron keeps the order of its claims in every continuation iff every earlier claim of the job lies before the written time (or none is written) |
| Scheduler.StaleOnlyAfterClaim | netops-backend/app/services/job.py:171-177 | from the moment `update_job` computes a time, only a worker's commit that claims the job can make it stale |
| Scheduler.StillAheadIsFresh | netops-backend/app/services/job.py:171-177 | a time still ahead of the clock when it is written is behind no claim |
| Scheduler.StaleEditRepeats | netops-backend/app/services/job.py:156-179 | a run in which saving an unchanged schedule writes back an occurrence that is then claimed and executed a second time |
| Scheduler.ExecutedOnce | netops-backend/main.py:209-214 | no claim is executed twice, and in such a run no occurrence of the job is |
| SchedulerScan.CommitQueuesItsClaims | netops-backend/main.py:199-210 | a commit claims every job its worker holds, in order, at the time in the row, and queues exactly these claims |
| SchedulerScan.ClaimsAreExecuted | netops-backend/main.py:207-214 | in every run each claim of a commit is executed or still queued at its worker unless the worker dies; when it finishes, all are executed |
| SchedulerScan.ScanRunsEveryDueJob | netops-backend/main.py:185-214 | an undisturbed scan claims and executes every due job once, moves exactly those with a readable cron expression to their next time, and leaves everything else as it was |
| SchedulerScan.LockTakesIffStillDue | netops-backend/main.py:189-199 | a locked row is taken iff it is still scheduled, not terminated and due at the time of the scan |
| SchedulerScan.ExecutionRevives | netops-backend/app/services/job.py:193-215 | executing a claim makes the job active again even if it was terminated after it was claimed |
| SchedulerScan.UndisturbedEdit | netops-backend/app/services/job.py:156-179 | an edit replaces the given fields, a given readable cron schedule sets the next time, and nothing else changes |
| SchedulerScan.EmptyEditWritesNothing | netops-backend/app/services/job.py:168-177 | an edit that gives and computes only what its loaded row had leaves later changes alone |
| Scheduler.HeldByOne | netops-backend/main.py:188-199 | no two workers hold the same job |
| Scheduler.NeverEarly | netops-backend/main.py:188-199 | no worker claims a job before its `next_run_at` |
| Scheduler.CommitMovesOnIffCron | netops-backend/main.py:201-208 | a claim moves the job past the claimed occurrence iff its schedule is a valid cron schedule |
| Scheduler.SameOccurrenceTwice | netops-backend/main.py:202-206 | a due job without a valid cron schedule is claimed and executed twice at one occurrence by one worker alone |
| Scheduler.EditToBrokenRepeats | netops-backend/app/services/job.py:171-174 | such a job arises by editing its cron expression to an unreadable one, which keeps the old `next_run_at` |
| Scheduler.AdvanceDue | netops-backend/main.py:200-206 | the loop over the due rows records a time for each row that has one and every id in order |
| Scheduler.LoopIsAdvances | netops-backend/main.py:200-206 | that loop is the worker's sequence of steps in the interleaved model |
| DhcpWriteBack.GatherLeases | netops-backend/services/dhcp_wmi_sync.py:1019-1025 | rows and errors of the finished fetches |
| DhcpWriteBack.WriteBack | netops-backend/services/dhcp_wmi_sync.py:1040-1057 | a scope with leases gets its count, others keep theirs, every server gets the sum over the scopes as written |
| DhcpWriteBack.Finish | netops-backend/services/dhcp_wmi_sync.py:1036-1057 | errors and no lease at all: failure and nothing written |
| DhcpWriteBack.OrderIrrelevant | netops-backend/services/dhcp_wmi_sync.py:1019-1057 | the completion order of the fetches changes neither the records nor failure |
| DhcpWriteBack.AddsUpIffFits | netops-backend/services/dhcp_wmi_sync.py:1047-1057 | used + available = total iff used does not exceed total, for written scopes and all servers |
| DhcpWriteBack.DoubleCounting | netops-backend/services/dhcp_wmi_sync.py:1040-1051 | lease counts summed over scopes equal, lease by lease, the number of scope records with its key |
| DhcpWriteBack.ServerCountsEachLeaseOnceIff | netops-backend/services/dhcp_wmi_sync.py:1043-1057 | a server's figure counts each lease of a known scope once iff no lease's key belongs to two scope records |
| DhcpWriteBack.DistinctKeysShareNothing | netops-backend/services/dhcp_wmi_sync.py:1044-1046 | distinct (server, scope) keys never count a lease twice |
| DhcpWriteBack.WriteBackLaw | netops-backend/services/dhcp_wmi_sync.py:1043-1057 | totals and keys stay; a scope with leases holds their number and what is left of its total, not below 0; others keep their figures; every server gets the sum |
| DhcpWriteBack.CountLaw | netops-backend/services/dhcp_wmi_sync.py:1040-1042 | a scope's count is the number of lease rows with its key |
| DhcpWriteBack.GatherLaw | netops-backend/services/dhcp_wmi_sync.py:1019-1025 | the leases are the rows of the successful fetches, fetch after fetch, and errors are counted |
| DhcpSync.DhcpTables.Rewrite | netops-backend/services/dhcp_wmi_sync.py:1161-1232 | the tables after storing all collected targets into emptied tables, with the two name dictionaries carried from target to target |
| DhcpSync.SyncedGood | netops-backend/services/dhcp_wmi_sync.py:1179-1215 | the scope rows are exactly the listed scopes of known servers in order, every scope row has its server row and every lease row a scope row |
| DhcpSync.LandsIff | netops-backend/services/dhcp_wmi_sync.py:1217-1223 | a lease lands on its own scope iff that is listed and, if nameless, is the first nameless one; otherwise on the scope of its name listed first, and it is dropped iff there is none; of several rows of that scope it is the last |
| DhcpSync.ListedIff | netops-backend/services/dhcp_wmi_sync.py:1179-1215 | a scope is listed iff its server has a name given by its own or an earlier target |
| DhcpSync.ScopeTakesLatestServer | netops-backend/services/dhcp_wmi_sync.py:1192-1214 | a scope is stored under the latest server row of that name |
| DhcpSync.EveryLeaseHomeIff | netops-backend/services/dhcp_wmi_sync.py:1171-1232 | over any targets, no lease is dropped and each is stored under its own server's scope iff each has such a home when its target is stored |
| DhcpSync.LeaseOnForeignScope | netops-backend/services/dhcp_wmi_sync.py:1220-1222 | with two servers and one scope, a lease of the second server is stored under the first server's scope of the same name |
| Backups.BackupTable.CreateBackup | netops-backend/routes/config_module.py:307-341 | no device key: refused; 90 or more counted rows: the oldest makes room; then the row is added |
| Backups.StoredAsGiven | netops-backend/routes/config_module.py:312-337 | a request with a non-blank host or a device id is stored with its columns as given; any other changes nothing |
| Backups.CreateStep | netops-backend/routes/config_module.py:316-337 | for every request, with a host or without, what any host or device filter loses and gains: at most the oldest counted row, and its own first row when it is the counted filter |
| Backups.RetentionIsLastNinety | netops-backend/routes/config_module.py:306-339 | in every run with increasing times, trimmed hosts and no device id used both with a host and without, the rows of each host, and of each device id used without one, are exactly the last 90 created for it |
| Backups.RetentionIff | netops-backend/routes/config_module.py:306-339 | in every run with increasing times and for every host, device id or device key: its rows are the last 90 created for it at every point iff every request that deletes one of its rows stores one and finds 90, every such request deletes, and it deletes the first |
| Backups.LimitHoldsIff | netops-backend/routes/config_module.py:311-337 | a device (trimmed host, else device id) with 90 backups keeps the limit after one more iff the deleted row is one of its own; for a request with a host, iff all 90 are stored under the trimmed host |
| Backups.LimitOverRunsIff | netops-backend/routes/config_module.py:311-337 | over every run a device has at most 90 backups at every point iff every request for it at a full device deletes one of its rows |
| Backups.HalfSpacedHost | netops-backend/routes/config_module.py:316-317 | 45 rows under a host and 45 under the same host with a blank behind it: the next backup makes 91 of one device |
| Backups.HostlessBreaksLimit | netops-backend/routes/config_module.py:318-325 | 90 hostless rows of a device id and an older one with a host: the next hostless backup makes 91 |
| Backups.SpellingLimitIff | netops-backend/routes/config_module.py:316-337 | for the rows stored under the very text of the request's host, 90 stay 90 iff the deleted row is one of them; with a usable host, iff it is given trimmed |
| Backups.OthersUntouchedIff | netops-backend/routes/config_module.py:316-325 | other hosts keep their rows iff the deleted row, if any, has no host or the request's own; with a usable host, iff it is trimmed or the trimmed host has room |
| Backups.HostlessTakesHostRow | netops-backend/routes/config_module.py:318-325 | a request without a host deletes the oldest row of a full device although it belongs to a host |
| Text.StripTrims | netops-backend/services/config_validation.py:82 | the result is trimmed, and the text is the result between two runs of white space |
| Text.SplitJoin | netops-backend/services/config_validation.py:98 | splitting joined lines gives the lines back |
| Text.JoinSplit | netops-backend/services/config_validation.py:79 | joining the lines of a text gives the text back |
| ConfigFormat.FormatConfig | netops-backend/services/config_validation.py:75-98 | the loop writes each line at the level its predecessors open and close; the level never drops below 0 |
| ConfigFormat.KeepsLines | netops-backend/services/config_validation.py:75-98 | same stripped lines in the same order, led by exactly two blanks per level |
| ConfigFormat.IndentLaw | netops-backend/services/config_validation.py:75-98 | a line's level is the largest balance of opening over closing lines of any stretch before it, less one on a closing line; it is written as two blanks a level and its stripped text, blank and "!" lines at the margin |
| ConfigFormat.Idempotent | netops-backend/services/config_validation.py:75-98 | formatting a formatted text changes nothing, for every text |
| PolicyXml.ParseReportPolicies | netops-backend/routes/config_module.py:904-931 | the policy sequence `Policies` of every tree |
| PolicyXml.ParsePolicies | netops-backend/routes/config_module.py:643-680 | the same policy sequence for every tree, and a group on every policy when the rule set is named |
| PolicyXmlLaws.AttributesRead | netops-backend/routes/config_module.py:911-919 | a policy with a content attribute is read from the first non-empty spelling of each attribute, with the defaults |
| PolicyXmlLaws.RuleSetRead | netops-backend/routes/config_module.py:643-680 | a rule set of any policies and rules, in plain tags or those of any namespace, is read rule by rule: text, name or its first 50 characters, and "regex" iff the pattern type mentions it |
| PolicyXml.ExportReport | netops-backend/routes/config_module.py:885-900 | the tree of a report and its policies |
| PolicyXml.ExportRoundTrip | netops-backend/routes/config_module.py:886-931 | what reading an exported tree gives for every row, including dropped and defaulted ones |
| PolicyXml.ExportRestoresIff | netops-backend/routes/config_module.py:886-931 | every policy is restored in order iff every row has a name, a type and content of 1 to 500 characters |
| PolicyXmlLaws.ReportRoundTrip | netops-backend/routes/config_module.py:886-892 | importing an exported report gives its name, group, device type, state and comments back, with default name, blanks as none and comments stripped |
| PolicyXmlLaws.ReportRestoredIff | netops-backend/routes/config_module.py:945-954 | the report row is restored iff it has a name, no blank fields and trimmed comments |
| ProcessHistory.ProcessStore.Update | netops-backend/app/api/process_management.py:156-237 | snapshot of the current version, then version + 1 with the given columns; unknown or deleted processes are refused |
| ProcessHistory.ProcessStore.Rollback | netops-backend/app/api/process_management.py:357-397 | overwrites the row from the snapshot, or refuses; nothing is snapshotted |
| ProcessHistory.UpdateLaw | netops-backend/app/api/process_management.py:156-237 | the snapshot holds the old columns under the old version; version + 1; each column is the given value or the old one; nothing else changes |
| ProcessHistory.RollbackLaw | netops-backend/app/api/process_management.py:357-397 | columns and number come from a snapshot of that process and version; without one nothing changes |
| ProcessHistory.HistoryIsFaithful | netops-backend/app/api/process_management.py:156-237 | in every run in which no rollback of a process succeeds, its snapshots are exactly versions 1 to n-1, once each, with the contents that were current |
| ProcessHistory.RollbackRestores | netops-backend/app/api/process_management.py:357-397 | after such a run, rollback to k succeeds iff 1 <= k < n, restores version k exactly, touches no other process, and version n is in no snapshot |
| ProcessHistory.UpdateKeepsUniqueIff | netops-backend/app/api/process_management.py:176-204 | an update of a live process keeps its snapshot versions unique iff none has the row's version yet |
| ProcessHistory.OneSnapshotPerVersionIff | netops-backend/app/api/process_management.py:156-397 | over every run of creates, updates, deletes and rollbacks, a process has at most one snapshot per version iff no successful update of it follows a successful rollback of it |
| ProcessHistory.VersionsReused | netops-backend/app/api/process_management.py:198-237 | a run that stores two different snapshots of one version |

## Left out

- OccurrencesIncrease: a cron schedule is any function to a strictly later time, a job edit is a load, a computation and a write, and creating jobs during a run is not modelled.
- RetentionIsLastNinety: creation times are strictly increasing; ties between equal database timestamps are not modelled, here and in RetentionIff.
- HistoryIsFaithful: process ids are fresh, as generated UUIDs are.
- IPv6 and mixed address families: the sweep and the utilisation count return early for them; the model keeps one 32-bit address space.
- Text parsing inside `ipaddress`, `csv`, `datetime` and `xml.etree`: the model starts from parsed networks, classified cells and element trees; two spellings of one network are told apart, their characters are not.
- Cron parsing and time zones: a schedule is a function to a later time, a broken one, or none.
- Percentages and their rounding: utilisation is stated on whole numbers of addresses.
- Requests racing on the IPAM tables: the handlers take no locks and run one after the other here.
- HTTP routing, request schemas, listing and filtering endpoints, authentication, and the network calls to NetBox, phpIPAM, WMI and WinRM.
- Executing a job: only its effect on the job row is modelled (the status becomes active again), not the generated script.
- The field conversions of the NetBox and phpIPAM rows: the merge starts from converted items; after conversion both imports run the same two loops.
- Database errors in the middle of `run_dhcp_wmi_sync`: its rewrite is modelled without them, and of its columns only the names that link servers, scopes and leases.
- The `group` of a policy read from a rule set beyond its being set, and the order in which the database returns policies by id: the exporter starts from the list it was given.
- Publishing and disabling a process: they change only its status.
- Column types of the process tables: a rollback writes the snapshot's columns back as they were read. The schema makes them JSONB, and whether the database driver accepts a decoded JSON value there without `json.dumps` is assumed, not modelled.
- Non-ASCII case folding in `lower()`: no other letter folds to a letter of "regex".
