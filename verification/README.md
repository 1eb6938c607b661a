# Snapshot tracker: a verified model

Solana nodes keep snapshots of the accounts database as files in a ledger directory. A full snapshot
stands alone; an incremental one builds on the snapshot at its base slot. This project models four parts
of the cluster manager and proves what they promise.

- **Ledger** (`Lexicographic.dfy`, `Snapshot.dfy`, `FileName.dfy`, `LedgerSpec.dfy`, `LedgerProperties.dfy`, `Ledger.dfy`):
  file names are parsed, files are ranked and sorted, and every file is extended by repeated binary search
  to a chain that ends in a full file. The loops are proved against a reference that scans the directory
  exhaustively for the highest ranked file at each base slot; the properties are proved of that reference.
- **Fetching** (`Fetch.dfy`, `FetchCommand.dfy`, `FetchOutcome.dfy`, `FetchAdoption.dfy`, `FetchConvergence.dfy`,
  `FetchFullOnly.dfy`, `FetchExamples.dfy`): the decision whether to fetch, the two download passes of the
  fetch command and how they end, what the ledger lists after them, and what the next run does.
- **Tracker** (`Index.dfy`, `Collector.dfy`, `Tracker.dfy`): an in-memory table with three ordered indexes, the
  collector that streams probe results into it, and the answers that the fetch command gets from it.
- **Merged listener** (`MergedListener.dfy`): goroutines that merge several listeners, as a protocol whose
  runs are all interleavings of atomic steps.

The main results:

- A listing is the same for every directory order and for every way an unstable sort may place files that
  tie (`ListingIgnoresDirectoryOrder`, joined to the directory entries by `ListSnapshotsIgnoresOrder`). It misses no restorable file exactly when the directory has no
  *dead fork* (`GreedyIsCompleteIff`); the search is greedy, and `DeadForkExample` shows a loss.
- Whatever fails, a fetch ends with an error exactly when something it needs is missing, and its downloads are
  counted file by file (`FatalIff`, `DoneIff`, `DownloadsCount`); without a wanted full file it fetches no
  incrementals (`LostFullFileIsFatal`).
- After a fetch, re-listing the ledger shows the remote chain, file by file, exactly when no local file
  outranks that chain at a slot it builds on, and lists the fetched snapshot at all exactly when the search
  follows the chain to its end or leaves it for a local file that is complete itself (`ReproducedIff`,
  `AdoptedIsListedIff`, applied to the runs by `IncrementalFetchConverges`, `FullFetchConverges` and
  `IncrementalOnlyCatchesUp`). The next run is "up to date" exactly when the best snapshot is not newer than
  the new head by the minimum age (`UpToDateIff`), which follows if the fetched snapshot is listed and recent
  enough (`AdoptedRunSettles`). For the usual chain of one full file and at most one incremental no condition
  is left but its age, and for longer ones none if no local file outranks a link (`ReachesUnlessOutranked`).
- What the fetch command assumes of the tracker's answers is proved from the probes: if these report ledger
  listings, every answer holds complete chains, on the base slot that was asked for (`TrackerTellsOfChains`,
  `FetchFromTracker`).
- That a second run downloads nothing is *not* true in general. `DownloadsNothingIff` says exactly when, for
  every combination of flags, and `FetchTwice` proves it of two runs of the command. `SecondRunUpToDateIff`,
  `FullOnlyAdvancesIff` and `FullOnlySettlesIff` can be read before the first run: they speak of the local
  files and its downloads. Three fixed points repeat the same download
  for ever: a stale local incremental (`FetchMayRepeatForever`), a newer full snapshot that is not asked for
  (`IncrementalOnlyMayRepeatForever`), and a full file below the local head (`FullOnlyMayRepeatForever`).
- The index shows each target's latest successful probe exactly when no probe of a shorter target name has
  cleared it (`CollectorRefinesLatestIff`). Readers never see two probes of one target mixed, even between
  the collector's two transactions (`ReadersSeeOneProbe`).
- No connection is delivered twice or out of order and at most one per listener is lost
  (`ConnectionsAreConserved`). Close returns once every acceptor has left, with the error that a listener's
  Accept returned, the first to be recorded of those seen before the context was done
  (`CloseReturnsFirstError`). Once Close
  has been called it can be brought to return in at most five steps per listener, without any caller of
  Accept, if and only if no acceptor is stranded on a listener whose own Close has failed
  (`CloseCanFinishIff`, `CloseNeverDeadlocks`), and every schedule of such steps ends after at most six per
  listener (`EveryShutdownEnds`).

Where the code and its comments disagree, the model follows the code:

- `Compare` is commented as lexicographic by (slot, base slot, hash); full files (base slot 0) in fact rank
  above every incremental of their slot (`CompareIsLexicographic`).
- `GetBestSnapshots` is commented to return at most `max` entries; it returns up to `max + 1`.
- `GetSnapshotsByTarget` and `DeleteSnapshotsByTarget` are commented as being about one target; they look up
  a prefix, so they also cover every longer target name that starts with the given one.
- The second request of a full fetch is commented as finding the latest incremental snapshot; its answer starts
  with the newest snapshot of the first target in alphabetical order, which may be older than the best
  snapshot that was just fetched (`SecondAnswerMayBeOlder`).
- The minimum age is commented as a plain difference of slots; it is computed on wrapping signed integers
  (`AgeTestIsExactIff` gives the exact cases in which the two agree).

Parameters of the model: base58 is an encoder and a decoder assumed to be inverse, and to print non-empty
alphanumeric text; a directory is a list of entries with the answer of `fs.Stat`; the tracker's answers are
values, carried over HTTP unchanged, or a failed request, and a download brings in its file or fails. Package fmt's `%d` and `%s`,
`filepath.Ext`, `sort.Slice`, `sort.Search` and the ordered index of go-memdb are modelled from their
documented behaviour, with `/` as the path separator. Of `net.Listener` it is assumed that a Close without
error has closed the listener for good, and that Accept on a closed listener can fail; a Close with an error
may leave it open. Unsigned 64-bit integers are ranges of `int` with wrap-around written out.

## Model

| member | source | states |
|---|---|---|
| Snapshot.CompareIsTotalPreorder | types/snapshot.go:60-76 | Compare answers consistently in both directions and ties exactly the files that agree on slot, base slot and hash |
| Snapshot.CompareTransitive | types/snapshot.go:60-76 | Compare is transitive, so it can order a sort |
| Snapshot.CompareIsLexicographic | types/snapshot.go:54-76 | Compare is lexicographic with a full file's base slot read as infinite, so full files come first within a slot; among files of one slot and base slot, the greater byte decides where the hashes first differ |
| FileName.ParseSnapshotFileName | internal/ledger/snapshot.go:105-159 | the parsing loop computes Parsed, and what it accepts never has a base at or above its slot |
| FileName.ParserAcceptsIff | internal/ledger/snapshot.go:114-158 | any stem is accepted with given fields if and only if it holds no slash, backslash, blank, tab or newline and has one of the two name forms, with fmt's other white space allowed where fmt skips it, 64-bit numbers, base below slot and a decodable hash |
| FileName.AcceptedNames | internal/ledger/snapshot.go:105-159 | an accepted name is a stem followed by the recorded extension of at most two parts; incrementals end above their base; the file keeps the name and has no URL, size or time yet |
| FileName.SplitInverts | internal/ledger/snapshot.go:106-113 | splitting off two extensions undoes appending an extension of at most two parts |
| FileName.PrintThenParse | internal/ledger/snapshot.go:105-159 | parsing the printed name of any file gives back its slot, base slot, hash and extension |
| FileName.ParsePrintParse | internal/ledger/snapshot.go:105-159 | reprinting an accepted name and parsing again changes only the name, leading zeros and base-0 incrementals included |
| Ledger.SortFiles | internal/ledger/snapshot.go:49-51 | the slice is sorted best to worst in place and is a permutation of what it was |
| Ledger.ListSnapshotFiles | internal/ledger/snapshot.go:30-53 | the result is a sorted permutation of the regular, parsable, examinable entries; a directory error is passed on |
| Ledger.EntryContributes | internal/ledger/snapshot.go:34-48 | an entry contributes exactly one file, with the fields of its name and the size and time of its examination, if it is regular, has a snapshot name and can be examined, and nothing otherwise |
| Ledger.FilesOfConcat | internal/ledger/snapshot.go:34-48 | entries contribute one after the other |
| Ledger.SearchAtOrBelow | internal/ledger/snapshot.go:85-87 | the binary search returns the least index whose slot is at or below the base slot |
| Ledger.FirstHitIsBest | internal/ledger/snapshot.go:84-90 | in a sorted ledger that index holds the file an exhaustive scan ranks highest at the base slot, or the slot has no file |
| Ledger.BuildSnapshotInfo | internal/ledger/snapshot.go:75-102 | the loop ends, returns a snapshot exactly when the reference walk reaches a full file, with that chain, root slot and total size modulo 2^64 |
| Ledger.SnapshotsOf | internal/ledger/snapshot.go:63-70 | the loop over sorted files computes the reference listing |
| Ledger.ListSnapshots | internal/ledger/snapshot.go:57-71 | the result is the reference listing of some sorted permutation of the directory's snapshot files |
| Ledger.ListSnapshotsIgnoresOrder | internal/ledger/snapshot.go:30-71 | any two listings of the same directory entries, read in any order, agree up to names, extensions, sizes and times |
| LedgerSpec.BestAt | internal/ledger/snapshot.go:84-90 | the reference scan finds a file that dominates every file of the slot, or there is none |
| LedgerSpec.GreedyChainSound | internal/ledger/snapshot.go:75-102 | a chain starts at its target, is complete, and takes the highest ranked file at every base slot |
| LedgerSpec.ChainShape | internal/ledger/snapshot.go:75-102 | along a complete chain base slot meets slot, slots fall strictly, and exactly the last file is full |
| LedgerProperties.SuffixOfChainIsChain | internal/ledger/snapshot.go:75-102 | every file further down a chain has exactly the remaining chain as its own |
| LedgerProperties.ListTargetsContents | internal/ledger/snapshot.go:63-70 | a listing holds exactly the files with a complete greedy chain, each summarised by that chain |
| LedgerProperties.ListTargetsSorted | internal/ledger/snapshot.go:55-70 | a listing of sorted files runs from best to worst |
| LedgerProperties.EachFileIsListedOnce | internal/ledger/snapshot.go:63-70 | every file is listed as often as it occurs if it has a complete greedy chain, and not at all otherwise |
| LedgerProperties.ListingKeepsOrder | internal/ledger/snapshot.go:63-70 | what the first files contribute to a listing comes first |
| LedgerProperties.ListedInfoSays | internal/ledger/snapshot.go:75-102 | a listed snapshot has the slot and hash of the file it ends in, the slot of the full file it rests on, the best file at every base slot between them, and their total size |
| LedgerProperties.TotalSizeIsSum | internal/ledger/snapshot.go:76-94 | the total size is the sum of the file sizes modulo 2^64 |
| LedgerProperties.HeadOfListing | internal/ledger/snapshot.go:55-71 | the first snapshot ends in a file that outranks every file with a complete chain |
| LedgerProperties.RootOfHeadIsBest | internal/ledger/snapshot.go:75-102 | the first snapshot rests on the highest ranked full file at its base slot |
| LedgerProperties.ChainLengthBound | internal/ledger/snapshot.go:79-94 | a chain has at most one file more than there are distinct slots below its end |
| LedgerProperties.SortedKeysAreUnique | internal/ledger/snapshot.go:49-51 | two sorted orders of the same keys agree on the key at every position |
| LedgerProperties.ListingIgnoresDirectoryOrder | internal/ledger/snapshot.go:30-71 | any two sorted permutations of a directory give the same listing up to names, extensions, sizes and times |
| LedgerProperties.AddingFullFileNeverHurts | internal/ledger/snapshot.go:75-102 | with one more full file every complete chain stays complete and its root does not move back |
| LedgerProperties.GreedyIsCompleteIff | internal/ledger/snapshot.go:84-93 | the listing contains every restorable file if and only if the directory has no dead fork |
| LedgerProperties.OneBasePerSlotIsEnough | internal/ledger/snapshot.go:84-93 | if files share one base slot wherever a slot has no full file, greedy and exhaustive search agree |
| LedgerProperties.DeadForkExample | internal/ledger/snapshot.go:84-93 | a directory whose newest snapshot is restorable and not listed |
| Fetch.ShouldFetchSnapshot | internal/fetch/fetch.go:22-79 | the nested loops compute Decide on all inputs, wrap-around included |
| Fetch.AdviceTable | internal/fetch/fetch.go:22-79 | on all inputs, an empty remote and an empty listing included, exactly when each advice is given and with which minimum slot |
| Fetch.AgeTestIsExactIff | internal/fetch/fetch.go:25-47 | the computed age test is the documented one exactly in the listed ranges |
| Fetch.HugeMinAgeFetches | internal/fetch/fetch.go:25-47 | a minimum age of 2^63 lets a remote through that is one slot newer |
| Fetch.ListedInfosAreChains | internal/ledger/snapshot.go:57-102 | every snapshot of a listing is a complete chain with its summary |
| Fetch.ShareFullFileIff | internal/fetch/fetch.go:59-71 | the nested scan finds a common full file exactly when the last files of the two chains agree in hash |
| Fetch.DecisionIsExact | internal/fetch/fetch.go:22-79 | between ledgers and below 2^63 the decision is the plain integer one on the full files' hashes, minSlot is max(0, remote - maxAge), and incremental advice means the remote has an incremental |
| FetchCommand.Command.DownloadSnapshot | internal/cmd/fetch/fetch.go:235-269 | a pass adds exactly those wanted files of the snapshot that arrive, and succeeds if and only if all of them do |
| FetchCommand.Command.Run | internal/cmd/fetch/fetch.go:76-233 | a run on any ledger, flags and answers, failed requests and downloads included, ends as RunPlan says, adds exactly its downloads and leaves its value in the full flag |
| FetchOutcome.EndsWithoutDownloadIff | internal/cmd/fetch/fetch.go:76-165 | exactly when a run ends with nothing found, up to date, remote older, only a full snapshot requested, or a crash, none of which download anything, and the value left in the full flag |
| FetchOutcome.FatalIff | internal/cmd/fetch/fetch.go:76-233 | a run ends with an error if and only if no part was asked for, the ledger is unreadable, the first request fails, or it comes to download and something it needs is missing |
| FetchOutcome.DoneIff | internal/cmd/fetch/fetch.go:198-269 | a run that comes to download succeeds if and only if there is a snapshot, all its full files arrive if there is a full pass, and the last answer has a snapshot all of whose incrementals arrive if those are asked for |
| FetchOutcome.DownloadsCount | internal/cmd/fetch/fetch.go:198-269 | however it ends, exactly the delivered full files of the chosen snapshot and, if the incremental pass was reached, the delivered incrementals of the last answer have arrived, each as often as it is named |
| FetchOutcome.LostFullFileIsFatal | internal/cmd/fetch/fetch.go:198-201 | a wanted full file that does not arrive ends the run with an error, before any incremental |
| FetchConvergence.PassesPartition | internal/cmd/fetch/fetch.go:241-247 | the full pass and the incremental pass split the files between them |
| FetchConvergence.DownloadsOnlyWhatIsAsked | internal/cmd/fetch/fetch.go:145-232 | whatever is answered and however the run ends, no full file arrives without the full flag and no incremental without the incremental flag |
| FetchConvergence.HealthyDownload | internal/cmd/fetch/fetch.go:198-233 | when nothing fails, a download of a listed snapshot brings in its full file, its incrementals, or its full file and the second answer's incrementals |
| FetchConvergence.RunPanicsIff | internal/cmd/fetch/fetch.go:133-153 | the run indexes an empty local listing exactly in these cases |
| FetchAdoption.ReproducedIff | internal/ledger/snapshot.go:75-102 | once its files are in the ledger, a chain is re-listed file by file if and only if no local file outranks it at a slot it builds on |
| FetchAdoption.AdoptedIsListedIff | internal/ledger/snapshot.go:75-102 | its snapshot is listed at all if and only if no local file makes the search leave the chain, or the first that does has a complete chain of its own |
| FetchAdoption.AdoptedConverges | internal/fetch/fetch.go:22-79 | both conditions at once; if the snapshot is listed the head slot has reached it; the decision about any remote is up to date if and only if the remote is not newer than the new head by the minimum age |
| FetchConvergence.UpToDateIff | internal/cmd/fetch/fetch.go:127-141 | a run ends up to date exactly when the listing is not empty and the best snapshot is not newer than its head by the minimum age, and then downloads nothing |
| FetchConvergence.AdoptedRunSettles | internal/cmd/fetch/fetch.go:127-141 | if the adopted snapshot is listed and the best one is not newer by the minimum age, the next run ends up to date |
| FetchAdoption.ReachesUnlessOutranked | internal/ledger/snapshot.go:75-102 | the search always reaches a full file from a chain of one or two files, and from a longer one unless a local file outranks an incremental it builds on |
| FetchConvergence.IncrementalFetchConverges | internal/cmd/fetch/fetch.go:155-247 | under incremental advice exactly the remote incrementals are downloaded and the ledger converges to the remote chain: the exact conditions for re-listing it, for listing it at all and for the next decision; the usual chain of two is never outranked and the next decision is always up to date |
| FetchConvergence.FullFetchConverges | internal/cmd/fetch/fetch.go:198-247 | under the other two advices the full file and the second answer's incrementals arrive, and the ledger converges to these on that full file, if the answer has the base slot that was asked for; the usual chain of at most two files always converges, and if it is recent enough the next decision is up to date; a second answer that fails or is empty ends the run with the full file downloaded |
| FetchConvergence.IncrementalOnlyCatchesUp | internal/cmd/fetch/fetch.go:145-154 | without the full flag the run falls back on the answer for the local base slot, downloads exactly its incrementals and converges to them on the local full file; the next decision is about the best snapshot again and is up to date exactly when that is recent enough |
| FetchConvergence.RequestedSlotIsFetched | internal/cmd/fetch/fetch.go:110-122 | with a base slot given, the answer for that slot is fetched whatever the ledger and the best snapshot are, so every run fetches the same |
| FetchConvergence.DownloadsNothingIff | internal/cmd/fetch/fetch.go:127-233 | for every combination of flags, the exact condition on the flags, the head of the listing and the answers under which a run downloads nothing |
| FetchConvergence.BothFlagsNothingIff | internal/cmd/fetch/fetch.go:127-233 | the same in numbers for both flags on |
| FetchConvergence.FetchTwice | internal/cmd/fetch/fetch.go:76-233 | of two runs of the command, one on the ledger that the other leaves: only delivered files that were asked for are added, the first run adds exactly its downloads, the second adds nothing if and only if that condition holds of the listing between them, and ends up to date if and only if what was there and what the first brought in holds a recent complete chain |
| FetchConvergence.SecondRunUpToDateIff | internal/cmd/fetch/fetch.go:127-141 | whatever the flags, the second run ends up to date if and only if among the local files and the first run's downloads some file with a complete chain is recent enough |
| FetchFullOnly.FullOnlyFetch | internal/cmd/fetch/fetch.go:145-222 | without the incremental flag only the remote full file is downloaded, just under the advices fetch and fetch full; it is then listed and nothing listed before is lost |
| FetchFullOnly.FullOnlyAdvancesIff | internal/cmd/fetch/fetch.go:145-222 | when the remote full file is newer, the second run downloads nothing if and only if the head of the new listing rests on it; that is, if and only if of the local files and this one the highest ranked with a complete chain does, as always when the file is not older than the local head |
| FetchFullOnly.FullOnlySettlesIff | internal/cmd/fetch/fetch.go:145-222 | when the remote has another full file at the local base slot, the second run downloads nothing if and only if that file outranks the local one |
| FetchExamples.FetchMayRepeatForever | internal/cmd/fetch/fetch.go:155-232 | a ledger with a stale incremental that is a fixed point: the same incrementals are downloaded by every run |
| FetchExamples.IncrementalOnlyMayRepeatForever | internal/cmd/fetch/fetch.go:145-154 | without the full flag and with a newer remote full file, the same incrementals are downloaded by every run |
| FetchExamples.FullOnlyMayRepeatForever | internal/cmd/fetch/fetch.go:198-222 | without the incremental flag and with a remote full file below the local head, the full file is downloaded by every run |
| Index.NewSnapshotKey | internal/index/types.go:36-47 | the slot read from a key is the slot it was made with |
| Index.BeforeIsOrder | internal/index/schema.go:25-57 | each index order is total and ties only entries of one primary key |
| Index.BeforeTransitive | internal/index/schema.go:25-57 | each index order is transitive |
| Index.CompareStringsIff | internal/index/schema.go:29-34 | strings are ordered by the first character in which they differ, a proper prefix first |
| Index.AnswerOrder | internal/index/schema.go:25-42 | in numbers: answers by primary key run group by group and target by target, newest first; answers by slot run newest first, ties by group and target |
| Index.OrderIsUnique | internal/index/schema.go:25-57 | given entries have only one arrangement in an index |
| Index.UpsertMirrors | internal/index/index.go:44-51 | replacing an entry keeps an index describing the table |
| Index.MirrorSize | internal/index/schema.go:25-37 | an index holds each entry of the table once |
| Index.DB.Insert | internal/index/index.go:183-187 | all indexes and the table gain the entry in place of one with its group, target and slot |
| Index.DB.UpsertSnapshots | internal/index/index.go:44-51 | the table becomes the old one with all entries in turn, the last of equals winning |
| Index.DB.GetSnapshotsByTarget | internal/index/index.go:55-68 | exactly the entries of the group whose target starts with the given one, ordered by target and newest first (Index.AnswerOrder) |
| Index.DB.GetAllSnapshotsByGroup | internal/index/index.go:70-86 | exactly the entries of the group (of all groups for the empty name), in primary key order |
| Index.DB.GetBestSnapshotsByGroup | internal/index/index.go:93-113 | the first max + 1 (all, for a negative max) of the group's entries ordered by slot descending, group and target |
| Index.DB.GetSnapshotsAtSlot | internal/index/index.go:142-144 | exactly the entries with that base slot, by group, target and newest first |
| Index.DB.DeleteOldSnapshots | internal/index/index.go:147-168 | exactly the entries not before the cutoff stay, and the count is the loss in size |
| Index.DB.DeleteSnapshotsByTarget | internal/index/index.go:172-181 | exactly the entries not covered by the prefix stay, and the count is the loss in size |
| Index.AnswerIsUnique | internal/index/index.go:55-144 | the contents and order of a query's answer are determined by the table |
| Index.HeadOfAnswerIsNewest | internal/index/index.go:93-113 | the head of a best-snapshots answer has the greatest slot |
| Index.BestAnswerIsCut | internal/index/index.go:93-113 | a best-snapshots answer has at most max + 1 entries, all of the group, and what it leaves out is not newer than any of them |
| Index.DeletedKeeps | internal/index/index.go:172-181 | a delete by target takes the entries of the group whose target starts with the given one, and changes nothing else |
| Index.ExpiredKeeps | internal/index/index.go:147-168 | a delete by age keeps the entries updated at or after the cutoff, unchanged |
| Collector.Collector.Run | internal/scraper/collector.go:60-83 | from any index, the run leaves the fold over the results and passes through exactly the observable states |
| Collector.IndexShowsStandingProbes | internal/scraper/collector.go:60-83 | for any targets and any index at first: it shows the last successful probe not cleared since, last entry per slot, and what it held at first where no probe has touched it |
| Collector.StoredKeysAgree | internal/scraper/collector.go:74-80 | a stored entry's key carries the slot and base slot of its snapshot |
| Collector.StoredEntryIs | internal/scraper/collector.go:73-81 | a stored entry is the last for its slot that the standing probe of its target reported: snapshot, group, target and time are the probe's |
| Collector.StandingProbeIs | internal/scraper/collector.go:60-83 | the standing probe is the last success of the target if nothing later has cleared it, and there is none otherwise |
| Collector.LastProbeIs | internal/scraper/collector.go:60-83 | the last probe is the last success of the target |
| Collector.ReadersMaySeeNothing | internal/scraper/collector.go:72-81 | between the two transactions of a probe a reader sees none of the entries that it clears, and all others as before |
| Collector.CollectorRefinesLatestIff | internal/scraper/collector.go:60-83 | the index is "latest successful probe per target" if and only if nothing with snapshots was cleared by a shorter name |
| Collector.PrefixFreeShowsLatest | internal/scraper/collector.go:60-83 | with prefix-free targets the index is always "latest successful probe per target" |
| Collector.ShorterNameClears | internal/index/index.go:172-181 | probing "a" after "ab" loses the snapshots of "ab" |
| Collector.ReadersSeeOneSource | internal/scraper/collector.go:72-81 | at every observable state a target's entries are those of one probe, or none, or those the index held at first, never a mix |
| Collector.ReadersSeeOneProbe | internal/scraper/collector.go:72-81 | with an index that is empty at first, they are those of one probe, or none |
| Collector.OneProbeOneTime | internal/scraper/collector.go:72-81 | hence two entries of a target never differ in their time stamp |
| Collector.BestSnapshotIsNewestReported | internal/index/index.go:93-113 | the best-snapshots query starts at least as high as any slot reported by a standing probe of the group |
| Tracker.Handler.GetSnapshots | internal/tracker/tracker.go:61-86 | a request without a group answers all entries with the base slot, or all for slot 0, by group, target and newest first |
| Tracker.Handler.GetBestSnapshots | internal/tracker/tracker.go:89-103 | a request answers the newest entries of the group, up to one more than the limit, which is 25 for a negative or larger one |
| Tracker.ObservedIsReported | internal/scraper/collector.go:60-83 | at every observable state, each entry was reported by a successful probe and is stored under its own key |
| Tracker.BestAnswerIsNewest | internal/tracker/tracker.go:89-103 | if probes report ledger listings, the first best snapshot is a complete chain with the greatest slot in the group |
| Tracker.TrackerTellsOfChains | internal/tracker/tracker.go:61-103 | then every answer to the fetch command starts with a complete chain, resting on the slot asked for unless that is 0, however the index changes between requests |
| Tracker.FetchFromTracker | internal/cmd/fetch/fetch.go:145-233 | from such answers, a full fetch of a newer full file with at most one incremental, recent enough, makes the next decision up to date |
| Tracker.SlotAnswerIsComplete | internal/tracker/tracker.go:48-86 | a request for a slot answers one source, field by field, for each entry with that base slot, and for every entry there is if the slot is 0 |
| Tracker.BestAnswerIsCapped | internal/tracker/tracker.go:89-103 | a request for the best snapshots answers at most 26; an entry of the group is left out only if there are that many, or one more than asked for, and none of them is older |
| Tracker.FirstForSlot | internal/index/index.go:142-144 | the first answer for a slot is the newest of its own target, and no other target comes before it, in slot numbers and names |
| Tracker.SecondAnswerMayBeOlder | internal/cmd/fetch/fetch.go:206-209 | two probed targets for which the second answer starts with an older snapshot than the best one |
| MergedListener.ConnectionsAreConserved | internal/netx/netx.go:55-86 | in every run, of the connections that a listener's Accept returned, delivered + in hand + dropped are all, in that order, with at most one missing and drops only after cancellation |
| MergedListener.HistoriesAreOfRun | internal/netx/netx.go:55-86 | the histories that this is stated with are those of the run: connections arrived, deliveries and drops of each listener |
| MergedListener.CancelledIff | internal/netx/netx.go:41-91 | the context is done exactly from the first call of Close or recording of an error on |
| MergedListener.GroupErrorHistory | internal/netx/netx.go:41-70 | the group's error is one with which a listener's Accept failed; its acceptor saw the failure before the context was done and was the first to record |
| MergedListener.CloseReturnsFirstError | internal/netx/netx.go:61-70 | Close returns once every acceptor has left; its error is the first recorded one, traced through the run to the Accept that failed, and nil means that no acceptor saw Accept fail before the context was done |
| MergedListener.AcceptErrorOrigin | internal/netx/netx.go:48-53 | Accept fails only after cancellation, with the last error that a closer stored, traced to the Close that failed, and with the closed error if none was stored |
| MergedListener.AcceptCallsAreAnsweredOnce | internal/netx/netx.go:75-86 | every call of Accept is still waiting or was answered once, by a connection or by an error |
| MergedListener.CloseCallsAreAnsweredOnce | internal/netx/netx.go:88-91 | every call of Close is still waiting or has returned |
| MergedListener.OpenIff | internal/netx/netx.go:48-53 | a listener is open until its Close or somebody else closes it |
| MergedListener.CloserRunsOnce | internal/netx/netx.go:48-53 | a listener is closed by its closer at most once |
| MergedListener.CloserWaits | internal/netx/netx.go:48-50 | and not before the context is done |
| MergedListener.OpenMeansFailedToClose | internal/netx/netx.go:48-53 | a listener that is open after its closer has run is one whose Close returned an error |
| MergedListener.FewStepsOnceClosed | internal/netx/netx.go:54-71 | once all listeners are closed a run holds at most four more acceptor steps per listener |
| MergedListener.CloseNeverDeadlocks | internal/netx/netx.go:48-91 | after Close is called, it can return, or some goroutine can step without any caller of Accept, or an acceptor is stranded on a listener whose Close failed |
| MergedListener.ShutdownCompletesIff | internal/netx/netx.go:48-91 | when nothing can step any more, Close can return if and only if no acceptor is stranded |
| MergedListener.CloseCanFinishIff | internal/netx/netx.go:48-91 | from every reachable state with Close called, some run of at most five steps per listener lets Close return if and only if no acceptor is stranded, which holds if no listener failed to close |
| MergedListener.EveryShutdownEnds | internal/netx/netx.go:48-91 | every run of steps that need no caller of Accept ends after at most six per listener, in any order; where none is left Close can return if and only if no acceptor is stranded, and always if no listener failed to close |
| MergedListener.StrandedExample | internal/netx/netx.go:48-91 | one listener whose Close fails and leaves it open: nothing can step and Close does not return |

## Left out

- FetchConvergence.FullFetchConverges: about a second answer with another base slot than was asked for only the downloads are stated; Tracker.TrackerTellsOfChains rules such answers out for slots other than 0.
- FetchConvergence.IncrementalOnlyCatchesUp: likewise for the answer it falls back on.
- Tracker.TrackerTellsOfChains: probes of plain HTTP targets, which put a snapshot together from two redirects and may leave its chain incomplete, are not modelled; probes of sidecars report ledger listings.
- Tracker.Handler.GetSnapshots: requests for a slot within a group (see Index.DB.GetSnapshotsAtSlot), query parsing and the JSON encoding.
- FetchConvergence.RunPanicsIff: crashes outside the indexing of the local listing are not part of the model.
- FetchConvergence.UpToDateIff: slots and the minimum age are below 2^63, here and in the other theorems about the next run; Fetch.AgeTestIsExactIff says what happens beyond.
- FetchCommand.Command.Run: which downloads fail is a parameter, and a file whose download fails is not in the ledger (the original writes to a temporary name and renames); time-outs and interrupts are failures like any other; the files of a pass are added in order, not concurrently, and a file that is already there is counted twice; the directory downloads are written to is taken to be the ledger directory.
- Ledger.ListSnapshotFiles: snapshot files are values, so the in-place update of size and time by SnapshotStat is a record update and the sharing of file records between chains is not captured.
- Index.DB.GetSnapshotsAtSlot: the grouped variant passes (slot, group) to an index declared as (group, base slot); what the store does with such arguments is not part of this model.
- Index.DB.Insert: the radix tree, byte encodings, transaction objects and the base_slot_by_group index; strings are compared as sequences of characters, which is the stored order for strings without NUL.
- Index.DB.UpsertSnapshots: entries without group or target make the store panic and are excluded.
- Collector.Collector.Run: the channel, its closing, logging and metrics; results are taken in the order in which they are received.
- FileName.ParseSnapshotFileName: names are sequences of code points; names that are not valid UTF-8 are not modelled.
- MergedListener.ConnectionsAreConserved: the goroutines are steps of a state machine, not heap objects; closing connections after they have been dropped, and Addr, are not modelled.
- HTTP clients and the other handlers, the prober, the mirror, discovery, configuration, metrics and command-line parsing hold no comparable property.
