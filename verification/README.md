# A verified model of cosmprund

`cosmprund` prunes the three databases of a stopped CometBFT / Cosmos SDK node: the block store, the state store and
the application store. This project models the parts of it that decide what is deleted, what replaces what, and who
closes what, and proves what they keep. It consists of 27 Dafny modules, one file each; `dafny verify dfyconfig.toml`
checks them all.

| modules | of | what they are about |
|---|---|---|
| `Varint`, `WireSkip`, `WireFields`, `WireMessages`, `WireGrammar` | cmd/celestia/proto.go | the protobuf codec of two messages, and the grammar it accepts |
| `Lex`, `Decimal`, `KvStore` | the databases underneath | bytewise order, decimal heights, an ordered store that may fail |
| `HeightSweep`, `HeightCoverage` | cmd/generic_chain.go | deleting a range of heights, and which heights that leaves |
| `BlockPrune`, `BlockBase`, `CometPrune`, `BlockMeaning` | cmd/generic_chain.go, basefix/main.go | the block store, its base, the state store, the validator history; what is left of each kind of entry |
| `Files`, `GcSwap`, `RestoreSwap` | cmd/pruner.go | compaction and restore: copy, verify, swap by renaming |
| `PruneRun`, `PruneOutcome` | cmd/pruner.go | the goroutines of `Prune`, the handles they pass on, and the errors they report |
| `MultiStore`, `MultiLaws`, `MultiRuns`, `MultiSnapshot`, `RootStores`, `MultiMeaning` | internal/rootmulti/store.go | many versioned trees committed together |
| `AppPrune` | cmd/pruner.go | dropping old versions of the application state |
| `Base` | | integers of fixed width, shifts, byte strings |

## How it is modelled

- What the program does step by step is a method with the same branches, and a class where it updates an object in place
  (`CelestiaTxInfo`, `BlockStoreState`, `RootStore`). Each method is proved against a function or predicate, and what the
  program promises is proved about that.
- A function that a contract is stated through is tied to what it stands for by a lemma that does not name it, with the
  prefixes, numbers and conditions of the program written out (`BlockMeaning`, `MultiMeaning`, `WireGrammar`).
- Every operation of a database (`KvStore.Db`) and of the file tree (`Files.Disk`) may fail, at random. A ghost flag,
  `faulty`, records that one has, so that the contracts can say both what holds whatever fails, and that nothing but
  such a failure (or input that does not decode) makes a call fail. `cut` records that a scan ended early.
- The file tree keeps the history of its states, so "at every step" is a statement about all of them.
- The goroutines of `Prune` are a transition system in which any of them may take the next step.
- The maps that Go walks in random order are walked here in any order.
- Hashes, the tree library and the decoding of validator sets are parameters: functions nothing is known of but the laws
  named in `MultiStore.Lawful`.

## What turned out

- **Height ranges.** `deleteHeightRange` promises to delete every height up to the end. For contiguous heights it does so
  exactly when the end is neither a power of ten nor among the last ten numbers of its length, and no shorter height is
  stored (`PromiseKeptIff`). Otherwise it leaves precisely the orphans (`SweepLeavesOrphans`), and with a power of ten
  of two digits or more as its end it deletes nothing at all (`PowerOfTenDeletesNothing`). The range's end is exclusive
  and an empty pass is the last, which is why. The start of the range is not kept to, either: from 50 to 99, height 6 is
  deleted (`StartIsPartial`). The program only ever starts at 0.
- **Block base.** The base set after pruning and the one the repair tool finds are the same exactly under that condition
  (`BasesAgreeIff`). The repository's README.md (line 155) says that the base is not rewritten; the code rewrites it.
- **Prefix deletion.** `deleteAllByPrefix` never asks its iterator for an error: a scan that ends early is taken for a whole
  one. Its contract therefore needs `!db.cut` where the height sweep's does not.
- **Decoding.** A message decodes exactly if it is a list of well-formed records, each known one of its field's type
  (`DecodesIff`). A number that breaks off half-way is kept as far as it goes, though decoding fails
  (`BrokenNumberKept`).
- **Compaction.** A directory `<db>_gc.db` left over from an earlier run is not cleared, and its contents are merged into
  the result. The live database then equals the original exactly when the original is empty, for then the copy is
  discarded, or the left-over keys are all keys of the original (`GcDb`, `ResultIsOriginalIff`; `LeftOverShows` is a
  left-over copy that shows).
- **Kept versions.** The number of versions to keep has no effect, as long as it is at least one: the target is always one
  below the last version (`AppPrune.Target`). After a prune without failures the last `keep` versions of a store are
  there exactly if one was to be kept, or there was only one (`PruneAppState`, `KeepsLastIff`, `KeepTwoFails`).
- **Concatenated messages.** Last one wins, except for one kind of error: a string or an unknown record that runs past the
  end of its bytes may, behind others, run past the greatest index, and is then an invalid length instead of an
  unexpected end (`LastOneWins`, `ErrorMayDiffer`).
- **Versions.** The stores share the root's version in all states of a run exactly if every step fits, which can be checked
  before it (`RunSharesIff`, `Fits`). These are the steps that may not:
  - Loading version 0 leaves the root at 0 and takes each store to its own latest version, and forgets an initial
    version set before. A store is in step exactly if nothing is saved for it and no initial version is set
    (`LoadZeroSharesIff`; `LoadZeroAhead` and `LoadZeroForgets` are runs in which it is not). Loading a version behind 0
    takes every store that is not new to just that version.
  - A store new in a version gets the next one with the others exactly if its name is unused or its trees end with that
    version (`LoadedInStepIff`).
  - A rollback takes one store after the other to the target, so one that meets a store without it has left others
    there already, their later trees gone, while the root and the metadata stay (`RefusedBreaks`). To check that every
    loaded tree store has the target rules this out. A rollback that succeeds but cannot load everything mounted
    afterwards leaves the root in memory behind the stores. Both are harmless exactly if the target is the version
    the root stands at.
- **Failed loads.** A load that fails does not take back what it has marked to be removed, and neither does the next. A
  store so marked leaves the multistore with the next commit, though no upgrade mentions it (`UnaffectedUnchanged`).
- **Interrupted commits.** `PruneAppState` prunes up to the last version of whichever store it inspects. If that has the
  next version already, the stores that have it too lose the latest one (`PruneAppState`, `AheadLosesLatest`).
- **Upgrades.** A renamed store is laid over whatever stood under its new name before, which shows exactly if another key
  stood there (`RenameMovesData`). Whether the tree library opens a tree with such left-over versions at all is a
  parameter, `Lib.admits`.
- **Working hash.** It is the hash of the commit exactly when no plain database store takes part, and each tree store that
  has the version already was left with a tree of the same hash (`WorkingHashIsCommitHash`). "Only if" needs that
  different lists of hashes have different hashes. A store whose first commit was interrupted violates the condition
  (`AheadStoreMisses`).

## Model

| member | source | states |
|---|---|---|
| Varint.EncodeVarint | cmd/celestia/proto.go:252-262 | the backwards writer puts the canonical varint just before the offset and touches nothing else |
| Varint.SovIsLeast | cmd/celestia/proto.go:300-302 | the size formula is the length of the varint and the least n >= 1 with x < 128^n |
| Varint.ReadVarint | cmd/celestia/proto.go:400-413 | the shifting loop yields the number written, cut to the variable's width, or overflow or end of input where the groups run out |
| Base.OrIsSum | cmd/celestia/proto.go:409 | or-ing a shifted group into the bits below it gives their sum, within any width |
| Base.ConversionsWrap | cmd/celestia/proto.go:400-413 | conversions between signed and unsigned words keep a number modulo the word size |
| Varint.ReadsVarint | cmd/celestia/proto.go:400-413 | every well-formed varint, minimal or not, is read in full with its value, whatever follows |
| Varint.ReadIsVarint | cmd/celestia/proto.go:400-413 | whatever is read successfully is a well-formed varint of at most ten groups |
| Varint.ReadEncoded | cmd/celestia/proto.go:252-262 | a written varint reads back |
| WireSkip.SkipTypes | cmd/celestia/proto.go:533-610 | the loop with its depth counter computes the recursive scan, errors included, without leaving the input |
| WireSkip.SkipsRecord | cmd/celestia/proto.go:533-610 | a well-formed record, groups nested to any depth, is skipped exactly, at any depth and whatever follows |
| WireSkip.SkippedRecord | cmd/celestia/proto.go:533-610 | a successful scan inside the input has read exactly one well-formed record |
| WireSkip.SkipMeetsGrammar | cmd/celestia/proto.go:533-610 | the counter agrees with the recursive grammar, in both directions |
| WireFields.LastOneWins | cmd/celestia/proto.go:394-532 | decoding a concatenation is decoding its second half onto the result of the first, error included, but that an end of input may become an invalid length |
| WireFields.ErrorMayDiffer | cmd/celestia/proto.go:501-509 | an input on which it does |
| WireFields.UnknownFieldIgnored | cmd/celestia/proto.go:512-524 | a well-formed record with an unknown number changes nothing, wherever it stands |
| WireFields.DecodesField | cmd/celestia/proto.go:423-511 | one encoded field decodes to its value and ends where it was written to |
| WireFields.DecodeEncode | cmd/celestia/proto.go:394-532 | decode after encode assigns the values, for any schema and values |
| WireGrammar.DecodesIff | cmd/celestia/proto.go:394-532 | decoding succeeds exactly on the writings of well-formed records with positive numbers, the known ones of their field's type, and sets the fields they name in their order |
| WireGrammar.WrongTypeRefused | cmd/celestia/proto.go:423-490 | a well-formed record of another type under a known number fails, wherever it stands, and changes nothing |
| WireGrammar.IllegalTagRefused | cmd/celestia/proto.go:415-421 | so does a number that is not positive, and a closing tag that no group is open for |
| WireGrammar.MistypedRefused | cmd/celestia/proto.go:423-426 | a string in place of the height |
| WireGrammar.BrokenNumberKept | cmd/celestia/proto.go:427-441 | a number that ends too early, whose first bits are kept |
| WireMessages.CelestiaTxInfo.Unmarshal | cmd/celestia/proto.go:394-532 | ends on every input, decodes onto the fields already there, and keeps those read before a failure |
| WireMessages.CelestiaTxInfo.MarshalToSizedBuffer | cmd/celestia/proto.go:222-250 | written from the last field back, it fills exactly Size() bytes at the buffer's end with the encoding |
| WireMessages.CelestiaTxInfo.Marshal | cmd/celestia/proto.go:207-215 | a fresh buffer of just that size holds the encoding |
| WireMessages.TxRoundTrip | cmd/celestia/proto.go:207-250 | every CelestiaTxInfo survives the round trip, negative numbers and any error bytes included |
| WireMessages.TxSize | cmd/celestia/proto.go:278-298 | the sizes added up by Size are the lengths of the encoded fields |
| WireMessages.BlockStoreState.Unmarshal | cmd/celestia/proto.go:306-393 | as for CelestiaTxInfo |
| WireMessages.BlockStoreState.MarshalToSizedBuffer | cmd/celestia/proto.go:189-205 | as for CelestiaTxInfo |
| WireMessages.StateRoundTrip | cmd/celestia/proto.go:174-205 | every BlockStoreState survives the round trip, in at most 22 bytes |
| WireMessages.StateSize | cmd/celestia/proto.go:263-276 | the sizes added up by Size are the lengths of the encoded fields |
| WireGrammar.NumberExamples | cmd/celestia/proto.go:222-262 | the bytes of 150 and of a negative number |
| WireGrammar.TxExample | cmd/celestia/proto.go:222-250 | the bytes of a CelestiaTxInfo with all its fields |
| WireGrammar.StateExample | cmd/celestia/proto.go:189-205 | the bytes of a BlockStoreState |
| HeightSweep.DeletePass | cmd/generic_chain.go:353-401 | one digit count: deletes the doomed keys of its byte range and counts them, fails only if an operation does |
| HeightSweep.DeleteHeightRange | cmd/generic_chain.go:343-416 | whatever fails, only keys with the prefix and a height <= end are gone; unless something fails, what the sweep selects is gone and its size is returned |
| HeightCoverage.FullPassCovers | cmd/generic_chain.go:353-361 | exactly which heights, shorter, as long or longer, fall into the byte range of a full pass |
| HeightCoverage.OrphanStays | cmd/generic_chain.go:343-416 | no height above the end is removed, and no orphan, in any store |
| HeightCoverage.OthersGo | cmd/generic_chain.go:343-416 | with contiguous heights every other one is removed; the early break loses none |
| HeightCoverage.SweepLeavesOrphans | cmd/generic_chain.go:343-416 | exactly which heights survive, for one-part and two-part keys |
| HeightCoverage.PowerOfTenDeletesNothing | cmd/generic_chain.go:353-412 | up to a power of ten of two digits or more nothing is deleted |
| HeightCoverage.PromiseKeptIff | cmd/generic_chain.go:338-342 | exactly when the comment's promise, that all heights up to the end go, is kept |
| HeightCoverage.StartIsPartial | cmd/generic_chain.go:353-361 | a range that does not start at 0 and deletes a height below its start |
| Decimal.ParseUintIff | cmd/generic_chain.go:334-336 | a key's height is read exactly from its decimal digits, zeros in front allowed, below 2^64 |
| Decimal.ParseIntIff | basefix/main.go:110 | the signed reading: a sign, then the digits, within 64 bits |
| HeightSweep.HeadIs | cmd/generic_chain.go:329-332 | the first of two parts is what stands before the first colon |
| Lex.PrefixRange | cmd/generic_chain.go:278-281 | the range from a prefix to the prefix with its last byte raised holds precisely the keys with that prefix |
| BlockPrune.DeleteAllByPrefix | cmd/generic_chain.go:277-325 | whatever fails, only chosen entries go; if no scan was cut short all of them go and are counted; fails only if an operation or the callback does |
| BlockPrune.Flush | cmd/generic_chain.go:304-315 | a batch flushed in mid-scan does not change what is deleted in the end |
| BlockPrune.PruneBlockStore | cmd/generic_chain.go:50-87 | whatever fails, only expendable entries are gone; on success the five sweeps, the hashes and the old transaction records are; unless an operation fails it fails exactly if a record does not decode |
| BlockPrune.BlockPruneKind | cmd/generic_chain.go:37-60 | of each kind of key, what is left is what its own sweep leaves: the sweeps do not disturb each other |
| BlockPrune.BlockHashesGone | cmd/generic_chain.go:61-67 | no block hash is left |
| BlockPrune.TxInfosByHeight | cmd/generic_chain.go:74-84 | an encoded CelestiaTxInfo is left exactly when its height is not below the prune height |
| BlockMeaning.BlocksLeft | cmd/generic_chain.go:37-60 | of contiguous "H:", "C:", "EC:" and "SC:" heights and "P:" heights with parts, exactly those above the end and the orphans are left |
| BlockMeaning.PowerOfTenKeepsBlocks | cmd/generic_chain.go:37-60 | up to a power of ten of two digits or more no key of these names goes |
| BlockMeaning.OthersStay | cmd/generic_chain.go:37-84 | keys of any other name stay with their values |
| BlockMeaning.HashesAndTransactions | cmd/generic_chain.go:61-84 | no "BH:" key is left, and of the "TH:" records those not below the prune height |
| BlockMeaning.MistypedStopsPruning | cmd/generic_chain.go:74-84 | a "TH:" record with a field of another type fails the pruning and is never deleted, whatever else fails |
| BlockBase.SetBlockStoreBase | cmd/generic_chain.go:217-259 | the base becomes the least kept height with a block meta, the height stays, and nothing else changes |
| BlockBase.BaseIsFirstKept | cmd/generic_chain.go:197-203 | after a prune of contiguous metas the base is the first one kept, never an orphan |
| BlockMeaning.BaseIsLeastHeader | cmd/generic_chain.go:217-259 | for a stored state of any base and height, the base becomes the least "H:" height wanted or behind it, and nothing changes if there is none |
| BlockMeaning.StoredStateIs | cmd/generic_chain.go:217-232 | the stored state is read with the height it was written with |
| BlockBase.LowestMetaHeight | basefix/main.go:97-119 | the numeric minimum, although the scan is in bytewise order |
| BlockBase.BasesAgreeIff | basefix/main.go:97-119 | exactly when it equals the base set after pruning: when no orphan was left |
| BlockBase.MetaOrNone | cmd/generic_chain.go:234-252 | if any block meta is left in the range there is a least one to become the base |
| CometPrune.FindLatestValidatorHeight | cmd/generic_chain.go:137-161 | the height of the lexically last key; unless an operation fails, an error means there is none |
| CometPrune.LexicallyLatestIsStored | cmd/generic_chain.go:137-161 | that height never exceeds the true latest |
| CometPrune.FindAnchorCheckpoint | cmd/generic_chain.go:166-185 | a full entry at or below the height given, and unless a read fails the most recent one |
| CometPrune.PruneValidatorHistory | cmd/generic_chain.go:103-135 | whatever fails, only entries below a full entry that is old enough go; unless something fails it is the most recent such entry, and the sweep up to it is complete |
| CometPrune.LookupsKept | cmd/generic_chain.go:103-185 | every lookup at or above the anchor resolves to the same validators as before |
| CometPrune.PruneStateStore | cmd/generic_chain.go:89-101 | history first, then responses and parameters, which never touch the history, whatever fails |
| CometPrune.StateSweepsKeepValidators | cmd/generic_chain.go:89-101 | sweeping responses and parameters leaves every validator entry as it is |
| BlockMeaning.StateLeft | cmd/generic_chain.go:89-101 | of contiguous responses and parameters exactly those above the end and the orphans are left |
| BlockMeaning.OtherStatesStay | cmd/generic_chain.go:89-101 | keys of any other name stay with their values |
| BlockMeaning.HistoryLeft | cmd/generic_chain.go:103-135 | of a contiguous validator history exactly the anchor, what is behind it, and the orphans before it are left |
| CometPrune.PruneBlockAndStateStore | cmd/generic_chain.go:186-212 | both stores are pruned as specified and the base is set behind the prune height; only a failed operation or an undecodable record fails it |
| GcSwap.CopyLive | cmd/pruner.go:466-532 | the batched copy holds every pair, for every key count, multiples of the batch size included |
| GcSwap.GcDb | cmd/pruner.go:431-586 | at every step the original or its copy is complete; a success leaves the copy live, or an empty original; it equals the original exactly if that was empty or no left-over key is another; only a failed operation fails it; the handle is closed once |
| GcSwap.Swap | cmd/pruner.go:552-583 | at every step of the swap the original is under one of its names or the copy is live |
| GcSwap.MaybeRunGc | cmd/pruner.go:598-623 | it leaves the disk alone exactly if the size is unknown, or 10 GiB or more and not forced, or the database was rebuilt from a snapshot; skipped or not, the handle is closed once; on success the live database has the original's pairs exactly if the run was skipped, the original was empty, or no left-over key is another |
| GcSwap.ResultIsOriginalIff | cmd/pruner.go:436-441 | exactly when a left-over copy does not show in the result, the run on an empty original included |
| GcSwap.LeftOverShows | cmd/pruner.go:436-441 | a left-over copy that shows |
| RestoreSwap.RestoreVerifiedAndSwap | cmd/pruner.go:321-427 | only a verified restore becomes live; at every step the original or the verified one is complete; every exit after the swap has begun keeps a verified copy; the original's handle is closed at most once, the temporary database's exactly once if it was opened |
| RestoreSwap.SwapRestored | cmd/pruner.go:388-415 | the swap itself: a verified copy is left whatever fails |
| PruneRun.RunIsSafe | cmd/pruner.go:658-840 | in every state of every run nobody uses a closed handle, nothing is closed twice, and no send on the error channel blocks or finds it closed |
| PruneRun.AllClosedAtReturn | cmd/pruner.go:658-840 | when Prune returns, every handle ever opened has been closed exactly once |
| PruneRun.NoDeadlock | cmd/pruner.go:658-840 | until Prune returns some goroutine can take a step |
| PruneRun.RunsEnd | cmd/pruner.go:658-840 | every run ends, after at most 57 steps |
| PruneOutcome.ReportsIff | cmd/pruner.go:658-840 | at its return Prune reports an error exactly if some step has failed: preparing, opening, pruning or compacting |
| PruneOutcome.DrainedIff | cmd/pruner.go:748-776 | at its return the errors drained are those sent: there was one exactly if somebody sent one in some state |
| PruneOutcome.NoGcAfterFailure | cmd/pruner.go:770-780 | if somebody ever sends an error, no database is compacted in any state of the run |
| PruneOutcome.SuccessMeans | cmd/pruner.go:658-840 | if preparing does not fail and nobody sends, just what was asked for was opened and pruned, and each of these databases compacted exactly if that was asked for |
| PruneOutcome.RightHandles | cmd/pruner.go:754-835 | each compaction gets the handle of its own database, that of the application the one its goroutine left |
| RootStores.RootStore.Mount | internal/rootmulti/store.go:141-155 | a name is mounted once |
| RootStores.RootStore.LoadVersion | internal/rootmulti/store.go:203-299 | succeeds exactly when every mounted store can be loaded; renames, deletions and the stores to be removed are as asked; a failure keeps the loaded stores, and the marks it has made by then |
| RootStores.RootStore.LoadOne | internal/rootmulti/store.go:241-287 | one store: loaded, emptied if deleted, filled from its old name if renamed |
| RootStores.RootStore.DeleteKVStore | internal/rootmulti/store.go:310-327 | leaves no pair |
| RootStores.RootStore.MoveKVStoreData | internal/rootmulti/store.go:329-342 | the new store gains every pair of the old one, which ends empty |
| RootStores.RootStore.SetInitialVersion | internal/rootmulti/store.go:793-808 | root and loaded tree stores agree on the initial version, which a root at version 0 commits next |
| RootStores.RootStore.CommitStores | internal/rootmulti/store.go:1198-1238 | saves the trees not saved yet and collects the ids; fails exactly when a different tree has the version already |
| RootStores.RootStore.Commit | internal/rootmulti/store.go:462-509 | the new version, its commit info and hash on disk and in memory; removed stores leave the maps and the commit info |
| RootStores.RootStore.WorkingHash | internal/rootmulti/store.go:513-540 | the hash over the trees about to be committed |
| RootStores.RootStore.GetAllVersions | internal/rootmulti/store.go:542-558 | the ascending versions of some tree store, whichever the map yields |
| RootStores.RootStore.PruneStores | internal/rootmulti/store.go:692-723 | unless a deletion fails, every tree store with a version above the height keeps just such versions; failed deletions, logged or returned, may have deleted any part of the others, and no store loses its latest |
| RootStores.RootStore.RollbackToVersion | internal/rootmulti/store.go:1095-1115 | if every loaded tree store has the target, all later versions go and the target becomes the latest; it succeeds exactly when everything mounted can then be loaded, and else leaves the stores at the target; if one lacks it, the metadata stay, but some of the others have lost their later versions |
| RootStores.RootStore.LoadForOverwriting | internal/rootmulti/store.go:1100-1110 | on every exit, some of the stores have the target and have been taken there, all of them exactly if none lacks it |
| MultiStore.RollbackLoads | internal/rootmulti/store.go:1095-1115 | everything can be loaded when just what is mounted had been |
| RootStores.RootStore.Snapshot | internal/rootmulti/store.go:834-926 | succeeds exactly when every store can be exported at the height; emits the stores in name order, each followed by its nodes |
| MultiMeaning.LatestCanSnapshot | internal/rootmulti/store.go:834-858 | once loaded, the latest version can be snapshot exactly if no plain database is mounted |
| MultiMeaning.StreamNames | internal/rootmulti/store.go:864-920 | the store items of a stream are the stores, in their order |
| RootStores.RootStore.Restore | internal/rootmulti/store.go:930-1012 | imports up to the first foreign item and returns it; a failed import leaves the metadata, and the stores imported by then; else height and commit info are on disk and loaded |
| MultiSnapshot.RestoreAddsOnly | internal/rootmulti/store.go:930-1012 | a restore, failed or not, only gives trees of its height to stores that had none |
| MultiMeaning.ImportedFits | internal/rootmulti/store.go:930-1012 | a stream that is imported starts with a store, names only empty tree stores, and has no node higher than 127 |
| MultiMeaning.TakesFitting | internal/rootmulti/store.go:930-1012 | and names none of them twice |
| MultiLaws.WorkingHashIsCommitHash | internal/rootmulti/store.go:513-540 | exactly when the hashes collected are those of the commit; then the working hash is the commit's, and only then if different lists have different hashes |
| MultiLaws.AheadStoreMisses | internal/rootmulti/store.go:1206-1212 | a store whose first commit was interrupted, for which they differ |
| MultiLaws.InterruptedCommit | internal/rootmulti/store.go:1198-1238 | committing a version again after an interruption at any boundary commits only the remaining stores and gives the same commit info |
| MultiLaws.CommitAfterRestart | internal/rootmulti/store.go:1205-1217 | an interrupted commit, a restart, the same load with the same upgrades and the same edits: committing clashes with nothing and ends with the same commit info and saved trees; a new store committed before is loaded ahead and not saved again |
| MultiLaws.RenameMovesData | internal/rootmulti/store.go:262-287 | a store renamed and not deleted, listed as added or not, holds the old store's pairs over what it had, and only those exactly if no other key stood there; the old one is emptied and absent from the commit info |
| MultiLaws.UnaffectedUnchanged | internal/rootmulti/store.go:241-286 | a store the upgrades do not mention is carried over unchanged, and stays exactly if no earlier load has marked it to be removed |
| MultiLaws.DeletedGone | internal/rootmulti/store.go:256-261 | a deleted store is committed empty and leaves the commit info and the maps |
| MultiMeaning.LoadableIff | internal/rootmulti/store.go:241-275 | exactly when a mounted store is loaded, with added, renamed and deleted names written out: a renamed one is never refused for its id's version |
| MultiMeaning.LoadedAt | internal/rootmulti/store.go:241-261 | the version and tree a loaded store stands at, its initial version, and its edits |
| MultiMeaning.LoadedNames | internal/rootmulti/store.go:262-287 | exactly which stores are loaded, and which are marked to be removed |
| MultiMeaning.RenamedOnly | internal/rootmulti/store.go:247-287 | a store renamed but not listed as added is loaded at version 5 and committed as 6 with its old pairs |
| MultiMeaning.CommitMeans | internal/rootmulti/store.go:1198-1238 | what a commit saves, records and keeps under each name, for every type of store, and when it clashes |
| MultiMeaning.CommitElsewhere | internal/rootmulti/store.go:1198-1238 | under other names it saves and records nothing |
| MultiMeaning.RollbackMeans | internal/rootmulti/store.go:1095-1115 | a rollback drops just the versions of tree stores behind the target, and the commit info has their ids |
| MultiMeaning.PruneMeans | internal/rootmulti/store.go:692-723 | which versions pruning may drop and, without failures, does |
| MultiMeaning.PairsAre | internal/rootmulti/store.go:310-342 | a tree's pairs are those of its leaves, the last one of a key counting |
| MultiRuns.RunSharesIff | internal/rootmulti/store.go:203-723 | over any run, failed loads and rollbacks and interrupted commits included, every tree store that stays is always at the root's version, or new to its commit info, and gets the next with the others, exactly if every step fits |
| MultiRuns.StepSharesIff | internal/rootmulti/store.go:203-723 | for each step, exactly when it keeps the stores in step, as a condition on the state before |
| MultiRuns.LoadSharesVersion | internal/rootmulti/store.go:203-260 | after loading a version behind 0, each store that is not new stands at it and gets the next |
| MultiRuns.LoadedInStepIff | internal/rootmulti/store.go:241-260 | exactly when a store is in step with the root after a load of any version, an initial version included |
| MultiRuns.LoadZeroSharesIff | internal/rootmulti/store.go:209-255 | after loading version 0, exactly when a store stands at 0, and when it also gets the root's next version |
| MultiRuns.LoadZeroAhead | internal/rootmulti/store.go:209-255 | a database on which it does not stand at 0 |
| MultiRuns.LoadZeroForgets | internal/rootmulti/store.go:793-808 | an initial version that only the root remembers |
| MultiRuns.NewNameInStepIff | internal/rootmulti/store.go:247-252 | exactly when a store loaded as new in a version gets the one after it, whatever is saved |
| MultiRuns.CommitKeepsShared | internal/rootmulti/store.go:462-509 | after a commit all tree stores stand at the new version |
| MultiRuns.RollbackKeepsShared | internal/rootmulti/store.go:1095-1115 | after a rollback that succeeds all tree stores stand at the target |
| MultiRuns.HalfRolledBackIff | internal/rootmulti/store.go:1100-1110 | after one that does not, they are in step exactly if none was taken to another version than the root's |
| MultiRuns.RefusedHealthyIff | internal/rootmulti/store.go:1100-1110 | a refused rollback leaves a healthy database healthy exactly if it took no store of the latest commit info behind it |
| MultiRuns.RefusedBreaks | internal/rootmulti/store.go:1100-1110 | two stores and a refused rollback that breaks both, and the first one's next load |
| MultiRuns.RollbackDisk | internal/rootmulti/store.go:1095-1115 | once every store has been taken to the target, the commit info on disk describes its trees, whether or not loading succeeds |
| MultiRuns.LatestKept | internal/rootmulti/store.go:692-723 | pruning, failures included, changes no tree and takes no store's latest version, whatever the height |
| MultiRuns.StepKeepsInv | internal/rootmulti/store.go:203-723 | with loads of the latest version, each step that fits keeps the database whole and the next versions free |
| MultiRuns.RunsStayHealthy | internal/rootmulti/store.go:203-723 | in every state of every such run the database is healthy exactly if the latest commit info has no id of a plain database store, the next commit clashes with nothing, and the hashes of the working hash are its hashes exactly if no such store takes part |
| MultiSnapshot.OneNameOrder | internal/rootmulti/store.go:860-862 | the order of the stores, and so the stream, does not depend on the map |
| MultiSnapshot.RestoreUndoesSnapshot | internal/rootmulti/store.go:930-1012 | restoring the emitted stream, whatever follows it, rebuilds each named store with the same nodes and pairs, touches no other, stops at the first foreign item, and can be loaded |
| MultiSnapshot.RestoredInfoIsSource | internal/rootmulti/store.go:1010-1011 | the commit info restored is the source's |
| MultiSnapshot.NormalPairs | internal/rootmulti/store.go:984-991 | nil and empty are confused on the wire, which changes no pair |
| AppPrune.VerifyAppState | cmd/pruner.go:73-105 | succeeds exactly when every store reloads at the version with the wanted hash |
| AppPrune.PruneAppState | cmd/pruner.go:107-171 | on a healthy database it succeeds and keeps the latest version of every store; only older ones go, and all of them unless a deletion fails, so that the last versions to be kept are there exactly if that was one or all; on any database, exactly when it succeeds, and which stores keep the latest version; stores without a hash are untouched and block nothing |
| AppPrune.AheadLosesLatest | cmd/pruner.go:145-158 | a store ahead after an interrupted commit, which loses the latest version |
| AppPrune.KeepsLastIff | cmd/pruner.go:152-156 | a store down to its latest version has the last `keep` exactly if that is one, or was all |
| AppPrune.KeepTwoFails | cmd/pruner.go:152-156 | two versions, of which two are to be kept and one is |
| AppPrune.LatestIsLast | cmd/pruner.go:145-158 | whichever store the versions come from, the last of them is the latest of the whole |
| AppPrune.Target | cmd/pruner.go:152-156 | the version to prune up to is taken from the end of the list, however many are to be kept |
| AppPrune.RestoredPassesVerification | cmd/pruner.go:366-370 | a restore of a healthy database's snapshot passes the verification |

## Left out

- HeightSweep.DeleteHeightRange: bounds below 2^53 only, where the floating-point arithmetic of lines 353-354 is exact.
- CometPrune.PruneValidatorHistory: stored heights below 2^53, for the same reason; decoding a validator set is a parameter.
- CometPrune.LookupsKept: a lookup follows one pointer to a full entry, which may depend on the height asked for; the node's rebuilding of proposer priorities is not part of this model.
- CometPrune.PruneBlockAndStateStore: the two goroutines work on different databases and are run one after the other.
- BlockBase.SetBlockStoreBase: the wanted base is below 2^63, and with a stored height of 2^63 - 1 there is a meta to be found, or the search would never end; the message type of CometBFT is taken to be the one of cmd/celestia/proto.go.
- BlockPrune.DeleteAllByPrefix: closing the iterator when opening it failed, which may panic.
- WireSkip.SkipTypes: inputs shorter than 2^63 bytes, like every Go slice; the same holds for all decoding.
- GcSwap.CopyLive: batches are written whole or not at all, and the format-dependent options of the new database are not modelled.
- RestoreSwap.RestoreVerifiedAndSwap: the temporary directory is new, and building the restored contents is one step; what those contents are is the subject of `MultiSnapshot.RestoreUndoesSnapshot`.
- PruneRun.RunIsSafe: the handle of the snapshot metadata, which `Prune` opens and never closes.
- MultiLaws.RenameMovesData: no store keeps a name that another one is renamed from, and no two are renamed from the same one; what is saved under either name is not ahead of the version loaded (what is loaded otherwise is `MultiMeaning.LoadedAt`).
- MultiRuns.RunsStayHealthy: every step fits, loading is of the latest version, a rollback that fails had that version as its target, and commits are not interrupted (that is `InterruptedCommit` and `CommitAfterRestart`). What a refused rollback to another version does to the database is `RefusedHealthyIff`.
- MultiLaws.CommitAfterRestart: every tree store is about to get the version committed.
- RootStores.RootStore.Restore: what the tree library accepts as a tree is a parameter; that a height from 2^63 on is converted to a negative one is not modelled.
- RootStores.RootStore.Snapshot: the writer takes every item; chunking and compression belong to another library.
- RootStores.RootStore.PruneStores: the tree library's reasons for a failed deletion are not modelled; any may fail.
- RootStores.RootStore.Commit: the time stamp of the commit info and the pruning that follows a commit when a strategy is set (this program sets none); contents of plain database stores.
- AppPrune.PruneAppState: at least one version is to be kept; with none the index is out of range.
- The arithmetic of `keepBlocks`, which wraps around when there are fewer blocks than that.
- The `--verify-after-prune=false` restore: the original is deleted first, so there is nothing to keep; its handles are in `PruneRun`.
- Command line, configuration, ownership, sizes and formats of databases, logging, cmd/sei.go, cmd/analyzer, cmd/info.go: no property of depth.
- Tracing, listeners, caches, queries, proofs and metrics of the multistore; the inside of its trees.
