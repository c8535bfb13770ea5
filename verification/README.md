# KakeFlow: verified models of its stateful core

KakeFlow is a household ledger that runs on one computer. This project models the parts of it in which state,
ordering and failure interact, and proves what those parts are for:

- the **backup archive**: writer, reader, record grammar, codecs, path rules, limits, and publication of a restore
  (`Bytes`, `ArchivePaths`, `ArchiveFormat`, `ArchiveReader`, `ArchiveGrammar`, `ArchiveAcceptance`, `ArchiveWriter`,
  `ArchiveErrors`, `ArchiveTheorems`, `ArchiveSources`, `RestorePublication`);
- **account groups and CSV export**: positions renumbered under a uniqueness constraint, and the CSV printer with the
  parser that undoes it (`AccountGroups`, `CsvExport`);
- **aggregate asset history**: the transactional batch import (`AssetHistory`);
- **card settlement coverage**: one interleaved pass against the definition per bank (`SettlementCoverage`);
- **brokerage events**: the validator, mergers, totals and conservation of cash (`BrokerageEvents`, `BrokerageMergers`,
  `BrokerageAcceptance`, `BrokerageTotals`);
- **the Gmail worker's shutdown** (`GmailScheduler`) and **refresh polling** (`RefreshPolling`), as step systems;
- **journal edits**: splits, recategorisations and classification rules (`Journal`).

`dafny verify dfyconfig.toml` checks everything. Objects whose methods change fields are classes (`Disk`, `GroupTable`,
`Output`, `SnapshotStore`), loops are loops proved against specification functions, and the protocols are step systems whose
invariants hold after every run. Cryptography is an ideal authenticated cipher in the sense of section 2 of RFC 5116, given
by the set of calls made to it: only what was sealed opens, and it opens to what was sealed.
`ArchiveTheorems.SuchACipherExists` shows that this can be met for whatever archives were written. SHA-256 and Argon2 are uninterpreted functions.

## What the proofs found

- `restore_backup` reports an error when the last step, synchronising the parent directory, fails, although the complete
  tree is already published. `RestorePublication.Disk.Restore` states the exact condition for success and for publication.
- The promise that an existing destination is never replaced has one exception, stated by the same contract: something at
  the destination is changed exactly when it is an empty directory that appeared after the second existence check, on a
  system whose rename replaces empty directories, and everything else succeeds.
- Deleting a group shifts positions by 1,000,000 and back. For the group at position k among n this completes in every
  order of the database's row writes exactly when n <= k + 1,000,001 and k <= 1,000,001
  (`AccountGroups.DeletesInEveryOrderIff`); for k beyond that it never completes (`AccountGroups.GroupTable.Delete`).
- A CSV table reads back unchanged exactly when every row has a field: a row without fields reads back as one empty field
  (`CsvExport.TableRoundTrip`, `CsvExport.TableReadsBack`).
- An asset snapshot is reused by date and contents, not by provenance, and when another stored row has the input's source
  row the choice depends on the order of identifiers (`AssetHistory.ReusedExactlyWhen`).
- A classification rule changes entries by identifier. So runs of splits, recategorisations and rules leave all entries
  outside the category as they were exactly when, at the start, none of them shares the identifier of the one expense entry
  a rule would move (`Journal.EditsLeaveTheRestIff`); `Journal.SharedIdentifierExample` is a balanced journal where a rule
  turns the cash entry into an expense.
- Between the render of another household and the effects that follow it, a reply can still show a batch of the household
  before (`RefreshPolling.LateReplyShowsOldHousehold`); `RefreshPolling.ShownBatchBelongsIff` says exactly when a shown batch
  belongs to the rendered household.
- Recategorising and going back restores a journal exactly when its category was a single account
  (`Journal.RecategoriseAndBack`).
- A brokerage event that is no ratio action may still carry a ratio that is not positive: the check compares "is a ratio
  action" with "has a positive ratio" (`BrokerageMergers.TermsExactly`, `BrokerageMergers.NegativeRatioIsAccepted`).

## Model

| member | source | states |
|---|---|---|
| ArchiveFormat.HeaderCodec | src-tauri/src/backup.rs:824-889 | a 54-byte header decodes to a profile exactly when it is that profile's encoding: the header codecs are mutual inverses |
| ArchiveFormat.HeaderLayout | src-tauri/src/backup.rs:824-841 | the 54 bytes of the header on the wire |
| ArchiveFormat.EntryCodec | src-tauri/src/backup.rs:923-963 | a byte string decodes to metadata exactly when the metadata is valid and encodes to it |
| ArchiveFormat.IdealCipherExists | src-tauri/src/backup.rs:505-536 | for every set of encryption calls, key derivation and 32-byte digest there is a cipher that opens exactly those calls |
| ArchiveFormat.FramedRecordIsRead | src-tauri/src/backup.rs:505-536 | the reader reads back a framed record and leaves exactly the bytes that followed it |
| ArchiveFormat.ReadRecordIsAFrame | src-tauri/src/backup.rs:769-813 | any record the reader accepts is the frame of a record sealed for this session, index, type and length |
| ArchiveFormat.OtherKeyFailsAuthentication | src-tauri/src/backup.rs:801-811 | a record that is read with its key fails authentication under any key nothing was sealed with |
| ArchivePaths.Utf8Exactly | src-tauri/src/backup.rs:947-951 | a path is well-formed UTF-8 iff it is the encoding of some text, as section 3 of RFC 3629 defines it |
| ArchivePaths.PathIsAcceptedExactly | src-tauri/src/backup.rs:965-988 | a path is accepted iff it has no backslash, no NUL, no leading slash or `.`, no `..`, and is a database name or lies below the vault |
| ArchivePaths.AcceptedPathsStayBelowTheRoot | src-tauri/src/backup.rs:965-988 | every accepted path, walked segment by segment from any root, ends where its ordinary names lead, and there is at least one, so strictly below the root |
| ArchivePaths.NamesAFileExactly | src-tauri/src/backup.rs:645-651 | a file can be created under a path iff the path ends neither in a slash nor in a `.` of its own |
| ArchiveGrammar.EntryRecordStep | src-tauri/src/backup.rs:623-658 | an entry record is accepted iff the grammar allows the extended list: previous entry complete, target free, limits kept, database name right |
| ArchiveGrammar.DataRecordStep | src-tauri/src/backup.rs:659-676 | a data record is accepted iff an entry is open, the record is not empty and the declared size is not exceeded |
| ArchiveGrammar.EndRecordStep | src-tauri/src/backup.rs:677-712 | the end record is accepted iff it carries the exact counts, the last entry is complete, the database was seen and nothing trails |
| ArchiveGrammar.KeyCapsuleRecordStep | src-tauri/src/backup.rs:609-622 | the key capsule is accepted iff the archive is portable and it is the first record |
| ArchiveAcceptance.AcceptedRun | src-tauri/src/backup.rs:595-722 | an accepted run consumed exactly the frames of a whole archive body, all of them sealed |
| ArchiveAcceptance.GrammarIsAccepted | src-tauri/src/backup.rs:595-722 | every sealed body of the grammar is accepted with exactly its files, key and counts |
| ArchiveAcceptance.ReaderAcceptsExactlyTheGrammar | src-tauri/src/backup.rs:558-723 | for every input: it is accepted with a given outcome iff it is a sealed archive of the grammar with that outcome |
| ArchiveAcceptance.ExactlyOneDatabase | src-tauri/src/backup.rs:629-638 | a whole archive has exactly one database entry and it carries the mode's name |
| ArchiveErrors.OpensExactlyWhen | src-tauri/src/backup.rs:565-592 | an archive is opened iff it is not too long and magic, version and key profile are right; the key comes from the passphrase and the salt; otherwise the error |
| ArchiveErrors.RecordErrors | src-tauri/src/backup.rs:769-813 | a record is refused as corrupt iff it is not framed with the expected index and a length in range, and as unauthentic iff it is framed but does not open |
| ArchiveErrors.WrittenRecord | src-tauri/src/backup.rs:505-536 | the bytes of a written record, its key, nonce and associated data; it is refused iff its length does not fit 32 bits |
| ArchiveErrors.StepErrors | src-tauri/src/backup.rs:623-645 | a record is refused for a limit iff it is an entry that passes the checks before and exceeds one of the three limits, and by the file system iff it is an entry whose file cannot be created |
| ArchiveErrors.RunFailsSomewhere | src-tauri/src/backup.rs:595-722 | a failing run stops at the record limit or at one record, and answers the error of that record |
| ArchiveWriter.ValidateSourceEntries | src-tauri/src/backup.rs:358-395 | succeeds iff entries, sizes, total and the number of records to be written are within the limits |
| ArchiveWriter.ChunksOfShape | src-tauri/src/backup.rs:462-479 | cutting into chunks loses nothing, leaves none empty or oversized and makes the counted number |
| ArchiveWriter.CountedRecords | src-tauri/src/backup.rs:375-394 | the records printed for the entries are exactly as many as were counted, and so is their total size |
| ArchiveWriter.WriteData | src-tauri/src/backup.rs:459-479 | the chunk loop emits the frames of the entry's chunks, and fails iff the file shrank or the index overflows |
| ArchiveWriter.WriteEntry | src-tauri/src/backup.rs:446-483 | one turn extends the archive by exactly the entry's records |
| ArchiveWriter.WriteKeyCapsule | src-tauri/src/backup.rs:427-444 | the archive begins with the header and, iff a key is given, the capsule record |
| ArchiveWriter.WriteArchive | src-tauri/src/backup.rs:397-502 | emits exactly the archive of its entries with the right summary, and succeeds iff version and key go together, every path fits its field, no file has shrunk and no count overflows, as when the limits were checked; otherwise the error |
| ArchiveTheorems.LimitsAgree | src-tauri/src/backup.rs:358-395 | a source set within the writer's limits becomes an archive body within the reader's, with exactly the counted records |
| ArchiveTheorems.ArchiveFits | src-tauri/src/backup.rs:42-46 | an archive within the default entry, record and total limits, given as numbers, stays under 10 GiB with all overhead |
| ArchiveTheorems.BackupRoundTrip | src-tauri/src/backup.rs:397-502 | for every accepted source set, reading what was written restores the same path-to-bytes map, counts and master key |
| ArchiveTheorems.SealingsAreInjective | src-tauri/src/backup.rs:908-921 | nonce and associated data together bind header, key, index, type, length and contents |
| ArchiveTheorems.OnlyWrittenArchivesAreAccepted | src-tauri/src/backup.rs:558-723 | with any number of archives sealed under separate sessions, an accepted byte string is one of them, in its own mode and with a passphrase that derives its key: nothing can be spliced |
| ArchiveTheorems.OnlyTheWrittenArchiveIsAccepted | src-tauri/src/backup.rs:558-723 | with one archive sealed, no other byte string is accepted by any limits or mode, and that one only with a passphrase that derives its key |
| ArchiveTheorems.WrongPassphraseIsRefused | src-tauri/src/backup.rs:585-592 | an archive read with a passphrase that derives another key is refused as unauthentic |
| ArchiveTheorems.ArchiveLayout | src-tauri/src/backup.rs:427-501 | the records of a one-file portable archive, field by field: capsule, metadata, data, end record with both counts |
| ArchiveTheorems.SuchACipherExists | src-tauri/src/backup.rs:505-536 | for any archives, key derivation and digest there is an ideal cipher used for exactly those archives |
| ArchiveSources.CollectedSourcesAreGood | src-tauri/src/backup.rs:274-336 | whatever the vault tree holds, the collected entries form a source set that can be restored |
| ArchiveSources.TargetOfJoin | src-tauri/src/backup.rs:990-1004 | joining ordinary names and splitting again gives the names back, so distinct files get distinct targets |
| ArchiveSources.BackupOfAnyLedgerRestores | src-tauri/src/backup.rs:105-187 | end to end, for every database and vault tree within the limits: the restored tree is exactly the database and the vault files, with the master key |
| RestorePublication.Disk.ReadArchiveInto | src-tauri/src/backup.rs:558-723 | the record loop writes only below the staging directory and ends with the reader's tree, the reader's error or that of the disk |
| RestorePublication.Disk.Publish | src-tauri/src/backup.rs:207-220 | from the second existence check to the parent sync: the exact condition for the rename, every state on the way, and when something at the destination is replaced |
| RestorePublication.Disk.ReadAndPublish | src-tauri/src/backup.rs:205-226 | publication by one rename: every state on the way is untouched or complete, also when somebody else creates the destination before or after the second check |
| RestorePublication.Disk.Restore | src-tauri/src/backup.rs:189-272 | all or nothing in every state passed through, with the exact conditions for publication and success and the error of each failure; an existing destination is changed iff a late empty directory was replaced; staging stays only if cleaning up fails |
| RestorePublication.RestoredTreesAreNotEmpty | src-tauri/src/backup.rs:692-697 | an accepted archive restores at least one file |
| RestorePublication.PortableArchivesCarryAKey | src-tauri/src/backup.rs:702-711 | every accepted portable archive yields a master key |
| AccountGroups.PositionsAreConsecutive | src-tauri/src/account_groups_export.rs:187-206 | the positions in use in a household of n groups are exactly 0 to n - 1 |
| AccountGroups.EveryOrderCompletesIff | src-tauri/src/account_groups_export.rs:280-293 | an UPDATE as row writes completes in every order iff no selected row alone would land on another or below zero; otherwise an order is given whose first write is refused |
| AccountGroups.FirstShiftIsSafeFor | src-tauri/src/account_groups_export.rs:280-286 | for position k among n groups, the first shift is free of collisions iff n <= k + 1,000,001 |
| AccountGroups.FirstShiftIsSafeIff | src-tauri/src/account_groups_export.rs:280-286 | the first shift is free of collisions for every group iff the household has at most 1,000,001 groups |
| AccountGroups.SecondShiftIsSafeIff | src-tauri/src/account_groups_export.rs:287-293 | after it, the shift back is free of collisions iff k <= 1,000,001 |
| AccountGroups.DeletesInEveryOrderIff | src-tauri/src/account_groups_export.rs:274-293 | both shifts complete in every order of row writes iff n <= k + 1,000,001 and k <= 1,000,001 |
| AccountGroups.HighDeletionCollides | src-tauri/src/account_groups_export.rs:287-293 | beyond position 1,000,001 the shift back puts two groups on one position |
| AccountGroups.ListedWithout | src-tauri/src/account_groups_export.rs:255-295 | closing the gap leaves the list without the deleted group, the others in order |
| AccountGroups.ReorderedIsListed | src-tauri/src/account_groups_export.rs:307-345 | as many distinct ids as groups, each hitting a row, are all the groups, each at its index |
| AccountGroups.NextIsFree | src-tauri/src/account_groups_export.rs:327-342 | every single write of a reorder goes to a position nobody holds |
| AccountGroups.GroupTable.SetPosition | src-tauri/src/account_groups_export.rs:280-293 | one row write keeps positions unique or is refused |
| AccountGroups.GroupTable.Shift | src-tauri/src/account_groups_export.rs:280-293 | an UPDATE as single-row writes in some order: unique after each write, the whole selection moved, never refused when no row can land on another |
| AccountGroups.GroupTable.NextPosition | src-tauri/src/account_groups_export.rs:187-193 | the next position is the number of groups |
| AccountGroups.GroupTable.ReplaceMembers | src-tauri/src/account_groups_export.rs:400-423 | afterwards the group has exactly the given accounts in the given order |
| AccountGroups.GroupTable.Create | src-tauri/src/account_groups_export.rs:174-215 | appends to the household's list with its accounts in order, or fails with the right error and changes nothing |
| AccountGroups.GroupTable.Update | src-tauri/src/account_groups_export.rs:217-253 | renames and replaces the accounts without moving any group, or fails with the right error and changes nothing |
| AccountGroups.GroupTable.Delete | src-tauri/src/account_groups_export.rs:255-295 | removes one group with its accounts and keeps the order of the others; when it must succeed, when it cannot, and a failure changes nothing |
| AccountGroups.GroupTable.CloseGap | src-tauri/src/account_groups_export.rs:280-293 | the two shifts together lower exactly the positions above the gap by one |
| AccountGroups.GroupTable.Reorder | src-tauri/src/account_groups_export.rs:297-347 | succeeds iff the list names every group of the household once, and then gives each id its index; otherwise the error, and nothing changes |
| AccountGroups.GroupTable.AssignPositions | src-tauri/src/account_groups_export.rs:327-342 | one update per id, refused iff some id is no group of the household |
| CsvExport.Output.AppendRow | src-tauri/src/account_groups_export.rs:915-945 | pushes exactly the printed row, and fails iff the text with the row's fields exceeds the byte limit |
| CsvExport.GenerateCsv | src-tauri/src/account_groups_export.rs:583-614 | succeeds iff the whole file is within 33,554,432 bytes of UTF-8; what follows the byte order mark parses back to header and rows |
| CsvExport.QuotedExactlyWhen | src-tauri/src/account_groups_export.rs:922-935 | a field is quoted iff it has a comma, a double quote, a carriage return or a line feed, and is otherwise printed as it is |
| CsvExport.ByteLengthIsUtf8 | src-tauri/src/account_groups_export.rs:936-938 | the length that is checked is that of the encoded text |
| Bytes.Utf8Decodes | src-tauri/src/account_groups_export.rs:936-938 | the encoding counted gives the code point back and has continuation bytes only after the first |
| CsvExport.FieldRoundTrip | src-tauri/src/account_groups_export.rs:922-935 | any field, whatever its characters, is read back up to the following comma or line break |
| CsvExport.TableReadsBack | src-tauri/src/account_groups_export.rs:583-614 | what every table reads back as under section 2 of RFC 4180 |
| CsvExport.TableRoundTrip | src-tauri/src/account_groups_export.rs:583-614 | a table reads back unchanged iff every row has at least one field |
| AssetHistory.SnapshotStore.FindExisting | src-tauri/src/aggregate_asset_history.rs:219-235 | finds the first candidate by date or provenance in the query's order, or none |
| AssetHistory.SnapshotStore.ImportSnapshot | src-tauri/src/aggregate_asset_history.rs:215-278 | reuses, conflicts or inserts, as the decision against the store says |
| AssetHistory.SnapshotStore.ImportHistory | src-tauri/src/aggregate_asset_history.rs:140-213 | rejects invalid batches and unknown sources, otherwise imports the whole batch and returns a snapshot for each input, or changes nothing; keys stay unique and old rows stay |
| AssetHistory.SnapshotStore.ImportValidated | src-tauri/src/aggregate_asset_history.rs:192-213 | the transaction is the snapshots one after the other, rolled back on the first conflict |
| AssetHistory.ImportOneKeepsKeys | src-tauri/src/aggregate_asset_history.rs:215-278 | an import keeps one snapshot per date and per source row, and every old row |
| AssetHistory.DecisionUnchanged | src-tauri/src/aggregate_asset_history.rs:219-242 | rows created for unrelated inputs change neither the candidates nor the decision of an input |
| AssetHistory.BatchDecidesUpFront | src-tauri/src/aggregate_asset_history.rs:195-206 | the loop agrees with deciding every input against the first store: same success, rows and counts |
| AssetHistory.SnapshotsUpFront | src-tauri/src/aggregate_asset_history.rs:195-206 | the snapshot returned for each input is told from the first store: the reused row or the input's own |
| AssetHistory.SnapshotsAreStored | src-tauri/src/aggregate_asset_history.rs:195-212 | every returned snapshot is stored afterwards with the household, date, total and component values of its input, and with its identifier, document and source row when it was created |
| AssetHistory.OrderDoesNotMatter | src-tauri/src/aggregate_asset_history.rs:140-213 | permuting a valid batch gives the same outcome, store and counts, and each input the same snapshot |
| AssetHistory.ReimportReusesEverything | src-tauri/src/aggregate_asset_history.rs:140-213 | importing a batch again reuses every row, creates none, leaves the store unchanged and returns the same snapshots |
| AssetHistory.ReusedExactlyWhen | src-tauri/src/aggregate_asset_history.rs:219-242 | the exact condition for reuse: same date, total and, class by class, header and value, and the query's order among candidates |
| AssetHistory.MatchesExactly | src-tauri/src/aggregate_asset_history.rs:389-406 | a row matches an input iff date and total agree and both hold the same classes with the same headers and values |
| AssetHistory.DifferentContentsConflict | src-tauri/src/aggregate_asset_history.rs:238-242 | a chosen candidate that differs in date, total or a component makes the import a conflict |
| AssetHistory.ValidImportExactly | src-tauri/src/aggregate_asset_history.rs:408-457 | an import is valid iff its classes are distinct and it meets the constraints of the schema; the bound of ten components follows |
| AssetHistory.ValidBatchExactly | src-tauri/src/aggregate_asset_history.rs:140-180 | a batch is valid iff it has 1 to 1,200 valid imports for the household, no two for one date and no two from one source row |
| AssetHistory.ImportsSatisfyTheSchema | src-tauri/migrations/0021_aggregate_asset_history.sql:3-40 | every row the import inserts meets the constraints of the schema |
| SettlementCoverage.BalanceCoverage | src-tauri/src/card_settlement_mapping.rs:272-374 | the single pass gives each bank what filtering and folding gives it, the unmapped rows with their overdue marks, and the exact conditions of both errors |
| SettlementCoverage.AgreesAfterCharge | src-tauri/src/card_settlement_mapping.rs:320-363 | charging a row changes its own bank as the fold does and no other |
| SettlementCoverage.EndingBalanceClampsOnce | src-tauri/src/card_settlement_mapping.rs:340-344 | saturating step by step is one clamp of the exact balance; the largest shortfall is one clamp of the exact debt |
| SettlementCoverage.StatementIs | src-tauri/src/card_settlement_mapping.rs:337-363 | the i-th statement's balance, shortfall and status from the sum of the first i outstanding amounts |
| SettlementCoverage.StatementsFollow | src-tauri/src/card_settlement_mapping.rs:337-363 | for any amounts, the statements of a bank are a chain: each balance is the one before less the amount outstanding, kept within 64 bits, with its shortfall and status; the largest shortfall is one of them |
| SettlementCoverage.BankMatchesDefinition | src-tauri/src/card_settlement_mapping.rs:298-364 | every figure of a bank from the exact definition, and the largest shortfall equals the last statement's |
| SettlementCoverage.StatusesAreOrdered | src-tauri/src/card_settlement_mapping.rs:345-351 | within a bank the statuses read overdue, then covered, then shortfall |
| SettlementCoverage.EveryRowLandsOnce | src-tauri/src/card_settlement_mapping.rs:298-316 | every row is listed exactly as often as it occurs, in its own bank or among the unmapped |
| BrokerageEvents.CheckLegs | src-tauri/src/brokerage.rs:541-555 | the leg loop accepts iff legs are well-formed with distinct ids, and sums one exact balance per currency |
| BrokerageEvents.ValidateEvent | src-tauri/src/brokerage.rs:395-607 | accepts iff header, terms, legs, balances and the legs demanded by the type are right |
| BrokerageEvents.ValidateBatch | src-tauri/src/brokerage.rs:374-393 | accepts iff every event is accepted and ids and source rows are distinct |
| BrokerageAcceptance.AcceptedExactly | src-tauri/src/brokerage.rs:395-607 | an event is accepted iff header, amounts, terms, leg list, balance in every currency and the legs of its type are as listed |
| BrokerageAcceptance.AcceptedBatchExactly | src-tauri/src/brokerage.rs:374-393 | a batch is accepted iff it names its scope and all its events are accepted, no two with one identifier and no two from one source row |
| BrokerageAcceptance.LegsExactly | src-tauri/src/brokerage.rs:556-601 | for every event type: the legs demanded, as the kind the value flows from and the kind it flows to, with the amounts required beside them |
| BrokerageAcceptance.ExchangesExactly | src-tauri/src/brokerage.rs:572-589 | splits and spin-offs demand exactly two security legs, one giving up and one receiving a quantity, and no amounts |
| BrokerageAcceptance.MergerShapeExactly | src-tauri/src/brokerage.rs:666-744 | the legs a merger demands, leg by leg: instrument, currency, sign, ratio and cash within a millionth |
| BrokerageAcceptance.WhitespaceIs | src-tauri/src/brokerage.rs:412-421 | the characters that count as blank |
| BrokerageAcceptance.CurrencyIs | src-tauri/src/brokerage.rs:802-804 | a currency is three ASCII capital letters |
| BrokerageMergers.MergerTermsExactly | src-tauri/src/brokerage.rs:609-662 | merger terms are valid iff named target, valid currencies, cash terms all or none, and exchange rates present iff the currencies differ |
| BrokerageMergers.TermsExactly | src-tauri/src/brokerage.rs:453-528 | the rejecting clauses together accept exactly one table of terms per event type |
| BrokerageMergers.NegativeRatioIsAccepted | src-tauri/src/brokerage.rs:461-464 | a concrete accepted purchase that carries a negative corporate-action ratio |
| BrokerageMergers.MergerLegsExactly | src-tauri/src/brokerage.rs:664-744 | merger legs are valid iff, up to order, they are one source and one target with matching quantities, plus with cash terms one cash leg and its offset |
| BrokerageMergers.AcceptedMerger | src-tauri/src/brokerage.rs:395-607 | an accepted merger has exact terms, the exact legs, no amounts and a positive ratio |
| BrokerageTotals.CalculateTotals | src-tauri/src/brokerage.rs:337-372 | the nested loops give, for exactly the currencies mentioned, the sum of each event's share |
| BrokerageTotals.TotalsOfConcatenation | src-tauri/src/brokerage.rs:337-372 | totals of a concatenation are the pointwise sum of the totals |
| BrokerageTotals.TotalsAreSums | src-tauri/src/brokerage.rs:348-360 | each total of a history is the sum of one figure over the events of certain types; fees and taxes add the gross amount of events that state none |
| BrokerageTotals.CashIsConserved | src-tauri/src/brokerage.rs:541-607 | for every accepted history and currency, net cash offsets all other legs within the tolerance per event with legs in the currency |
| BrokerageTotals.AcceptedShare | src-tauri/src/brokerage.rs:341-360 | an accepted event's share: nothing negative but cash, fees and taxes counted once, corporate-action amounts as in the terms, none for the others |
| BrokerageTotals.HistoryTotalsAreNonNegative | src-tauri/src/brokerage.rs:337-372 | over every accepted history no total but the net cash movement is negative |
| BrokerageTotals.MergerTotals | src-tauri/src/brokerage.rs:337-372 | an accepted merger moves exactly the cash of its terms, within the tolerance, and adds nothing else |
| GmailScheduler.StepKeepsInvariant | src-tauri/src/gmail_scheduler.rs:24-47 | every action keeps mutual exclusion, no lost stop, at most one further lease, and join after exit |
| GmailScheduler.EveryRunIsSafe | src-tauri/src/gmail_scheduler.rs:67-106 | these hold after every interleaving, with timeouts, spurious wake-ups and panics |
| GmailScheduler.WorksExactlyWhileLeased | src-tauri/src/gmail_scheduler.rs:78-86 | after every run a synchronisation is running iff a lease was granted and the work has not ended since |
| GmailScheduler.AtMostOneClaimAfterStop | src-tauri/src/gmail_scheduler.rs:30-47 | in every run at most one lease is claimed after the flag was set |
| GmailScheduler.NothingAfterReturn | src-tauri/src/gmail_scheduler.rs:67-76 | in every run nothing happens after `drop` has returned |
| GmailScheduler.ShutdownIsBounded | src-tauri/src/gmail_scheduler.rs:24-47 | after the flag is set at most ten more actions are possible, whatever the scheduler does |
| GmailScheduler.DropNeverGetsStuck | src-tauri/src/gmail_scheduler.rs:67-76 | while dropping, some action is possible without waiting for the interval |
| GmailScheduler.EveryShutdownEnds | src-tauri/src/gmail_scheduler.rs:67-76 | a run from the stop that cannot go on has ended with the worker gone and `drop` returned |
| RefreshPolling.CancelStopsEverything | src/App.tsx:3403-3412 | after a cancel no timer is pending, nobody sleeps and no task of the old generation is live |
| RefreshPolling.EffectsEstablish | src/App.tsx:3413-3423 | the effects establish the invariant from any state whose timers are owned |
| RefreshPolling.EffectsStartAfresh | src/App.tsx:3413-3488 | the effects of a household change show no batch of the old household and make every old task stale |
| RefreshPolling.UnmountEndsEverything | src/App.tsx:3419-3422 | after unmounting no timer, sleeper or live task is left, and none appears in any later run |
| RefreshPolling.WaitKeeps | src/App.tsx:3425-3435 | a live task that waits owns the only timer |
| RefreshPolling.AcceptKeeps | src/App.tsx:3490-3503 | accepting a started refresh makes its task the only live one of the new generation |
| RefreshPolling.StepKeepsInvariant | src/App.tsx:3403-3513 | every reply, click, timer, render of another household, run of effects and unmounting keeps the invariant |
| RefreshPolling.EveryRunIsSafe | src/App.tsx:3403-3513 | over all interleavings: one live task at most, in-flight exactly while there is one, every shown batch fetched for the household rendered when its task started, one timer owned by its sleeper |
| RefreshPolling.PollingGoesOnExactlyWhileRunning | src/App.tsx:3437-3457 | after every run: a live task waits to poll only after an error or for a batch shown running, reloads only after a finished one, and no running batch is shown while nothing is in flight |
| RefreshPolling.LiveTaskGoesOn | src/App.tsx:3459-3513 | which batch a live task polls next, exactly when it ends, and what ending and failing show |
| RefreshPolling.EffectsComeBeforeRenders | src/App.tsx:3413-3423 | after every run: effects that are due come before any further render or unmounting |
| RefreshPolling.ShownBatchBelongsIff | src/App.tsx:3413-3455 | after every run a shown batch belongs to the rendered household iff no effects are due or its task started under the present render |
| RefreshPolling.LateReplyShowsOldHousehold | src/App.tsx:3413-3475 | a run in which a reply between render and effects shows a batch of the old household |
| RefreshPolling.StaleTasksAreInert | src/App.tsx:3437-3513 | a task of an older generation changes nothing but its own position and ends after at most two more steps |
| RefreshPolling.TasksAreNotStuck | src/App.tsx:3425-3457 | an unfinished task can continue or sleeps, in the current generation, on a pending timer |
| RefreshPolling.SleepersWake | src/App.tsx:3425-3435 | the sleeper's timer is the only one pending, and firing it wakes the sleeper |
| Journal.EditorRunsStayInShape | src/App.tsx:786-793 | however the split editor is used, its rows stay on the split's side and in its category accounts |
| Journal.EditExactly | src/App.tsx:786-793 | what each action of the split editor shows, row by row, and when it is offered |
| Journal.EditorKeepsTwoRows | src/App.tsx:786-793 | two rows of distinct identifiers or more stay two or more |
| Journal.EditorOpensOnTheCategory | src/App.tsx:787 | the editor opens on the entries of the category with their total, and never on a single row |
| Journal.SplitAppliesExactly | src/App.tsx:788-790 | a split applies iff there are two complete rows or more, in the category, with its total |
| Journal.SplitKeepsTotals | src/App.tsx:882-886 | every valid split keeps the debit and the credit total |
| Journal.SplitReplacesTheCategory | src/App.tsx:869-886 | after a split the category consists of exactly the rows and everything else is as it was, in order |
| Journal.RecategoriseExactly | src/App.tsx:975-987 | which entries a recategorisation moves, that it changes nothing else, and the exact conditions of both errors |
| Journal.RecategoriseByType | src/App.tsx:975-987 | type by type: which side and kind of account a recategorisation moves, and that it succeeds iff one such entry is elsewhere |
| Journal.RecategoriseAndBack | src/App.tsx:975-987 | going back restores the journal iff the category was one account |
| Journal.RuleAppliesExactly | src/App.tsx:1299-1309 | a rule applies iff the type allows it, exactly one entry is in an expense account, it is on the side of the type, and the target is an expense account |
| Journal.RuleMovesTheExpenseEntry | src/App.tsx:1299-1316 | a rule moves the one expense entry, and others stay iff none shares its identifier |
| Journal.EditsKeepTotals | src/App.tsx:869-995 | any sequence of splits, recategorisations and rules keeps both totals, so balance is kept |
| Journal.EditsLeaveTheRestIff | src/App.tsx:869-995 | every sequence of these edits leaves all entries outside the category as they were iff, at the start, none shares the identifier of the entry a rule would move |
| Journal.DistinctIdentifiersAreSafe | src/App.tsx:1306-1316 | that holds in particular when all identifiers differ |
| Journal.SharedIdentifierExample | src/App.tsx:1306-1316 | a balanced journal for the failing side: a rule turns its cash entry into an expense |
| Journal.RunsWithoutSplitMoveAccountsOnly | src/App.tsx:975-995 | sequences without a split keep every entry's identifier, side and amount, in order |
| Journal.SavableStaysSavable | src/App.tsx:935-938 | a journal that passes the guard of saving still passes it after any sequence of these edits |

## Left out

- Argon2, XChaCha20-Poly1305, SHA-256 and the random source are uninterpreted; collisions of the digest, nonce reuse across
  archives and zeroing of secrets are not modelled.
- Operating-system behaviour of backups: symbolic links, directory synchronisation beyond success or failure, publishing a
  written archive with its hard-link fallback, and case-insensitive file systems. Somebody else may create the destination of
  a restore once before and once after the second existence check, but does not write into it afterwards.
- Source files are taken not to change between hashing and writing; the writer's error when a file has shrunk is modelled.
- `collect_entries` sorts the entries by path; the order is irrelevant to every theorem and not modelled.
- ArchiveSources.CollectedSourcesAreGood: names a file system hands out are modelled as byte strings; names that are no UTF-8 are rejected by the source and excluded by the premise.
- RestorePublication.Disk.Restore: a path such as `vault/objects/x/` passes validation but names no file; it is modelled as the error the file system gives.
- Group kinds, timestamps and identifier, name and date formats; names are taken as already trimmed, and the accounts a household has are an argument.
- The export queries behind the CSV rows; the printer is modelled for every table of strings.
- AssetHistory.SnapshotStore.ImportHistory: identifiers are numbers that stand for their place in the query's order; identifier and date formats and failures of the database itself are not modelled.
- SettlementCoverage.BalanceCoverage: takes the rows of the two queries and the banks' balances as arguments; the queries enter only as the promise that rows are ordered by due date with something left to pay. Dates are day numbers, and banks are a map rather than a sorted list.
- Brokerage amounts are real numbers: IEEE rounding, overflow and the finiteness checks are not modelled. Dates are days or malformed, and event types, leg kinds and statuses are constructors with one for every other text.
- BrokerageTotals.CashIsConserved: bounds the sum by the tolerance per event; it says nothing about rounding in the sums themselves.
- GmailScheduler.EveryRunIsSafe: one action stands for the whole of a claimed synchronisation; the lease protocol in the database and poisoning of the mutex, which no thread can cause while holding it, are not modelled.
- RefreshPolling.EveryRunIsSafe: updates of rendered state take effect at once, effects that are due run before a further render, and disconnecting a connector and reloading summaries are left out. The desktop runtime is assumed.
- Journal.EditsKeepTotals: amounts are exact numbers, so the loss of precision above 2^53 is not modelled; direct edits of journal lines, which may unbalance a journal until saving is refused, are left out.
- The remaining screens, localisation, static data, PDF and workbook drawing, migrations and command wrappers.
