# encryptedCloudBackups: the deduplicating ingest ledger and its upload pass

This project models, in Dafny, the part of `encryptedCloudBackups` that
decides what gets backed up.

- **The local index.** The SQLite table `files` holds one row per distinct
  file content. Each row has an AUTOINCREMENT id, the path, the name, the
  size, the lowercase hex SHA-256 digest, a per-file 32-byte AES key, and an
  `uploaded` flag.
- **The scan.** The callback `main` hands to `filepath.Walk` hashes every
  entry that is not a directory. It skips the file when the digest is already indexed.
  Otherwise it draws a fresh key and inserts a pending row. Only an error
  reported by the traversal itself ends the walk, and that error is fatal.
- **The upload pass.** `processUploads` takes one snapshot of the pending
  rows. For each row in order it uploads the file under its own path with
  the stored key. It flags the row only after a reported success, and it
  stops at the first error.

Modules:

- `Common` (common.dfy): bytes, `int64`, errors, `Option` and `Result`.
- `Hashing` (hashing.dfy): the `%x` rendering of a digest and the 32-byte
  key.
- `Ledger` (ledger.dfy): the table, its rows, and the four statements run
  against it. They are methods of the class `Database`, which holds the rows
  and the AUTOINCREMENT counter. Each method is specified by a function on
  the table.
- `Scanner` (scanner.dfy): the walk callback and the walk. The imperative
  `VisitEntry` and `Walk` are proved against `AfterEntry` and `WalkSpec`.
- `Uploader` (uploader.dfy): `processUploads`. The method is proved against
  `UploadFrom`.
- `Backup` (backup.dfy): the sequence `main` runs after opening the
  database.

Every outside effect is a parameter:

- The traversal is a sequence of `Entry` values. Each entry carries the
  outcomes of hashing, of the random source, and of the storage engine for
  that file.
- Each table statement takes the storage fault it may hit.
- The upload client is a reply function indexed by the position of the row
  in the snapshot.

Two facts of the code shape what is proved:

- The schema in main.go:39-48 has no UNIQUE constraint on the digest, and no
  insert path handles a repeated digest. Distinct digests hold only because
  of the check at main.go:69-78. `Scanner.SchemaAcceptsDuplicateDigests`
  shows that the table alone accepts a duplicate.
- Once the database is open and the table exists, storage errors are not
  fatal, except a failed listing in `main` (main.go:101-104). Opening the
  database and creating the table end the run on failure (main.go:33-35,
  main.go:51-53); those steps are not part of this model.
  - A failed existence check skips the file (main.go:70-73).
  - A failed insert is logged, and the walk goes on (main.go:86-89).
  - A failed listing inside `processUploads` is discarded (upload.go:9).
  - A failed flag update ends the upload pass with its error, which `main`
    only logs (upload.go:13-17, main.go:119-121).

## Model

| member | source | states |
|---|---|---|
| Hashing.HashFileSHA256 | main.go:125-138 | On a hashing failure the result is `""` with that error. Otherwise it is 64 lowercase hex characters that read back to exactly the digest, with no error. |
| Hashing.Hex | main.go:137 | `%x` writes two characters per byte, all of them lowercase hex digits. |
| Hashing.UnhexHex | main.go:137 | `%x` loses nothing: reading the text back as hex gives the original bytes, for every byte sequence. |
| Hashing.HexInjective | main.go:137 | Two byte sequences render to the same text if and only if they are equal, so comparing digests as text is comparing them as bytes. |
| Hashing.GenerateAESKey | main.go:141-149 | It succeeds exactly when the random source does. The key is then exactly the 32 bytes read. On failure there is no key, and the random source's error is returned. |
| Ledger.ContainsDigest | main.go:159-164 | The existence query is true if and only if some row has exactly that digest text. |
| Ledger.Pending | main.go:168 | The pending query returns no more rows than the table holds, and every row it returns has `uploaded = 0`. |
| Ledger.PendingMembers | main.go:168 | A row is in the result of the pending query if and only if it is in the table and its flag is 0. |
| Ledger.PendingKeepsOrder | main.go:168-183 | The pending rows come in table order: increasing ids in the table give increasing ids in the result. |
| Ledger.PendingIsFilter | main.go:168-183 | The `i`-th table row, when pending, appears in the result right after the pending rows that precede it. The result is the order-preserving filter of the table. |
| Ledger.NothingPending | main.go:168 | When every flag is set, the pending query returns nothing. |
| Ledger.MarkUploaded | database.go:9-10 | The update keeps the number of rows. The row with that id gets `uploaded = 1`, and every other row and every other field stays as it was. |
| Ledger.MarkUploadedIdempotent | database.go:9 | Setting the flag twice for an id gives the same table as setting it once. |
| Ledger.MarkUploadedMonotone | database.go:9 | The update never turns a set flag back to 0 and changes no field other than the flag. |
| Ledger.MarkUploadedAbsent | database.go:9-14 | An id that matches no row changes nothing. |
| Ledger.MarkUploadedKeepsInvariants | database.go:9 | The update keeps the table well formed: ids increasing and bounded by the counter, flags 0 or 1. It also keeps digests distinct when they were distinct. |
| Ledger.PendingAfterMark | database.go:9 | After the update, the pending rows are exactly the previously pending rows whose id differs from the one marked. |
| Ledger.UpdateError | database.go:11-12 | The wrapped error is longer than the storage error it wraps. |
| Ledger.UpdateErrorKeepsCause | database.go:12 | The wrapped message ends with the storage error's own message, and two wrapped errors are equal if and only if their causes are, so the cause is never lost. |
| Ledger.ReadError | main.go:169-187 | The listing fails if and only if the query fails, the iteration fails, or the Scan of a row the loop actually reaches fails. The error it reports is the one that occurred. |
| Ledger.Insert | main.go:152-156 | An insert with no storage fault, while ids remain, appends exactly one row. It holds the given path, name, size, digest and key, `uploaded = 0`, and the next AUTOINCREMENT id, which is above every existing id. On any error nothing changes. The table stays well formed. |
| Ledger.Database.constructor | main.go:39-48 | A newly created index has no rows and has handed out no id. |
| Ledger.Database.HashExistsInDB | main.go:159-164 | It returns the storage error unchanged. The answer is true exactly when the query ran and some row has the digest. |
| Ledger.Database.InsertFileInfo | main.go:152-156 | The new table and the error are those given by `Insert` on the old table. |
| Ledger.Database.GetUnuploadedFiles | main.go:167-190 | The error is the one the fault produces for a query of that many rows. Without error, the files are exactly the pending rows in table order. With an error they are empty. The table is not changed. |
| Ledger.Database.SetUploaded | database.go:8-15 | On a storage fault the rows are unchanged, and the error is the fault wrapped as "failed to update uploaded column: ...". Otherwise the rows are `MarkUploaded` of the old rows and no error is returned. The id counter is unchanged. |
| Scanner.Classify | main.go:56-92 | Each entry gets exactly one outcome, and each outcome is stated as an if-and-only-if. The outcomes are: a traversal error when one was reported; a directory; a hashing failure; a failed existence check; a duplicate when the digest is indexed; a key failure; an insert failure when the insert hits a storage fault or the ids are exhausted; otherwise a registration. A registered row holds the entry's path, name, size, hex digest and key, with the next id and `uploaded = 0`. Each failure outcome carries the error that caused it. |
| Scanner.FaultsSkipTheEntry | main.go:61-91 | For an entry without a traversal error, each of these leaves the table unchanged and returns nil, so the walk goes on: being a directory, a hashing failure, a storage error in the existence check, a key failure, a storage error in the insert. |
| Scanner.AfterEntry | main.go:56-92 | The callback returns exactly the traversal error it was given. It only ever appends, at most one row. It keeps the table well formed and never lowers the id counter. |
| Scanner.WalkSpec | main.go:56-96 | The walk only appends rows, keeps the table well formed, and returns an error only if some entry reported it. |
| Scanner.VisitEntry | main.go:56-92 | The callback on the database gives the table and the return value of `AfterEntry`. |
| Scanner.Walk | main.go:56-96 | The walk on the database gives the table and the error of `WalkSpec`. It keeps the old rows as a prefix and keeps digests distinct. |
| Scanner.DuplicateLeavesTableUnchanged | main.go:69-78 | A regular file whose digest is already in the table is classified as a duplicate. The table is unchanged and the callback returns nil. |
| Scanner.SkipsLeaveTableUnchanged | main.go:61-91 | Every outcome but a registration leaves the table unchanged. A registration appends exactly its row. The callback returns an error if and only if the traversal reported one. |
| Scanner.EntryKeepsDigestsDistinct | main.go:69-86 | One callback keeps the digests pairwise distinct. |
| Scanner.WalkKeepsDigestsDistinct | main.go:69-86 | A whole walk keeps the digests pairwise distinct when they were distinct at the start. |
| Scanner.SchemaAcceptsDuplicateDigests | main.go:40-48 | The insert succeeds on a digest that is already present and leaves duplicate digests, because the schema has no UNIQUE constraint. |
| Scanner.WalkAppendsFreshPendingRows | main.go:41 | Every row a walk adds has an id above the counter before the walk, is pending, and carries a 32-byte key and a 64-character digest. |
| Scanner.WalkStopsAtFirstError | main.go:56-59 | The first traversal error ends the walk with that very error. The table is the one reached at that point, and later entries are never visited. |
| Scanner.WalkWithoutTraversalErrorSucceeds | main.go:56-92 | A walk in which the traversal reports no error returns nil, whatever else fails. |
| Scanner.KnownEntriesRegisterNothing | main.go:61-78 | A walk over directories, unhashable files and already indexed content leaves the table unchanged. |
| Scanner.CleanWalkKnowsEveryEntry | main.go:61-89 | After a walk in which nothing fails, the digest of every file in it is indexed. |
| Scanner.RescanRegistersNothing | main.go:56-92 | Scanning the same tree again after a clean scan registers nothing. |
| Scanner.CleanNewFileRegisters | main.go:80-86 | A file with new content, for which nothing fails, becomes a pending row under the next id, with its path, its base name, its size, its hex digest and its own key. |
| Scanner.KnownContentSkipped | main.go:69-78 | A file whose content is indexed leaves the table unchanged, whatever its path. |
| Scanner.DuplicateContentScenario | main.go:56-92 | Files `files/A` and `files/B` with equal content and `files/C` with other content give two rows: A with id 1 and C with id 2, each with its path and base name. B is skipped. |
| Uploader.ClientReply | gcs.go:57-96 | The client replies either `(true, nil)` or `(false, err)` with a non-nil error, and nothing else. |
| Uploader.CallFor | upload.go:11 | The call for a row writes to the bucket `starlight-fusion`, with the row's path as both object name and file path and the row's stored key bytes as the secret key. |
| Uploader.Snapshot | upload.go:9 | The pass works on either the pending rows or, when the listing fails, on nothing. |
| Uploader.UploadFrom | upload.go:10-24 | The pass succeeds if and only if it returns no error. It keeps the number of rows. It makes one call per attempted row, every row when it succeeds, and at least one call when it fails. |
| Uploader.UploadAll | upload.go:10-24 | The loop on the database gives the rows, the result and the calls of `UploadFrom`, and keeps the table well formed. |
| Uploader.ProcessUploads | upload.go:8-25 | The rows, the result and the calls are those of `UploadFrom` over the snapshot of the table as it was. The id counter is unchanged. |
| Uploader.UploadCallsFollowSnapshot | upload.go:10-11 | The calls follow the snapshot in order, one per row from the first. Each uses the bucket, the row's path as both object name and file path, and the row's stored key. |
| Uploader.UploadChangesOnlyConfirmedRows | upload.go:10-18 | Every row the pass changes is a flag flip on a row whose id belongs to an attempted snapshot row. That row's upload reported success and its flag update succeeded. Every other row keeps all of its fields. |
| Uploader.UploadStopsAtFirstError | upload.go:10-24 | A successful pass went through every call. A failed pass went through every call before its last one, and the last did not go through. Its error is the wrapped flag-update error when the upload succeeded but the update failed; otherwise it is the upload's own error. |
| Uploader.CompletePassMarksSnapshot | upload.go:10-24 | With replies the real client gives, a pass returning `(true, nil)` has flagged every table row whose id is that of a snapshot row. |
| Uploader.CompletePassClearsBacklog | upload.go:8-25 | With replies the real client gives, after a pass over the pending rows returns `(true, nil)`, nothing is pending. |
| Uploader.FailedRowStaysPending | upload.go:12-22 | The row whose upload failed without reported success is left exactly as it was and is still pending. |
| Uploader.ListingFailureReportsSuccess | upload.go:9-24 | When the listing fails, the pass makes no call, changes nothing and still returns `(true, nil)`. |
| Uploader.SilentFailureStillReportsSuccess | upload.go:11-24 | A reply `(false, nil)` lets the loop go on without flagging the row, and the pass returns `(true, nil)` with the row still pending. |
| Backup.RunSpec | main.go:27-122 | A run keeps the table well formed and never lowers the counter. A fatal exit leaves the table as the walk left it. |
| Backup.UploadKeepsWellFormed | upload.go:10-23 | An upload pass keeps the table well formed, and keeps digests distinct when they were distinct. |
| Backup.RunBackup | main.go:55-121 | A run on the database gives the table and the exit of `RunSpec`. |
| Backup.TraversalErrorIsFatal | main.go:94-96 | A traversal error ends the run through `log.Fatal` with that error, after only the entries before it, and with no upload. |
| Backup.RunKeepsDigestsDistinct | main.go:56-121 | A whole run keeps the digests pairwise distinct. |
| Backup.RunOnlyAppendsAndFlags | main.go:55-121 | A whole run never deletes a row, and every row indexed before the run is either unchanged or the same row with `uploaded = 1`, so its path, digest and key never change. |
| Backup.CleanRunLeavesNothingPending | main.go:94-121 | A run with no traversal error, working listings, and every upload and flag update succeeding ends normally with nothing pending, whatever failed for individual files during the scan. |

## Left out

- SQLite itself is not modelled: `sql.Open`, the driver, `CREATE TABLE` and `defer db.Close()` (main.go:31-53). The table is a sequence of rows plus the AUTOINCREMENT counter. Each statement's failure inside the engine is a parameter.
- The operating-system traversal of `filepath.Walk` is not modelled. Its callbacks are a given sequence of entries.
- SHA-256 and `crypto/rand` are oracles: an entry carries the digest or the error, and the key block or the error. Only the hex rendering and the 32-byte key are modelled.
- The network behaviour of the Google Cloud Storage client `uploadEncryptedFile` (gcs.go) is not modelled. Its reply is a parameter, limited to the replies gcs.go:57-96 can give (`Uploader.ClientReply`). The calls made to it are an output of the pass (`Uploader.CallFor`). The 50-second timeout, customer-supplied-key encryption and the remote bucket are not modelled. That includes the object-exists precondition of gcs.go:77, so a retry after a failed flag update is not shown to be rejected.
- Logging and printing are not modelled: main.go:64-88, main.go:98, the listing printed at main.go:106-110, upload.go:15 and upload.go:20. The listing at main.go:101-104 is kept only because its failure ends the run.
- The commented-out goroutine (main.go:112-117) and the commented-out old client in gcs.go are not modelled.
- The key column is a BLOB read back into a Go string and converted to bytes again. The model keeps the bytes throughout, because a Go string holds arbitrary bytes unchanged.
- The pending query (main.go:168) has no ORDER BY. The model returns its rows in table order, as SQLite's plain scan of a rowid table does; the upload order proved in `Uploader` rests on that assumption.
- Concurrency is not modelled: the program runs its steps one after another.
- Uploader.CompletePassMarksSnapshot: assumes every reply is one the real client gives, `(true, nil)` or `(false, err)` with an error. With a `(false, nil)` reply the pass can return `(true, nil)` without flagging the row, as `Uploader.SilentFailureStillReportsSuccess` shows.
- Uploader.CompletePassClearsBacklog: assumes the same client replies.
- Uploader.FailedRowStaysPending: assumes the snapshot's ids are increasing, as they are for a snapshot of a well-formed table.
- Scanner.CleanWalkKnowsEveryEntry: also assumes ids remain for every entry, that is, the counter plus the number of entries stays within 64 bits.
