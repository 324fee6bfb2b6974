/** One invocation of the program (`main`, main.go:27-122) against an open
    index: scan the tree, list the backlog, then run the upload pass.  Schema
    creation and the printing of the backlog are not part of the model; the
    listing is kept because its failure ends the run. */
module Backup {
  import opened Common
  import opened Ledger
  import opened Scanner
  import opened Uploader

  /** How a run ends: `log.Fatal` (exit status 1) with the error, or a normal
      return, after which an upload error has only been logged. */
  datatype Exit = Fatal(e: Error) | Finished(uploadErr: Option<Error>)

  /** The whole run against table `t`.  `listFault` is the storage fault of
      the listing in `main`; `snapshotFault` that of the listing inside
      `processUploads`. */
  function RunSpec(t: Table, entries: seq<Entry>, listFault: ReadFault, snapshotFault: ReadFault,
                   reply: nat -> Reply, markFault: nat -> Option<Error>): (r: (Table, Exit))
    requires WellFormed(t)
    ensures WellFormed(r.0) && r.0.lastId >= t.lastId
    ensures r.1.Fatal? ==> r.0 == WalkSpec(t, entries).0
  {
    var (scanned, walkErr) := WalkSpec(t, entries);
    if walkErr.Some? then (scanned, Fatal(walkErr.value))
    else
      var listErr := ReadError(listFault, |Pending(scanned.rows)|);
      if listErr.Some? then (scanned, Fatal(listErr.value))
      else
        var p := UploadFrom(scanned.rows, Snapshot(scanned.rows, snapshotFault), 0, reply, markFault);
        UploadKeepsWellFormed(scanned, Snapshot(scanned.rows, snapshotFault), 0, reply, markFault);
        (Table(p.rows, scanned.lastId), Finished(p.err))
  }

  /** An upload pass only flips flags, so the table stays well formed. */
  lemma UploadKeepsWellFormed(t: Table, snap: seq<FileInfo>, k: nat, reply: nat -> Reply, markFault: nat -> Option<Error>)
    requires WellFormed(t) && k <= |snap|
    ensures WellFormed(Table(UploadFrom(t.rows, snap, k, reply, markFault).rows, t.lastId))
    ensures DistinctDigests(t.rows) ==> DistinctDigests(UploadFrom(t.rows, snap, k, reply, markFault).rows)
  {
    UploadChangesOnlyConfirmedRows(t.rows, snap, k, reply, markFault);
    var rows := UploadFrom(t.rows, snap, k, reply, markFault).rows;
    assert forall i :: 0 <= i < |rows| ==> rows[i].id == t.rows[i].id && rows[i].sha256 == t.rows[i].sha256
                                           && IsFlag(rows[i].uploaded);
  }

  /** `main` after the database is open. */
  method RunBackup(db: Database, entries: seq<Entry>, listFault: ReadFault, snapshotFault: ReadFault,
                   reply: nat -> Reply, markFault: nat -> Option<Error>) returns (exit: Exit)
    requires db.Valid()
    modifies db
    ensures db.Valid()
    ensures (db.State(), exit) == RunSpec(old(db.State()), entries, listFault, snapshotFault, reply, markFault)
  {
    var err := Walk(db, entries);
    if err.Some? {
      return Fatal(err.value);
    }
    var unuploadedFiles, listErr := db.GetUnuploadedFiles(listFault);
    if listErr.Some? {
      return Fatal(listErr.value);
    }
    var ok, uploadErr, calls := ProcessUploads(db, snapshotFault, reply, markFault);
    return Finished(uploadErr);
  }

  /** A traversal error is fatal: the run ends with that very error, the
      entries after it are not scanned and nothing is uploaded. */
  lemma TraversalErrorIsFatal(t: Table, entries: seq<Entry>, listFault: ReadFault, snapshotFault: ReadFault,
                              reply: nat -> Reply, markFault: nat -> Option<Error>, k: nat)
    requires WellFormed(t)
    requires k < |entries| && entries[k].walkErr.Some?
    requires forall j :: 0 <= j < k ==> entries[j].walkErr.None?
    ensures RunSpec(t, entries, listFault, snapshotFault, reply, markFault) ==
      (WalkSpec(t, entries[..k]).0, Fatal(entries[k].walkErr.value))
  {
    WalkStopsAtFirstError(t, entries, k);
  }

  /** A run keeps the content digests distinct if they were distinct. */
  lemma RunKeepsDigestsDistinct(t: Table, entries: seq<Entry>, listFault: ReadFault, snapshotFault: ReadFault,
                                reply: nat -> Reply, markFault: nat -> Option<Error>)
    requires WellFormed(t) && DistinctDigests(t.rows)
    ensures DistinctDigests(RunSpec(t, entries, listFault, snapshotFault, reply, markFault).0.rows)
  {
    WalkKeepsDigestsDistinct(t, entries);
    var (scanned, walkErr) := WalkSpec(t, entries);
    if walkErr.None? && ReadError(listFault, |Pending(scanned.rows)|).None? {
      UploadKeepsWellFormed(scanned, Snapshot(scanned.rows, snapshotFault), 0, reply, markFault);
    }
  }

  /** A run never deletes a row, and the only change it makes to a row that
      was already indexed is to set its flag: path, digest and key stay as
      they were stored. */
  lemma RunOnlyAppendsAndFlags(t: Table, entries: seq<Entry>, listFault: ReadFault, snapshotFault: ReadFault,
                               reply: nat -> Reply, markFault: nat -> Option<Error>)
    requires WellFormed(t)
    ensures var r := RunSpec(t, entries, listFault, snapshotFault, reply, markFault).0;
      && |t.rows| <= |r.rows|
      && forall i :: 0 <= i < |t.rows| ==> r.rows[i] == t.rows[i] || r.rows[i] == t.rows[i].(uploaded := 1)
  {
    var (scanned, walkErr) := WalkSpec(t, entries);
    assert forall i :: 0 <= i < |t.rows| ==> scanned.rows[i] == t.rows[i];
    if walkErr.None? && ReadError(listFault, |Pending(scanned.rows)|).None? {
      UploadChangesOnlyConfirmedRows(scanned.rows, Snapshot(scanned.rows, snapshotFault), 0, reply, markFault);
    }
  }

  /** A run whose traversal reports no error, whose listings succeed and in
      which every upload and flag update succeeds ends normally with nothing
      left pending, whatever happened to individual files during the scan. */
  lemma CleanRunLeavesNothingPending(t: Table, entries: seq<Entry>, reply: nat -> Reply, markFault: nat -> Option<Error>)
    requires WellFormed(t)
    requires forall j :: 0 <= j < |entries| ==> entries[j].walkErr.None?
    requires forall j :: 0 <= j < |Pending(WalkSpec(t, entries).0.rows)| ==> reply(j) == Reply(true, None) && markFault(j).None?
    ensures RunSpec(t, entries, NoFault, NoFault, reply, markFault).1 == Finished(None)
    ensures Pending(RunSpec(t, entries, NoFault, NoFault, reply, markFault).0.rows) == []
  {
    WalkWithoutTraversalErrorSucceeds(t, entries);
    var scanned := WalkSpec(t, entries).0;
    var snap := Pending(scanned.rows);
    UploadStopsAtFirstError(scanned.rows, snap, 0, reply, markFault);
    var p := UploadFrom(scanned.rows, snap, 0, reply, markFault);
    assert p.ok;
    CompletePassClearsBacklog(scanned.rows, reply, markFault);
  }
}
