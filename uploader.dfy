/** The upload pass, `processUploads` (upload.go:8-25): one snapshot of the
    pending rows, then for each row in order an encrypted upload and, on a
    reported success, the flag update.  The first error ends the pass.

    The remote write (`uploadEncryptedFile`, gcs.go:57-96) is an oracle: its
    reply to the call for the snapshot's `j`-th row is `reply(j)`, and the
    storage failure, if any, of the flag update after it is `markFault(j)`. */
module Uploader {
  import opened Common
  import opened Ledger

  /** The bucket every object is written to (upload.go:11). */
  const BucketName: string := "starlight-fusion"

  /** What `uploadEncryptedFile` returns: `(bool, error)`. */
  datatype Reply = Reply(success: bool, err: Option<Error>)

  /** The replies the client in gcs.go:57-96 can give: `(true, nil)` or
      `(false, err)` with a non-nil error. */
  function ClientReply(r: Reply): (possible: bool)
    ensures possible <==> r == Reply(true, None) || (!r.success && r.err.Some?)
  {
    r.success <==> r.err.None?
  }

  /** The arguments of one `uploadEncryptedFile(bucket, object, secretKey,
      filePath)` call. */
  datatype UploadCall = UploadCall(bucket: string, objectName: string, secretKey: seq<byte>, filePath: string)

  /** The call made for a row: its own path as both object name and file
      path, and the key bytes stored when the row was inserted. */
  function CallFor(f: FileInfo): (c: UploadCall)
    ensures c.bucket == BucketName && c.objectName == f.path && c.filePath == f.path && c.secretKey == f.aesKey
  {
    UploadCall(BucketName, f.path, f.aesKey, f.path)
  }

  /** The outcome of a pass: the rows afterwards, the `(bool, error)` result
      and the upload calls made, in order. */
  datatype Pass = Pass(rows: seq<FileInfo>, ok: bool, err: Option<Error>, calls: seq<UploadCall>)

  /** A pass over the whole snapshot never touches the calls made before it. */
  function WithCalls(before: seq<UploadCall>, p: Pass): Pass {
    p.(calls := before + p.calls)
  }

  lemma WithCallsEmpty(p: Pass)
    ensures WithCalls([], p) == p
  {
    assert [] + p.calls == p.calls;
  }

  lemma WithCallsAppend(before: seq<UploadCall>, call: UploadCall, p: Pass)
    ensures WithCalls(before, WithCalls([call], p)) == WithCalls(before + [call], p)
  {
    assert before + ([call] + p.calls) == (before + [call]) + p.calls;
  }

  lemma WithCallsStop(before: seq<UploadCall>, call: UploadCall, rows: seq<FileInfo>, err: Option<Error>)
    ensures WithCalls(before, Pass(rows, false, err, [call])) == Pass(rows, false, err, before + [call])
  {
  }

  /** The snapshot the pass works on.  The error of `getUnuploadedFiles` is
      discarded (upload.go:9), so a failed query yields an empty snapshot. */
  function Snapshot(rows: seq<FileInfo>, listFault: ReadFault): (snap: seq<FileInfo>)
    ensures snap == [] || snap == Pending(rows)
  {
    if ReadError(listFault, |Pending(rows)|).None? then Pending(rows) else []
  }

  /** The loop of upload.go:10-23 from the snapshot's `k`-th row on. */
  function UploadFrom(rows: seq<FileInfo>, snap: seq<FileInfo>, k: nat,
                      reply: nat -> Reply, markFault: nat -> Option<Error>): (p: Pass)
    requires k <= |snap|
    ensures p.ok <==> p.err.None?
    ensures |p.rows| == |rows|
    ensures |p.calls| <= |snap| - k
    ensures p.ok ==> |p.calls| == |snap| - k
    ensures !p.ok ==> |p.calls| > 0
    decreases |snap| - k
  {
    if k == |snap| then Pass(rows, true, None, [])
    else
      var file := snap[k];
      var r := reply(k);
      if r.success && markFault(k).Some? then
        Pass(rows, false, Some(UpdateError(markFault(k).value)), [CallFor(file)])
      else
        var rows' := if r.success then MarkUploaded(rows, file.id) else rows;
        if r.err.Some? then Pass(rows', false, r.err, [CallFor(file)])
        else WithCalls([CallFor(file)], UploadFrom(rows', snap, k + 1, reply, markFault))
  }

  /** One turn of the loop: how `UploadFrom` at row `k` reduces. */
  lemma UploadStep(rows: seq<FileInfo>, snap: seq<FileInfo>, k: nat,
                   reply: nat -> Reply, markFault: nat -> Option<Error>)
    requires k < |snap|
    ensures reply(k).success && markFault(k).Some? ==>
      UploadFrom(rows, snap, k, reply, markFault) ==
        Pass(rows, false, Some(UpdateError(markFault(k).value)), [CallFor(snap[k])])
    ensures !(reply(k).success && markFault(k).Some?) ==>
      var rows' := if reply(k).success then MarkUploaded(rows, snap[k].id) else rows;
      UploadFrom(rows, snap, k, reply, markFault) ==
        if reply(k).err.Some? then Pass(rows', false, reply(k).err, [CallFor(snap[k])])
        else WithCalls([CallFor(snap[k])], UploadFrom(rows', snap, k + 1, reply, markFault))
  {
  }

  /** `processUploads(db)`: the snapshot, then the loop over it. */
  method ProcessUploads(db: Database, listFault: ReadFault, reply: nat -> Reply, markFault: nat -> Option<Error>)
    returns (ok: bool, err: Option<Error>, calls: seq<UploadCall>)
    requires db.Valid()
    modifies db
    ensures db.Valid() && db.lastId == old(db.lastId)
    ensures Pass(db.rows, ok, err, calls) ==
      UploadFrom(old(db.rows), Snapshot(old(db.rows), listFault), 0, reply, markFault)
  {
    var files, _ := db.GetUnuploadedFiles(listFault);
    ok, err, calls := UploadAll(db, files, reply, markFault);
  }

  /** The loop of upload.go:10-23 over the snapshot `files`. */
  method UploadAll(db: Database, files: seq<FileInfo>, reply: nat -> Reply, markFault: nat -> Option<Error>)
    returns (ok: bool, err: Option<Error>, calls: seq<UploadCall>)
    requires db.Valid()
    modifies db
    ensures db.Valid() && db.lastId == old(db.lastId)
    ensures Pass(db.rows, ok, err, calls) == UploadFrom(old(db.rows), files, 0, reply, markFault)
  {
    ghost var result := UploadFrom(db.rows, files, 0, reply, markFault);
    calls := [];
    var i: nat := 0;
    WithCallsEmpty(result);
    while i < |files|
      invariant i <= |files| && |calls| == i
      invariant db.Valid() && db.lastId == old(db.lastId)
      invariant result == WithCalls(calls, UploadFrom(db.rows, files, i, reply, markFault))
    {
      var file := files[i];
      UploadStep(db.rows, files, i, reply, markFault);
      ghost var before := db.rows;
      ghost var callsBefore := calls;
      calls := calls + [CallFor(file)];
      var success, uploadErr := reply(i).success, reply(i).err;
      if success {
        var setUploadedError := db.SetUploaded(file.id, markFault(i));
        if setUploadedError.Some? {
          WithCallsStop(callsBefore, CallFor(file), before, setUploadedError);
          return false, setUploadedError, calls;
        }
      }
      if uploadErr.Some? {
        WithCallsStop(callsBefore, CallFor(file), db.rows, uploadErr);
        return false, uploadErr, calls;
      }
      WithCallsAppend(callsBefore, CallFor(file), UploadFrom(db.rows, files, i + 1, reply, markFault));
      i := i + 1;
    }
    return true, None, calls;
  }

  /** The calls made for a run of rows, in order. */
  function CallsFor(files: seq<FileInfo>): (calls: seq<UploadCall>)
    ensures |calls| == |files|
  {
    if files == [] then [] else [CallFor(files[0])] + CallsFor(files[1..])
  }

  /** The calls follow the snapshot in order, one per row, from the first:
      each uploads its row under the row's own path with the row's stored
      key, and nothing else is uploaded. */
  lemma {:induction false} UploadCallsFollowSnapshot(rows: seq<FileInfo>, snap: seq<FileInfo>, k: nat,
                                                     reply: nat -> Reply, markFault: nat -> Option<Error>)
    requires k <= |snap|
    ensures var p := UploadFrom(rows, snap, k, reply, markFault);
      k + |p.calls| <= |snap| && p.calls == CallsFor(snap[k..k + |p.calls|])
    decreases |snap| - k
  {
    var p := UploadFrom(rows, snap, k, reply, markFault);
    if k < |snap| {
      UploadStep(rows, snap, k, reply, markFault);
      var r := reply(k);
      if !(r.success && markFault(k).Some?) && r.err.None? {
        var rows' := if r.success then MarkUploaded(rows, snap[k].id) else rows;
        var rest := UploadFrom(rows', snap, k + 1, reply, markFault);
        UploadCallsFollowSnapshot(rows', snap, k + 1, reply, markFault);
        var n := |rest.calls|;
        assert p.calls == [CallFor(snap[k])] + rest.calls;
        assert snap[k..k + 1 + n][1..] == snap[k + 1..k + 1 + n];
        assert CallsFor(snap[k..k + 1 + n]) == [CallFor(snap[k])] + CallsFor(snap[k + 1..k + 1 + n]);
      } else {
        assert p.calls == [CallFor(snap[k])];
        assert snap[k..k + 1][1..] == [];
        assert CallsFor(snap[k..k + 1]) == [CallFor(snap[k])] + CallsFor([]);
      }
    }
  }

  /** The rows a pass changes are exactly flag flips, each on a row whose id
      is that of a snapshot row the pass attempted, whose upload reported
      success and whose flag update went through.  Every other row, including
      every row outside the snapshot and every row after the first error,
      keeps all of its fields. */
  lemma {:induction false} UploadChangesOnlyConfirmedRows(rows: seq<FileInfo>, snap: seq<FileInfo>, k: nat,
                                                          reply: nat -> Reply, markFault: nat -> Option<Error>)
    requires k <= |snap|
    ensures var p := UploadFrom(rows, snap, k, reply, markFault);
      forall i :: 0 <= i < |rows| && p.rows[i] != rows[i] ==>
        && p.rows[i] == rows[i].(uploaded := 1)
        && exists j :: k <= j < k + |p.calls| && snap[j].id == rows[i].id && reply(j).success && markFault(j).None?
    decreases |snap| - k
  {
    if k < |snap| {
      var file := snap[k];
      var r := reply(k);
      if !(r.success && markFault(k).Some?) {
        var rows' := if r.success then MarkUploaded(rows, file.id) else rows;
        if r.err.None? {
          UploadChangesOnlyConfirmedRows(rows', snap, k + 1, reply, markFault);
          var p := UploadFrom(rows, snap, k, reply, markFault);
          var rest := UploadFrom(rows', snap, k + 1, reply, markFault);
          assert p.rows == rest.rows && |p.calls| == 1 + |rest.calls|;
          forall i | 0 <= i < |rows| && p.rows[i] != rows[i]
            ensures p.rows[i] == rows[i].(uploaded := 1)
            ensures exists j :: k <= j < k + |p.calls| && snap[j].id == rows[i].id && reply(j).success && markFault(j).None?
          {
            if rows'[i] != rows[i] {
              assert rows'[i] == rows[i].(uploaded := 1);
            } else {
              var j :| k + 1 <= j < k + 1 + |rest.calls| && snap[j].id == rows'[i].id && reply(j).success && markFault(j).None?;
            }
          }
        }
      }
    }
  }

  /** Whether the call for the snapshot's `j`-th row went through: no upload
      error, and if it reported success then the flag update succeeded. */
  predicate WentThrough(reply: nat -> Reply, markFault: nat -> Option<Error>, j: nat) {
    reply(j).err.None? && (reply(j).success ==> markFault(j).None?)
  }

  /** The pass goes on only while calls go through.  When it fails, the last
      call made is the failing one and decides the error: the wrapped
      `setUploaded` error when the upload succeeded but the flag update did
      not (upload.go:13-17), otherwise the upload's own error (upload.go:19-22).
      Rows after it are never attempted. */
  lemma {:induction false} UploadStopsAtFirstError(rows: seq<FileInfo>, snap: seq<FileInfo>, k: nat,
                                                   reply: nat -> Reply, markFault: nat -> Option<Error>)
    requires k <= |snap|
    ensures var p := UploadFrom(rows, snap, k, reply, markFault);
      && (p.ok ==> forall j :: k <= j < |snap| ==> WentThrough(reply, markFault, j))
      && (!p.ok ==>
            var last := k + |p.calls| - 1;
            && (forall j :: k <= j < last ==> WentThrough(reply, markFault, j))
            && !WentThrough(reply, markFault, last)
            && p.err == if reply(last).success && markFault(last).Some?
                        then Some(UpdateError(markFault(last).value))
                        else reply(last).err)
    decreases |snap| - k
  {
    if k < |snap| {
      var p := UploadFrom(rows, snap, k, reply, markFault);
      if WentThrough(reply, markFault, k) {
        var r := reply(k);
        var rows' := if r.success then MarkUploaded(rows, snap[k].id) else rows;
        UploadStopsAtFirstError(rows', snap, k + 1, reply, markFault);
        var rest := UploadFrom(rows', snap, k + 1, reply, markFault);
        assert p == WithCalls([CallFor(snap[k])], rest);
        assert |p.calls| == 1 + |rest.calls|;
      } else {
        assert |p.calls| == 1 && !p.ok;
      }
    }
  }

  /** A pass that returns `(true, nil)` after replies of the kind the real
      client gives has marked every row of the snapshot: the table's `i`-th
      row, whose id is that of the snapshot's `j`-th row, ends up flagged. */
  lemma {:induction false} CompletePassMarksSnapshot(rows: seq<FileInfo>, snap: seq<FileInfo>, k: nat,
                                                     reply: nat -> Reply, markFault: nat -> Option<Error>,
                                                     i: nat, j: nat)
    requires k <= j < |snap| && i < |rows| && rows[i].id == snap[j].id
    requires forall j' :: k <= j' < |snap| ==> ClientReply(reply(j'))
    ensures var p := UploadFrom(rows, snap, k, reply, markFault);
      p.ok ==> p.rows[i].uploaded == 1
    decreases j - k
  {
    var p := UploadFrom(rows, snap, k, reply, markFault);
    if p.ok {
      UploadStep(rows, snap, k, reply, markFault);
      assert ClientReply(reply(k));
      var rows' := MarkUploaded(rows, snap[k].id);
      var rest := UploadFrom(rows', snap, k + 1, reply, markFault);
      assert p.rows == rest.rows;
      if j == k {
        assert rows'[i].uploaded == 1;
        UploadChangesOnlyConfirmedRows(rows', snap, k + 1, reply, markFault);
      } else {
        CompletePassMarksSnapshot(rows', snap, k + 1, reply, markFault, i, j);
      }
    }
  }

  /** After a pass over the pending rows that returns `(true, nil)` with
      replies of the kind the real client gives, nothing is pending any more:
      a re-run uploads nothing. */
  lemma CompletePassClearsBacklog(rows: seq<FileInfo>, reply: nat -> Reply, markFault: nat -> Option<Error>)
    requires forall j :: 0 <= j < |Pending(rows)| ==> ClientReply(reply(j))
    ensures var p := UploadFrom(rows, Pending(rows), 0, reply, markFault);
      p.ok ==> Pending(p.rows) == []
  {
    var snap := Pending(rows);
    var p := UploadFrom(rows, snap, 0, reply, markFault);
    if p.ok {
      UploadChangesOnlyConfirmedRows(rows, snap, 0, reply, markFault);
      forall i | 0 <= i < |p.rows| ensures p.rows[i].uploaded != 0 {
        if rows[i].uploaded == 0 {
          PendingMembers(rows);
          assert rows[i] in snap;
          var j :| 0 <= j < |snap| && snap[j] == rows[i];
          CompletePassMarksSnapshot(rows, snap, 0, reply, markFault, i, j);
        }
      }
      NothingPending(p.rows);
    }
  }

  /** The row whose upload fails stays pending when the upload reported no
      success, so the next pass's snapshot holds it again. */
  lemma FailedRowStaysPending(rows: seq<FileInfo>, snap: seq<FileInfo>,
                              reply: nat -> Reply, markFault: nat -> Option<Error>, i: nat)
    requires IdsIncreasing(snap)
    requires i < |rows| && rows[i].uploaded == 0
    requires var p := UploadFrom(rows, snap, 0, reply, markFault);
      !p.ok && rows[i].id == snap[|p.calls| - 1].id && !reply(|p.calls| - 1).success
    ensures UploadFrom(rows, snap, 0, reply, markFault).rows[i] == rows[i]
    ensures rows[i] in Pending(UploadFrom(rows, snap, 0, reply, markFault).rows)
  {
    var p := UploadFrom(rows, snap, 0, reply, markFault);
    UploadChangesOnlyConfirmedRows(rows, snap, 0, reply, markFault);
    if p.rows[i] != rows[i] {
      assert false;
    }
    PendingMembers(p.rows);
  }

  /** The error of the listing is discarded (upload.go:9): when it fails the
      loop runs over nothing and the pass returns `(true, nil)`, leaving every
      pending row pending. */
  lemma ListingFailureReportsSuccess(rows: seq<FileInfo>, listFault: ReadFault,
                                     reply: nat -> Reply, markFault: nat -> Option<Error>)
    requires ReadError(listFault, |Pending(rows)|).Some?
    ensures UploadFrom(rows, Snapshot(rows, listFault), 0, reply, markFault) == Pass(rows, true, None, [])
  {
  }

  /** A reply `(false, nil)`, which the real client never gives, lets the loop
      go on without marking the row, and the pass still returns `(true, nil)`. */
  lemma SilentFailureStillReportsSuccess(f: FileInfo)
    requires f.uploaded == 0
    ensures var p := UploadFrom([f], [f], 0, _ => Reply(false, None), _ => None);
      p.ok && p.err == None && Pending(p.rows) == [f]
  {
  }
}
