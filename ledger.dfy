/** The `files` table of the local SQLite index (schema main.go:40-48) and the
    four statements the program runs against it: the existence check
    (`hashExistsInDB`, main.go:159-164), the insert (`insertFileInfo`,
    main.go:152-156), the pending-rows query (`getUnuploadedFiles`,
    main.go:167-190) and the flag update (`setUploaded`, database.go:8-15).

    The table is a sequence of rows in rowid order, plus the AUTOINCREMENT
    counter SQLite keeps in `sqlite_sequence`.  Each statement may fail inside
    the storage engine; that failure is an oracle parameter of the method. */
module Ledger {
  import opened Common

  /** One row of `files`; the Go struct `FileInfo` (main.go:17-25).  The key
      column is a BLOB read back into a Go string and turned into `[]byte`
      again; a Go string is a byte sequence, so the model keeps the bytes. */
  datatype FileInfo = FileInfo(
    id: int,
    path: string,
    name: string,
    size: int64,
    sha256: string,
    aesKey: seq<byte>,
    uploaded: int)

  /** The whole durable state: the rows in rowid (= id) order and the largest
      id AUTOINCREMENT has ever handed out. */
  datatype Table = Table(rows: seq<FileInfo>, lastId: int)

  /** The only values the program ever writes into `uploaded`. */
  predicate IsFlag(u: int) {
    u == 0 || u == 1
  }

  predicate IdsIncreasing(rows: seq<FileInfo>) {
    forall i, j :: 0 <= i < j < |rows| ==> rows[i].id < rows[j].id
  }

  /** The table invariant.  From SQLite's AUTOINCREMENT: ids are positive,
      never above the counter, and the counter stays within a 64-bit integer.
      Ids strictly increasing in the order the rows are listed is the model's
      reading of a table scan in rowid order, which the pending query
      (main.go:168, no ORDER BY) does not itself demand.  Flags of 0 or 1 are
      the program's own invariant: it only ever writes those two values. */
  predicate WellFormed(t: Table) {
    && 0 <= t.lastId <= MaxInt64
    && IdsIncreasing(t.rows)
    && (forall i :: 0 <= i < |t.rows| ==> 0 < t.rows[i].id <= t.lastId && IsFlag(t.rows[i].uploaded))
  }

  /** The deduplication invariant.  The schema does not enforce it (there is
      no UNIQUE constraint on `sha256`); only the scanner's check keeps it. */
  predicate DistinctDigests(rows: seq<FileInfo>) {
    forall i, j :: 0 <= i < j < |rows| ==> rows[i].sha256 != rows[j].sha256
  }

  /** `SELECT EXISTS(SELECT 1 FROM files WHERE sha256 = ? LIMIT 1)`. */
  function ContainsDigest(rows: seq<FileInfo>, sha256Hash: string): (found: bool)
    ensures found <==> exists i :: 0 <= i < |rows| && rows[i].sha256 == sha256Hash
  {
    if rows == [] then false
    else rows[0].sha256 == sha256Hash || ContainsDigest(rows[1..], sha256Hash)
  }

  /** `SELECT ... FROM files WHERE uploaded = 0`, scanned in rowid order. */
  function Pending(rows: seq<FileInfo>): (r: seq<FileInfo>)
    ensures |r| <= |rows|
    ensures forall k :: 0 <= k < |r| ==> r[k].uploaded == 0
  {
    if rows == [] then []
    else if rows[0].uploaded == 0 then [rows[0]] + Pending(rows[1..])
    else Pending(rows[1..])
  }

  /** `UPDATE files SET uploaded = 1 WHERE id = ?`. */
  function MarkUploaded(rows: seq<FileInfo>, id: int): (r: seq<FileInfo>)
    ensures |r| == |rows|
    ensures forall i :: 0 <= i < |rows| ==>
      r[i] == if rows[i].id == id then rows[i].(uploaded := 1) else rows[i]
  {
    if rows == [] then []
    else [if rows[0].id == id then rows[0].(uploaded := 1) else rows[0]] + MarkUploaded(rows[1..], id)
  }

  /** The message `setUploaded` wraps a storage error in (database.go:12). */
  function UpdateError(e: Error): (w: Error)
    ensures |w.msg| > |e.msg|
  {
    Error("failed to update uploaded column: " + e.msg)
  }

  /** The wrapped message ends with the storage error's own message, so the
      cause can be read back: distinct causes give distinct errors. */
  lemma UpdateErrorKeepsCause(a: Error, b: Error)
    ensures UpdateError(a).msg[|UpdateError(a).msg| - |a.msg|..] == a.msg
    ensures UpdateError(a) == UpdateError(b) <==> a == b
  {
    var prefix := "failed to update uploaded column: ";
    assert UpdateError(a).msg == prefix + a.msg;
    if UpdateError(a) == UpdateError(b) {
      assert a.msg == (prefix + a.msg)[|prefix|..];
      assert b.msg == (prefix + b.msg)[|prefix|..];
    }
  }

  /** SQLite's SQLITE_FULL, which AUTOINCREMENT raises once the largest
      possible id has been used. */
  const DatabaseFull: Error := Error("database or disk is full")

  /** `INSERT INTO files (path, name, size, sha256, aes_key, uploaded) VALUES
      (?, ?, ?, ?, ?, 0)`, with `fault` standing for a failure of the storage
      engine.  The statement is atomic: on any error nothing changes. */
  function Insert(t: Table, path: string, name: string, size: int64, sha256Hash: string,
                  aesKey: seq<byte>, fault: Option<Error>): (r: (Table, Option<Error>))
    requires WellFormed(t)
    ensures WellFormed(r.0)
    ensures r.1.Some? ==> r.0 == t
    ensures r.1.None? <==> fault.None? && t.lastId < MaxInt64
    ensures r.1.None? ==>
      && r.0.rows == t.rows + [FileInfo(t.lastId + 1, path, name, size, sha256Hash, aesKey, 0)]
      && forall i :: 0 <= i < |t.rows| ==> t.rows[i].id < r.0.rows[|t.rows|].id
  {
    if fault.Some? then (t, fault)
    else if t.lastId == MaxInt64 then (t, Some(DatabaseFull))
    else
      var row := FileInfo(t.lastId + 1, path, name, size, sha256Hash, aesKey, 0);
      (Table(t.rows + [row], t.lastId + 1), None)
  }

  /** Where a `getUnuploadedFiles` call can fail: the query itself, the Scan
      of the `at`-th result row, or the iteration (`rows.Err()`). */
  datatype ReadFault =
    | NoFault
    | QueryFailed(e: Error)
    | ScanFailed(at: nat, e: Error)
    | IterationFailed(e: Error)

  /** The error `getUnuploadedFiles` reports when the query yields `n` rows:
      a failed query or iteration always surfaces, a failed Scan only if the
      loop reaches that row. */
  function ReadError(fault: ReadFault, n: nat): (err: Option<Error>)
    ensures err.None? <==> fault.NoFault? || (fault.ScanFailed? && fault.at >= n)
    ensures err.Some? ==> err.value == fault.e
  {
    match fault
    case NoFault => None
    case QueryFailed(e) => Some(e)
    case ScanFailed(at, e) => if at < n then Some(e) else None
    case IterationFailed(e) => Some(e)
  }

  /** The pending rows are the table's rows with `uploaded = 0`. */
  lemma {:induction false} PendingMembers(rows: seq<FileInfo>)
    ensures forall f :: f in Pending(rows) <==> f in rows && f.uploaded == 0
  {
    if rows != [] {
      PendingMembers(rows[1..]);
      assert rows == [rows[0]] + rows[1..];
    }
  }

  /** The pending rows keep the table's order. */
  lemma {:induction false} PendingKeepsOrder(rows: seq<FileInfo>)
    requires IdsIncreasing(rows)
    ensures IdsIncreasing(Pending(rows))
  {
    if rows != [] {
      PendingKeepsOrder(rows[1..]);
      PendingMembers(rows[1..]);
      if rows[0].uploaded == 0 {
        var p := Pending(rows);
        forall i, j | 0 <= i < j < |p| ensures p[i].id < p[j].id {
          if i == 0 {
            assert p[j] in rows[1..];
          } else {
            assert p[i] == Pending(rows[1..])[i - 1];
          }
        }
      }
    }
  }

  /** The pending rows are exactly the table's rows with `uploaded = 0`, in the
      table's order: `Pending` is the order-preserving filter. */
  lemma {:induction false} PendingIsFilter(rows: seq<FileInfo>, i: nat)
    requires i < |rows| && rows[i].uploaded == 0
    ensures |Pending(rows[..i])| < |Pending(rows)|
    ensures Pending(rows)[|Pending(rows[..i])|] == rows[i]
  {
    if i > 0 {
      assert rows[1..][..i - 1] == rows[..i][1..];
      PendingIsFilter(rows[1..], i - 1);
    } else {
      assert rows[..0] == [];
    }
  }

  /** With every flag set there is nothing pending. */
  lemma {:induction false} NothingPending(rows: seq<FileInfo>)
    requires forall i :: 0 <= i < |rows| ==> rows[i].uploaded != 0
    ensures Pending(rows) == []
  {
    if rows != [] {
      NothingPending(rows[1..]);
    }
  }

  /** Marking twice is marking once. */
  lemma MarkUploadedIdempotent(rows: seq<FileInfo>, id: int)
    ensures MarkUploaded(MarkUploaded(rows, id), id) == MarkUploaded(rows, id)
  {
  }

  /** A row never goes back to pending, and nothing but the flag changes. */
  lemma MarkUploadedMonotone(rows: seq<FileInfo>, id: int)
    ensures forall i :: 0 <= i < |rows| ==>
      var r := MarkUploaded(rows, id)[i];
      && (r.uploaded == 0 ==> rows[i].uploaded == 0)
      && r == rows[i].(uploaded := r.uploaded)
  {
    var m := MarkUploaded(rows, id);
    forall i | 0 <= i < |rows|
      ensures (m[i].uploaded == 0 ==> rows[i].uploaded == 0) && m[i] == rows[i].(uploaded := m[i].uploaded)
    {
    }
  }

  /** An id that matches no row changes nothing (and is no error). */
  lemma MarkUploadedAbsent(rows: seq<FileInfo>, id: int)
    requires forall i :: 0 <= i < |rows| ==> rows[i].id != id
    ensures MarkUploaded(rows, id) == rows
  {
  }

  /** The update keeps the table well formed and keeps digests distinct. */
  lemma MarkUploadedKeepsInvariants(t: Table, id: int)
    requires WellFormed(t)
    ensures WellFormed(Table(MarkUploaded(t.rows, id), t.lastId))
    ensures DistinctDigests(t.rows) ==> DistinctDigests(MarkUploaded(t.rows, id))
  {
  }

  /** After marking `id`, the pending rows are the old ones less that id. */
  lemma PendingAfterMark(rows: seq<FileInfo>, id: int)
    ensures forall f :: f in Pending(MarkUploaded(rows, id)) <==> f in Pending(rows) && f.id != id
  {
    var m := MarkUploaded(rows, id);
    PendingMembers(rows);
    PendingMembers(m);
    forall f | f in Pending(m) ensures f in Pending(rows) && f.id != id {
      var i :| 0 <= i < |m| && m[i] == f;
    }
    forall f | f in Pending(rows) && f.id != id ensures f in Pending(m) {
      var i :| 0 <= i < |rows| && rows[i] == f;
      assert m[i] == f;
    }
  }

  /** The open handle on the index: the `*sql.DB` every operation is given. */
  class Database {
    var rows: seq<FileInfo>
    var lastId: int

    function State(): Table
      reads this
    {
      Table(rows, lastId)
    }

    ghost predicate Valid()
      reads this
    {
      WellFormed(State())
    }

    /** A newly created index: `CREATE TABLE IF NOT EXISTS files` on an
        empty database file. */
    constructor ()
      ensures Valid() && rows == [] && lastId == 0
    {
      rows := [];
      lastId := 0;
    }

    /** `hashExistsInDB(db, sha256Hash)`: on a storage error `exists` keeps its
        zero value `false` and the error is returned with it. */
    method HashExistsInDB(sha256Hash: string, fault: Option<Error>) returns (found: bool, err: Option<Error>)
      ensures err == fault
      ensures found <==> fault.None? && exists i :: 0 <= i < |rows| && rows[i].sha256 == sha256Hash
    {
      if fault.Some? {
        return false, fault;
      }
      found := ContainsDigest(rows, sha256Hash);
      err := None;
    }

    /** `insertFileInfo(db, path, name, size, sha256Hash, aesKey)`. */
    method InsertFileInfo(path: string, name: string, size: int64, sha256Hash: string,
                          aesKey: seq<byte>, fault: Option<Error>) returns (err: Option<Error>)
      requires Valid()
      modifies this
      ensures Valid()
      ensures (State(), err) == Insert(old(State()), path, name, size, sha256Hash, aesKey, fault)
    {
      if fault.Some? {
        return fault;
      }
      if lastId == MaxInt64 {
        return Some(DatabaseFull);
      }
      lastId := lastId + 1;
      rows := rows + [FileInfo(lastId, path, name, size, sha256Hash, aesKey, 0)];
      err := None;
    }

    /** `getUnuploadedFiles(db)`: the loop over the query's result rows
        (main.go:175-183).  Any error discards what was collected. */
    method GetUnuploadedFiles(fault: ReadFault) returns (files: seq<FileInfo>, err: Option<Error>)
      ensures err == ReadError(fault, |Pending(rows)|)
      ensures err.None? ==> files == Pending(rows)
      ensures err.Some? ==> files == []
    {
      if fault.QueryFailed? {
        return [], Some(fault.e);
      }
      var result := Pending(rows);
      files := [];
      var k := 0;
      while k < |result|
        invariant 0 <= k <= |result|
        invariant files == result[..k]
        invariant fault.ScanFailed? ==> fault.at >= k
      {
        if fault.ScanFailed? && fault.at == k {
          return [], Some(fault.e);
        }
        files := files + [result[k]];
        k := k + 1;
      }
      if fault.IterationFailed? {
        return [], Some(fault.e);
      }
      err := None;
    }

    /** `setUploaded(db, id)`.  An id that matches no row is not an error. */
    method SetUploaded(id: int, fault: Option<Error>) returns (err: Option<Error>)
      requires Valid()
      modifies this
      ensures Valid() && lastId == old(lastId)
      ensures fault.Some? ==> rows == old(rows) && err == Some(UpdateError(fault.value))
      ensures fault.None? ==> rows == MarkUploaded(old(rows), id) && err == None
    {
      if fault.Some? {
        return Some(UpdateError(fault.value));
      }
      MarkUploadedKeepsInvariants(State(), id);
      rows := MarkUploaded(rows, id);
      err := None;
    }
  }
}
