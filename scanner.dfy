/** The scan: the callback `main` hands to `filepath.Walk` (main.go:56-92)
    and the walk itself, as a loop over the entries the traversal produces.

    Each entry carries, beside what the traversal reports (the `err`
    argument and the `os.FileInfo`), the outcomes of the oracles the callback
    consults for that file: hashing, the storage engine during the existence
    check, the random source, and the storage engine during the insert. */
module Scanner {
  import opened Common
  import opened Hashing
  import opened Ledger

  /** One call of the walk callback. */
  datatype Entry = Entry(
    path: string,
    walkErr: Option<Error>,
    isDir: bool,
    name: string,
    size: int64,
    hashed: Result<Digest>,
    existsFault: Option<Error>,
    random: Result<KeyBlock>,
    insertFault: Option<Error>)

  /** How one callback invocation ends: exactly one of these. */
  datatype Outcome =
    | WalkFailed(e: Error)
    | Directory
    | HashFailed(e: Error)
    | CheckFailed(e: Error)
    | Duplicate
    | KeyFailed(e: Error)
    | InsertFailed(e: Error)
    | Registered(row: FileInfo)

  /** A regular file handed over without a traversal error, hashed, and
      checked against the index without a storage error. */
  predicate Checked(e: Entry) {
    e.walkErr.None? && !e.isDir && e.hashed.Success? && e.existsFault.None?
  }

  /** The callback's decision for entry `e` against the table `t`: which
      outcome, and exactly when. */
  function Classify(t: Table, e: Entry): (o: Outcome)
    requires WellFormed(t)
    ensures o.WalkFailed? <==> e.walkErr.Some?
    ensures o.Directory? <==> e.walkErr.None? && e.isDir
    ensures o.HashFailed? <==> e.walkErr.None? && !e.isDir && e.hashed.Failure?
    ensures o.CheckFailed? <==> e.walkErr.None? && !e.isDir && e.hashed.Success? && e.existsFault.Some?
    ensures o.Duplicate? <==> Checked(e) && ContainsDigest(t.rows, Hex(e.hashed.value))
    ensures o.KeyFailed? <==> Checked(e) && !ContainsDigest(t.rows, Hex(e.hashed.value)) && e.random.Failure?
    ensures o.InsertFailed? <==>
      && Checked(e) && !ContainsDigest(t.rows, Hex(e.hashed.value)) && e.random.Success?
      && (e.insertFault.Some? || t.lastId == MaxInt64)
    ensures o.Registered? <==>
      && Checked(e) && !ContainsDigest(t.rows, Hex(e.hashed.value)) && e.random.Success?
      && e.insertFault.None? && t.lastId < MaxInt64
    ensures o.Registered? ==>
      o.row == FileInfo(t.lastId + 1, e.path, e.name, e.size, Hex(e.hashed.value), e.random.value, 0)
    ensures o.HashFailed? ==> o.e == e.hashed.error
    ensures o.CheckFailed? ==> o.e == e.existsFault.value
    ensures o.KeyFailed? ==> o.e == e.random.error
    ensures o.InsertFailed? ==> o.e == if e.insertFault.Some? then e.insertFault.value else DatabaseFull
  {
    if e.walkErr.Some? then WalkFailed(e.walkErr.value)
    else if e.isDir then Directory
    else
      var (sha256Hash, hashErr) := HashFileSHA256(e.hashed);
      if hashErr.Some? then HashFailed(hashErr.value)
      else if e.existsFault.Some? then CheckFailed(e.existsFault.value)
      else if ContainsDigest(t.rows, sha256Hash) then Duplicate
      else
        match GenerateAESKey(e.random)
        case Failure(keyErr) => KeyFailed(keyErr)
        case Success(aesKey) =>
          var (t', insertErr) := Insert(t, e.path, e.name, e.size, sha256Hash, aesKey, e.insertFault);
          if insertErr.Some? then InsertFailed(insertErr.value) else Registered(t'.rows[|t.rows|])
  }

  /** The table after the callback and the error the callback returns.  Only
      an error handed in by the traversal is returned; every other failure is
      logged and the walk goes on. */
  function AfterEntry(t: Table, e: Entry): (r: (Table, Option<Error>))
    requires WellFormed(t)
    ensures WellFormed(r.0)
    ensures r.1 == e.walkErr
    ensures t.rows <= r.0.rows && |r.0.rows| <= |t.rows| + 1
    ensures t.lastId <= r.0.lastId
  {
    match Classify(t, e)
    case WalkFailed(err) => (t, Some(err))
    case Registered(row) => (Table(t.rows + [row], row.id), None)
    case _ => (t, None)
  }

  /** `filepath.Walk` over `entries`: the callback runs on each in turn and
      the first error it returns ends the walk and is the walk's result. */
  function WalkSpec(t: Table, entries: seq<Entry>): (r: (Table, Option<Error>))
    requires WellFormed(t)
    ensures WellFormed(r.0)
    ensures t.rows <= r.0.rows && t.lastId <= r.0.lastId
    ensures r.1.Some? ==> exists k :: 0 <= k < |entries| && entries[k].walkErr == r.1
    decreases |entries|
  {
    if entries == [] then (t, None)
    else
      var (t1, err) := AfterEntry(t, entries[0]);
      if err.Some? then (t1, err)
      else
        var r := WalkSpec(t1, entries[1..]);
        assert forall k :: 0 <= k < |entries| - 1 ==> entries[1..][k] == entries[k + 1];
        r
  }

  /** The callback passed to `filepath.Walk` (main.go:56-92). */
  method VisitEntry(db: Database, e: Entry) returns (err: Option<Error>)
    requires db.Valid()
    modifies db
    ensures db.Valid()
    ensures (db.State(), err) == AfterEntry(old(db.State()), e)
  {
    if e.walkErr.Some? {
      return e.walkErr;
    }
    if !e.isDir {
      var (sha256Hash, hashErr) := HashFileSHA256(e.hashed);
      if hashErr.Some? {
        return None;
      }
      var found, checkErr := db.HashExistsInDB(sha256Hash, e.existsFault);
      if checkErr.Some? {
        return None;
      }
      if found {
        return None;
      }
      var aesKey := GenerateAESKey(e.random);
      if aesKey.Failure? {
        return None;
      }
      var insertErr := db.InsertFileInfo(e.path, e.name, e.size, sha256Hash, aesKey.value, e.insertFault);
    }
    return None;
  }

  /** `filepath.Walk(dirToTraverse, callback)` over the traversal's entries. */
  method Walk(db: Database, entries: seq<Entry>) returns (err: Option<Error>)
    requires db.Valid()
    modifies db
    ensures db.Valid()
    ensures (db.State(), err) == WalkSpec(old(db.State()), entries)
    ensures old(db.rows) <= db.rows
    ensures DistinctDigests(old(db.rows)) ==> DistinctDigests(db.rows)
  {
    ghost var start := db.State();
    var k := 0;
    while k < |entries|
      invariant 0 <= k <= |entries|
      invariant db.Valid()
      invariant WalkSpec(start, entries) == WalkSpec(db.State(), entries[k..])
    {
      assert entries[k..][1..] == entries[k + 1..];
      err := VisitEntry(db, entries[k]);
      if err.Some? {
        WalkKeepsDigestsDistinct(start, entries);
        return;
      }
      k := k + 1;
    }
    err := None;
    WalkKeepsDigestsDistinct(start, entries);
  }

  /** A file whose digest is already in the table leaves it unchanged and the
      callback returns nil (main.go:69-78). */
  lemma DuplicateLeavesTableUnchanged(t: Table, e: Entry)
    requires WellFormed(t)
    requires e.walkErr.None? && !e.isDir && e.hashed.Success? && e.existsFault.None?
    requires ContainsDigest(t.rows, Hex(e.hashed.value))
    ensures Classify(t, e) == Duplicate
    ensures AfterEntry(t, e) == (t, None)
  {
  }

  /** A storage error in the existence check or in the insert, a hashing
      failure, a key failure and a directory all skip the entry: the table
      is unchanged and the callback returns nil, so the walk goes on
      (main.go:61-91). */
  lemma FaultsSkipTheEntry(t: Table, e: Entry)
    requires WellFormed(t) && e.walkErr.None?
    ensures e.isDir ==> AfterEntry(t, e) == (t, None)
    ensures e.hashed.Failure? ==> AfterEntry(t, e) == (t, None)
    ensures e.existsFault.Some? ==> AfterEntry(t, e) == (t, None)
    ensures e.random.Failure? ==> AfterEntry(t, e) == (t, None)
    ensures e.insertFault.Some? ==> AfterEntry(t, e) == (t, None)
  {
  }

  /** Every outcome except a registration leaves the table unchanged; every
      outcome except a traversal error lets the walk continue (main.go:61-91). */
  lemma SkipsLeaveTableUnchanged(t: Table, e: Entry)
    requires WellFormed(t)
    ensures !Classify(t, e).Registered? ==> AfterEntry(t, e).0 == t
    ensures Classify(t, e).Registered? ==> AfterEntry(t, e).0.rows == t.rows + [Classify(t, e).row]
    ensures AfterEntry(t, e).1.Some? <==> Classify(t, e).WalkFailed?
  {
  }

  /** One callback keeps the digests distinct: it only appends a row whose
      digest the existence check did not find. */
  lemma EntryKeepsDigestsDistinct(t: Table, e: Entry)
    requires WellFormed(t) && DistinctDigests(t.rows)
    ensures DistinctDigests(AfterEntry(t, e).0.rows)
  {
    var o := Classify(t, e);
    if o.Registered? {
      var rows := AfterEntry(t, e).0.rows;
      forall i, j | 0 <= i < j < |rows| ensures rows[i].sha256 != rows[j].sha256 {
        if j == |t.rows| {
          assert rows[i] == t.rows[i];
        }
      }
    }
  }

  /** A whole walk keeps the digests distinct, although the schema would
      accept duplicates (see `SchemaAcceptsDuplicateDigests`). */
  lemma {:induction false} WalkKeepsDigestsDistinct(t: Table, entries: seq<Entry>)
    requires WellFormed(t)
    ensures DistinctDigests(t.rows) ==> DistinctDigests(WalkSpec(t, entries).0.rows)
    decreases |entries|
  {
    if entries != [] && DistinctDigests(t.rows) {
      EntryKeepsDigestsDistinct(t, entries[0]);
      var (t1, err) := AfterEntry(t, entries[0]);
      if err.None? {
        WalkKeepsDigestsDistinct(t1, entries[1..]);
      }
    }
  }

  /** The table alone does not deduplicate: the INSERT succeeds on a digest
      that is already present, and the table then holds it twice. */
  lemma SchemaAcceptsDuplicateDigests(t: Table, path: string, name: string, size: int64,
                                      sha256Hash: string, aesKey: seq<byte>)
    requires WellFormed(t) && t.lastId < MaxInt64
    requires ContainsDigest(t.rows, sha256Hash)
    ensures Insert(t, path, name, size, sha256Hash, aesKey, None).1 == None
    ensures !DistinctDigests(Insert(t, path, name, size, sha256Hash, aesKey, None).0.rows)
  {
    var rows := Insert(t, path, name, size, sha256Hash, aesKey, None).0.rows;
    var i :| 0 <= i < |t.rows| && t.rows[i].sha256 == sha256Hash;
    assert rows[i].sha256 == rows[|t.rows|].sha256;
  }

  /** Rows added by a walk have ids above every id the table ever held, are
      pending, and carry a 32-byte key and a 64-digit hex digest; the rows
      that were there before are untouched. */
  lemma {:induction false} WalkAppendsFreshPendingRows(t: Table, entries: seq<Entry>)
    requires WellFormed(t)
    ensures var rows := WalkSpec(t, entries).0.rows;
      forall i :: |t.rows| <= i < |rows| ==>
        && rows[i].id > t.lastId
        && rows[i].uploaded == 0
        && |rows[i].aesKey| == KeySize
        && |rows[i].sha256| == 2 * DigestSize
    decreases |entries|
  {
    if entries != [] {
      var (t1, err) := AfterEntry(t, entries[0]);
      if err.None? {
        WalkAppendsFreshPendingRows(t1, entries[1..]);
        var rows := WalkSpec(t, entries).0.rows;
        assert rows == WalkSpec(t1, entries[1..]).0.rows;
        forall i | |t.rows| <= i < |rows|
          ensures rows[i].id > t.lastId && rows[i].uploaded == 0
          ensures |rows[i].aesKey| == KeySize && |rows[i].sha256| == 2 * DigestSize
        {
          if i < |t1.rows| {
            var o := Classify(t, entries[0]);
            assert o.Registered? && rows[i] == t1.rows[i] == o.row;
          }
        }
      }
    }
  }

  /** A traversal error handed to the callback is returned unchanged and
      ends the walk: the entries after it are never visited. */
  lemma {:induction false} WalkStopsAtFirstError(t: Table, entries: seq<Entry>, k: nat)
    requires WellFormed(t)
    requires k < |entries| && entries[k].walkErr.Some?
    requires forall j :: 0 <= j < k ==> entries[j].walkErr.None?
    ensures WalkSpec(t, entries) == (WalkSpec(t, entries[..k]).0, entries[k].walkErr)
    decreases k
  {
    if k > 0 {
      var (t1, err) := AfterEntry(t, entries[0]);
      assert entries[..k][1..] == entries[1..][..k - 1];
      WalkStopsAtFirstError(t1, entries[1..], k - 1);
    }
  }

  /** A walk with no traversal error returns nil. */
  lemma {:induction false} WalkWithoutTraversalErrorSucceeds(t: Table, entries: seq<Entry>)
    requires WellFormed(t)
    requires forall j :: 0 <= j < |entries| ==> entries[j].walkErr.None?
    ensures WalkSpec(t, entries).1 == None
    decreases |entries|
  {
    if entries != [] {
      var (t1, err) := AfterEntry(t, entries[0]);
      WalkWithoutTraversalErrorSucceeds(t1, entries[1..]);
    }
  }

  /** An entry that a walk over `rows` has nothing to register for: a
      directory, a file that cannot be hashed, or known content. */
  predicate Known(rows: seq<FileInfo>, e: Entry) {
    e.isDir || e.hashed.Failure? || ContainsDigest(rows, Hex(e.hashed.value))
  }

  /** An entry for which every oracle succeeds. */
  predicate Clean(e: Entry) {
    e.walkErr.None? && e.existsFault.None? && e.random.Success? && e.insertFault.None?
  }

  /** A walk over entries that are all known registers nothing. */
  lemma {:induction false} KnownEntriesRegisterNothing(t: Table, entries: seq<Entry>)
    requires WellFormed(t)
    requires forall j :: 0 <= j < |entries| ==> Known(t.rows, entries[j])
    ensures WalkSpec(t, entries).0 == t
    decreases |entries|
  {
    if entries != [] {
      var (t1, err) := AfterEntry(t, entries[0]);
      assert t1 == t;
      if err.None? {
        KnownEntriesRegisterNothing(t, entries[1..]);
      }
    }
  }

  /** After a walk in which no oracle fails, every entry is known. */
  lemma {:induction false} CleanWalkKnowsEveryEntry(t: Table, entries: seq<Entry>)
    requires WellFormed(t) && t.lastId + |entries| <= MaxInt64
    requires forall j :: 0 <= j < |entries| ==> Clean(entries[j])
    ensures forall j :: 0 <= j < |entries| ==> Known(WalkSpec(t, entries).0.rows, entries[j])
    decreases |entries|
  {
    if entries != [] {
      var e := entries[0];
      var (t1, err) := AfterEntry(t, e);
      assert Known(t1.rows, e) by {
        if !e.isDir && e.hashed.Success? {
          if Classify(t, e).Registered? {
            assert t1.rows[|t.rows|].sha256 == Hex(e.hashed.value);
          }
        }
      }
      assert t1.lastId <= t.lastId + 1 by {
        assert Classify(t, e).Registered? ==> t1.lastId == t.lastId + 1;
      }
      CleanWalkKnowsEveryEntry(t1, entries[1..]);
      var rows := WalkSpec(t, entries).0.rows;
      forall j | 0 <= j < |entries| ensures Known(rows, entries[j]) {
        if j == 0 {
          if !e.isDir && e.hashed.Success? {
            var i :| 0 <= i < |t1.rows| && t1.rows[i].sha256 == Hex(e.hashed.value);
            assert rows[i] == t1.rows[i];
          }
        } else {
          assert entries[j] == entries[1..][j - 1];
        }
      }
    }
  }

  /** Running the scan again over an unchanged tree after a scan in which
      nothing failed registers nothing new. */
  lemma RescanRegistersNothing(t: Table, entries: seq<Entry>)
    requires WellFormed(t) && t.lastId + |entries| <= MaxInt64
    requires forall j :: 0 <= j < |entries| ==> Clean(entries[j])
    ensures var t1 := WalkSpec(t, entries).0; WalkSpec(t1, entries).0 == t1
  {
    CleanWalkKnowsEveryEntry(t, entries);
    KnownEntriesRegisterNothing(WalkSpec(t, entries).0, entries);
  }

  /** A regular file for which every oracle succeeds. */
  function CleanFile(path: string, name: string, size: int64, digest: Digest, key: KeyBlock): (e: Entry)
    ensures Clean(e) && Checked(e)
  {
    Entry(path, None, false, name, size, Success(digest), None, Success(key), None)
  }

  /** A regular file whose content is new and for which nothing fails is
      registered under the next id, pending upload, with its `%x` digest and
      its own key; the walk goes on. */
  lemma CleanNewFileRegisters(t: Table, path: string, name: string, size: int64, digest: Digest, key: KeyBlock)
    requires WellFormed(t) && t.lastId < MaxInt64
    requires !ContainsDigest(t.rows, Hex(digest))
    ensures AfterEntry(t, CleanFile(path, name, size, digest, key)) ==
      (Table(t.rows + [FileInfo(t.lastId + 1, path, name, size, Hex(digest), key, 0)], t.lastId + 1), None)
  {
    var e := CleanFile(path, name, size, digest, key);
    assert Classify(t, e).Registered?;
  }

  /** A regular file whose content is already indexed leaves the table as it
      is, whatever its path; the walk goes on. */
  lemma KnownContentSkipped(t: Table, path: string, name: string, size: int64, digest: Digest, key: KeyBlock)
    requires WellFormed(t) && ContainsDigest(t.rows, Hex(digest))
    ensures AfterEntry(t, CleanFile(path, name, size, digest, key)) == (t, None)
  {
  }

  /** Files A and B with the same content and C with other content, found
      under `files/` by a walk into a new index: two rows, A's and C's, each
      with its path and base name; B is skipped as a duplicate. */
  lemma DuplicateContentScenario(hello: Digest, world: Digest, ka: KeyBlock, kb: KeyBlock, kc: KeyBlock)
    requires hello != world
    ensures var a := CleanFile("files/A", "A", 5, hello, ka);
      var b := CleanFile("files/B", "B", 5, hello, kb);
      var c := CleanFile("files/C", "C", 5, world, kc);
      WalkSpec(Table([], 0), [a, b, c]) ==
        (Table([FileInfo(1, "files/A", "A", 5, Hex(hello), ka, 0),
                FileInfo(2, "files/C", "C", 5, Hex(world), kc, 0)], 2), None)
  {
    var a := CleanFile("files/A", "A", 5, hello, ka);
    var b := CleanFile("files/B", "B", 5, hello, kb);
    var c := CleanFile("files/C", "C", 5, world, kc);
    var rowA := FileInfo(1, "files/A", "A", 5, Hex(hello), ka, 0);
    var rowC := FileInfo(2, "files/C", "C", 5, Hex(world), kc, 0);
    var t0 := Table([], 0);
    var t1 := Table([rowA], 1);
    var t2 := Table([rowA, rowC], 2);
    CleanNewFileRegisters(t0, "files/A", "A", 5, hello, ka);
    assert [] + [rowA] == [rowA];
    assert ContainsDigest(t1.rows, Hex(hello));
    KnownContentSkipped(t1, "files/B", "B", 5, hello, kb);
    HexInjective(hello, world);
    assert !ContainsDigest(t1.rows, Hex(world));
    CleanNewFileRegisters(t1, "files/C", "C", 5, world, kc);
    assert [rowA] + [rowC] == [rowA, rowC];
    assert WalkSpec(t1, [c]) == (t2, None) by {
      assert [c][1..] == [];
    }
    assert WalkSpec(t1, [b, c]) == (t2, None) by {
      assert [b, c][1..] == [c];
    }
    assert [a, b, c][1..] == [b, c];
  }
}
