/** Where agreement with the database stops: the columns that updates change behind the
    caches. What a cached copy holds, when an answer is current, and a run after which
    `removeFile` alone would leave a stale entry. */
module FileStaleness {
  import opened Strings
  import opened Models
  import opened LruCache
  import opened FileStore
  import opened FileCoherence
  import opened FileHandlers

  // ------------------------------------------------------------------- one update

  /** What a request writes into a row that it does not delete. */
  function Updated(row: FileRecord, req: Request): FileRecord {
    match req
    case SetMeta(id, summary, tags) => if id == row.id then row.(summary := summary, tags := tags) else row
    case SetStatus(id, status) => if id == row.id then row.(status := status) else row
    case _ => row
  }

  lemma {:induction false} RowUpdated(table: seq<FileRecord>, req: Request, k: int)
    requires (req.SetMeta? || req.SetStatus?) && LookupRow(table, k).Some?
    ensures var t := if req.SetMeta? then UpdateMeta(table, req.fileId, req.summary, req.tags)
                     else UpdateStatus(table, req.fileId, req.status);
            LookupRow(t, k) == Some(Updated(LookupRow(table, k).value, req))
  {
    var t := if req.SetMeta? then UpdateMeta(table, req.fileId, req.summary, req.tags)
             else UpdateStatus(table, req.fileId, req.status);
    if table[0].id != k {
      RowUpdated(table[1..], req, k);
      assert t[1..] == if req.SetMeta? then UpdateMeta(table[1..], req.fileId, req.summary, req.tags)
                       else UpdateStatus(table[1..], req.fileId, req.status);
    }
  }

  /** Both lookups answer with the row as it is exactly when they hold no copy or a copy of
      the row as it is. */
  lemma CurrentExactly(s: Store, id: int, sha: Sha)
    requires Coherent(s, sha) && LookupRow(s.table, id).Some?
    ensures var row := LookupRow(s.table, id).value;
            && (GetById(s, id).1 == Ok(row) <==> Lookup(s.byId, id).None? || Lookup(s.byId, id).value == row)
            && (GetByHash(s, row.fileHash).1 == Ok(row)
                <==> Lookup(s.byHash, row.fileHash).None? || Lookup(s.byHash, row.fileHash).value == row)
  {
    var row := LookupRow(s.table, id).value;
    RowKey(s, id);
    RowStored(s, id, sha);
    assert Trim(row.fileHash) == row.fileHash && row.fileHash != "" by { DigestTrim(row.fileHash); }
    hide Coherent, Lookup, LookupRow, LookupHash, Touch, PutEntry, Trim, Stored, BuildStoragePath;
  }

  /** An update of summary and tags or of the status writes the row and no cache: afterwards
      each lookup is current exactly when it holds no copy of the row or a copy that happens
      to be what was written. */
  lemma UpdateGoesStale(s: Store, req: Request, sha: Sha)
    requires Coherent(s, sha) && (req.SetMeta? || req.SetStatus?) && LookupRow(s.table, req.fileId).Some?
    ensures var t := Handle(s, req, sha).0;
            var row := Updated(LookupRow(s.table, req.fileId).value, req);
            && LookupRow(t.table, req.fileId) == Some(row) == LookupHash(t.table, row.fileHash)
            && t.byId == s.byId && t.byHash == s.byHash
            && (GetById(t, req.fileId).1 == Ok(row)
                <==> Lookup(s.byId, req.fileId).None? || Lookup(s.byId, req.fileId).value == row)
            && (GetByHash(t, row.fileHash).1 == Ok(row)
                <==> Lookup(s.byHash, row.fileHash).None? || Lookup(s.byHash, row.fileHash).value == row)
  {
    var t := Handle(s, req, sha).0;
    HandleKeeps(s, req, sha);
    RowUpdated(s.table, req, req.fileId);
    CoherentParts(t, sha);
    assert t.byId == s.byId && t.byHash == s.byHash;
    hide Coherent, Handle, LookupRow, LookupHash, Lookup, GetById, GetByHash, UpdateMeta, UpdateStatus, CachesOk;
    CurrentExactly(t, req.fileId, sha);
    RowKey(t, req.fileId);
  }

  // ---------------------------------------------------------- what the caches hold

  /** A copy stays what it was while it is cached and is the row when it enters. */
  ghost predicate Copies(before: Option<FileRecord>, after: Option<FileRecord>, row: Option<FileRecord>) {
    after.Some? ==> after == if before.Some? then before else row
  }

  ghost predicate IdCopies(s: Store, t: Store) {
    forall k :: Copies(Lookup(s.byId, k), Lookup(t.byId, k), LookupRow(t.table, k))
  }

  ghost predicate HashCopies(s: Store, t: Store) {
    forall h :: Copies(Lookup(s.byHash, h), Lookup(t.byHash, h), LookupHash(t.table, h))
  }

  lemma SameCaches(s: Store, t: Store)
    ensures t.byId == s.byId ==> IdCopies(s, t)
    ensures t.byHash == s.byHash ==> HashCopies(s, t)
  {}

  lemma GetByIdCopies(s: Store, id: int)
    requires CachesOk(s)
    ensures IdCopies(s, GetById(s, id).0)
  {
    RowFound(s.table, id);
    CacheHit(s.byId, id, s.capacity);
    hide Lookup, LookupRow, Touch, PutEntry;
    if Lookup(s.byId, id).None? && LookupRow(s.table, id).Some? {
      CachePut(s.byId, id, LookupRow(s.table, id).value, s.capacity);
    }
  }

  lemma GetByHashCopies(s: Store, hash: string)
    requires CachesOk(s)
    ensures HashCopies(s, GetByHash(s, hash).0)
  {
    var h := Trim(hash);
    HashFound(s.table, h);
    CacheHit(s.byHash, h, s.capacity);
    hide Lookup, LookupHash, Touch, PutEntry, Trim;
    if Lookup(s.byHash, h).None? && LookupHash(s.table, h).Some? {
      CachePut(s.byHash, h, LookupHash(s.table, h).value, s.capacity);
    }
  }

  lemma InsertCopies(s: Store, row: FileRecord)
    requires CachesOk(s) && row.id == s.nextId && LookupHash(s.table, row.fileHash).None?
    ensures IdCopies(s, Insert(s, row)) && HashCopies(s, Insert(s, row))
  {
    RowFound(s.table, row.id);
    assert LookupRow(s.table, row.id).None?;
    assert Agrees(Lookup(s.byId, row.id), LookupRow(s.table, row.id));
    assert Agrees(Lookup(s.byHash, row.fileHash), LookupHash(s.table, row.fileHash));
    RowAppended(s.table, row, row.id, row.fileHash);
    hide Lookup, LookupRow, LookupHash, PutEntry, Fixed;
    CachePut(s.byId, row.id, row, s.capacity);
    CachePut(s.byHash, row.fileHash, row, s.capacity);
  }

  /** `createFile` leaves everything alone or inserts one row. */
  lemma CreateFileInserts(s: Store, record: FileRecord, stamp: string)
    ensures var (t, r) := CreateFile(s, record, stamp);
            t == s || (r.Ok? && t == Insert(s, r.record) && r.record.id == s.nextId
                       && LookupHash(s.table, r.record.fileHash).None?)
  {
    hide LookupHash, Insert, Trim;
  }

  lemma CreateFileCopies(s: Store, record: FileRecord, stamp: string)
    requires CachesOk(s)
    ensures var t := CreateFile(s, record, stamp).0; IdCopies(s, t) && HashCopies(s, t)
  {
    var (t, r) := CreateFile(s, record, stamp);
    CreateFileInserts(s, record, stamp);
    hide CreateFile, CachesOk, IdCopies, HashCopies, Insert, LookupHash;
    if t == s { SameCaches(s, t); } else { InsertCopies(s, r.record); }
  }

  lemma RemoveFileCopies(s: Store, m: Store, id: int)
    requires CachesOk(s) && CachesOk(m) && id > 0 && m.table == s.table && m.byHash == s.byHash
    requires m.byId == GetById(s, id).0.byId
    ensures var t := RemoveFile(m, id).0; IdCopies(s, t) && HashCopies(s, t)
  {
    var t := RemoveFile(m, id).0;
    GetByIdCopies(s, id);
    assert IdCopies(s, GetById(s, id).0);
    CacheHit(m.byId, id, m.capacity);
    CacheHit(Touch(m.byId, id), id, m.capacity);
    if Lookup(m.byId, id).Some? { CacheHit(m.byHash, Lookup(m.byId, id).value.fileHash, m.capacity); }
    hide Lookup, LookupRow, LookupHash, Touch, Without, RemoveRow, TableOk, GetById;
    forall k ensures Copies(Lookup(s.byId, k), Lookup(t.byId, k), LookupRow(t.table, k)) {
      RemovalById(s.table, s.nextId, id, k);
      assert Copies(Lookup(s.byId, k), Lookup(GetById(s, id).0.byId, k), LookupRow(GetById(s, id).0.table, k));
    }
  }

  // ------------------------------------------------------------------ one request

  /** The tables before and after are the same, or one row with the next key is appended. */
  ghost predicate Grown(s: Store, t: Store) {
    || t.table == s.table
    || var n := |s.table|; |t.table| == n + 1 && t.table == s.table + [t.table[n]] && t.table[n].id == s.nextId
  }

  lemma GrownKeepsRow(s: Store, t: Store, k: int)
    requires CachesOk(s) && Grown(s, t) && LookupRow(s.table, k).Some?
    ensures LookupRow(t.table, k) == LookupRow(s.table, k)
  {
    if t.table != s.table {
      RowAppended(s.table, t.table[|s.table|], k, "");
    }
  }

  lemma CreateFileGrows(s: Store, record: FileRecord, stamp: string)
    ensures Grown(s, CreateFile(s, record, stamp).0)
  {
    var (t, r) := CreateFile(s, record, stamp);
    CreateFileInserts(s, record, stamp);
    if t != s { InsertFields(s, r.record); }
    hide CreateFile, Insert, LookupHash;
  }

  /** A read by hash changes the hash cache alone, and a failing one nothing. */
  lemma GetByHashFrame(s: Store, hash: string)
    ensures var (t, r) := GetByHash(s, hash);
            t == s.(byHash := t.byHash) && (r.Fail? ==> t == s) && IdCopies(s, t) && Grown(s, t)
  {
    SameCaches(s, GetByHash(s, hash).0);
    hide Lookup, LookupHash, Touch, PutEntry, Trim, IdCopies;
  }

  lemma NothingCopied(s: Store)
    ensures IdCopies(s, s) && HashCopies(s, s) && Grown(s, s)
  {
    SameCaches(s, s);
  }

  lemma UploadCopies(s: Store, user: int, filename: string, content: string, stamp: string, sha: Sha)
    requires Coherent(s, sha)
    ensures var t := HandleUpload(s, user, filename, content, stamp, sha).0;
            IdCopies(s, t) && HashCopies(s, t) && Grown(s, t)
  {
    CoherentParts(s, sha);
    hide Coherent, CachesOk, GetByHash, LookupHash, IdCopies, HashCopies, Grown, BuildStoragePath, CreateFile;
    NothingCopied(s);
    if content != "" {
      var hash := sha(content);
      GetByHashFrame(s, hash);
      GetByHashCopies(s, hash);
      if GetByHash(s, hash).1.Fail? { UploadNewCopies(s, user, filename, content, stamp, sha); }
    }
  }

  lemma UploadNewCopies(s: Store, user: int, filename: string, content: string, stamp: string, sha: Sha)
    requires CachesOk(s)
    ensures var hash := sha(content);
            var path := BuildStoragePath(hash);
            var record := FileRecord(0, user, filename, hash, |content|, path, 1, "", "", "");
            var (t, created) := CreateFile(StoreBlob(s, hash, content), record, stamp);
            var u := if created.Ok? then t else DeleteBlob(t, path);
            IdCopies(s, u) && HashCopies(s, u) && Grown(s, u)
  {
    hide CachesOk, IdCopies, HashCopies, Grown, BuildStoragePath, CreateFile;
    var hash := sha(content);
    var s2 := StoreBlob(s, hash, content);
    CachesIgnoreDisk(s, s2.disk);
    var record := FileRecord(0, user, filename, hash, |content|, BuildStoragePath(hash), 1, "", "", "");
    CreateFileGrows(s2, record, stamp);
    CreateFileCopies(s2, record, stamp);
    var t := CreateFile(s2, record, stamp).0;
    CopiesIgnoreDisk(s, s2, t, DeleteBlob(t, BuildStoragePath(hash)));
  }

  lemma CopiesIgnoreDisk(s: Store, s2: Store, t: Store, t2: Store)
    requires s2 == s.(disk := s2.disk) && t2 == t.(disk := t2.disk)
    ensures IdCopies(s2, t) ==> IdCopies(s, t) && IdCopies(s, t2)
    ensures HashCopies(s2, t) ==> HashCopies(s, t) && HashCopies(s, t2)
    ensures Grown(s2, t) ==> Grown(s, t) && Grown(s, t2)
  {
    hide Lookup, LookupRow, LookupHash, Copies;
  }

  lemma ChunkCompleteCopies(s: Store, user: int, filename: string, size: int, merged: string, stamp: string, sha: Sha)
    requires Coherent(s, sha)
    ensures var t := HandleChunkComplete(s, user, filename, size, merged, stamp, sha).0;
            IdCopies(s, t) && HashCopies(s, t) && Grown(s, t)
  {
    var hash := sha(merged);
    hide IdCopies, HashCopies, Grown, BuildStoragePath, CreateFile;
    var s1 := StoreBlob(s, hash, merged);
    CachesIgnoreDisk(s, s1.disk);
    var record := FileRecord(0, user, filename, hash, size, BuildStoragePath(hash), 1, "", "", "");
    CreateFileGrows(s1, record, stamp);
    CreateFileCopies(s1, record, stamp);
    var t := CreateFile(s1, record, stamp).0;
    CopiesIgnoreDisk(s, s1, t, t);
  }

  lemma ShareSaveCopies(s: Store, user: int, shareOwner: int, fileId: int, stamp: string, sha: Sha)
    requires Coherent(s, sha)
    ensures var t := HandleShareSave(s, user, shareOwner, fileId, stamp).0; IdCopies(s, t) && HashCopies(s, t)
  {
    CoherentParts(s, sha);
    hide Coherent, CachesOk, GetById, GetByHash, CreateFile, IdCopies, HashCopies, Grown, LookupRow, Evolves, Fixed;
    NothingCopied(s);
    GetByIdIsDatabase(s, fileId);
    var (s1, original) := GetById(s, fileId);
    ReadByIdCopies(s, fileId);
    if shareOwner != user && original.Ok? {
      var o := original.record;
      ShareSaveKnown(s, s1, o, user, fileId, stamp, sha);
      GetByHashFrame(s1, o.fileHash);
      GetByHashCopies(s1, o.fileHash);
      CopiesBySide(s, s1, GetByHash(s1, o.fileHash).0);
    }
  }

  /** A change of the hash cache after one of the id cache. */
  lemma CopiesBySide(s: Store, m: Store, t: Store)
    requires m == s.(byId := m.byId) && t == m.(byHash := t.byHash) && IdCopies(s, m) && HashCopies(m, t)
    ensures IdCopies(s, t) && HashCopies(s, t)
  {
    hide Lookup, LookupRow, LookupHash, Copies;
  }

  lemma DeleteCopies(s: Store, user: int, fileId: int, sha: Sha)
    requires Coherent(s, sha)
    ensures var t := HandleDelete(s, user, fileId).0; IdCopies(s, t) && HashCopies(s, t)
  {
    CoherentParts(s, sha);
    hide Coherent, CachesOk, GetById, IdCopies, HashCopies, LookupRow, RemoveFile, Fixed;
    GetByIdIsDatabase(s, fileId);
    var (s1, found) := GetById(s, fileId);
    ReadByIdCopies(s, fileId);
    if found.Ok? {
      RowKey(s, fileId);
      var s2 := DeleteBlob(s1, found.record.storagePath);
      CachesIgnoreDisk(s1, s2.disk);
      RemoveFileCopies(s, s2, fileId);
    }
  }

  /** What every request does to the copies. */
  lemma HandleCopies(s: Store, req: Request, sha: Sha)
    requires Coherent(s, sha)
    ensures var t := Handle(s, req, sha).0; IdCopies(s, t) && HashCopies(s, t)
  {
    hide IdCopies, HashCopies, HandleUpload, HandleChunkComplete, HandleShareSave, HandleDelete, GetById, GetByHash;
    SameCaches(s, s);
    match req
    case Upload(user, filename, content, stamp) => UploadCopies(s, user, filename, content, stamp, sha);
    case ChunkComplete(user, filename, size, merged, stamp) =>
      ChunkCompleteCopies(s, user, filename, size, merged, stamp, sha);
    case ShareSave(user, owner, fileId, stamp) => ShareSaveCopies(s, user, owner, fileId, stamp, sha);
    case Fetch(fileId) => ReadByIdCopies(s, fileId);
    case Check(hash) => ReadByHashCopies(s, hash);
    case Download(user, fileId) => ReadByIdCopies(s, fileId);
    case Delete(user, fileId) => DeleteCopies(s, user, fileId, sha);
    case SetMeta(fileId, summary, tags) => SameCaches(s, s.(table := UpdateMeta(s.table, fileId, summary, tags)));
    case SetStatus(fileId, status) => SameCaches(s, s.(table := UpdateStatus(s.table, fileId, status)));
  }

  lemma ReadByIdCopies(s: Store, id: int)
    requires CachesOk(s)
    ensures var t := GetById(s, id).0; IdCopies(s, t) && HashCopies(s, t)
  {
    GetByIdCopies(s, id);
    SameCaches(s, GetById(s, id).0);
    GetByIdIsDatabase(s, id);
    hide IdCopies, HashCopies, GetById;
  }

  lemma ReadByHashCopies(s: Store, hash: string)
    requires CachesOk(s)
    ensures var t := GetByHash(s, hash).0; IdCopies(s, t) && HashCopies(s, t)
  {
    GetByHashCopies(s, hash);
    SameCaches(s, GetByHash(s, hash).0);
    GetByHashIsDatabase(s, hash);
    hide IdCopies, HashCopies, GetByHash;
  }

  /** Only updates write into a row that stays. */
  lemma HandleRow(s: Store, req: Request, k: int, sha: Sha)
    requires Coherent(s, sha) && LookupRow(s.table, k).Some? && Deletes(s, req) != k
    ensures LookupRow(Handle(s, req, sha).0.table, k) == Some(Updated(LookupRow(s.table, k).value, req))
  {
    CoherentParts(s, sha);
    hide LookupRow, HandleUpload, HandleChunkComplete, HandleShareSave, HandleDownload, HandleDelete;
    hide GetById, GetByHash;
    hide Coherent, CachesOk, Evolves, RemoveRow, LookupHash, IdCopies, HashCopies, Grown, BuildStoragePath, Fixed;
    RowKey(s, k);
    match req
    case Upload(user, filename, content, stamp) =>
      UploadCopies(s, user, filename, content, stamp, sha);
      GrownKeepsRow(s, Handle(s, req, sha).0, k);
    case ChunkComplete(user, filename, size, merged, stamp) =>
      ChunkCompleteCopies(s, user, filename, size, merged, stamp, sha);
      GrownKeepsRow(s, Handle(s, req, sha).0, k);
    case ShareSave(user, owner, fileId, stamp) => ShareSaveAddsNothing(s, user, owner, fileId, stamp, sha);
    case Fetch(fileId) => GetByIdIsDatabase(s, fileId);
    case Check(hash) => GetByHashIsDatabase(s, hash);
    case Download(user, fileId) => DownloadResult(s, user, fileId, sha);
    case Delete(user, fileId) => DeleteRow(s, user, fileId, k, sha);
    case SetMeta(_, _, _) => RowUpdated(s.table, req, k);
    case SetStatus(_, _) => RowUpdated(s.table, req, k);
  }

  lemma DeleteRow(s: Store, user: int, fileId: int, k: int, sha: Sha)
    requires Coherent(s, sha) && Deletes(s, Delete(user, fileId)) != k && LookupRow(s.table, k).Some?
    ensures LookupRow(HandleDelete(s, user, fileId).0.table, k) == LookupRow(s.table, k)
  {
    CoherentParts(s, sha);
    hide Coherent, CachesOk, Evolves, LookupRow, HandleDelete, RemoveRow, TableOk, BuildStoragePath;
    DeleteResult(s, user, fileId, sha);
    RemovalById(s.table, s.nextId, fileId, k);
  }

  // --------------------------------------------------------------------- every run

  /** What a run of requests writes into a row that it does not delete. */
  function UpdatedBy(row: FileRecord, requests: seq<Request>): FileRecord
    decreases |requests|
  {
    if requests == [] then row
    else Updated(UpdatedBy(row, requests[..|requests| - 1]), requests[|requests| - 1])
  }

  /** A row that is not deleted is what the updates of the run make of it. */
  lemma {:induction false} RowIsUpdated(s: Store, requests: seq<Request>, k: int, sha: Sha)
    requires Coherent(s, sha) && LookupRow(s.table, k).Some? && Spared(s, requests, k, sha)
    ensures LookupRow(Serve(s, requests, sha).table, k) == Some(UpdatedBy(LookupRow(s.table, k).value, requests))
    decreases |requests|
  {
    hide Coherent, LookupRow, Handle, Deletes, Updated;
    if requests != [] {
      var n := |requests| - 1;
      hide Spared;
      SparedSoFar(s, requests, k, sha);
      RowIsUpdated(s, requests[..n], k, sha);
      ServeKeeps(s, requests[..n], sha);
      HandleRow(Serve(s, requests[..n], sha), requests[n], k, sha);
    }
  }

  lemma {:induction false} ServeSplit(s: Store, requests: seq<Request>, k: nat, sha: Sha)
    requires k <= |requests|
    ensures Serve(s, requests, sha) == Serve(Serve(s, requests[..k], sha), requests[k..], sha)
    decreases |requests| - k
  {
    hide Handle;
    var n := |requests| - 1;
    if k == |requests| {
      assert requests[..k] == requests;
    } else {
      ServeSplit(s, requests[..n], k, sha);
      assert requests[..n][..k] == requests[..k] && requests[..n][k..] == requests[k..][..|requests| - k - 1];
    }
  }

  /** Of a history of lookups, one after each request, the last place where a copy entered. */
  function LastEntry(copies: seq<Option<FileRecord>>): (r: nat)
    requires copies != []
    ensures r < |copies|
  {
    var n := |copies| - 1;
    if n == 0 || copies[n - 1].None? then n else LastEntry(copies[..n])
  }

  lemma {:induction false} CopyFromEntry(copies: seq<Option<FileRecord>>, rows: seq<Option<FileRecord>>)
    requires 0 < |copies| == |rows| && copies[0].None? && copies[|copies| - 1].Some?
    requires forall i :: 0 < i < |copies| ==> Copies(copies[i - 1], copies[i], rows[i])
    ensures copies[|copies| - 1] == rows[LastEntry(copies)]
  {
    var n := |copies| - 1;
    assert Copies(copies[n - 1], copies[n], rows[n]);
    if copies[n - 1].Some? {
      assert forall i :: 0 < i < n ==> Copies(copies[..n][i - 1], copies[..n][i], rows[..n][i]);
      CopyFromEntry(copies[..n], rows[..n]);
    }
  }

  /** The id cache's answers for a key after 0, 1, 2, ... requests. */
  function IdHistory(s: Store, requests: seq<Request>, id: int, sha: Sha): (r: seq<Option<FileRecord>>)
    ensures |r| == |requests| + 1
  {
    seq(|requests| + 1, i requires 0 <= i <= |requests| => Lookup(Serve(s, requests[..i], sha).byId, id))
  }

  function HashHistory(s: Store, requests: seq<Request>, hash: string, sha: Sha): (r: seq<Option<FileRecord>>)
    ensures |r| == |requests| + 1
  {
    seq(|requests| + 1, i requires 0 <= i <= |requests| => Lookup(Serve(s, requests[..i], sha).byHash, hash))
  }

  lemma ServeNext(s: Store, requests: seq<Request>, i: nat, sha: Sha)
    requires 0 < i <= |requests|
    ensures Serve(s, requests[..i], sha) == Handle(Serve(s, requests[..i - 1], sha), requests[i - 1], sha).0
  {
    hide Handle;
    assert requests[..i][..i - 1] == requests[..i - 1];
  }

  /** A cached copy is the row as it was when the copy entered the cache. */
  lemma IdCopyIsEntryRow(s: Store, requests: seq<Request>, id: int, sha: Sha)
    requires Coherent(s, sha) && Lookup(s.byId, id).None? && Lookup(Serve(s, requests, sha).byId, id).Some?
    ensures var entry := LastEntry(IdHistory(s, requests, id, sha));
            Lookup(Serve(s, requests, sha).byId, id) == LookupRow(Serve(s, requests[..entry], sha).table, id)
  {
    hide Coherent, Lookup, LookupRow, Handle, Copies, Serve;
    var copies := IdHistory(s, requests, id, sha);
    var rows := seq(|copies|, i requires 0 <= i < |copies| => LookupRow(Serve(s, requests[..i], sha).table, id));
    assert Serve(s, [], sha) == s by { NothingServed(s, sha); }
    assert requests[..0] == [] && requests[..|requests|] == requests;
    forall i | 0 < i < |copies| ensures Copies(copies[i - 1], copies[i], rows[i]) {
      ServeKeeps(s, requests[..i - 1], sha);
      ServeNext(s, requests, i, sha);
      HandleCopies(Serve(s, requests[..i - 1], sha), requests[i - 1], sha);
    }
    CopyFromEntry(copies, rows);
  }

  lemma HashCopyIsEntryRow(s: Store, requests: seq<Request>, hash: string, sha: Sha)
    requires Coherent(s, sha) && Lookup(s.byHash, hash).None? && Lookup(Serve(s, requests, sha).byHash, hash).Some?
    ensures var entry := LastEntry(HashHistory(s, requests, hash, sha));
            Lookup(Serve(s, requests, sha).byHash, hash) == LookupHash(Serve(s, requests[..entry], sha).table, hash)
  {
    hide Coherent, Lookup, LookupHash, Handle, Copies, Serve;
    var copies := HashHistory(s, requests, hash, sha);
    var rows := seq(|copies|, i requires 0 <= i < |copies| => LookupHash(Serve(s, requests[..i], sha).table, hash));
    assert Serve(s, [], sha) == s by { NothingServed(s, sha); }
    assert requests[..0] == [] && requests[..|requests|] == requests;
    forall i | 0 < i < |copies| ensures Copies(copies[i - 1], copies[i], rows[i]) {
      ServeKeeps(s, requests[..i - 1], sha);
      ServeNext(s, requests, i, sha);
      HandleCopies(Serve(s, requests[..i - 1], sha), requests[i - 1], sha);
    }
    CopyFromEntry(copies, rows);
  }

  lemma NothingServed(s: Store, sha: Sha)
    ensures Serve(s, [], sha) == s
  {}

  /** A copy taken at one point of a run, of a row still there at the end, is the row at the
      end exactly when the updates since then cancel out. */
  lemma CopyIsCurrentExactly(s: Store, requests: seq<Request>, entry: nat, copy: FileRecord, sha: Sha)
    requires Coherent(s, sha) && entry <= |requests|
    requires LookupRow(Serve(s, requests[..entry], sha).table, copy.id) == Some(copy)
    requires LookupRow(Serve(s, requests, sha).table, copy.id).Some?
    ensures LookupRow(Serve(s, requests, sha).table, copy.id) == Some(UpdatedBy(copy, requests[entry..]))
  {
    hide Coherent, Serve, LookupRow, Spared, Fixed, UpdatedBy;
    var m := Serve(s, requests[..entry], sha);
    ServeKeeps(s, requests[..entry], sha);
    ServeSplit(s, requests, entry, sha);
    RowsLast(m, requests[entry..], copy.id, sha);
    RowIsUpdated(m, requests[entry..], copy.id, sha);
  }

  /** On every run from the empty server: the answer by id for a row is the row as it is
      exactly when no copy is cached, or the updates since the copy entered cancel out. */
  lemma AnswerByIdIsCurrent(capacity: nat, requests: seq<Request>, id: int, sha: Sha)
    requires LookupRow(Serve(Empty(capacity), requests, sha).table, id).Some?
    ensures var s := Serve(Empty(capacity), requests, sha);
            var entry := LastEntry(IdHistory(Empty(capacity), requests, id, sha));
            GetById(s, id).1 == Ok(LookupRow(s.table, id).value)
            <==> Lookup(s.byId, id).None?
                 || UpdatedBy(Lookup(s.byId, id).value, requests[entry..]) == Lookup(s.byId, id).value
  {
    hide Coherent, Serve, Lookup, LookupRow, LookupHash, GetById, GetByHash, Fixed, UpdatedBy, IdHistory, LastEntry;
    var e := Empty(capacity);
    var s := Serve(e, requests, sha);
    EmptyCoherent(capacity, sha);
    ServeKeeps(e, requests, sha);
    CurrentExactly(s, id, sha);
    if Lookup(s.byId, id).Some? {
      NothingCached(capacity, id, "");
      IdCopyIsEntryRow(e, requests, id, sha);
      var entry := LastEntry(IdHistory(e, requests, id, sha));
      RowFoundKey(Serve(e, requests[..entry], sha), id);
      CopyIsCurrentExactly(e, requests, entry, Lookup(s.byId, id).value, sha);
    }
  }

  lemma RowFoundKey(s: Store, k: int)
    requires LookupRow(s.table, k).Some?
    ensures LookupRow(s.table, k).value.id == k
  {
    RowFound(s.table, k);
  }

  lemma NothingCached(capacity: nat, id: int, hash: string)
    ensures Lookup(Empty(capacity).byId, id).None? && Lookup(Empty(capacity).byHash, hash).None?
  {}

  /** The same for the answer by hash. */
  lemma AnswerByHashIsCurrent(capacity: nat, requests: seq<Request>, id: int, sha: Sha)
    requires LookupRow(Serve(Empty(capacity), requests, sha).table, id).Some?
    ensures var s := Serve(Empty(capacity), requests, sha);
            var row := LookupRow(s.table, id).value;
            var copy := Lookup(s.byHash, row.fileHash);
            var entry := LastEntry(HashHistory(Empty(capacity), requests, row.fileHash, sha));
            GetByHash(s, row.fileHash).1 == Ok(row)
            <==> copy.None? || UpdatedBy(copy.value, requests[entry..]) == copy.value
  {
    hide Coherent, Serve, Lookup, LookupRow, LookupHash, GetById, GetByHash, Fixed, UpdatedBy, HashHistory, LastEntry;
    var e := Empty(capacity);
    var s := Serve(e, requests, sha);
    EmptyCoherent(capacity, sha);
    ServeKeeps(e, requests, sha);
    CurrentExactly(s, id, sha);
    var hash := LookupRow(s.table, id).value.fileHash;
    if Lookup(s.byHash, hash).Some? {
      var copy := Lookup(s.byHash, hash).value;
      NothingCached(capacity, id, hash);
      HashCopyIsEntryRow(e, requests, hash, sha);
      var entry := LastEntry(HashHistory(e, requests, hash, sha));
      ServeKeeps(e, requests[..entry], sha);
      HashCopyKey(s, id, sha);
      RowByHash(Serve(e, requests[..entry], sha), hash, sha);
      CopyIsCurrentExactly(e, requests, entry, copy, sha);
    }
  }

  lemma HashCopyKey(s: Store, id: int, sha: Sha)
    requires Coherent(s, sha) && LookupRow(s.table, id).Some?
    ensures var copy := Lookup(s.byHash, LookupRow(s.table, id).value.fileHash); copy.Some? ==> copy.value.id == id
  {
    var hash := LookupRow(s.table, id).value.fileHash;
    RowKey(s, id);
    assert Agrees(Lookup(s.byHash, hash), LookupHash(s.table, hash));
    hide Lookup, LookupRow, LookupHash;
    if Lookup(s.byHash, hash).Some? { FixedFields(Lookup(s.byHash, hash).value, LookupRow(s.table, id).value); }
  }

  lemma RowByHash(s: Store, hash: string, sha: Sha)
    requires Coherent(s, sha) && LookupHash(s.table, hash).Some?
    ensures var row := LookupHash(s.table, hash).value; LookupRow(s.table, row.id) == Some(row)
  {
    HashFound(s.table, hash);
    RowAt(s.table, s.nextId, LookupHash(s.table, hash).value);
  }

  // ------------------------------------------------------ removal without a read first

  /** The state after an accepted upload of new content. */
  lemma NewUpload(s: Store, user: int, filename: string, content: string, stamp: string, sha: Sha)
    requires Coherent(s, sha) && LookupHash(s.table, sha(content)).None?
    requires content != "" && user > 0 && Trim(filename) != ""
    ensures var hash := sha(content);
            var path := BuildStoragePath(hash);
            var row := FileRecord(s.nextId, user, Trim(filename), hash, |content|, path, 1, "", "", stamp);
            HandleUpload(s, user, filename, content, stamp, sha).0 == Insert(StoreBlob(s, hash, content), row)
  {
    var hash := sha(content);
    assert IsDigest(hash);
    DigestTrim(hash);
    assert Agrees(Lookup(s.byHash, hash), LookupHash(s.table, hash));
    StoreKeeps(s, content, sha);
    var record := FileRecord(0, user, filename, hash, |content|, BuildStoragePath(hash), 1, "", "", "");
    NormalisedStored(record, StoreBlob(s, hash, content).disk, sha);
    hide Coherent, Lookup, LookupHash, BuildStoragePath, IsDigest, Trim, Normalised, Validate, Insert, Stored;
  }

  lemma UploadsCached(s: Store, row: FileRecord)
    requires s.capacity == 1 && |s.byId| <= 1 && |s.byHash| <= 1
    requires Lookup(s.byId, row.id).None? && Lookup(s.byHash, row.fileHash).None?
    ensures Insert(s, row).byId == [(row.id, row)] && Insert(s, row).byHash == [(row.fileHash, row)]
  {
    hide Lookup;
    if s.byId != [] { assert DropLast(s.byId) == []; }
    if s.byHash != [] { assert DropLast(s.byHash) == []; }
  }

  /** Two uploads and a lookup by hash, on caches of one entry. */
  function EvictingRun(user: int, sha: Sha): seq<Request> {
    [Upload(user, "a", "a", ""), Upload(user, "b", "b", ""), Check(sha("a"))]
  }

  lemma ServeThree(s: Store, a: Request, b: Request, c: Request, sha: Sha)
    ensures Serve(s, [a, b, c], sha) == Handle(Handle(Handle(s, a, sha).0, b, sha).0, c, sha).0
  {
    hide Handle;
    assert [a, b, c][..2] == [a, b] && [a, b][..1] == [a] && [a][..0] == [];
    assert Serve(s, [a], sha) == Handle(s, a, sha).0;
    assert Serve(s, [a, b], sha) == Handle(Handle(s, a, sha).0, b, sha).0;
  }

  function TinyRow(id: int, user: int, text: string, sha: Sha): FileRecord {
    FileRecord(id, user, text, sha(text), |text|, BuildStoragePath(sha(text)), 1, "", "", "")
  }

  /** Uploading a short new text to a server with caches of one entry. */
  lemma TinyUpload(s: Store, user: int, text: string, sha: Sha)
    requires Coherent(s, sha) && s.capacity == 1 && user > 0 && text != "" && Trim(text) == text
    requires LookupHash(s.table, sha(text)).None?
    ensures var t := Handle(s, Upload(user, text, text, ""), sha).0;
            var row := TinyRow(s.nextId, user, text, sha);
            && Coherent(t, sha) && t.capacity == 1 && t.table == s.table + [row] && t.nextId == s.nextId + 1
            && t.byId == [(row.id, row)] && t.byHash == [(row.fileHash, row)]
  {
    var hash := sha(text);
    var row := TinyRow(s.nextId, user, text, sha);
    HandleKeeps(s, Upload(user, text, text, ""), sha);
    NewUpload(s, user, text, text, "", sha);
    RowFound(s.table, s.nextId);
    assert LookupRow(s.table, s.nextId).None?;
    assert Agrees(Lookup(s.byId, s.nextId), LookupRow(s.table, s.nextId));
    assert Agrees(Lookup(s.byHash, hash), LookupHash(s.table, hash));
    var m := StoreBlob(s, hash, text);
    UploadsCached(m, row);
    InsertFields(m, row);
    hide Coherent, Lookup, LookupRow, LookupHash, HandleUpload, BuildStoragePath, Trim, PutEntry;
  }

  lemma LooksUpTwo(a: FileRecord, b: FileRecord)
    requires a.id != b.id && a.fileHash != b.fileHash
    ensures LookupRow([a, b], a.id) == Some(a) && LookupHash([a, b], a.fileHash) == Some(a)
    ensures LookupHash([a], b.fileHash) == None
    ensures Lookup([(b.id, b)], a.id) == None && Lookup([(b.fileHash, b)], a.fileHash) == None
    ensures Lookup([(a.fileHash, a)], a.fileHash) == Some(a)
    ensures PutEntry([(b.fileHash, b)], a.fileHash, a, 1) == [(a.fileHash, a)]
  {
    assert DropLast([(b.fileHash, b)]) == [];
  }

  // --------------------------------------------------- the summary of a fresh upload

  /** An accepted upload of new content leaves its row, without summary and tags, in both
      caches. */
  lemma UploadIsCached(s: Store, user: int, filename: string, content: string, stamp: string, sha: Sha)
    requires Coherent(s, sha) && LookupHash(s.table, sha(content)).None?
    requires content != "" && user > 0 && Trim(filename) != ""
    ensures var t := Handle(s, Upload(user, filename, content, stamp), sha).0;
            var row := LookupRow(t.table, s.nextId);
            && Coherent(t, sha) && s.nextId > 0
            && row.Some? && row.value.fileHash == sha(content) && row.value.summary == row.value.tags == ""
            && Lookup(t.byId, s.nextId) == row == Lookup(t.byHash, sha(content))
  {
    var hash := sha(content);
    var m := StoreBlob(s, hash, content);
    var row := FileRecord(s.nextId, user, Trim(filename), hash, |content|, BuildStoragePath(hash), 1, "", "", stamp);
    RowFound(s.table, s.nextId);
    assert s.nextId > 0 && LookupRow(s.table, s.nextId).None?;
    hide Lookup, LookupRow, LookupHash, BuildStoragePath, Trim, PutEntry, HandleUpload;
    HandleKeeps(s, Upload(user, filename, content, stamp), sha);
    NewUpload(s, user, filename, content, stamp, sha);
    RowAppended(s.table, row, s.nextId, hash);
    CachePut(s.byId, s.nextId, row, s.capacity);
    CachePut(s.byHash, hash, row, s.capacity);
  }

  lemma AnswersFromCopies(s: Store, id: int, hash: string, copy: FileRecord)
    requires Lookup(s.byId, id) == Some(copy) == Lookup(s.byHash, hash)
    requires id > 0 && Trim(hash) == hash && hash != ""
    ensures GetById(s, id).1 == Ok(copy) == GetByHash(s, hash).1
  {}

  lemma MetaWritten(copy: FileRecord, summary: string, tags: string)
    requires copy.summary == copy.tags == "" && (summary != "" || tags != "")
    ensures var row := Updated(copy, SetMeta(copy.id, summary, tags));
            && row.summary == summary && row.tags == tags && row.fileHash == copy.fileHash
            && row.(summary := "", tags := "") == copy != row
  {}

  lemma SummaryIsMissed(s: Store, user: int, filename: string, content: string, stamp: string,
                        summary: string, tags: string, sha: Sha)
    requires Coherent(s, sha) && LookupHash(s.table, sha(content)).None?
    requires content != "" && user > 0 && Trim(filename) != "" && (summary != "" || tags != "")
    ensures var m := Handle(s, Upload(user, filename, content, stamp), sha).0;
            var t := Handle(m, SetMeta(s.nextId, summary, tags), sha).0;
            var row := LookupRow(t.table, s.nextId);
            && row.Some? && row == LookupHash(t.table, sha(content))
            && row.value.summary == summary && row.value.tags == tags
            && GetById(t, s.nextId).1 == Ok(row.value.(summary := "", tags := "")) == GetByHash(t, sha(content)).1
            && GetById(t, s.nextId).1 != Ok(row.value) && GetByHash(t, sha(content)).1 != Ok(row.value)
  {
    assert Trim(sha(content)) == sha(content) && sha(content) != "" by { DigestTrim(sha(content)); }
    hide Coherent, Handle, Lookup, LookupRow, LookupHash, Trim, GetById, GetByHash, Updated;
    var m := Handle(s, Upload(user, filename, content, stamp), sha).0;
    UploadIsCached(s, user, filename, content, stamp, sha);
    var copy := LookupRow(m.table, s.nextId).value;
    RowFoundKey(m, s.nextId);
    MetaWritten(copy, summary, tags);
    UpdateGoesStale(m, SetMeta(s.nextId, summary, tags), sha);
    AnswersFromCopies(Handle(m, SetMeta(s.nextId, summary, tags), sha).0, s.nextId, sha(content), copy);
  }

  lemma ServeTwoMore(s: Store, before: seq<Request>, a: Request, b: Request, sha: Sha)
    ensures Serve(s, before + [a, b], sha) == Handle(Handle(Serve(s, before, sha), a, sha).0, b, sha).0
  {
    hide Handle;
    var n := |before|;
    assert (before + [a, b])[..n + 1] == before + [a] && (before + [a])[..n] == before;
    assert Serve(s, before + [a], sha) == Handle(Serve(s, before, sha), a, sha).0;
  }

  /** After any run from the empty server, an upload of new content that gets a summary or
      tags: the row holds them, and both lookups answer without. */
  lemma UploadedSummaryIsMissed(capacity: nat, before: seq<Request>, user: int, filename: string, content: string,
                                stamp: string, summary: string, tags: string, sha: Sha)
    requires LookupHash(Serve(Empty(capacity), before, sha).table, sha(content)).None?
    requires content != "" && user > 0 && Trim(filename) != "" && (summary != "" || tags != "")
    ensures var id := Serve(Empty(capacity), before, sha).nextId;
            var run := before + [Upload(user, filename, content, stamp), SetMeta(id, summary, tags)];
            var t := Serve(Empty(capacity), run, sha);
            var row := LookupRow(t.table, id);
            && row.Some? && row == LookupHash(t.table, sha(content))
            && row.value.summary == summary && row.value.tags == tags
            && GetById(t, id).1 == Ok(row.value.(summary := "", tags := "")) == GetByHash(t, sha(content)).1
            && GetById(t, id).1 != Ok(row.value) && GetByHash(t, sha(content)).1 != Ok(row.value)
  {
    hide Coherent, Handle, Serve, LookupRow, LookupHash, Trim, GetById, GetByHash;
    var s := Serve(Empty(capacity), before, sha);
    EmptyCoherent(capacity, sha);
    ServeKeeps(Empty(capacity), before, sha);
    SummaryIsMissed(s, user, filename, content, stamp, summary, tags, sha);
    var upload, meta := Upload(user, filename, content, stamp), SetMeta(s.nextId, summary, tags);
    ServeTwoMore(Empty(capacity), before, upload, meta, sha);
  }

  /** The shortest such run. */
  lemma FirstSummaryIsMissed(sha: Sha)
    ensures var t := Serve(Empty(1), [Upload(1, "a", "a", ""), SetMeta(1, "x", "y")], sha);
            var row := LookupRow(t.table, 1);
            row.Some? && GetById(t, 1).1 != Ok(row.value) && GetByHash(t, sha("a")).1 != Ok(row.value)
  {
    hide Handle, LookupRow, GetById, GetByHash;
    ShortNames(sha);
    NothingServed(Empty(1), sha);
    assert [] + [Upload(1, "a", "a", ""), SetMeta(1, "x", "y")] == [Upload(1, "a", "a", ""), SetMeta(1, "x", "y")];
    UploadedSummaryIsMissed(1, [], 1, "a", "a", "", "x", "y", sha);
  }

  /** A run to a state in which `removeFile` on its own would leave a stale entry: the id
      cache has evicted the first file, the hash cache has just read it again. Afterwards
      the file is still answered by hash, though its row is gone. */
  lemma RemoveAloneGoesStale(user: int, sha: Sha)
    requires user > 0 && sha("a") != sha("b")
    ensures var s := Serve(Empty(1), EvictingRun(user, sha), sha);
            && CachesOk(s) && LookupRow(s.table, 1).Some?
            && Lookup(s.byId, 1).None? && Lookup(s.byHash, sha("a")) == LookupRow(s.table, 1)
            && var t := RemoveFile(s, 1).0;
               !CachesOk(t) && LookupHash(t.table, sha("a")).None? && GetByHash(t, sha("a")).1.Ok?
  {
    hide Coherent, Handle, Lookup, LookupRow, LookupHash, BuildStoragePath, Trim, PutEntry, CachesOk;
    hide Serve, RemoveFile, GetByHash;
    var e, run := Empty(1), EvictingRun(user, sha);
    EmptyCoherent(1, sha);
    ServeThree(e, run[0], run[1], run[2], sha);
    ServeKeeps(e, run, sha);
    ShortNames(sha);
    var s1 := Handle(e, run[0], sha).0;
    var s2 := Handle(s1, run[1], sha).0;
    var rowA, rowB := TinyRow(1, user, "a", sha), TinyRow(2, user, "b", sha);
    LooksUpTwo(rowA, rowB);
    assert LookupHash(e.table, sha("a")) == None by { NoRows(sha("a")); }
    TinyUpload(e, user, "a", sha);
    assert s1.table == [rowA];
    CoherentParts(Serve(e, run, sha), sha);
    TinyUpload(s1, user, "b", sha);
    assert s2.table == [rowA, rowB];
    CheckedAgain(s2, rowA, rowB, sha);
    RemovedUnread(Serve(e, run, sha), rowA, rowB);
  }

  lemma CheckedAgain(s: Store, a: FileRecord, b: FileRecord, sha: Sha)
    requires s.capacity == 1 && s.table == [a, b] && s.byHash == [(b.fileHash, b)]
    requires a.id != b.id && a.fileHash != b.fileHash && Trim(a.fileHash) == a.fileHash && a.fileHash != ""
    ensures Handle(s, Check(a.fileHash), sha).0 == s.(byHash := [(a.fileHash, a)])
  {
    LooksUpTwo(a, b);
    hide Lookup, LookupHash, PutEntry, Trim;
  }

  lemma RemovedUnread(s: Store, a: FileRecord, b: FileRecord)
    requires CachesOk(s) && s.table == [a, b] && s.byId == [(b.id, b)] && s.byHash == [(a.fileHash, a)]
    requires a.id == 1 != b.id && a.fileHash != b.fileHash && Trim(a.fileHash) == a.fileHash && a.fileHash != ""
    ensures LookupRow(s.table, 1) == Some(a) && Lookup(s.byId, 1).None? && Lookup(s.byHash, a.fileHash) == Some(a)
    ensures var t := RemoveFile(s, 1).0;
            !CachesOk(t) && LookupHash(t.table, a.fileHash).None? && GetByHash(t, a.fileHash).1.Ok?
  {
    LooksUpTwo(a, b);
    RemoveFileExactly(s, 1);
    TableOfCaches(s);
    RemovalLookups(s.table, s.nextId, 1, 1, a.fileHash);
    hide CachesOk, Lookup, LookupRow, LookupHash, RemoveRow, Without, Touch, Trim;
    assert RemoveFile(s, 1).0.byHash == s.byHash;
  }

  lemma NoRows(hash: string)
    ensures LookupHash([], hash) == None
  {}

  lemma TableOfCaches(s: Store)
    requires CachesOk(s)
    ensures TableOk(s.table, s.nextId)
  {}

  lemma ShortNames(sha: Sha)
    ensures Trim("a") == "a" && Trim("b") == "b" && Trim(sha("a")) == sha("a") && sha("a") != ""
  {
    TrimIdentity("a");
    TrimIdentity("b");
    DigestTrim(sha("a"));
  }
}
