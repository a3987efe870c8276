/** The request handlers of src/main.cpp that store, share, serve and delete files, over
    every run from the empty server. */
module FileHandlers {
  import opened Strings
  import opened Models
  import opened LruCache
  import opened FileStore
  import opened FileCoherence

  // ------------------------------------------------------------------ one request

  /** From `s` to `t` every row keeps its fixed columns, except that row `gone` is deleted; a
      key once given out and deleted never comes back. */
  ghost predicate Evolves(s: Store, t: Store, gone: int) {
    && s.nextId <= t.nextId
    && forall k :: k < s.nextId ==>
        && (LookupRow(t.table, k).Some? <==> LookupRow(s.table, k).Some? && k != gone)
        && Agrees(LookupRow(t.table, k), LookupRow(s.table, k))
  }

  /** The row this request deletes, or 0. */
  function Deletes(s: Store, req: Request): int {
    if req.Delete? && LookupRow(s.table, req.fileId).Some? && LookupRow(s.table, req.fileId).value.userId == req.user
    then req.fileId else 0
  }

  lemma RowKey(s: Store, id: int)
    requires CachesOk(s) && LookupRow(s.table, id).Some?
    ensures 1 <= id < s.nextId && LookupRow(s.table, id).value.id == id
    ensures LookupHash(s.table, LookupRow(s.table, id).value.fileHash) == LookupRow(s.table, id)
  {
    RowFound(s.table, id);
    RowAt(s.table, s.nextId, LookupRow(s.table, id).value);
  }

  lemma RowStored(s: Store, id: int, sha: Sha)
    requires Coherent(s, sha) && LookupRow(s.table, id).Some?
    ensures Stored(LookupRow(s.table, id).value, s.disk, sha) && Accepted(LookupRow(s.table, id).value)
  {
    RowFound(s.table, id);
  }

  lemma SameTableEvolves(s: Store, t: Store)
    requires CachesOk(s) && t.table == s.table && t.nextId == s.nextId
    ensures Evolves(s, t, 0)
  {
    hide LookupRow, Fixed;
    forall k | LookupRow(s.table, k).Some? ensures k != 0 { RowKey(s, k); }
  }

  /** Writing content under its own digest disturbs no row. */
  lemma StoreKeeps(s: Store, content: string, sha: Sha)
    requires Coherent(s, sha)
    ensures var t := StoreBlob(s, sha(content), content);
            Coherent(t, sha) && t.disk[BuildStoragePath(sha(content))] == content
  {
    var hash := sha(content);
    assert IsDigest(hash);
    var t := StoreBlob(s, hash, content);
    hide BuildStoragePath, IsDigest, CachesOk, Accepted;
    assert CachesOk(s);
    forall i | 0 <= i < |s.table| ensures Stored(s.table[i], t.disk, sha) {
      if s.table[i].storagePath == BuildStoragePath(hash) { PathsDiffer(s.table[i].fileHash, hash); }
    }
  }

  /** Deleting the blob of a hash no row has disturbs no row. */
  lemma DropKeeps(table: seq<FileRecord>, disk: map<string, string>, hash: string, sha: Sha)
    requires BlobsOk(table, disk, sha) && IsDigest(hash)
    requires forall i :: 0 <= i < |table| ==> table[i].fileHash != hash
    ensures BlobsOk(table, disk - {BuildStoragePath(hash)}, sha)
  {
    hide BuildStoragePath, IsDigest, Accepted;
    var disk' := disk - {BuildStoragePath(hash)};
    forall i | 0 <= i < |table| ensures Stored(table[i], disk', sha) {
      if table[i].storagePath == BuildStoragePath(hash) { PathsDiffer(table[i].fileHash, hash); }
    }
  }

  lemma AppendEvolves(s: Store, t: Store, row: FileRecord)
    requires CachesOk(s) && row.id == s.nextId && t.table == s.table + [row] && t.nextId == s.nextId + 1
    ensures Evolves(s, t, 0) && LookupRow(t.table, row.id) == Some(row)
  {
    hide LookupRow, LookupHash, Fixed, CachesOk;
    forall k | k < s.nextId
      ensures LookupRow(t.table, k) == LookupRow(s.table, k) && (LookupRow(s.table, k).Some? ==> k != 0)
    {
      RowAppended(s.table, row, k, "");
      if LookupRow(s.table, k).Some? { RowKey(s, k); }
    }
    RowAppended(s.table, row, row.id, "");
    if LookupRow(s.table, row.id).Some? { RowKey(s, row.id); }
  }

  /** Where the bytes with a digest are kept, and what is said of a record that is refused. */
  function PathOf(hash: string): string
    requires IsDigest(hash)
  {
    "uploads/" + hash[..2] + "/" + hash
  }

  function WhyRefused(r: FileRecord): string {
    if r.userId <= 0 then "user id is invalid"
    else if Trim(r.filename) == "" then "filename is empty"
    else "file size is invalid"
  }

  /** What storing content under its digest and then `createFile` give: the row of that
      content, new with the next key unless the digest was already known. */
  lemma CreateStored(s: Store, record: FileRecord, content: string, stamp: string, sha: Sha)
    requires Coherent(s, sha)
    requires record.fileHash == sha(content) && record.storagePath == BuildStoragePath(sha(content))
    ensures var s1 := StoreBlob(s, sha(content), content);
            var (t, r) := CreateFile(s1, record, stamp);
            var known := LookupHash(s.table, sha(content));
            && Coherent(t, sha) && Evolves(s, t, 0) && t.disk == s1.disk
            && (r.Ok? <==> Accepted(record))
            && (r.Fail? ==> t == s1 && r.message == WhyRefused(record))
            && (r.Ok? && known.Some? ==> t == s1 && Some(r.record) == known)
            && (r.Ok? && known.None? ==>
                  && r.record == FileRecord(s.nextId, record.userId, Trim(record.filename), record.fileHash,
                                            record.fileSize, record.storagePath, record.status, "", "", stamp)
                  && t.table == s.table + [r.record])
            && (r.Ok? ==> LookupRow(t.table, r.record.id) == Some(r.record))
  {
    var hash := sha(content);
    assert IsDigest(hash);
    var s1 := StoreBlob(s, hash, content);
    StoreKeeps(s, content, sha);
    hide LookupHash, LookupRow, CreateFile, CachesOk, Evolves, BuildStoragePath, IsDigest, Accepted, Trim;
    assert Stored(record, s1.disk, sha);
    CreateFileResult(s1, record, stamp, sha);
    RefusedRecord(s1, record, stamp, hash);
    SameTableEvolves(s, s1);
    var (t, r) := CreateFile(s1, record, stamp);
    if r.Ok? {
      if LookupHash(s.table, hash).None? {
        AppendEvolves(s, t, r.record);
      } else {
        HashFound(s.table, hash);
        RowAt(s.table, s.nextId, r.record);
      }
    }
  }

  lemma RefusedRecord(s: Store, record: FileRecord, stamp: string, hash: string)
    requires IsDigest(hash) && record.fileHash == hash && record.storagePath == BuildStoragePath(hash)
    ensures var r := CreateFile(s, record, stamp).1; r.Fail? ==> r.message == WhyRefused(record)
  {
    DigestTrim(hash);
    hide CreateFile, Trim, BuildStoragePath, IsDigest;
    RefusalMessages(s, record, stamp);
  }

  lemma PathIsPath(hash: string)
    requires IsDigest(hash)
    ensures BuildStoragePath(hash) == PathOf(hash)
  {}

  lemma EvolvesThrough(s: Store, m: Store, t: Store, gone: int)
    requires m.table == s.table && m.nextId == s.nextId && Evolves(m, t, gone)
    ensures Evolves(s, t, gone)
  {}

  /** An upload answers with the row of its content. The row is new exactly when no row has
      that digest yet; then every column of it is given here and its blob is the content
      itself. A refused upload leaves no row and no blob of its own behind. */
  lemma UploadResult(s: Store, user: int, filename: string, content: string, stamp: string, sha: Sha)
    requires Coherent(s, sha)
    ensures var (t, resp) := HandleUpload(s, user, filename, content, stamp, sha);
            var hash := sha(content);
            var known := LookupHash(s.table, hash);
            && Coherent(t, sha) && Evolves(s, t, 0)
            && (resp.File? <==> content != "" && (known.Some? || (user > 0 && Trim(filename) != "")))
            && (resp.File? || resp == Refused(if content == "" then "empty file" else "failed to create file record"))
            && (resp.Refused? ==> t.table == s.table)
            && (content == "" ==> t == s)
            && (resp.Refused? && content != "" ==> t.disk == s.disk - {PathOf(hash)})
            && (resp.File? ==>
                  var row := LookupRow(t.table, resp.id);
                  && row.Some? && row.value.fileHash == hash
                  && (known.Some? ==> t.table == s.table && t.disk == s.disk && row == known)
                  && (known.None? ==>
                        && t.table == s.table + [row.value] && t.disk == s.disk[PathOf(hash) := content]
                        && row.value == FileRecord(s.nextId, user, Trim(filename), hash, |content|, PathOf(hash), 1,
                                                   "", "", stamp)))
  {
    hide Evolves;
    assert IsDigest(sha(content));
    if content == "" {
      SameTableEvolves(s, s);
    } else {
      var hash := sha(content);
      PathIsPath(hash);
      var (s1, existing) := GetByHash(s, hash);
      assert Trim(hash) == hash && hash != "" by { DigestTrim(hash); }
      GetByHashIsDatabase(s, hash);
      assert Coherent(s1, sha);
      HashFound(s.table, hash);
      hide LookupHash, LookupRow, CreateFile, GetByHash, BuildStoragePath, IsDigest, Trim, Fixed, CachesOk, PathOf;
      if existing.Ok? {
        SameTableEvolves(s, s1);
        var row := LookupHash(s.table, hash).value;
        RowAt(s.table, s.nextId, row);
        FixedFields(existing.record, row);
      } else {
        UploadNew(s1, user, filename, content, stamp, sha);
        EvolvesThrough(s, s1, HandleUpload(s, user, filename, content, stamp, sha).0, 0);
      }
    }
  }

  /** The rest of an upload whose digest no row has. */
  lemma UploadNew(s: Store, user: int, filename: string, content: string, stamp: string, sha: Sha)
    requires Coherent(s, sha) && LookupHash(s.table, sha(content)).None?
    ensures var hash := sha(content);
            var path := BuildStoragePath(hash);
            var record := FileRecord(0, user, filename, hash, |content|, path, 1, "", "", "");
            var (t, created) := CreateFile(StoreBlob(s, hash, content), record, stamp);
            var u := if created.Ok? then t else DeleteBlob(t, path);
            && Coherent(u, sha) && Evolves(s, u, 0)
            && (created.Ok? <==> user > 0 && Trim(filename) != "")
            && (created.Fail? ==> u.table == s.table && u.disk == s.disk - {path})
            && (created.Ok? ==>
                  var row := created.record;
                  && LookupRow(t.table, row.id) == Some(row) && t.table == s.table + [row]
                  && row == FileRecord(s.nextId, user, Trim(filename), hash, |content|, path, 1, "", "", stamp)
                  && t.disk == s.disk[path := content])
  {
    var hash := sha(content);
    assert IsDigest(hash);
    var path := BuildStoragePath(hash);
    HashFound(s.table, hash);
    hide LookupHash, LookupRow, CreateFile, BuildStoragePath, IsDigest, Trim, Fixed, Coherent, Evolves, DeleteBlob;
    var record := FileRecord(0, user, filename, hash, |content|, path, 1, "", "", "");
    CreateStored(s, record, content, stamp, sha);
    var s1 := StoreBlob(s, hash, content);
    var (t, created) := CreateFile(s1, record, stamp);
    if created.Fail? { UploadUndone(s, t, hash, content, sha); }
  }

  lemma UploadUndone(s: Store, t: Store, hash: string, content: string, sha: Sha)
    requires Coherent(s, sha) && Coherent(t, sha) && IsDigest(hash) && t.table == s.table && t.nextId == s.nextId
    requires t.disk == s.disk[BuildStoragePath(hash) := content]
    requires forall i :: 0 <= i < |s.table| ==> s.table[i].fileHash != hash
    ensures var u := DeleteBlob(t, BuildStoragePath(hash));
            && Coherent(u, sha) && Evolves(s, u, 0) && u.table == s.table
            && u.disk == s.disk - {BuildStoragePath(hash)}
  {
    assert BuildStoragePath(hash) != "" by { DigestTrim(hash); }
    var u := DeleteBlob(t, BuildStoragePath(hash));
    hide BuildStoragePath, IsDigest, CachesOk, Evolves, Stored;
    DropKeeps(s.table, t.disk, hash, sha);
    CachesIgnoreDisk(t, u.disk);
    SameTableEvolves(s, u);
  }

  lemma CachesIgnoreDisk(s: Store, disk: map<string, string>)
    ensures CachesOk(s.(disk := disk)) <==> CachesOk(s)
  {}

  /** A completed upload answers with the row of the merged bytes, which are on disk whatever
      the answer is; a new row has every column given here, the declared size among them. */
  lemma ChunkCompleteResult(s: Store, user: int, filename: string, size: int, merged: string, stamp: string, sha: Sha)
    requires Coherent(s, sha)
    ensures var (t, resp) := HandleChunkComplete(s, user, filename, size, merged, stamp, sha);
            var hash := sha(merged);
            var known := LookupHash(s.table, hash);
            && Coherent(t, sha) && Evolves(s, t, 0) && t.disk == s.disk[PathOf(hash) := merged]
            && (resp.File? <==> user > 0 && Trim(filename) != "" && size >= 0)
            && (resp.File? || resp == Refused(if user <= 0 then "user id is invalid"
                                              else if Trim(filename) == "" then "filename is empty"
                                              else "file size is invalid"))
            && (resp.Refused? || known.Some? ==> t.table == s.table)
            && (resp.File? ==>
                  var row := LookupRow(t.table, resp.id);
                  && row.Some? && row.value.fileHash == hash
                  && (known.Some? ==> row == known)
                  && (known.None? ==>
                        && t.table == s.table + [row.value]
                        && row.value == FileRecord(s.nextId, user, Trim(filename), hash, size, PathOf(hash), 1,
                                                   "", "", stamp)))
  {
    assert IsDigest(sha(merged));
    PathIsPath(sha(merged));
    HashFound(s.table, sha(merged));
    hide LookupHash, LookupRow, CreateFile, BuildStoragePath, IsDigest, Trim, Coherent, Evolves, PathOf;
    var record := FileRecord(0, user, filename, sha(merged), size, BuildStoragePath(sha(merged)), 1, "", "", "");
    CreateStored(s, record, merged, stamp, sha);
  }

  /** Saving a share makes no row: it answers with the original file, which stays its
      owner's. */
  lemma ShareSaveAddsNothing(s: Store, user: int, shareOwner: int, fileId: int, stamp: string, sha: Sha)
    requires Coherent(s, sha)
    ensures var (t, resp) := HandleShareSave(s, user, shareOwner, fileId, stamp);
            && Coherent(t, sha) && Evolves(s, t, 0) && t.table == s.table && t.disk == s.disk
            && (resp.File? || resp.Refused?)
            && (resp.File? <==> shareOwner != user && user > 0 && LookupRow(s.table, fileId).Some?)
            && (resp.File? ==> resp.id == fileId)
  {
    hide Evolves, CachesOk, LookupRow, LookupHash, GetById, GetByHash, CreateFile, Stored, BuildStoragePath, Trim;
    hide Fixed, Lookup;
    if shareOwner == user {
      SameTableEvolves(s, s);
    } else {
      GetByIdIsDatabase(s, fileId);
      var (s1, original) := GetById(s, fileId);
      SameTableEvolves(s, s1);
      if original.Ok? {
        ShareSaveKnown(s, s1, original.record, user, fileId, stamp, sha);
      }
    }
  }

  /** What a refused save is told. */
  lemma ShareSaveRefused(s: Store, user: int, shareOwner: int, fileId: int, stamp: string, sha: Sha)
    requires Coherent(s, sha)
    ensures var resp := HandleShareSave(s, user, shareOwner, fileId, stamp).1;
            && (shareOwner == user ==> resp == Refused("cannot save your own share"))
            && (shareOwner != user && LookupRow(s.table, fileId).None? ==> resp == Refused("original file not found"))
            && (shareOwner != user && LookupRow(s.table, fileId).Some? && user <= 0 ==>
                  resp == Refused("failed to save file"))
  {
    hide Evolves, CachesOk, LookupRow, LookupHash, GetById, GetByHash, CreateFile, BlobsOk, BuildStoragePath, Trim;
    hide Fixed, Lookup;
    if shareOwner != user {
      GetByIdIsDatabase(s, fileId);
      var (s1, original) := GetById(s, fileId);
      if original.Ok? {
        ShareSaveKnown(s, s1, original.record, user, fileId, stamp, sha);
      }
    }
  }

  lemma ShareSaveKnown(s: Store, s1: Store, o: FileRecord, user: int, fileId: int, stamp: string, sha: Sha)
    requires Coherent(s, sha) && CachesOk(s1) && s1 == s.(byId := s1.byId)
    requires LookupRow(s.table, fileId).Some? && Fixed(o) == Fixed(LookupRow(s.table, fileId).value)
    ensures var (s2, existing) := GetByHash(s1, o.fileHash);
            var record := FileRecord(0, user, o.filename, o.fileHash, o.fileSize, o.storagePath, 1,
                                     o.summary, o.tags, "");
            var (s3, created) := CreateFile(s2, record, stamp);
            && existing.Ok? && existing.record.id == fileId && Coherent(s2, sha)
            && s2.table == s.table && s2.disk == s.disk && Evolves(s, s2, 0)
            && s3 == s2 && (created.Ok? <==> user > 0) && (created.Ok? ==> created.record.id == fileId)
            && (existing.record.userId == user ==> user > 0)
  {
    var row := LookupRow(s.table, fileId).value;
    RowKey(s, fileId);
    RowStored(s, fileId, sha);
    FixedFields(o, row);
    DigestTrim(o.fileHash);
    hide Evolves, CachesOk, LookupRow, LookupHash, GetByHash, CreateFile, BuildStoragePath, Trim, Fixed, IsDigest;
    GetByHashIsDatabase(s1, o.fileHash);
    var (s2, existing) := GetByHash(s1, o.fileHash);
    FixedFields(existing.record, row);
    SameTableEvolves(s, s2);
    var record := FileRecord(0, user, o.filename, o.fileHash, o.fileSize, o.storagePath, 1, o.summary, o.tags, "");
    assert Coherent(s2, sha);
    assert Stored(record, s2.disk, sha);
    CreateFileResult(s2, record, stamp, sha);
  }

  /** A download gives the owner the blob behind the row and refuses everybody else. */
  lemma DownloadResult(s: Store, user: int, fileId: int, sha: Sha)
    requires Coherent(s, sha)
    ensures var (t, resp) := HandleDownload(s, user, fileId);
            var row := LookupRow(s.table, fileId);
            && Coherent(t, sha) && Evolves(s, t, 0) && t.table == s.table && t.disk == s.disk
            && (resp.Bytes? <==> row.Some? && row.value.userId == user)
            && (resp.Bytes? || resp == Refused(if row.None? then "file not found" else "access denied"))
            && (resp.Bytes? ==>
                  row.value.storagePath in s.disk && resp.content == s.disk[row.value.storagePath]
                  && sha(resp.content) == row.value.fileHash)
  {
    GetByIdIsDatabase(s, fileId);
    hide LookupRow, GetById, CachesOk, Fixed, BuildStoragePath, IsDigest, Evolves;
    var (s1, found) := GetById(s, fileId);
    SameTableEvolves(s, s1);
    if found.Ok? {
      FixedFields(found.record, LookupRow(s.table, fileId).value);
      RowStored(s, fileId, sha);
    }
  }

  /** A delete by the owner removes that row and that blob; the blobs of all other rows stay
      as they are. */
  lemma DeleteResult(s: Store, user: int, fileId: int, sha: Sha)
    requires Coherent(s, sha)
    ensures var (t, resp) := HandleDelete(s, user, fileId);
            var row := LookupRow(s.table, fileId);
            && Coherent(t, sha) && Evolves(s, t, if resp.Done? then fileId else 0)
            && (resp.Done? <==> row.Some? && row.value.userId == user)
            && (resp.Done? || resp == Refused(if row.None? then "file not found" else "access denied"))
            && (resp.Done? ==> t.table == RemoveRow(s.table, fileId) && t.disk == s.disk - {row.value.storagePath})
            && (resp.Refused? ==> t.table == s.table && t.disk == s.disk)
            && forall r :: r in t.table ==> r.storagePath in s.disk && r.storagePath in t.disk
                                            && t.disk[r.storagePath] == s.disk[r.storagePath]
  {
    GetByIdIsDatabase(s, fileId);
    hide LookupRow, LookupHash, Lookup, GetById, CachesOk, Fixed, BuildStoragePath, IsDigest, Evolves, RemoveFile;
    hide RemoveRow, Accepted;
    var (s1, found) := GetById(s, fileId);
    SameTableEvolves(s, s1);
    if found.Ok? && found.record.userId == user {
      FixedFields(found.record, LookupRow(s.table, fileId).value);
      DeleteKnown(s, s1, fileId, sha);
    } else if found.Ok? {
      FixedFields(found.record, LookupRow(s.table, fileId).value);
    }
  }

  lemma DeleteKnown(s: Store, s1: Store, fileId: int, sha: Sha)
    requires Coherent(s, sha) && CachesOk(s1) && s1 == s.(byId := s1.byId)
    requires LookupRow(s.table, fileId).Some? && Lookup(s1.byId, fileId).Some?
    ensures var path := LookupRow(s.table, fileId).value.storagePath;
            var (t, failed) := RemoveFile(DeleteBlob(s1, path), fileId);
            && failed.None? && Coherent(t, sha) && Evolves(s, t, fileId)
            && t.table == RemoveRow(s.table, fileId) && t.disk == s.disk - {path}
            && forall r :: r in t.table ==> r.storagePath in s.disk && r.storagePath in t.disk
                                            && t.disk[r.storagePath] == s.disk[r.storagePath]
  {
    var row := LookupRow(s.table, fileId).value;
    RowKey(s, fileId);
    RowStored(s, fileId, sha);
    RowRemoved(s.table, s.nextId, fileId);
    assert row.storagePath != "" by { DigestTrim(row.fileHash); }
    var s2 := DeleteBlob(s1, row.storagePath);
    assert s2 == s1.(disk := s.disk - {row.storagePath});
    var (t, failed) := RemoveFile(s2, fileId);
    RemoveFileFields(s2, fileId);
    hide *;
    CachesIgnoreDisk(s1, s2.disk);
    RemoveFileExactly(s2, fileId);
    EvolvesWithout(s, t, fileId);
    CoherentParts(s, sha);
    CoherentParts(t, sha);
    RowsRemain(s.table, t.table, s.nextId, fileId, s.disk, sha);
  }

  lemma RemoveFileFields(s: Store, id: int)
    requires id > 0
    ensures var (t, failed) := RemoveFile(s, id);
            failed.None? && t.table == RemoveRow(s.table, id) && t.disk == s.disk && t.nextId == s.nextId
  {}

  lemma CoherentParts(s: Store, sha: Sha)
    ensures Coherent(s, sha) <==> CachesOk(s) && BlobsOk(s.table, s.disk, sha)
    ensures CachesOk(s) ==> TableOk(s.table, s.nextId)
  {}

  lemma EvolvesWithout(s: Store, t: Store, id: int)
    requires CachesOk(s) && t.table == RemoveRow(s.table, id) && t.nextId == s.nextId
    ensures Evolves(s, t, id)
  {
    hide LookupRow, Fixed, RemoveRow;
    forall k ensures LookupRow(t.table, k) == if k == id then None else LookupRow(s.table, k) {
      RemovalById(s.table, s.nextId, id, k);
    }
  }

  lemma OtherRow(table: seq<FileRecord>, nextId: int, row: FileRecord, r: FileRecord,
                 disk: map<string, string>, sha: Sha)
    requires TableOk(table, nextId) && BlobsOk(table, disk, sha) && row in table && r in table && r.id != row.id
    ensures Stored(r, disk, sha) && Accepted(r) && r.fileHash != row.fileHash
    ensures r.storagePath in disk && r.storagePath != BuildStoragePath(row.fileHash)
  {
    RowAt(table, nextId, r);
    RowAt(table, nextId, row);
    hide BuildStoragePath, IsDigest, Accepted, TableOk, LookupRow, LookupHash;
    assert Stored(row, disk, sha) && Stored(r, disk, sha);
    if r.storagePath == BuildStoragePath(row.fileHash) { PathsDiffer(r.fileHash, row.fileHash); }
  }

  lemma RowsRemain(table: seq<FileRecord>, rest: seq<FileRecord>, nextId: int, id: int,
                   disk: map<string, string>, sha: Sha)
    requires TableOk(table, nextId) && BlobsOk(table, disk, sha) && LookupRow(table, id).Some?
    requires forall r :: r in rest <==> r in table && r.id != id
    ensures var row := LookupRow(table, id).value;
            BlobsOk(rest, disk - {BuildStoragePath(row.fileHash)}, sha)
    ensures forall r :: r in rest ==>
              r.storagePath in disk && r.storagePath != BuildStoragePath(LookupRow(table, id).value.fileHash)
  {
    var row := LookupRow(table, id).value;
    RowFound(table, id);
    assert IsDigest(row.fileHash);
    hide LookupRow, BuildStoragePath, IsDigest, Accepted, TableOk, Stored;
    forall r | r in rest
      ensures Stored(r, disk, sha) && Accepted(r) && r.fileHash != row.fileHash
      ensures r.storagePath in disk && r.storagePath != BuildStoragePath(row.fileHash)
    {
      OtherRow(table, nextId, row, r, disk, sha);
    }
    DropKeeps(rest, disk, row.fileHash, sha);
  }

  lemma MetaKeeps(s: Store, table: seq<FileRecord>, sha: Sha)
    requires Coherent(s, sha) && SameFixed(s.table, table)
    ensures var t := s.(table := table); Coherent(t, sha) && Evolves(s, t, 0)
  {
    SameFixedKeep(s, table, sha);
    hide LookupRow, LookupHash, Fixed;
    forall k
      ensures Agrees(LookupRow(table, k), LookupRow(s.table, k))
      ensures LookupRow(table, k).Some? <==> LookupRow(s.table, k).Some?
      ensures LookupRow(s.table, k).Some? ==> k != 0
    {
      SameFixedLookups(s.table, table, k, "");
      if LookupRow(s.table, k).Some? { RowKey(s, k); }
    }
  }

  /** Every handler keeps the server coherent, deletes at most the row its owner asked to
      delete, and changes no other row's fixed columns. */
  lemma HandleKeeps(s: Store, req: Request, sha: Sha)
    requires Coherent(s, sha)
    ensures Coherent(Handle(s, req, sha).0, sha)
    ensures Evolves(s, Handle(s, req, sha).0, Deletes(s, req))
  {
    hide Coherent, Evolves, LookupRow, LookupHash;
    hide HandleUpload, HandleChunkComplete, HandleShareSave, HandleDownload, HandleDelete;
    hide GetById, GetByHash, UpdateMeta, UpdateStatus, PathOf, BuildStoragePath, Trim, Accepted, RemoveRow;
    match req
    case Upload(user, filename, content, stamp) => UploadResult(s, user, filename, content, stamp, sha);
    case ChunkComplete(user, filename, size, merged, stamp) =>
      ChunkCompleteResult(s, user, filename, size, merged, stamp, sha);
    case ShareSave(user, owner, fileId, stamp) => ShareSaveAddsNothing(s, user, owner, fileId, stamp, sha);
    case Fetch(fileId) => FetchKeeps(s, fileId, sha);
    case Check(hash) => CheckKeeps(s, hash, sha);
    case Download(user, fileId) => DownloadResult(s, user, fileId, sha);
    case Delete(user, fileId) => DeleteResult(s, user, fileId, sha);
    case SetMeta(fileId, summary, tags) => UpdatesKeep(s, fileId, summary, tags, 0, sha);
    case SetStatus(fileId, status) => UpdatesKeep(s, fileId, "", "", status, sha);
  }

  lemma UpdatesKeep(s: Store, fileId: int, summary: string, tags: string, status: int, sha: Sha)
    requires Coherent(s, sha)
    ensures var t := s.(table := UpdateMeta(s.table, fileId, summary, tags)); Coherent(t, sha) && Evolves(s, t, 0)
    ensures var t := s.(table := UpdateStatus(s.table, fileId, status)); Coherent(t, sha) && Evolves(s, t, 0)
  {
    hide Coherent, Evolves;
    MetaKeeps(s, UpdateMeta(s.table, fileId, summary, tags), sha);
    MetaKeeps(s, UpdateStatus(s.table, fileId, status), sha);
  }

  /** Looking a file up by key or by hash finds it exactly when it has a row. */
  lemma FetchResult(s: Store, fileId: int, sha: Sha)
    requires Coherent(s, sha)
    ensures Handle(s, Fetch(fileId), sha).1 ==
            if LookupRow(s.table, fileId).Some? then File(fileId) else Refused("file not found")
  {
    hide Lookup, LookupRow, Fixed, CachesOk, Agrees, BlobsOk;
    GetByIdIsDatabase(s, fileId);
    if LookupRow(s.table, fileId).Some? {
      RowKey(s, fileId);
      FixedFields(GetById(s, fileId).1.record, LookupRow(s.table, fileId).value);
    }
  }

  lemma CheckResult(s: Store, hash: string, sha: Sha)
    requires Coherent(s, sha)
    ensures var row := LookupHash(s.table, Trim(hash));
            Handle(s, Check(hash), sha).1 ==
            if hash == "" then Refused("file_hash is required")
            else if Trim(hash) != "" && row.Some? then File(row.value.id) else Absent
  {
    hide Lookup, LookupHash, Fixed, Trim, CachesOk, Agrees, BlobsOk;
    GetByHashIsDatabase(s, hash);
    var row := LookupHash(s.table, Trim(hash));
    if Trim(hash) != "" && row.Some? {
      FixedFields(GetByHash(s, hash).1.record, row.value);
    }
  }

  /** An update writes its own columns of its own row and nothing else. */
  lemma MetaIsExact(s: Store, fileId: int, summary: string, tags: string, i: nat, sha: Sha)
    requires i < |s.table|
    ensures var (t, resp) := Handle(s, SetMeta(fileId, summary, tags), sha);
            var r := s.table[i];
            && resp == Done && t == s.(table := t.table) && |t.table| == |s.table|
            && t.table[i] ==
               if r.id != fileId then r
               else FileRecord(r.id, r.userId, r.filename, r.fileHash, r.fileSize, r.storagePath, r.status,
                               summary, tags, r.createdAt)
  {
    hide UpdateStatus;
  }

  lemma StatusIsExact(s: Store, fileId: int, status: int, i: nat, sha: Sha)
    requires i < |s.table|
    ensures var (t, resp) := Handle(s, SetStatus(fileId, status), sha);
            var r := s.table[i];
            && resp == Done && t == s.(table := t.table) && |t.table| == |s.table|
            && t.table[i] ==
               if r.id != fileId then r
               else FileRecord(r.id, r.userId, r.filename, r.fileHash, r.fileSize, r.storagePath, status,
                               r.summary, r.tags, r.createdAt)
  {
    hide UpdateMeta;
  }

  lemma FetchKeeps(s: Store, fileId: int, sha: Sha)
    requires Coherent(s, sha)
    ensures var t := GetById(s, fileId).0; Coherent(t, sha) && Evolves(s, t, 0)
  {
    GetByIdIsDatabase(s, fileId);
    hide CachesOk, Evolves, GetById, LookupRow;
    SameTableEvolves(s, GetById(s, fileId).0);
  }

  lemma CheckKeeps(s: Store, hash: string, sha: Sha)
    requires Coherent(s, sha)
    ensures var t := GetByHash(s, hash).0; Coherent(t, sha) && Evolves(s, t, 0) && Evolves(s, s, 0)
  {
    GetByHashIsDatabase(s, hash);
    hide CachesOk, Evolves, GetByHash, LookupHash;
    SameTableEvolves(s, GetByHash(s, hash).0);
    SameTableEvolves(s, s);
  }

  // --------------------------------------------------------------------- every run

  lemma EmptyCoherent(capacity: nat, sha: Sha)
    ensures Coherent(Empty(capacity), sha)
  {}

  /** Every run of uploads, merges, saves, reads, deletes and updates leaves the server
      coherent. */
  lemma {:induction false} ServeKeeps(s: Store, requests: seq<Request>, sha: Sha)
    requires Coherent(s, sha)
    ensures Coherent(Serve(s, requests, sha), sha)
    decreases |requests|
  {
    hide Coherent, Handle;
    if requests != [] {
      var n := |requests| - 1;
      ServeKeeps(s, requests[..n], sha);
      HandleKeeps(Serve(s, requests[..n], sha), requests[n], sha);
    }
  }

  /** What any run from the empty server guarantees of its table, its blobs and its caches. */
  lemma EveryRunIsCoherent(capacity: nat, requests: seq<Request>, sha: Sha)
    ensures var s := Serve(Empty(capacity), requests, sha);
            && (forall i, j :: 0 <= i < j < |s.table| ==>
                  s.table[i].id != s.table[j].id && s.table[i].fileHash != s.table[j].fileHash)
            && (forall r :: r in s.table ==> r.storagePath == BuildStoragePath(r.fileHash)
                                             && r.storagePath in s.disk && sha(s.disk[r.storagePath]) == r.fileHash)
            && (forall k :: Lookup(s.byId, k).Some? ==>
                  LookupRow(s.table, k).Some? && Fixed(Lookup(s.byId, k).value) == Fixed(LookupRow(s.table, k).value))
            && (forall h :: Lookup(s.byHash, h).Some? ==>
                  && LookupHash(s.table, h).Some?
                  && Fixed(Lookup(s.byHash, h).value) == Fixed(LookupHash(s.table, h).value))
            && |s.byId| <= s.capacity && |s.byHash| <= s.capacity
  {
    EmptyCoherent(capacity, sha);
    ServeKeeps(Empty(capacity), requests, sha);
    hide Serve, Lookup, LookupRow, LookupHash, Fixed, BuildStoragePath, IsDigest, Distinct, Accepted;
    var s := Serve(Empty(capacity), requests, sha);
    forall k | Lookup(s.byId, k).Some?
      ensures LookupRow(s.table, k).Some? && Fixed(Lookup(s.byId, k).value) == Fixed(LookupRow(s.table, k).value)
    {
      assert Agrees(Lookup(s.byId, k), LookupRow(s.table, k));
    }
    forall h | Lookup(s.byHash, h).Some?
      ensures LookupHash(s.table, h).Some? && Fixed(Lookup(s.byHash, h).value) == Fixed(LookupHash(s.table, h).value)
    {
      assert Agrees(Lookup(s.byHash, h), LookupHash(s.table, h));
    }
  }

  /** No request of the run deletes row `k`. */
  ghost predicate Spared(s: Store, requests: seq<Request>, k: int, sha: Sha) {
    forall i :: 0 <= i < |requests| ==> Deletes(Serve(s, requests[..i], sha), requests[i]) != k
  }

  /** A row lives, with its fixed columns, until its owner deletes it. */
  lemma {:induction false} RowsLast(s: Store, requests: seq<Request>, k: int, sha: Sha)
    requires Coherent(s, sha) && LookupRow(s.table, k).Some?
    ensures var row := LookupRow(Serve(s, requests, sha).table, k);
            && (row.Some? <==> Spared(s, requests, k, sha))
            && Agrees(row, LookupRow(s.table, k))
            && k < s.nextId <= Serve(s, requests, sha).nextId
    decreases |requests|
  {
    hide Coherent, LookupRow, Fixed, Handle, Deletes, Evolves, Agrees;
    CoherentParts(s, sha);
    RowKey(s, k);
    if requests == [] {
      RowItself(s, k);
    } else {
      hide Spared;
      var n := |requests| - 1;
      var before := requests[..n];
      var m := Serve(s, before, sha);
      RowsLast(s, before, k, sha);
      ServeKeeps(s, before, sha);
      HandleKeeps(m, requests[n], sha);
      SparedSoFar(s, requests, k, sha);
      RowStep(s, m, Handle(m, requests[n], sha).0, k, Deletes(m, requests[n]));
    }
  }

  lemma RowItself(s: Store, k: int)
    ensures Agrees(LookupRow(s.table, k), LookupRow(s.table, k))
  {}

  lemma RowStep(s: Store, m: Store, t: Store, k: int, gone: int)
    requires k < s.nextId <= m.nextId && Agrees(LookupRow(m.table, k), LookupRow(s.table, k)) && Evolves(m, t, gone)
    ensures LookupRow(t.table, k).Some? <==> LookupRow(m.table, k).Some? && k != gone
    ensures Agrees(LookupRow(t.table, k), LookupRow(s.table, k)) && s.nextId <= t.nextId
  {}

  lemma SparedSoFar(s: Store, requests: seq<Request>, k: int, sha: Sha)
    requires requests != []
    ensures var n := |requests| - 1;
            Spared(s, requests, k, sha) <==>
            Spared(s, requests[..n], k, sha) && Deletes(Serve(s, requests[..n], sha), requests[n]) != k
  {
    hide Serve, Deletes;
    var n := |requests| - 1;
    assert forall i :: 0 <= i < n ==> requests[..i] == requests[..n][..i];
  }

  /** A key that was given out and has no row will never have one. */
  lemma {:induction false} KeysNeverReturn(s: Store, requests: seq<Request>, k: int, sha: Sha)
    requires Coherent(s, sha) && k < s.nextId && LookupRow(s.table, k).None?
    ensures LookupRow(Serve(s, requests, sha).table, k).None? && k < Serve(s, requests, sha).nextId
    decreases |requests|
  {
    hide Coherent, LookupRow, Fixed, Handle, Deletes;
    if requests != [] {
      var n := |requests| - 1;
      KeysNeverReturn(s, requests[..n], k, sha);
      ServeKeeps(s, requests[..n], sha);
      HandleKeeps(Serve(s, requests[..n], sha), requests[n], sha);
    }
  }

  /** Once a row has the digest of some content, then whatever follows, as long as the file
      is not deleted, its owner downloads bytes with that digest and everybody else is
      refused. */
  lemma DownloadLater(t: Store, id: int, content: string, after: seq<Request>, who: int, sha: Sha)
    requires Coherent(t, sha) && LookupRow(t.table, id).Some? && Spared(t, after, id, sha)
    requires LookupRow(t.table, id).value.fileHash == sha(content)
    ensures var resp := Handle(Serve(t, after, sha), Download(who, id), sha).1;
            var owner := LookupRow(t.table, id).value.userId;
            && (if who != owner then resp.Refused? else resp.Bytes? && sha(resp.content) == sha(content))
            && (who == owner && (forall x :: sha(x) == sha(content) ==> x == content) ==> resp == Bytes(content))
  {
    hide Coherent, Serve, LookupRow, HandleDownload, Spared, Fixed, BuildStoragePath;
    RowsLast(t, after, id, sha);
    var u := Serve(t, after, sha);
    ServeKeeps(t, after, sha);
    FixedFields(LookupRow(u.table, id).value, LookupRow(t.table, id).value);
    DownloadResult(u, who, id, sha);
  }

  /** End to end: after any run, an accepted upload, and any run that does not delete that
      file, a download by the row's owner gives bytes with the digest of the uploaded ones,
      the very bytes when the digest tells them apart, and anybody else is refused. The owner
      is the uploader when the content was new. */
  lemma DownloadGivesUpload(capacity: nat, before: seq<Request>, user: int, filename: string, content: string,
                            stamp: string, after: seq<Request>, who: int, sha: Sha)
    requires var s := Serve(Empty(capacity), before, sha);
             var (t, up) := Handle(s, Upload(user, filename, content, stamp), sha);
             up.File? && Spared(t, after, up.id, sha)
    ensures var s := Serve(Empty(capacity), before, sha);
            var (t, up) := Handle(s, Upload(user, filename, content, stamp), sha);
            var resp := Handle(Serve(t, after, sha), Download(who, up.id), sha).1;
            var row := LookupRow(t.table, up.id);
            && row.Some? && (LookupHash(s.table, sha(content)).None? ==> row.value.userId == user)
            && (if who != row.value.userId then resp.Refused?
                else resp.Bytes? && sha(resp.content) == sha(content))
            && (who == row.value.userId && (forall x :: sha(x) == sha(content) ==> x == content) ==>
                  resp == Bytes(content))
  {
    hide Coherent, Serve, LookupRow, LookupHash, HandleUpload, HandleDownload, Spared, BuildStoragePath, Trim;
    EmptyCoherent(capacity, sha);
    var s := Serve(Empty(capacity), before, sha);
    ServeKeeps(Empty(capacity), before, sha);
    UploadResult(s, user, filename, content, stamp, sha);
    var (t, up) := Handle(s, Upload(user, filename, content, stamp), sha);
    DownloadLater(t, up.id, content, after, who, sha);
  }

  /** A save that reports success gives the saver no access that was not there before. */
  lemma SavedShareStaysOwners(s: Store, user: int, shareOwner: int, fileId: int, stamp: string, sha: Sha)
    requires Coherent(s, sha)
    ensures var (t, resp) := Handle(s, ShareSave(user, shareOwner, fileId, stamp), sha);
            && (resp.File? <==> shareOwner != user && user > 0 && LookupRow(s.table, fileId).Some?)
            && (resp.File? ==>
                  (Handle(t, Download(user, resp.id), sha).1.Bytes?
                   <==> LookupRow(s.table, fileId).value.userId == user))
  {
    hide Coherent, LookupRow, HandleShareSave, HandleDownload, BuildStoragePath;
    ShareSaveAddsNothing(s, user, shareOwner, fileId, stamp, sha);
    var (t, resp) := Handle(s, ShareSave(user, shareOwner, fileId, stamp), sha);
    if resp.File? { DownloadResult(t, user, resp.id, sha); }
  }
}
