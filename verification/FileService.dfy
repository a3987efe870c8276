/** src/service/FileService.cpp and the handlers of src/main.cpp as they run: two mutable
    caches in front of the table, each method proved against its function on `Store`. */
module FileService {
  import opened Strings
  import opened Models
  import opened FileStore

  class FileService {
    const idCache: LruCache.LruCache<int, FileRecord>
    const hashCache: LruCache.LruCache<string, FileRecord>
    var table: seq<FileRecord>
    var nextId: int
    var disk: map<string, string>

    /** The two caches share no node. */
    ghost predicate Valid()
      reads this, idCache, hashCache
    {
      && idCache.Valid() && hashCache.Valid() && idCache.capacity == hashCache.capacity
      && forall a, b :: a in idCache.list && b in hashCache.list ==> a as object != b as object
    }

    /** What the methods may change: the service, its caches and their nodes. */
    ghost function Repr(): set<object>
      reads this, idCache, hashCache
    {
      {this, idCache, hashCache}
      + (set n | n in idCache.list :: n as object)
      + (set n | n in hashCache.list :: n as object)
    }

    /** Only new objects join. */
    twostate predicate Grows()
      reads this, idCache, hashCache
    {
      forall o {:trigger o in Repr()} :: o in Repr() ==> o in old(Repr()) || fresh(o)
    }

    ghost function View(): Store
      reads this, idCache, idCache.list, hashCache, hashCache.list
    {
      Store(idCache.Entries(), hashCache.Entries(), idCache.capacity, table, nextId, disk)
    }

    constructor (capacity: nat)
      ensures Valid() && fresh(Repr())
      ensures View() == Empty(capacity)
      ensures table == [] && nextId == 1 && disk == map[]
      ensures idCache.list == [] && hashCache.list == []
      ensures idCache.capacity == hashCache.capacity == if capacity > 0 then capacity else 1
    {
      idCache := new LruCache.LruCache<int, FileRecord>(capacity);
      hashCache := new LruCache.LruCache<string, FileRecord>(capacity);
      table, nextId, disk := [], 1, map[];
    }

    // ---------------------------------------------------------------- the service

    method CacheById(row: FileRecord)
      requires Valid()
      modifies Repr()
      ensures Valid() && Grows()
      ensures var entries := LruCache.PutEntry(old(View()).byId, row.id, row, old(View()).capacity);
              View() == old(View()).(byId := entries)
    {
      hide LruCache.PutEntry;
      idCache.Put(row.id, row);
    }

    method CacheByHash(row: FileRecord)
      requires Valid()
      modifies Repr()
      ensures Valid() && Grows()
      ensures var entries := LruCache.PutEntry(old(View()).byHash, row.fileHash, row, old(View()).capacity);
              View() == old(View()).(byHash := entries)
    {
      hide LruCache.PutEntry;
      hashCache.Put(row.fileHash, row);
    }

    /** The INSERT statement. */
    method InsertRow(row: FileRecord)
      requires Valid()
      modifies Repr()
      ensures Valid() && Grows()
      ensures View() == old(View()).(table := old(View()).table + [row], nextId := old(View()).nextId + 1)
    {
      table, nextId := table + [row], nextId + 1;
    }

    method FindByHash(fileHash: string) returns (row: Option<FileRecord>)
      ensures row == LookupHash(View().table, fileHash)
    {
      row := LookupHash(table, fileHash);
    }

    /** AUTO_INCREMENT. */
    method NextKey() returns (id: int)
      ensures id == View().nextId
    {
      id := nextId;
    }

    /** The insertion, the reload and the two cache writes of `createFile`. */
    method InsertFile(record: FileRecord, stamp: string) returns (row: FileRecord)
      requires Valid()
      modifies Repr()
      ensures Valid() && Grows()
      ensures row == NewRow(record, old(View()).nextId, stamp) && View() == Insert(old(View()), row)
    {
      hide LruCache.PutEntry, View, Valid, Repr;
      var id := NextKey();
      row := NewRow(record, id, stamp);
      InsertRow(row);
      CacheById(row);
      CacheByHash(row);
    }

    method CreateFile(record: FileRecord, stamp: string) returns (r: ServiceResult)
      requires Valid()
      modifies Repr()
      ensures Valid() && Grows()
      ensures (View(), r) == FileStore.CreateFile(old(View()), record, stamp)
    {
      hide Normalised, Validate, LookupHash, NewRow, Insert, View, Valid, Repr;
      var normalized := Normalised(record);
      var message := Validate(normalized);
      if message.Some? {
        return Fail(message.value);
      }
      var existing := FindByHash(normalized.fileHash);
      if existing.Some? {
        return Ok(existing.value);
      }
      var row := InsertFile(normalized, stamp);
      r := Ok(row);
    }

    method GetFileById(id: int) returns (r: ServiceResult)
      requires Valid()
      modifies Repr()
      ensures Valid() && Grows()
      ensures (View(), r) == GetById(old(View()), id)
    {
      hide LruCache.PutEntry, LruCache.Lookup, LookupRow;
      if id <= 0 {
        return Fail("file id is invalid");
      }
      var cached := idCache.Get(id);
      if cached.Some? {
        return Ok(cached.value);
      }
      var file := LookupRow(table, id);
      if file.None? {
        return Fail("file not found");
      }
      CacheById(file.value);
      r := Ok(file.value);
    }

    method GetFileByHash(fileHash: string) returns (r: ServiceResult)
      requires Valid()
      modifies Repr()
      ensures Valid() && Grows()
      ensures (View(), r) == GetByHash(old(View()), fileHash)
    {
      hide LruCache.PutEntry, LruCache.Lookup, LookupHash, Trim;
      var hash := Trim(fileHash);
      if hash == "" {
        return Fail("file hash is empty");
      }
      var cached := hashCache.Get(hash);
      if cached.Some? {
        return Ok(cached.value);
      }
      var file := LookupHash(table, hash);
      if file.None? {
        return Fail("file not found");
      }
      CacheByHash(file.value);
      r := Ok(file.value);
    }

    /** The lookup and the erasure of `removeFile` in the id cache. */
    method TakeById(id: int) returns (cached: Option<FileRecord>)
      requires Valid()
      modifies Repr()
      ensures Valid() && Grows() && cached == LruCache.Lookup(old(View()).byId, id)
      ensures View() == old(View()).(byId := LruCache.Touch(old(View()).byId, id))
    {
      hide LruCache.Lookup, LruCache.Touch;
      cached := idCache.Get(id);
    }

    method ForgetId(id: int)
      requires Valid()
      modifies Repr()
      ensures Valid() && Grows()
      ensures View() == old(View()).(byId := LruCache.Without(old(View()).byId, id))
    {
      hide LruCache.Without, LruCache.Lookup;
      var _ := idCache.Remove(id);
    }

    method ForgetHash(fileHash: string)
      requires Valid()
      modifies Repr()
      ensures Valid() && Grows()
      ensures View() == old(View()).(byHash := LruCache.Without(old(View()).byHash, fileHash))
    {
      hide LruCache.Without, LruCache.Lookup;
      var _ := hashCache.Remove(fileHash);
    }

    method DeleteRow(id: int)
      requires Valid()
      modifies Repr()
      ensures Valid() && Grows()
      ensures View() == old(View()).(table := RemoveRow(old(View()).table, id))
    {
      hide RemoveRow;
      table := RemoveRow(table, id);
    }

    method RemoveFile(id: int) returns (failed: Option<string>)
      requires Valid()
      modifies Repr()
      ensures Valid() && Grows()
      ensures (View(), failed) == FileStore.RemoveFile(old(View()), id)
    {
      hide LruCache.Without, LruCache.Lookup, LruCache.Touch, RemoveRow, Valid, View, Repr;
      if id <= 0 {
        return Some("file id is invalid");
      }
      var cached := TakeById(id);
      if cached.Some? {
        ForgetHash(cached.value.fileHash);
      }
      ForgetId(id);
      DeleteRow(id);
      failed := None;
    }

    // --------------------------------------------------------------- the handlers

    method DeleteStoredFile(path: string)
      requires Valid()
      modifies Repr()
      ensures Valid() && Grows() && View() == DeleteBlob(old(View()), path)
    {
      if path != "" && path in disk {
        disk := disk - {path};
      }
    }

    method RetrieveFile(path: string) returns (content: Option<string>)
      ensures content == if path in View().disk then Some(View().disk[path]) else None
    {
      content := if path in disk then Some(disk[path]) else None;
    }

    method StoreFile(content: string, fileHash: string) returns (path: string)
      requires Valid()
      modifies Repr()
      ensures Valid() && Grows() && path == BuildStoragePath(fileHash)
      ensures View() == StoreBlob(old(View()), fileHash, content)
    {
      hide BuildStoragePath;
      path := BuildStoragePath(fileHash);
      disk := disk[path := content];
    }

    method HandleUpload(user: int, filename: string, content: string, stamp: string, sha: Sha) returns (r: Response)
      requires Valid()
      modifies Repr()
      ensures Valid() && Grows()
      ensures (View(), r) == FileStore.HandleUpload(old(View()), user, filename, content, stamp, sha)
    {
      hide GetByHash, FileStore.CreateFile, BuildStoragePath, StoreBlob, DeleteBlob, Valid, View, Repr;
      if content == "" {
        return Refused("empty file");
      }
      var fileHash := sha(content);
      var existing := GetFileByHash(fileHash);
      if existing.Ok? {
        return File(existing.record.id);
      }
      var path := StoreFile(content, fileHash);
      var record := FileRecord(0, user, filename, fileHash, |content|, path, 1, "", "", "");
      var created := CreateFile(record, stamp);
      if created.Fail? {
        DeleteStoredFile(path);
        return Refused("failed to create file record");
      }
      r := File(created.record.id);
    }

    method HandleChunkComplete(user: int, filename: string, size: int, merged: string, stamp: string, sha: Sha)
      returns (r: Response)
      requires Valid()
      modifies Repr()
      ensures Valid() && Grows()
      ensures (View(), r) == FileStore.HandleChunkComplete(old(View()), user, filename, size, merged, stamp, sha)
    {
      hide FileStore.CreateFile, BuildStoragePath, StoreBlob, Valid, View, Repr;
      var fileHash := sha(merged);
      var path := StoreFile(merged, fileHash);
      var record := FileRecord(0, user, filename, fileHash, size, path, 1, "", "", "");
      var created := CreateFile(record, stamp);
      r := FileOf(created);
    }

    method HandleShareSave(user: int, shareOwner: int, fileId: int, stamp: string) returns (r: Response)
      requires Valid()
      modifies Repr()
      ensures Valid() && Grows()
      ensures (View(), r) == FileStore.HandleShareSave(old(View()), user, shareOwner, fileId, stamp)
    {
      hide GetById, GetByHash, FileStore.CreateFile, Valid, View, Repr;
      if shareOwner == user {
        return Refused("cannot save your own share");
      }
      var original := GetFileById(fileId);
      if original.Fail? {
        return Refused("original file not found");
      }
      var o := original.record;
      var existing := GetFileByHash(o.fileHash);
      if existing.Ok? && existing.record.userId == user {
        return File(existing.record.id);
      }
      var record := FileRecord(0, user, o.filename, o.fileHash, o.fileSize, o.storagePath, 1, o.summary, o.tags, "");
      var created := CreateFile(record, stamp);
      r := if created.Ok? then File(created.record.id) else Refused("failed to save file");
    }

    method HandleDownload(user: int, fileId: int) returns (r: Response)
      requires Valid()
      modifies Repr()
      ensures Valid() && Grows()
      ensures (View(), r) == FileStore.HandleDownload(old(View()), user, fileId)
    {
      hide GetById, Valid, View, Repr;
      var found := GetFileById(fileId);
      if found.Fail? {
        return Refused("file not found");
      }
      if found.record.userId != user {
        return Refused("access denied");
      }
      var content := RetrieveFile(found.record.storagePath);
      if content.None? {
        return Refused("file not found");
      }
      r := Bytes(content.value);
    }

    method HandleDelete(user: int, fileId: int) returns (r: Response)
      requires Valid()
      modifies Repr()
      ensures Valid() && Grows()
      ensures (View(), r) == FileStore.HandleDelete(old(View()), user, fileId)
    {
      hide GetById, FileStore.RemoveFile, DeleteBlob, Valid, View, Repr;
      var found := GetFileById(fileId);
      if found.Fail? {
        return Refused("file not found");
      }
      if found.record.userId != user {
        return Refused("access denied");
      }
      DeleteStoredFile(found.record.storagePath);
      var failed := RemoveFile(fileId);
      r := if failed.Some? then Refused(failed.value) else Done;
    }
  }
}
