/** The file table, the two file caches and the stored blobs: src/service/FileService.cpp,
    src/dao/FileDao.cpp and the request handlers of src/main.cpp that drive them. The
    database is a list of rows in primary-key order, the file system a map from paths to
    bytes; database calls and file operations succeed. */
module FileStore {
  import opened Strings
  import opened Models
  import opened LruCache

  // -------------------------------------------------------------------- the digest

  predicate IsHexDigit(c: char) { '0' <= c <= '9' || 'a' <= c <= 'f' }

  /** What hex-encoding 32 bytes gives. */
  predicate IsDigest(h: string) { |h| == 64 && forall i :: 0 <= i < |h| ==> IsHexDigit(h[i]) }

  function ZeroDigest(content: string): string { seq(64, _ => '0') }

  /** SHA-256 followed by hex encoding. */
  type Sha = f: string -> string | forall x :: IsDigest(f(x)) ghost witness ZeroDigest

  // --------------------------------------------------------------------- trimming

  function TrimLeft(s: string): string { if s != "" && IsSpace(s[0]) then TrimLeft(s[1..]) else s }
  function TrimRight(s: string): string {
    if s != "" && IsSpace(s[|s| - 1]) then TrimRight(s[..|s| - 1]) else s
  }
  function Trim(s: string): string { TrimRight(TrimLeft(s)) }

  // -------------------------------------------------------------------- the table

  function LookupRow(table: seq<FileRecord>, id: int): Option<FileRecord> {
    if table == [] then None else if table[0].id == id then Some(table[0]) else LookupRow(table[1..], id)
  }

  function LookupHash(table: seq<FileRecord>, hash: string): Option<FileRecord> {
    if table == [] then None else if table[0].fileHash == hash then Some(table[0]) else LookupHash(table[1..], hash)
  }

  function RemoveRow(table: seq<FileRecord>, id: int): seq<FileRecord> {
    if table == [] then []
    else (if table[0].id == id then [] else [table[0]]) + RemoveRow(table[1..], id)
  }

  function UpdateMeta(table: seq<FileRecord>, id: int, summary: string, tags: string): (r: seq<FileRecord>)
    ensures |r| == |table|
  {
    seq(|table|, i requires 0 <= i < |table| =>
      if table[i].id == id then table[i].(summary := summary, tags := tags) else table[i])
  }

  function UpdateStatus(table: seq<FileRecord>, id: int, status: int): (r: seq<FileRecord>)
    ensures |r| == |table|
  {
    seq(|table|, i requires 0 <= i < |table| => if table[i].id == id then table[i].(status := status) else table[i])
  }

  // --------------------------------------------------------------------- the state

  datatype Store = Store(
    byId: seq<(int, FileRecord)>, byHash: seq<(string, FileRecord)>, capacity: nat,
    table: seq<FileRecord>, nextId: int, disk: map<string, string>)

  datatype ServiceResult = Ok(record: FileRecord) | Fail(message: string)

  function Empty(capacity: nat): Store { Store([], [], if capacity > 0 then capacity else 1, [], 1, map[]) }

  // -------------------------------------------------------------- the file service

  function Validate(r: FileRecord): Option<string> {
    if r.userId <= 0 then Some("user id is invalid")
    else if r.filename == "" then Some("filename is empty")
    else if r.fileHash == "" then Some("file hash is empty")
    else if r.storagePath == "" then Some("storage path is empty")
    else if r.fileSize < 0 then Some("file size is invalid")
    else None
  }

  function Normalised(r: FileRecord): FileRecord {
    r.(filename := Trim(r.filename), fileHash := Trim(r.fileHash), storagePath := Trim(r.storagePath))
  }

  /** The row the INSERT statement makes. */
  function NewRow(r: FileRecord, id: int, stamp: string): FileRecord {
    r.(id := id, summary := "", tags := "", createdAt := stamp)
  }

  function Insert(s: Store, row: FileRecord): Store {
    var table := s.table + [row];
    s.(table := table, nextId := s.nextId + 1,
       byId := PutEntry(s.byId, row.id, row, s.capacity),
       byHash := PutEntry(s.byHash, row.fileHash, row, s.capacity))
  }

  function CreateFile(s: Store, record: FileRecord, stamp: string): (Store, ServiceResult) {
    var r := Normalised(record);
    match Validate(r)
    case Some(message) => (s, Fail(message))
    case None =>
      match LookupHash(s.table, r.fileHash)
      case Some(existing) => (s, Ok(existing))
      case None =>
        var row := NewRow(r, s.nextId, stamp);
        (Insert(s, row), Ok(row))
  }

  function GetById(s: Store, id: int): (Store, ServiceResult) {
    if id <= 0 then (s, Fail("file id is invalid"))
    else
      match Lookup(s.byId, id)
      case Some(r) => (s.(byId := Touch(s.byId, id)), Ok(r))
      case None =>
        match LookupRow(s.table, id)
        case None => (s, Fail("file not found"))
        case Some(r) => (s.(byId := PutEntry(s.byId, r.id, r, s.capacity)), Ok(r))
  }

  function GetByHash(s: Store, fileHash: string): (Store, ServiceResult) {
    var hash := Trim(fileHash);
    if hash == "" then (s, Fail("file hash is empty"))
    else
      match Lookup(s.byHash, hash)
      case Some(r) => (s.(byHash := Touch(s.byHash, hash)), Ok(r))
      case None =>
        match LookupHash(s.table, hash)
        case None => (s, Fail("file not found"))
        case Some(r) => (s.(byHash := PutEntry(s.byHash, r.fileHash, r, s.capacity)), Ok(r))
  }

  /** Clears the hash cache only when the id cache knows the file. */
  function RemoveFile(s: Store, id: int): (Store, Option<string>) {
    if id <= 0 then (s, Some("file id is invalid"))
    else
      var byHash := match Lookup(s.byId, id) case Some(r) => Without(s.byHash, r.fileHash) case None => s.byHash;
      (s.(byId := Without(Touch(s.byId, id), id), byHash := byHash, table := RemoveRow(s.table, id)), None)
  }

  // ------------------------------------------------------------------ blob storage

  function BuildStoragePath(hash: string): string {
    if |hash| < 2 then "uploads/" + hash else "uploads/" + hash[..2] + "/" + hash
  }

  function StoreBlob(s: Store, hash: string, content: string): Store {
    s.(disk := s.disk[BuildStoragePath(hash) := content])
  }

  function DeleteBlob(s: Store, path: string): Store {
    if path != "" && path in s.disk then s.(disk := s.disk - {path}) else s
  }

  // ------------------------------------------------------------------ the handlers

  datatype Request =
    | Upload(user: int, filename: string, content: string, stamp: string)
    | ChunkComplete(user: int, filename: string, declaredSize: int, merged: string, stamp: string)
    | ShareSave(user: int, shareOwner: int, fileId: int, stamp: string)
    | Fetch(fileId: int)
    | Check(fileHash: string)
    | Download(user: int, fileId: int)
    | Delete(user: int, fileId: int)
    | SetMeta(fileId: int, summary: string, tags: string)
    | SetStatus(fileId: int, status: int)

  datatype Response = Refused(message: string) | File(id: int) | Absent | Bytes(content: string) | Done

  function FileOf(r: ServiceResult): Response {
    match r case Ok(record) => File(record.id) case Fail(message) => Refused(message)
  }

  function HandleUpload(s: Store, user: int, filename: string, content: string, stamp: string, sha: Sha)
    : (Store, Response)
  {
    if content == "" then (s, Refused("empty file"))
    else
      var hash := sha(content);
      var (s1, existing) := GetByHash(s, hash);
      if existing.Ok? then (s1, File(existing.record.id))
      else
        var s2 := StoreBlob(s1, hash, content);
        var record := FileRecord(0, user, filename, hash, |content|, BuildStoragePath(hash), 1, "", "", "");
        var (s3, created) := CreateFile(s2, record, stamp);
        if created.Ok? then (s3, File(created.record.id))
        else (DeleteBlob(s3, BuildStoragePath(hash)), Refused("failed to create file record"))
  }

  function HandleChunkComplete(s: Store, user: int, filename: string, declaredSize: int, merged: string,
                               stamp: string, sha: Sha)
    : (Store, Response)
  {
    var hash := sha(merged);
    var s1 := StoreBlob(s, hash, merged);
    var record := FileRecord(0, user, filename, hash, declaredSize, BuildStoragePath(hash), 1, "", "", "");
    var (s2, created) := CreateFile(s1, record, stamp);
    (s2, FileOf(created))
  }

  function HandleShareSave(s: Store, user: int, shareOwner: int, fileId: int, stamp: string): (Store, Response) {
    if shareOwner == user then (s, Refused("cannot save your own share"))
    else
      var (s1, original) := GetById(s, fileId);
      if original.Fail? then (s1, Refused("original file not found"))
      else
        var o := original.record;
        var (s2, existing) := GetByHash(s1, o.fileHash);
        if existing.Ok? && existing.record.userId == user then (s2, File(existing.record.id))
        else
          var record := FileRecord(0, user, o.filename, o.fileHash, o.fileSize, o.storagePath, 1,
                                   o.summary, o.tags, "");
          var (s3, created) := CreateFile(s2, record, stamp);
          (s3, if created.Ok? then File(created.record.id) else Refused("failed to save file"))
  }

  function HandleDownload(s: Store, user: int, fileId: int): (Store, Response) {
    var (s1, found) := GetById(s, fileId);
    if found.Fail? then (s1, Refused("file not found"))
    else if found.record.userId != user then (s1, Refused("access denied"))
    else if found.record.storagePath !in s1.disk then (s1, Refused("file not found"))
    else (s1, Bytes(s1.disk[found.record.storagePath]))
  }

  function HandleDelete(s: Store, user: int, fileId: int): (Store, Response) {
    var (s1, found) := GetById(s, fileId);
    if found.Fail? then (s1, Refused("file not found"))
    else if found.record.userId != user then (s1, Refused("access denied"))
    else
      var s2 := DeleteBlob(s1, found.record.storagePath);
      var (s3, failed) := RemoveFile(s2, fileId);
      (s3, if failed.Some? then Refused(failed.value) else Done)
  }

  function Handle(s: Store, req: Request, sha: Sha): (Store, Response) {
    match req
    case Upload(user, filename, content, stamp) => HandleUpload(s, user, filename, content, stamp, sha)
    case ChunkComplete(user, filename, size, merged, stamp) =>
      HandleChunkComplete(s, user, filename, size, merged, stamp, sha)
    case ShareSave(user, owner, fileId, stamp) => HandleShareSave(s, user, owner, fileId, stamp)
    case Fetch(fileId) =>
      var (s1, r) := GetById(s, fileId);
      (s1, if r.Ok? then File(r.record.id) else Refused("file not found"))
    case Check(hash) =>
      if hash == "" then (s, Refused("file_hash is required"))
      else
        var (s1, r) := GetByHash(s, hash);
        (s1, if r.Ok? then File(r.record.id) else Absent)
    case Download(user, fileId) => HandleDownload(s, user, fileId)
    case Delete(user, fileId) => HandleDelete(s, user, fileId)
    case SetMeta(fileId, summary, tags) => (s.(table := UpdateMeta(s.table, fileId, summary, tags)), Done)
    case SetStatus(fileId, status) => (s.(table := UpdateStatus(s.table, fileId, status)), Done)
  }

  function Serve(s: Store, requests: seq<Request>, sha: Sha): Store
    decreases |requests|
  {
    if requests == [] then s
    else
      var n := |requests| - 1;
      Handle(Serve(s, requests[..n], sha), requests[n], sha).0
  }
}
