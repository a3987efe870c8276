/** What the file service and its handlers keep over every run: one row per hash, a blob
    behind every row, and two caches that agree with the table on all that never changes. */
module FileCoherence {
  import opened Strings
  import opened Models
  import opened LruCache
  import opened Recency
  import opened FileStore

  /** The columns no statement updates; the others are blanked. */
  function Fixed(r: FileRecord): FileRecord { r.(status := 0, summary := "", tags := "") }

  ghost predicate Agrees(cached: Option<FileRecord>, row: Option<FileRecord>) {
    cached.Some? ==> row.Some? && Fixed(cached.value) == Fixed(row.value)
  }

  /** Primary keys ascend and are below the next one; no two rows share a hash. */
  ghost predicate TableOk(table: seq<FileRecord>, nextId: int) {
    && 1 <= nextId && (forall i :: 0 <= i < |table| ==> 1 <= table[i].id < nextId)
    && (forall i, j :: 0 <= i < j < |table| ==> table[i].id < table[j].id && table[i].fileHash != table[j].fileHash)
  }

  /** A row's path comes from its hash, and the blob there has that hash. */
  ghost predicate Stored(r: FileRecord, disk: map<string, string>, sha: Sha) {
    && IsDigest(r.fileHash) && r.storagePath == BuildStoragePath(r.fileHash)
    && r.storagePath in disk && sha(disk[r.storagePath]) == r.fileHash
  }

  /** What `validateRecord` asks of a record whose hash and path are a digest's. */
  predicate Accepted(r: FileRecord) { r.userId > 0 && Trim(r.filename) != "" && r.fileSize >= 0 }

  ghost predicate BlobsOk(table: seq<FileRecord>, disk: map<string, string>, sha: Sha) {
    forall i :: 0 <= i < |table| ==> Stored(table[i], disk, sha) && Accepted(table[i])
  }

  ghost predicate Sized<K, V>(s: seq<(K, V)>, capacity: nat) { Distinct(s) && |s| <= capacity }

  ghost predicate IdsAgree(byId: seq<(int, FileRecord)>, table: seq<FileRecord>) {
    forall k :: Agrees(Lookup(byId, k), LookupRow(table, k))
  }

  ghost predicate HashesAgree(byHash: seq<(string, FileRecord)>, table: seq<FileRecord>) {
    forall h :: Agrees(Lookup(byHash, h), LookupHash(table, h))
  }

  /** Both caches are well formed and hold only rows of the table. */
  ghost predicate CachesOk(s: Store) {
    && 1 <= s.capacity && TableOk(s.table, s.nextId)
    && Sized(s.byId, s.capacity) && Sized(s.byHash, s.capacity)
    && IdsAgree(s.byId, s.table) && HashesAgree(s.byHash, s.table)
  }

  ghost predicate Coherent(s: Store, sha: Sha) {
    CachesOk(s) && BlobsOk(s.table, s.disk, sha)
  }

  // ------------------------------------------------------------------- the table

  lemma {:induction false} RowFound(table: seq<FileRecord>, id: int)
    ensures var r := LookupRow(table, id);
            if r.Some? then r.value in table && r.value.id == id
            else forall i :: 0 <= i < |table| ==> table[i].id != id
  {
    if table != [] { RowFound(table[1..], id); }
  }

  lemma {:induction false} HashFound(table: seq<FileRecord>, hash: string)
    ensures var r := LookupHash(table, hash);
            if r.Some? then r.value in table && r.value.fileHash == hash
            else forall i :: 0 <= i < |table| ==> table[i].fileHash != hash
  {
    if table != [] { HashFound(table[1..], hash); }
  }

  /** A row is found by its key and by its hash. */
  lemma RowAt(table: seq<FileRecord>, nextId: int, r: FileRecord)
    requires TableOk(table, nextId) && r in table
    ensures LookupRow(table, r.id) == Some(r) && LookupHash(table, r.fileHash) == Some(r)
  {
    RowFound(table, r.id);
    HashFound(table, r.fileHash);
  }

  lemma {:induction false} RowAppended(table: seq<FileRecord>, row: FileRecord, id: int, hash: string)
    ensures LookupRow(table + [row], id) ==
            if LookupRow(table, id).Some? then LookupRow(table, id) else if row.id == id then Some(row) else None
    ensures LookupHash(table + [row], hash) ==
            if LookupHash(table, hash).Some? then LookupHash(table, hash)
            else if row.fileHash == hash then Some(row) else None
  {
    if table != [] {
      RowAppended(table[1..], row, id, hash);
      assert (table + [row])[1..] == table[1..] + [row];
    }
  }

  lemma {:induction false} RowRemoved(table: seq<FileRecord>, nextId: int, id: int)
    requires TableOk(table, nextId)
    ensures TableOk(RemoveRow(table, id), nextId)
    ensures forall r :: r in RemoveRow(table, id) <==> r in table && r.id != id
  {
    if table != [] {
      var rest := table[1..];
      assert table == [table[0]] + rest;
      RowRemoved(rest, nextId, id);
    }
  }

  lemma RemovalById(table: seq<FileRecord>, nextId: int, id: int, k: int)
    requires TableOk(table, nextId)
    ensures LookupRow(RemoveRow(table, id), k) == if k == id then None else LookupRow(table, k)
  {
    var t := RemoveRow(table, id);
    RowRemoved(table, nextId, id);
    hide LookupRow, RemoveRow, TableOk;
    RowFound(table, k);
    RowFound(t, k);
    if LookupRow(t, k).Some? {
      RowAt(table, nextId, LookupRow(t, k).value);
    }
  }

  lemma RemovalByHash(table: seq<FileRecord>, nextId: int, id: int, h: string)
    requires TableOk(table, nextId)
    ensures LookupHash(RemoveRow(table, id), h) ==
            if LookupHash(table, h).Some? && LookupHash(table, h).value.id == id then None else LookupHash(table, h)
  {
    var t := RemoveRow(table, id);
    RowRemoved(table, nextId, id);
    hide LookupHash, RemoveRow, TableOk;
    HashFound(table, h);
    HashFound(t, h);
    if LookupHash(t, h).Some? {
      RowAt(table, nextId, LookupHash(t, h).value);
    }
  }

  /** Removing a row takes away that key and that hash and nothing else. */
  lemma RemovalLookups(table: seq<FileRecord>, nextId: int, id: int, k: int, h: string)
    requires TableOk(table, nextId)
    ensures var t := RemoveRow(table, id);
            && LookupRow(t, k) == (if k == id then None else LookupRow(table, k))
            && LookupHash(t, h) ==
               if LookupRow(table, id).Some? && LookupRow(table, id).value.fileHash == h then None
               else LookupHash(table, h)
  {
    hide LookupRow, LookupHash, RemoveRow, TableOk;
    RemovalById(table, nextId, id, k);
    RemovalByHash(table, nextId, id, h);
    RowFound(table, id);
    HashFound(table, h);
    if LookupRow(table, id).Some? { RowAt(table, nextId, LookupRow(table, id).value); }
    if LookupHash(table, h).Some? { RowAt(table, nextId, LookupHash(table, h).value); }
  }

  /** Two tables that differ only in status, summary and tags. */
  ghost predicate SameFixed(a: seq<FileRecord>, b: seq<FileRecord>) {
    |a| == |b| && forall i :: 0 <= i < |a| ==> Fixed(a[i]) == Fixed(b[i])
  }

  lemma FixedFields(a: FileRecord, b: FileRecord)
    requires Fixed(a) == Fixed(b)
    ensures a.id == b.id && a.userId == b.userId && a.filename == b.filename && a.fileHash == b.fileHash
    ensures a.fileSize == b.fileSize && a.storagePath == b.storagePath && a.createdAt == b.createdAt
  {
    var c := Fixed(a);
    assert c.id == a.id && c.userId == a.userId && c.filename == a.filename && c.fileHash == a.fileHash;
  }

  lemma {:induction false} SameFixedLookups(a: seq<FileRecord>, b: seq<FileRecord>, k: int, h: string)
    requires SameFixed(a, b)
    ensures LookupRow(a, k).Some? <==> LookupRow(b, k).Some?
    ensures Agrees(LookupRow(a, k), LookupRow(b, k))
    ensures LookupHash(a, h).Some? <==> LookupHash(b, h).Some?
    ensures Agrees(LookupHash(a, h), LookupHash(b, h))
  {
    if a != [] {
      FixedFields(a[0], b[0]);
      SameFixedLookups(a[1..], b[1..], k, h);
    }
  }

  lemma SameFixedKeep(s: Store, table: seq<FileRecord>, sha: Sha)
    requires Coherent(s, sha) && SameFixed(s.table, table)
    ensures Coherent(s.(table := table), sha)
  {
    hide Lookup, LookupRow, LookupHash, Sized, Fixed, BuildStoragePath, IsDigest;
    forall i | 0 <= i < |table|
      ensures table[i].id == s.table[i].id && table[i].fileHash == s.table[i].fileHash
      ensures Stored(table[i], s.disk, sha) && Accepted(table[i])
    {
      FixedFields(s.table[i], table[i]);
    }
    forall k ensures Agrees(Lookup(s.byId, k), LookupRow(table, k)) {
      SameFixedLookups(s.table, table, k, "");
      assert Agrees(Lookup(s.byId, k), LookupRow(s.table, k));
    }
    forall h ensures Agrees(Lookup(s.byHash, h), LookupHash(table, h)) {
      SameFixedLookups(s.table, table, 0, h);
      assert Agrees(Lookup(s.byHash, h), LookupHash(s.table, h));
    }
  }

  // ---------------------------------------------------------- trimming and paths

  lemma {:induction false} TrimIdentity(s: string)
    requires s != "" && !IsSpace(s[0]) && !IsSpace(s[|s| - 1])
    ensures Trim(s) == s
  {}

  lemma {:induction false} TrimEnds(s: string)
    ensures var r := TrimLeft(s); r == "" || !IsSpace(r[0])
    ensures var r := TrimRight(s); r <= s && (r == "" || !IsSpace(r[|r| - 1]))
    decreases |s|
  {
    if s != "" {
      TrimEnds(s[1..]);
      TrimEnds(s[..|s| - 1]);
    }
  }

  /** Trimming takes spaces off both ends and nothing else; what is left neither begins nor
      ends with one. */
  lemma TrimExactly(s: string)
    ensures exists i, j :: 0 <= i <= j <= |s| && Trim(s) == s[i..j]
                           && (forall k :: 0 <= k < i || j <= k < |s| ==> IsSpace(s[k]))
                           && (i == j || !(IsSpace(s[i]) || IsSpace(s[j - 1])))
  {
    var i := TrimLeftCut(s);
    var n := TrimRightCut(s[i..]);
    assert Trim(s) == s[i..i + n];
    forall k | i + n <= k < |s| ensures IsSpace(s[k]) { assert s[i..][k - i] == s[k]; }
    assert n > 0 ==> s[i..][0] == s[i] && s[i..][n - 1] == s[i + n - 1];
  }

  lemma {:induction false} TrimLeftCut(s: string) returns (i: nat)
    ensures i <= |s| && TrimLeft(s) == s[i..]
    ensures (forall k :: 0 <= k < i ==> IsSpace(s[k])) && (i < |s| ==> !IsSpace(s[i]))
  {
    i := 0;
    if s != "" && IsSpace(s[0]) {
      i := TrimLeftCut(s[1..]);
      i := i + 1;
      forall k | 1 <= k < i ensures IsSpace(s[k]) { assert s[1..][k - 1] == s[k]; }
    }
  }

  lemma {:induction false} TrimRightCut(s: string) returns (n: nat)
    ensures n <= |s| && TrimRight(s) == s[..n]
    ensures (forall k :: n <= k < |s| ==> IsSpace(s[k])) && (n > 0 ==> !IsSpace(s[n - 1]))
  {
    n := |s|;
    if s != "" && IsSpace(s[|s| - 1]) {
      n := TrimRightCut(s[..|s| - 1]);
      forall k | n <= k < |s| - 1 ensures IsSpace(s[k]) { assert s[..|s| - 1][k] == s[k]; }
    }
  }

  lemma TrimTwice(s: string)
    ensures Trim(Trim(s)) == Trim(s)
  {
    TrimEnds(s);
    TrimEnds(TrimLeft(s));
    if Trim(s) != "" { TrimIdentity(Trim(s)); }
  }

  lemma DigestTrim(h: string)
    requires IsDigest(h)
    ensures Trim(h) == h && Trim(BuildStoragePath(h)) == BuildStoragePath(h)
    ensures h != "" && BuildStoragePath(h) != ""
  {
    assert IsHexDigit(h[0]) && IsHexDigit(h[63]);
    TrimIdentity(h);
    var p := BuildStoragePath(h);
    assert p[0] == 'u' && p[|p| - 1] == h[63];
    TrimIdentity(p);
  }

  /** Different hashes have different paths, of any length. */
  lemma PathsDiffer(a: string, b: string)
    requires BuildStoragePath(a) == BuildStoragePath(b)
    ensures a == b
  {
    PathForm(a);
    PathForm(b);
    hide BuildStoragePath;
    assert |a| == |b|;
  }

  /** A path lies under `uploads/`, in a directory named by the first two characters of the
      hash when there are two, and ends with the hash. */
  lemma PathForm(hash: string)
    ensures var p := BuildStoragePath(hash);
            && |p| == (if |hash| < 2 then 8 else 11) + |hash|
            && p[..8] == "uploads/" && p[|p| - |hash|..] == hash
            && (|hash| >= 2 ==> p[8..10] == hash[..2] && p[10] == '/')
  {
    var p := BuildStoragePath(hash);
    var dir := if |hash| < 2 then "" else hash[..2] + "/";
    assert p == "uploads/" + dir + hash;
    assert p[..8] == "uploads/" && p[8..8 + |dir|] == dir && p[8 + |dir|..] == hash;
    assert |hash| >= 2 ==> p[8..11][..2] == p[8..10] && p[8..11][2] == p[10];
  }

  // -------------------------------------------------------------- the file service

  lemma CacheHit<K, V>(s: seq<(K, V)>, k: K, capacity: nat)
    requires Sized(s, capacity)
    ensures Sized(Touch(s, k), capacity) && Sized(Without(s, k), capacity)
    ensures forall j :: Lookup(Touch(s, k), j) == Lookup(s, j)
    ensures forall j :: Lookup(Without(s, k), j) == if j == k then None else Lookup(s, j)
  {
    TouchMeaning(s, k);
    WithoutMeaning(s, k);
    LookupHas(Without(s, k), k);
  }

  lemma CachePut<K, V>(s: seq<(K, V)>, k: K, v: V, capacity: nat)
    requires Sized(s, capacity) && 1 <= capacity
    ensures Sized(PutEntry(s, k, v, capacity), capacity)
    ensures Lookup(PutEntry(s, k, v, capacity), k) == Some(v) && PutEntry(s, k, v, capacity)[0] == (k, v)
    ensures forall j :: j != k && Lookup(PutEntry(s, k, v, capacity), j).Some? ==>
                          Lookup(PutEntry(s, k, v, capacity), j) == Lookup(s, j)
  {
    PutMeaning(s, k, v, capacity);
  }

  lemma CacheHead<K, V>(s: seq<(K, V)>, k: K)
    requires Distinct(s) && Lookup(s, k).Some?
    ensures Touch(s, k) != [] && Touch(s, k)[0] == (k, Lookup(s, k).value)
  {}

  /** `getFileById` answers as the database does on every column that never changes, leaves
      the database alone and keeps the caches right. A cached copy is the answer; without one
      the row is. Either way the answer becomes the most recent entry. */
  lemma GetByIdIsDatabase(s: Store, id: int)
    requires CachesOk(s)
    ensures var (s1, r) := GetById(s, id);
            var (copy, row) := (Lookup(s.byId, id), LookupRow(s.table, id));
            && CachesOk(s1) && s1 == s.(byId := s1.byId)
            && (r.Ok? <==> row.Some?)
            && (r.Fail? ==> s1 == s && r.message == if id <= 0 then "file id is invalid" else "file not found")
            && (r.Ok? ==>
                  && Fixed(r.record) == Fixed(row.value) && Some(r.record) == (if copy.Some? then copy else row)
                  && Lookup(s1.byId, id) == Some(r.record) && s1.byId != [] && s1.byId[0] == (id, r.record))
  {
    if Lookup(s.byId, id).Some? { CacheHead(s.byId, id); }
    hide Lookup, LookupRow, LookupHash, Touch, PutEntry, Fixed;
    assert Agrees(Lookup(s.byId, id), LookupRow(s.table, id));
    RowFound(s.table, id);
    CacheHit(s.byId, id, s.capacity);
    if Lookup(s.byId, id).None? && LookupRow(s.table, id).Some? {
      CachePut(s.byId, id, LookupRow(s.table, id).value, s.capacity);
    }
  }

  /** `getFileByHash` does too, by the trimmed hash. */
  lemma GetByHashIsDatabase(s: Store, fileHash: string)
    requires CachesOk(s)
    ensures var (s1, r) := GetByHash(s, fileHash);
            var hash := Trim(fileHash);
            var (copy, row) := (Lookup(s.byHash, hash), LookupHash(s.table, hash));
            && CachesOk(s1) && s1 == s.(byHash := s1.byHash)
            && (r.Ok? <==> hash != "" && row.Some?)
            && (r.Fail? ==> s1 == s && r.message == if hash == "" then "file hash is empty" else "file not found")
            && (r.Ok? ==>
                  && Fixed(r.record) == Fixed(row.value) && Some(r.record) == (if copy.Some? then copy else row)
                  && Lookup(s1.byHash, hash) == Some(r.record) && s1.byHash != [] && s1.byHash[0] == (hash, r.record))
  {
    if Lookup(s.byHash, Trim(fileHash)).Some? { CacheHead(s.byHash, Trim(fileHash)); }
    hide Lookup, LookupRow, LookupHash, Touch, PutEntry, Fixed, Trim;
    var h := Trim(fileHash);
    assert Agrees(Lookup(s.byHash, h), LookupHash(s.table, h));
    HashFound(s.table, h);
    CacheHit(s.byHash, h, s.capacity);
    if Lookup(s.byHash, h).None? && LookupHash(s.table, h).Some? {
      CachePut(s.byHash, h, LookupHash(s.table, h).value, s.capacity);
    }
  }

  lemma InsertKeepsCaches(s: Store, row: FileRecord)
    requires CachesOk(s) && row.id == s.nextId && LookupHash(s.table, row.fileHash).None?
    ensures CachesOk(Insert(s, row))
  {
    HashFound(s.table, row.fileHash);
    RowFound(s.table, row.id);
    hide Lookup, LookupRow, LookupHash, PutEntry, Fixed;
    var s1 := Insert(s, row);
    CachePut(s.byId, row.id, row, s.capacity);
    CachePut(s.byHash, row.fileHash, row, s.capacity);
    assert LookupRow(s.table, row.id).None?;
    forall k ensures Agrees(Lookup(s1.byId, k), LookupRow(s1.table, k)) {
      assert Agrees(Lookup(s.byId, k), LookupRow(s.table, k));
      RowAppended(s.table, row, k, "");
    }
    forall h ensures Agrees(Lookup(s1.byHash, h), LookupHash(s1.table, h)) {
      assert Agrees(Lookup(s.byHash, h), LookupHash(s.table, h));
      RowAppended(s.table, row, 0, h);
    }
  }

  lemma InsertFields(s: Store, row: FileRecord)
    ensures Insert(s, row).table == s.table + [row]
    ensures Insert(s, row).nextId == s.nextId + 1 && Insert(s, row).disk == s.disk
    ensures Insert(s, row).byId[0] == (row.id, row) && Insert(s, row).byHash[0] == (row.fileHash, row)
  {}

  /** What `validateRecord` answers for each thing that is wrong, in its order. */
  lemma RefusalMessages(s: Store, record: FileRecord, stamp: string)
    ensures var r := CreateFile(s, record, stamp).1;
            if record.userId <= 0 then r == Fail("user id is invalid")
            else if Trim(record.filename) == "" then r == Fail("filename is empty")
            else if Trim(record.fileHash) == "" then r == Fail("file hash is empty")
            else if Trim(record.storagePath) == "" then r == Fail("storage path is empty")
            else if record.fileSize < 0 then r == Fail("file size is invalid")
            else r.Ok?
    ensures CreateFile(s, record, stamp).1.Fail? ==> CreateFile(s, record, stamp).0 == s
  {
    hide Trim, LookupHash, Insert;
  }

  /** A created row heads both caches. */
  lemma CreatedIsCached(s: Store, record: FileRecord, stamp: string)
    ensures var (s1, r) := CreateFile(s, record, stamp);
            s1.table != s.table ==>
              && r.Ok? && s1.table == s.table + [r.record]
              && s1.byId != [] && s1.byId[0] == (r.record.id, r.record)
              && s1.byHash != [] && s1.byHash[0] == (r.record.fileHash, r.record)
  {
    hide Trim, LookupHash;
  }

  lemma NormalisedStored(r: FileRecord, disk: map<string, string>, sha: Sha)
    requires Stored(r, disk, sha)
    ensures Normalised(r) == r.(filename := Trim(r.filename)) && Stored(Normalised(r), disk, sha)
    ensures Validate(Normalised(r)).None? <==> Accepted(r)
  {
    DigestTrim(r.fileHash);
    hide Trim, BuildStoragePath, IsDigest;
  }

  lemma InsertKeeps(s: Store, row: FileRecord, sha: Sha)
    requires Coherent(s, sha) && row.id == s.nextId && LookupHash(s.table, row.fileHash).None?
    requires Stored(row, s.disk, sha) && Accepted(row)
    ensures Coherent(Insert(s, row), sha)
  {
    hide CachesOk, LookupHash, PutEntry, Stored, Accepted;
    InsertKeepsCaches(s, row);
  }

  /** `createFile` gives the row of a hash already stored, or appends one row with the next
      key; it fails only when the user or the trimmed filename or the size is invalid. */
  lemma CreateFileResult(s: Store, record: FileRecord, stamp: string, sha: Sha)
    requires Coherent(s, sha) && Stored(record, s.disk, sha)
    ensures var (s1, r) := CreateFile(s, record, stamp);
            && Coherent(s1, sha) && s1.disk == s.disk
            && (r.Ok? <==> Accepted(record))
            && (!Accepted(record) ==> s1 == s)
            && (Accepted(record) && LookupHash(s.table, record.fileHash).Some? ==>
                  s1 == s && Some(r.record) == LookupHash(s.table, record.fileHash))
            && (Accepted(record) && LookupHash(s.table, record.fileHash).None? ==>
                  && r.record == FileRecord(s.nextId, record.userId, Trim(record.filename), record.fileHash,
                                            record.fileSize, record.storagePath, record.status, "", "", stamp)
                  && s1.table == s.table + [r.record] && s1.nextId == s.nextId + 1)
  {
    hide Lookup, LookupHash, Trim, Coherent, Insert, Normalised, Validate, BuildStoragePath;
    NormalisedStored(record, s.disk, sha);
    var n := record.(filename := Trim(record.filename));
    if Validate(n).None? && LookupHash(s.table, n.fileHash).None? {
      var row := NewRow(n, s.nextId, stamp);
      TrimTwice(record.filename);
      InsertKeeps(s, row, sha);
      InsertFields(s, row);
    }
  }

  lemma RemovalKeepsIds(s: Store, id: int)
    requires CachesOk(s) && id > 0
    ensures var s1 := RemoveFile(s, id).0;
            && 1 <= s1.capacity && TableOk(s1.table, s1.nextId)
            && Sized(s1.byId, s1.capacity) && Sized(s1.byHash, s1.capacity) && IdsAgree(s1.byId, s1.table)
  {
    RowRemoved(s.table, s.nextId, id);
    hide Lookup, LookupRow, LookupHash, Touch, Without, RemoveRow, TableOk, Sized;
    var s1 := RemoveFile(s, id).0;
    CacheHit(s.byId, id, s.capacity);
    CacheHit(Touch(s.byId, id), id, s.capacity);
    if Lookup(s.byId, id).Some? { CacheHit(s.byHash, Lookup(s.byId, id).value.fileHash, s.capacity); }
    forall k ensures Agrees(Lookup(s1.byId, k), LookupRow(s1.table, k)) {
      assert Agrees(Lookup(s.byId, k), LookupRow(s.table, k));
      RemovalLookups(s.table, s.nextId, id, k, "");
    }
  }

  /** `removeFile` refuses only keys that are no keys. Otherwise the row goes, the id cache
      forgets that key alone, and nothing else of the database changes. */
  lemma RemoveFileResult(s: Store, id: int, k: int)
    requires CachesOk(s)
    ensures var (s1, failed) := RemoveFile(s, id);
            && failed == (if id <= 0 then Some("file id is invalid") else None)
            && (id <= 0 ==> s1 == s)
            && (id > 0 ==>
                  && LookupRow(s1.table, k) == (if k == id then None else LookupRow(s.table, k))
                  && Lookup(s1.byId, k) == (if k == id then None else Lookup(s.byId, k))
                  && s1.disk == s.disk && s1.nextId == s.nextId && s1.capacity == s.capacity)
  {
    RemovalLookups(s.table, s.nextId, id, k, "");
    hide Lookup, LookupRow, LookupHash, Touch, Without, RemoveRow, TableOk, Sized;
    CacheHit(s.byId, id, s.capacity);
    CacheHit(Touch(s.byId, id), id, s.capacity);
  }

  /** What the hash cache and the table say of a hash after `removeFile`. */
  lemma RemovalHashes(s: Store, id: int, h: string)
    requires CachesOk(s) && id > 0
    ensures var s1 := RemoveFile(s, id).0;
            var row := LookupRow(s.table, id);
            var own := row.Some? && row.value.fileHash == h;
            && LookupHash(s1.table, h) == (if own then None else LookupHash(s.table, h))
            && Lookup(s1.byHash, h) == (if own && Lookup(s.byId, id).Some? then None else Lookup(s.byHash, h))
  {
    hide Lookup, LookupRow, LookupHash, Touch, Without, RemoveRow, TableOk, Sized, Fixed;
    RemovalLookups(s.table, s.nextId, id, id, h);
    assert Agrees(Lookup(s.byId, id), LookupRow(s.table, id));
    if Lookup(s.byId, id).Some? {
      FixedFields(Lookup(s.byId, id).value, LookupRow(s.table, id).value);
      CacheHit(s.byHash, Lookup(s.byId, id).value.fileHash, s.capacity);
    }
  }

  /** On its own `removeFile` keeps the caches right exactly when it finds the row in the
      id cache, or the hash cache does not hold it, or there is no such row. */
  lemma RemoveFileExactly(s: Store, id: int)
    requires CachesOk(s)
    ensures var row := LookupRow(s.table, id);
            CachesOk(RemoveFile(s, id).0) <==>
            row.None? || Lookup(s.byId, id).Some? || Lookup(s.byHash, row.value.fileHash).None?
  {
    var s1 := RemoveFile(s, id).0;
    var row := LookupRow(s.table, id);
    RowFound(s.table, id);
    if id > 0 {
      RemovalKeepsIds(s, id);
      hide Lookup, LookupRow, LookupHash, RemoveFile, TableOk, Sized, Fixed;
      forall h
        ensures Agrees(Lookup(s1.byHash, h), LookupHash(s1.table, h)) <==>
                !(row.Some? && row.value.fileHash == h) || Lookup(s.byId, id).Some? || Lookup(s.byHash, h).None?
      {
        RemovalHashes(s, id, h);
        assert Agrees(Lookup(s.byHash, h), LookupHash(s.table, h));
      }
      assert IdsAgree(s1.byId, s1.table);
    }
  }
}
