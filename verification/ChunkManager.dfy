/** The upload manager as it runs: session objects shared through a table, a received set
    that grows in place, and the loops that merge chunks and sweep old sessions; each method
    is proved against its function on `Uploads`. */
module ChunkManager {
  import opened Strings
  import opened Decimal
  import opened ChunkUpload

  class UploadSession {
    const userId: int
    const filename: string
    const fileSize: int
    const totalChunks: int
    const chunkSize: int
    const createdAt: int
    var received: set<int>

    ghost function Value(): Session
      reads this
    {
      Session(userId, filename, fileSize, totalChunks, chunkSize, received, createdAt)
    }

    constructor (userId: int, filename: string, fileSize: int, totalChunks: int, chunkSize: int, createdAt: int)
      ensures Value() == Session(userId, filename, fileSize, totalChunks, chunkSize, {}, createdAt)
    {
      this.userId, this.filename, this.fileSize := userId, filename, fileSize;
      this.totalChunks, this.chunkSize, this.createdAt := totalChunks, chunkSize, createdAt;
      received := {};
    }
  }

  /** What the table of session objects stands for. */
  ghost function Values(table: map<string, UploadSession>): map<string, Session>
    reads table.Values
  {
    map id | id in table :: table[id].Value()
  }

  class ChunkUploadManager {
    var sessions: map<string, UploadSession>
    var files: map<(string, string), string>

    /** Each session object is registered once. */
    ghost predicate Valid()
      reads this
    {
      forall a, b :: a in sessions && b in sessions && a != b ==> sessions[a] != sessions[b]
    }

    ghost function View(): Uploads
      reads this, sessions.Values
    {
      Uploads(Values(sessions), files)
    }

    constructor ()
      ensures Valid() && View() == EMPTY && fresh(sessions.Values)
    {
      sessions, files := map[], map[];
    }

    method CreateSession(userId: int, filename: string, fileSize: int, totalChunks: int, chunkSize: int,
                         token: string, now: int)
      requires Valid()
      modifies this`sessions
      ensures Valid() && fresh(sessions.Values - old(sessions.Values))
      ensures var session := Session(userId, filename, fileSize, totalChunks, chunkSize, {}, now);
              View() == old(View()).(sessions := old(View()).sessions[token := session])
    {
      var session := new UploadSession(userId, filename, fileSize, totalChunks, chunkSize, now);
      sessions := sessions[token := session];
    }

    method GetSession(uploadId: string) returns (session: UploadSession?)
      requires Valid()
      ensures session == null <==> uploadId !in View().sessions
      ensures session != null ==> uploadId in sessions && session == sessions[uploadId]
      ensures session != null ==> session.Value() == View().sessions[uploadId]
    {
      if uploadId in sessions {
        session := sessions[uploadId];
      } else {
        session := null;
      }
    }

    method MarkChunkReceived(uploadId: string, index: int) returns (known: bool)
      requires Valid()
      modifies sessions.Values
      ensures Valid() && known == (uploadId in old(View()).sessions)
      ensures View() == if !known then old(View()) else
                var s := old(View()).sessions[uploadId];
                old(View()).(sessions := old(View()).sessions[uploadId := s.(received := s.received + {index})])
    {
      if uploadId !in sessions {
        return false;
      }
      var session := sessions[uploadId];
      session.received := session.received + {index};
      known := true;
    }

    method RemoveSession(uploadId: string)
      requires Valid()
      modifies this`sessions
      ensures Valid() && sessions == old(sessions) - {uploadId}
      ensures View() == old(View()).(sessions := old(View()).sessions - {uploadId})
    {
      sessions := sessions - {uploadId};
    }

    /** The first loop of a cleanup round: the ids of the expired sessions. */
    method CollectExpired(now: int) returns (toRemove: seq<string>)
      ensures forall id :: id in toRemove <==> id in View().sessions && Expired(View().sessions[id], now)
    {
      var todo := sessions.Keys;
      toRemove := [];
      while todo != {}
        invariant todo <= sessions.Keys
        invariant forall id :: id in toRemove <==> id in sessions && id !in todo && Expired(sessions[id].Value(), now)
        decreases |todo|
      {
        var id :| id in todo;
        if now - sessions[id].createdAt > MAX_AGE {
          toRemove := toRemove + [id];
        }
        todo := todo - {id};
      }
    }

    /** The second loop: the collected sessions are erased. */
    method EraseSessions(toRemove: seq<string>)
      requires Valid()
      modifies this`sessions
      ensures Valid() && sessions.Values <= old(sessions.Values) && files == old(files)
      ensures sessions == map id | id in old(sessions) && id !in toRemove :: old(sessions)[id]
      ensures View().sessions == map id | id in old(View()).sessions && id !in toRemove :: old(View()).sessions[id]
    {
      ghost var was := sessions;
      var k := 0;
      while k < |toRemove|
        invariant 0 <= k <= |toRemove|
        invariant forall id :: id in sessions <==> id in was && id !in toRemove[..k]
        invariant forall id :: id in sessions ==> sessions[id] == was[id]
      {
        sessions := sessions - {toRemove[k]};
        k := k + 1;
      }
      assert toRemove[..k] == toRemove;
      forall s | s in sessions.Values ensures s in was.Values {
        var id :| id in sessions && sessions[id] == s;
        assert was[id] == s;
      }
    }

    /** One round of `cleanupLoop`. */
    method Cleanup(now: int)
      requires Valid()
      modifies this`sessions
      ensures Valid() && sessions.Values <= old(sessions.Values)
      ensures View() == HandleSweep(old(View()), now) && files == old(files)
      ensures forall id :: id in sessions <==>
                             id in old(sessions) && now - old(sessions)[id].createdAt <= 30 * 60 * 1_000_000_000
      ensures forall id :: id in sessions ==> sessions[id] == old(sessions)[id]
    {
      var toRemove := CollectExpired(now);
      EraseSessions(toRemove);
    }

    // ----------------------------------------------------------------- the handlers

    method HandleChunkInit(user: int, filename: string, fileSize: int, totalChunks: int, chunkSize: int,
                           token: string, now: int)
      returns (r: Reply)
      requires Valid()
      modifies this`sessions
      ensures Valid()
      ensures (View(), r) == Step(old(View()), Init(user, filename, fileSize, totalChunks, chunkSize, token, now))
    {
      if filename == "" || fileSize <= 0 || totalChunks <= 0 || chunkSize <= 0 {
        return Refused("invalid parameters");
      }
      hide Values;
      CreateSession(user, filename, fileSize, totalChunks, chunkSize, token, now);
      r := Started(token);
    }

    method WriteChunk(uploadId: string, name: string, data: string)
      requires Valid()
      modifies this`files
      ensures Valid() && sessions == old(sessions)
      ensures View() == old(View()).(files := old(View()).files[(uploadId, name) := data])
    {
      files := files[(uploadId, name) := data];
    }

    method HandleChunkUpload(user: int, uploadId: string, index: string, data: string) returns (r: Reply)
      requires Valid()
      modifies this`files, sessions.Values
      ensures Valid() && sessions == old(sessions)
      ensures (View(), r) == Step(old(View()), Chunk(user, uploadId, index, data))
      ensures r.Received? ==> uploadId in sessions && sessions[uploadId].userId == user && data != ""
    {
      hide ParseIndex, Values;
      var session := GetSession(uploadId);
      if session == null || session.userId != user {
        return Refused("upload session not found");
      }
      var chunkIndex := ParseIndex(index);
      if chunkIndex.None? {
        return Refused("internal server error");
      }
      if chunkIndex.value < 0 || chunkIndex.value >= session.totalChunks {
        return Refused("invalid chunk index");
      }
      if data == "" {
        return Refused("empty chunk");
      }
      WriteChunk(uploadId, index, data);
      var known := MarkChunkReceived(uploadId, chunkIndex.value);
      r := Received;
    }

    /** The merge loop of the complete handler. */
    method MergeChunks(uploadId: string, total: nat) returns (merged: Option<string>, i: nat)
      ensures merged == Merge(files, uploadId, total)
      ensures merged.None? ==> i == FirstMissing(files, uploadId, total)
    {
      hide ToDecimal;
      var content := "";
      i := 0;
      while i < total
        invariant 0 <= i <= total && Merge(files, uploadId, i) == Some(content)
      {
        var name := (uploadId, ToDecimal(i));
        if name !in files {
          MergeStops(files, uploadId, i, total);
          MergeOpens(files, uploadId, i);
          return None, i;
        }
        content := content + files[name];
        i := i + 1;
      }
      merged := Some(content);
    }

    method HandleChunkComplete(user: int, uploadId: string) returns (r: Reply)
      requires Valid()
      modifies this
      ensures Valid()
      ensures (View(), r) == Step(old(View()), Complete(user, uploadId))
      ensures r.Merged? ==> uploadId in old(sessions) && old(sessions)[uploadId].userId == user
    {
      hide Merge, Values;
      var session := GetSession(uploadId);
      if session == null || session.userId != user {
        return Refused("upload session not found");
      }
      if |session.received| != session.totalChunks {
        return Incomplete(|session.received|, session.totalChunks);
      }
      var merged, i := MergeChunks(uploadId, session.totalChunks);
      if merged.None? {
        return Refused("failed to read chunk " + ToDecimal(i));
      }
      files := DropFiles(files, uploadId);
      RemoveSession(uploadId);
      r := Merged(user, session.filename, session.fileSize, merged.value);
    }
  }

  lemma {:induction false} MergeStops(files: map<(string, string), string>, uploadId: string, i: nat, n: nat)
    requires i < n && (uploadId, ToDecimal(i)) !in files
    ensures Merge(files, uploadId, n) == None
  {
    hide ToDecimal;
    if i < n - 1 { MergeStops(files, uploadId, i, n - 1); }
  }
}
