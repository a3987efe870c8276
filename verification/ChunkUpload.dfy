/** The chunked upload protocol: src/service/ChunkUploadService.cpp and the init, upload and
    complete handlers of src/main.cpp. A state is the live sessions and the temporary chunk
    files; a run is any interleaving of requests and expiry sweeps. */
module ChunkUpload {
  import opened Strings
  import opened Decimal

  /** 30 minutes of the steady clock, in nanoseconds. */
  const MAX_AGE := 1_800_000_000_000
  const INT_MIN := -0x8000_0000
  const INT_MAX := 0x7fff_ffff

  datatype Session = Session(
    userId: int, filename: string, fileSize: int, totalChunks: int, chunkSize: int,
    received: set<int>, createdAt: int)

  /** `files` is what lies under uploads/tmp: the bytes for an upload id and a file name. */
  datatype Uploads = Uploads(sessions: map<string, Session>, files: map<(string, string), string>)

  /** `token` is the fresh upload id a session gets; `index` is the last segment of the path. */
  datatype Event =
    | Init(user: int, filename: string, fileSize: int, totalChunks: int, chunkSize: int, token: string, now: int)
    | Chunk(user: int, uploadId: string, index: string, data: string)
    | Complete(user: int, uploadId: string)
    | Sweep(now: int)

  datatype Reply =
    | Refused(message: string)
    | Started(uploadId: string)
    | Received
    | Incomplete(received: int, total: int)
    | Merged(user: int, filename: string, fileSize: int, content: string)
    | Swept

  const EMPTY := Uploads(map[], map[])

  // ------------------------------------------------------------------ the handlers

  /** `std::stoi`: white space, a sign, digits, and anything after them; `None` stands for
      the exceptions it throws. */
  function ParseIndex(s: string): Option<int> {
    var at := SkipSpace(s, 0);
    var start := if at < |s| && (s[at] == '-' || s[at] == '+') then at + 1 else at;
    if DigitsEnd(s, start) == start then None
    else
      var v := if start > at && s[at] == '-' then -Magnitude(s, start) else Magnitude(s, start);
      if INT_MIN <= v <= INT_MAX then Some(v) else None
  }

  predicate Owned(u: Uploads, uploadId: string, user: int) {
    uploadId in u.sessions && u.sessions[uploadId].userId == user
  }

  function HandleInit(u: Uploads, e: Event): (Uploads, Reply)
    requires e.Init?
  {
    if e.filename == "" || e.fileSize <= 0 || e.totalChunks <= 0 || e.chunkSize <= 0
    then (u, Refused("invalid parameters"))
    else
      var session := Session(e.user, e.filename, e.fileSize, e.totalChunks, e.chunkSize, {}, e.now);
      (u.(sessions := u.sessions[e.token := session]), Started(e.token))
  }

  function HandleChunk(u: Uploads, user: int, uploadId: string, index: string, data: string): (Uploads, Reply) {
    if !Owned(u, uploadId, user) then (u, Refused("upload session not found"))
    else
      var session := u.sessions[uploadId];
      match ParseIndex(index)
      case None => (u, Refused("internal server error"))
      case Some(i) =>
        if i < 0 || i >= session.totalChunks then (u, Refused("invalid chunk index"))
        else if data == "" then (u, Refused("empty chunk"))
        else
          (Uploads(u.sessions[uploadId := session.(received := session.received + {i})],
                   u.files[(uploadId, index) := data]), Received)
  }

  /** The merge loop: chunk files 0 to `n - 1` in order, if all can be opened. */
  function Merge(files: map<(string, string), string>, uploadId: string, n: nat): Option<string> {
    if n == 0 then Some("")
    else
      match Merge(files, uploadId, n - 1)
      case None => None
      case Some(front) =>
        var name := (uploadId, ToDecimal(n - 1));
        if name in files then Some(front + files[name]) else None
  }

  /** The first of the chunk files 0 to `n - 1` that cannot be opened, or `n`. */
  function FirstMissing(files: map<(string, string), string>, uploadId: string, n: nat): (i: nat)
    ensures i <= n && (i < n ==> (uploadId, ToDecimal(i)) !in files)
    ensures forall j :: 0 <= j < i ==> (uploadId, ToDecimal(j)) in files
  {
    if n == 0 then 0
    else
      var i := FirstMissing(files, uploadId, n - 1);
      if i == n - 1 && (uploadId, ToDecimal(i)) in files then n else i
  }

  function DropFiles(files: map<(string, string), string>, uploadId: string): map<(string, string), string> {
    map name | name in files && name.0 != uploadId :: files[name]
  }

  function HandleComplete(u: Uploads, user: int, uploadId: string): (Uploads, Reply) {
    if !Owned(u, uploadId, user) then (u, Refused("upload session not found"))
    else
      var session := u.sessions[uploadId];
      if |session.received| != session.totalChunks then (u, Incomplete(|session.received|, session.totalChunks))
      else
        match Merge(u.files, uploadId, session.totalChunks)
        case None =>
          var missing := FirstMissing(u.files, uploadId, session.totalChunks);
          (u, Refused("failed to read chunk " + ToDecimal(missing)))
        case Some(content) =>
          (Uploads(u.sessions - {uploadId}, DropFiles(u.files, uploadId)),
           Merged(user, session.filename, session.fileSize, content))
  }

  predicate Expired(session: Session, now: int) { now - session.createdAt > MAX_AGE }

  function HandleSweep(u: Uploads, now: int): Uploads {
    u.(sessions := map id | id in u.sessions && !Expired(u.sessions[id], now) :: u.sessions[id])
  }

  function Step(u: Uploads, e: Event): (Uploads, Reply) {
    match e
    case Init(_, _, _, _, _, _, _) => HandleInit(u, e)
    case Chunk(user, uploadId, index, data) => HandleChunk(u, user, uploadId, index, data)
    case Complete(user, uploadId) => HandleComplete(u, user, uploadId)
    case Sweep(now) => (HandleSweep(u, now), Swept)
  }

  function Run(events: seq<Event>): Uploads {
    if events == [] then EMPTY else Step(Run(events[..|events| - 1]), events[|events| - 1]).0
  }

  // ------------------------------------------------- what one request does, exactly

  /** Opening a session: when it is refused, and the one entry it makes. */
  lemma InitExactly(u: Uploads, user: int, filename: string, fileSize: int, totalChunks: int, chunkSize: int,
                    token: string, now: int)
    ensures var (t, r) := Step(u, Init(user, filename, fileSize, totalChunks, chunkSize, token, now));
            var ok := filename != "" && fileSize > 0 && totalChunks > 0 && chunkSize > 0;
            && r == (if ok then Started(token) else Refused("invalid parameters"))
            && t.files == u.files
            && (forall id :: id in t.sessions <==> id in u.sessions || (ok && id == token))
            && (forall id :: id in u.sessions && !(ok && id == token) ==> t.sessions[id] == u.sessions[id])
            && (ok ==>
                  var s := t.sessions[token];
                  && s.userId == user && s.filename == filename && s.fileSize == fileSize
                  && s.totalChunks == totalChunks && s.chunkSize == chunkSize && s.received == {} && s.createdAt == now)
  {}

  /** A chunk is accepted exactly from the owner of the session, with a number of one of its
      chunks and some data; then one file is written and one number marked. Anything else is
      refused for the first reason that applies and changes nothing. */
  lemma ChunkExactly(u: Uploads, user: int, uploadId: string, index: string, data: string)
    ensures var (t, r) := Step(u, Chunk(user, uploadId, index, data));
            var owned := uploadId in u.sessions && u.sessions[uploadId].userId == user;
            var i := ParseIndex(index);
            var inRange := owned && i.Some? && 0 <= i.value < u.sessions[uploadId].totalChunks;
            && (r.Received? <==> inRange && data != "")
            && (!owned ==> r == Refused("upload session not found"))
            && (owned && i.None? ==> r == Refused("internal server error"))
            && (owned && i.Some? && !inRange ==> r == Refused("invalid chunk index"))
            && (inRange && data == "" ==> r == Refused("empty chunk"))
            && (!r.Received? ==> t == u)
            && (r.Received? ==>
                  && (forall n :: n in t.files <==> n in u.files || n == (uploadId, index))
                  && (forall n :: n in t.files ==> t.files[n] == if n == (uploadId, index) then data else u.files[n])
                  && t.sessions.Keys == u.sessions.Keys
                  && (forall id :: id in u.sessions && id != uploadId ==> t.sessions[id] == u.sessions[id])
                  && t.sessions[uploadId].received == u.sessions[uploadId].received + {i.value}
                  && t.sessions[uploadId] == u.sessions[uploadId].(received := t.sessions[uploadId].received))
  {
    hide ParseIndex;
  }

  /** The answers of the complete handler in their order, and what a success takes away. */
  lemma CompleteStepExactly(u: Uploads, user: int, uploadId: string)
    ensures var (t, r) := Step(u, Complete(user, uploadId));
            var owned := uploadId in u.sessions && u.sessions[uploadId].userId == user;
            var counted := owned && |u.sessions[uploadId].received| == u.sessions[uploadId].totalChunks;
            var there := counted && forall i :: 0 <= i < u.sessions[uploadId].totalChunks ==>
                                                  (uploadId, ToDecimal(i)) in u.files;
            && (!owned ==> r == Refused("upload session not found"))
            && (owned && !counted ==>
                  r == Incomplete(|u.sessions[uploadId].received|, u.sessions[uploadId].totalChunks))
            && (counted && !there ==>
                  exists i :: 0 <= i < u.sessions[uploadId].totalChunks && (uploadId, ToDecimal(i)) !in u.files
                              && (forall j :: 0 <= j < i ==> (uploadId, ToDecimal(j)) in u.files)
                              && r == Refused("failed to read chunk " + ToDecimal(i)))
            && (r.Merged? <==> there)
            && (!r.Merged? ==> t == u)
            && (r.Merged? ==>
                  && r.user == user && r.filename == u.sessions[uploadId].filename
                  && r.fileSize == u.sessions[uploadId].fileSize
                  && (forall id :: id in t.sessions <==> id in u.sessions && id != uploadId)
                  && (forall id :: id in t.sessions ==> t.sessions[id] == u.sessions[id])
                  && (forall n :: n in t.files <==> n in u.files && n.0 != uploadId)
                  && (forall n :: n in t.files ==> t.files[n] == u.files[n]))
  {
    hide Merge, ToDecimal;
    if uploadId in u.sessions && |u.sessions[uploadId].received| == u.sessions[uploadId].totalChunks {
      MergeOpens(u.files, uploadId, u.sessions[uploadId].totalChunks);
    }
  }

  /** A sweep erases exactly the sessions older than 30 minutes, in nanoseconds, and touches
      nothing else. */
  lemma SweepExactly(u: Uploads, now: int)
    ensures var (t, r) := Step(u, Sweep(now));
            && r == Swept && t.files == u.files
            && (forall id :: id in t.sessions <==>
                               id in u.sessions && now - u.sessions[id].createdAt <= 30 * 60 * 1_000_000_000)
            && (forall id :: id in t.sessions ==> t.sessions[id] == u.sessions[id])
  {}

  // ----------------------------------------------------------------- chunk numbers

  /** `std::stoi` on any text: white space, a sign, digits, and whatever follows; it throws
      when no digit stands there or the number does not fit 32 bits. */
  lemma ParseIndexMeaning(spaces: string, sign: string, digits: string, rest: string)
    requires NumberText(spaces, sign, digits, rest)
    ensures var v := Signed(sign, Value(digits));
            ParseIndex(spaces + sign + digits + rest)
            == if digits != "" && -2147483648 <= v <= 2147483647 then Some(v) else None
  {
    hide ParseIndex, SkipSpace, DigitsEnd, Magnitude, Value, NumberText;
    NumberAt("", spaces, sign, digits, rest);
    SignText(spaces, sign, digits, rest);
    var all := spaces + sign + digits + rest;
    assert "" + all == all;
    ParseIndexAt(all, |spaces|, sign, |digits|);
  }

  lemma ParseIndexAt(s: string, at: nat, sign: string, n: nat)
    requires SkipSpace(s, 0) == at && (sign == "" || sign == "+" || sign == "-")
    requires sign != "" ==> at < |s| && s[at] == sign[0]
    requires sign == "" && at < |s| ==> s[at] != '+' && s[at] != '-'
    requires at + |sign| <= |s| && DigitsEnd(s, at + |sign|) == at + |sign| + n
    ensures var v := Signed(sign, Magnitude(s, at + |sign|));
            ParseIndex(s) == if n > 0 && -2147483648 <= v <= 2147483647 then Some(v) else None
  {
    hide SkipSpace, DigitsEnd, Magnitude;
  }

  lemma SignText(spaces: string, sign: string, digits: string, rest: string)
    requires NumberText(spaces, sign, digits, rest)
    ensures sign == "" || sign == "+" || sign == "-"
  {}

  /** A chunk number written the usual way is read back, if it fits an `int`. */
  lemma IndexReadBack(i: int)
    requires 0 <= i
    ensures ParseIndex(ToDecimal(i)) == if i <= INT_MAX then Some(i) else None
  {
    var s := ToDecimal(i);
    assert s == Digits(i) && "" + (Digits(i) + "") == s;
    assert IsDigit(s[0]);
    DigitsRead("", i, "");
    hide Digits, Value, Magnitude;
  }

  /** A set of chunk numbers below `n` has `n` members exactly when none is missing. */
  lemma {:induction false} CountIsComplete(received: set<int>, n: nat)
    requires forall i :: i in received ==> 0 <= i < n
    ensures |received| <= n
    ensures |received| == n <==> forall i :: 0 <= i < n ==> i in received
    decreases n
  {
    if n == 0 {
      assert forall i :: i !in received;
    } else {
      var rest := received - {n - 1};
      CountIsComplete(rest, n - 1);
      assert n - 1 in received ==> received == rest + {n - 1};
      assert n - 1 !in received ==> received == rest;
      assert forall i :: 0 <= i < n - 1 ==> (i in received <==> i in rest);
    }
  }

  // ---------------------------------------------------------- what every state keeps

  /** Only numbers of existing chunks are marked. */
  ghost predicate InRange(u: Uploads) {
    forall id :: id in u.sessions ==>
      && 0 < u.sessions[id].totalChunks
      && forall i :: i in u.sessions[id].received ==> 0 <= i < u.sessions[id].totalChunks
  }

  lemma StepInRange(u: Uploads, e: Event)
    requires InRange(u)
    ensures InRange(Step(u, e).0)
  {
    hide ParseIndex, Merge, DropFiles;
  }

  lemma {:induction false} RunInRange(events: seq<Event>)
    ensures InRange(Run(events))
    decreases |events|
  {
    if events != [] {
      hide Step, InRange;
      RunInRange(events[..|events| - 1]);
      StepInRange(Run(events[..|events| - 1]), events[|events| - 1]);
    } else {
      hide Step;
    }
  }

  /** The server took event `j` as data for the chunk file `name` of this upload. */
  ghost predicate Accepted(events: seq<Event>, j: nat, uploadId: string, name: string)
    requires j < |events|
  {
    && events[j].Chunk? && events[j].uploadId == uploadId && events[j].index == name
    && Step(Run(events[..j]), events[j]).1.Received?
  }

  ghost predicate Arrived(events: seq<Event>, uploadId: string, name: string) {
    exists j: nat :: j < |events| && Accepted(events, j, uploadId, name)
  }

  /** Upload ids are random tokens; none is handed out twice. */
  ghost predicate FreshTokens(events: seq<Event>) {
    forall i, j :: 0 <= i < j < |events| && events[i].Init? && events[j].Init? ==> events[i].token != events[j].token
  }

  ghost predicate Issued(events: seq<Event>, uploadId: string) {
    exists i :: 0 <= i < |events| && events[i].Init? && events[i].token == uploadId
  }

  lemma AcceptedPrefix(events: seq<Event>, j: nat, uploadId: string, name: string)
    requires events != [] && j < |events| - 1
    ensures Accepted(events[..|events| - 1], j, uploadId, name) <==> Accepted(events, j, uploadId, name)
  {
    assert events[..|events| - 1][..j] == events[..j];
  }

  /** What has arrived after one more event. */
  lemma ArrivedSnoc(events: seq<Event>, uploadId: string, name: string)
    requires events != []
    ensures var n := |events| - 1;
            Arrived(events, uploadId, name) <==>
            Arrived(events[..n], uploadId, name) || Accepted(events, n, uploadId, name)
  {
    hide Accepted;
    var n := |events| - 1;
    if Arrived(events[..n], uploadId, name) {
      var j: nat :| j < n && Accepted(events[..n], j, uploadId, name);
      AcceptedPrefix(events, j, uploadId, name);
    }
    if Arrived(events, uploadId, name) && !Accepted(events, n, uploadId, name) {
      var j: nat :| j < |events| && Accepted(events, j, uploadId, name);
      AcceptedPrefix(events, j, uploadId, name);
    }
  }

  lemma IssuedSnoc(events: seq<Event>, uploadId: string)
    requires events != []
    ensures var n := |events| - 1;
            Issued(events, uploadId) <==>
            Issued(events[..n], uploadId) || (events[n].Init? && events[n].token == uploadId)
    ensures FreshTokens(events) ==>
            var n := |events| - 1;
            FreshTokens(events[..n]) && (events[n].Init? ==> !Issued(events[..n], events[n].token))
  {
    var n := |events| - 1;
    assert forall i :: 0 <= i < n ==> events[..n][i] == events[i];
  }

  /** The chunk files of one upload, and its session. */
  ghost predicate Clean(u: Uploads, uploadId: string) {
    uploadId !in u.sessions && forall name :: (uploadId, name) !in u.files
  }

  /** Before its token is handed out an upload has no session, no files and no chunks. */
  lemma {:induction false} NothingBeforeInit(events: seq<Event>, uploadId: string)
    requires !Issued(events, uploadId)
    ensures Clean(Run(events), uploadId) && forall name :: !Arrived(events, uploadId, name)
    decreases |events|
  {
    if events != [] {
      var n := |events| - 1;
      IssuedSnoc(events, uploadId);
      NothingBeforeInit(events[..n], uploadId);
      hide ParseIndex, Merge;
      forall name ensures !Arrived(events, uploadId, name) { ArrivedSnoc(events, uploadId, name); }
    }
  }

  // -------------------------------------------------------------------- one step

  /** This event writes that chunk file. */
  ghost predicate Takes(u: Uploads, e: Event, uploadId: string, name: string) {
    e.Chunk? && e.uploadId == uploadId && e.index == name && Step(u, e).1.Received?
  }

  lemma FilesAfter(u: Uploads, e: Event, uploadId: string, name: string)
    ensures var t := Step(u, e).0;
            && ((uploadId, name) in t.files <==>
                Takes(u, e, uploadId, name)
                || ((uploadId, name) in u.files && !(Step(u, e).1.Merged? && e.uploadId == uploadId)))
            && ((uploadId, name) in t.files ==>
                t.files[(uploadId, name)] == if Takes(u, e, uploadId, name) then e.data else u.files[(uploadId, name)])
  {
    hide ParseIndex, Merge;
  }

  /** What becomes of a session that is live after the event. */
  lemma SessionAfter(u: Uploads, e: Event, uploadId: string)
    requires uploadId in Step(u, e).0.sessions
    ensures var s := Step(u, e).0.sessions[uploadId];
            if e.Init? && e.token == uploadId && Step(u, e).1.Started? then s.received == {}
            else
              && uploadId in u.sessions && !(Step(u, e).1.Merged? && e.uploadId == uploadId)
              && s == u.sessions[uploadId].(received := s.received)
              && forall i :: i in s.received <==>
                  i in u.sessions[uploadId].received ||
                  exists name :: Takes(u, e, uploadId, name) && ParseIndex(name) == Some(i)
  {
    hide ParseIndex, Merge;
    if e.Chunk? && Step(u, e).1.Received? && e.uploadId == uploadId { assert Takes(u, e, uploadId, e.index); }
  }

  // ------------------------------------------------------------------- every run

  /** A live session has exactly the chunk files that have arrived, and exactly the numbers
      those names parse to are marked. */
  ghost predicate Matches(u: Uploads, events: seq<Event>, uploadId: string) {
    uploadId in u.sessions ==>
      && (forall name :: (uploadId, name) in u.files <==> Arrived(events, uploadId, name))
      && (forall i :: i in u.sessions[uploadId].received <==>
            exists name :: Arrived(events, uploadId, name) && ParseIndex(name) == Some(i))
  }

  lemma MatchesFresh(u: Uploads, before: seq<Event>, events: seq<Event>, uploadId: string)
    requires events != [] && before == events[..|events| - 1] && u == Run(before)
    requires var e := events[|events| - 1]; e.Init? && e.token == uploadId && Step(u, e).1.Started?
    requires !Issued(before, uploadId)
    ensures Matches(Run(events), events, uploadId)
  {
    NothingBeforeInit(before, uploadId);
    hide Arrived, ParseIndex;
    forall name ensures !Arrived(events, uploadId, name) {
      ArrivedSnoc(events, uploadId, name);
    }
  }

  lemma MatchesStep(u: Uploads, before: seq<Event>, events: seq<Event>, uploadId: string)
    requires events != [] && before == events[..|events| - 1] && u == Run(before) && Matches(u, before, uploadId)
    requires var e := events[|events| - 1]; !(e.Init? && e.token == uploadId && Step(u, e).1.Started?)
    ensures Matches(Run(events), events, uploadId)
  {
    var n := |events| - 1;
    var e := events[n];
    var t := Step(u, e).0;
    assert t == Run(events);
    if uploadId in t.sessions {
      forall name ensures Accepted(events, n, uploadId, name) <==> Takes(u, e, uploadId, name) {}
      hide Arrived, Accepted, Takes, Step, Run, ParseIndex;
      SessionAfter(u, e, uploadId);
      forall name
        ensures (uploadId, name) in t.files <==> Arrived(events, uploadId, name)
        ensures Arrived(events, uploadId, name) <==> Arrived(before, uploadId, name) || Takes(u, e, uploadId, name)
      {
        FilesAfter(u, e, uploadId, name);
        ArrivedSnoc(events, uploadId, name);
      }
    }
  }

  lemma {:induction false} RunMatches(events: seq<Event>, uploadId: string)
    requires FreshTokens(events)
    ensures Matches(Run(events), events, uploadId)
    decreases |events|
  {
    if events != [] {
      var n := |events| - 1;
      var before, e := events[..n], events[n];
      hide Matches, Issued, Step;
      IssuedSnoc(events, uploadId);
      RunMatches(before, uploadId);
      if e.Init? && e.token == uploadId && Step(Run(before), e).1.Started? {
        MatchesFresh(Run(before), before, events, uploadId);
      } else {
        MatchesStep(Run(before), before, events, uploadId);
      }
    } else {
      hide Step;
    }
  }

  lemma {:induction false} MergeOpens(files: map<(string, string), string>, uploadId: string, n: nat)
    ensures Merge(files, uploadId, n).Some? <==> forall i :: 0 <= i < n ==> (uploadId, ToDecimal(i)) in files
  {
    if n > 0 { MergeOpens(files, uploadId, n - 1); }
  }

  lemma CompleteWhen(u: Uploads, user: int, uploadId: string)
    requires Owned(u, uploadId, user)
    requires var s := u.sessions[uploadId];
             && 0 < s.totalChunks && (forall i :: i in s.received ==> 0 <= i < s.totalChunks)
             && forall i :: 0 <= i < s.totalChunks && (uploadId, ToDecimal(i)) in u.files ==> i in s.received
    ensures HandleComplete(u, user, uploadId).1.Merged? <==>
            forall i :: 0 <= i < u.sessions[uploadId].totalChunks ==> (uploadId, ToDecimal(i)) in u.files
  {
    hide Merge, ToDecimal;
    var s := u.sessions[uploadId];
    MergeOpens(u.files, uploadId, s.totalChunks);
    CountIsComplete(s.received, s.totalChunks);
  }

  /** Completing an upload succeeds exactly when its live session belongs to the user and
      every chunk has arrived under the usual spelling of its number. */
  lemma CompleteExactly(events: seq<Event>, user: int, uploadId: string)
    requires FreshTokens(events)
    ensures var u := Run(events);
            Step(u, Complete(user, uploadId)).1.Merged? <==>
            Owned(u, uploadId, user)
            && forall i :: 0 <= i < u.sessions[uploadId].totalChunks ==> Arrived(events, uploadId, ToDecimal(i))
  {
    RunMatches(events, uploadId);
    RunInRange(events);
    hide FreshTokens, Run, Arrived, ToDecimal, Matches;
    var u := Run(events);
    if Owned(u, uploadId, user) {
      hide HandleComplete;
      var s := u.sessions[uploadId];
      forall i | 0 <= i < s.totalChunks
        ensures (uploadId, ToDecimal(i)) in u.files <==> Arrived(events, uploadId, ToDecimal(i))
        ensures (uploadId, ToDecimal(i)) in u.files ==> i in s.received
      {
        FileByName(u, events, uploadId, ToDecimal(i));
        if Arrived(events, uploadId, ToDecimal(i)) { MarkedByName(u, events, uploadId, i); }
      }
      CompleteWhen(u, user, uploadId);
    }
  }

  lemma FileByName(u: Uploads, events: seq<Event>, uploadId: string, name: string)
    requires Matches(u, events, uploadId) && uploadId in u.sessions
    ensures (uploadId, name) in u.files <==> Arrived(events, uploadId, name)
  {}

  lemma MarkedByName(u: Uploads, events: seq<Event>, uploadId: string, i: int)
    requires Matches(u, events, uploadId) && uploadId in u.sessions && 0 <= i && Arrived(events, uploadId, ToDecimal(i))
    ensures i in u.sessions[uploadId].received
  {
    var name := ToDecimal(i);
    var j: nat :| j < |events| && Accepted(events, j, uploadId, name);
    IndexReadBack(i);
    hide ParseIndex, ToDecimal;
    assert ParseIndex(name).Some?;
  }

  // ----------------------------------------------------------------- the contents

  /** Every chunk file holds what an accepted request for it carried. */
  lemma {:induction false} FileSource(events: seq<Event>, uploadId: string, name: string)
    requires (uploadId, name) in Run(events).files
    ensures exists j: nat :: j < |events| && Accepted(events, j, uploadId, name)
                             && events[j].data == Run(events).files[(uploadId, name)]
    decreases |events|
  {
    hide Step;
    if events != [] {
      var n := |events| - 1;
      var u, e := Run(events[..n]), events[n];
      FilesAfter(u, e, uploadId, name);
      if Takes(u, e, uploadId, name) {
        assert Accepted(events, n, uploadId, name);
      } else {
        FileSource(events[..n], uploadId, name);
        var j: nat :| j < n && Accepted(events[..n], j, uploadId, name)
                      && events[..n][j].data == u.files[(uploadId, name)];
        AcceptedPrefix(events, j, uploadId, name);
      }
    }
  }

  /** Chunk `i` of a file cut into pieces of `size` bytes. */
  function Slice(original: string, i: nat, size: nat): string {
    NextPiece(i, size);
    original[Min(i * size, |original|)..Min((i + 1) * size, |original|)]
  }

  lemma NextPiece(i: nat, size: nat)
    ensures 0 <= i * size <= (i + 1) * size == i * size + size
  {}

  lemma {:induction false} MergeContent(files: map<(string, string), string>, uploadId: string, n: nat,
                                        original: string, size: nat)
    requires forall i :: 0 <= i < n ==>
               (uploadId, ToDecimal(i)) in files && files[(uploadId, ToDecimal(i))] == Slice(original, i, size)
    ensures 0 <= n * size && Merge(files, uploadId, n) == Some(original[..Min(n * size, |original|)])
  {
    hide ToDecimal;
    if n == 0 {
      assert original[..0] == "";
    } else {
      MergeContent(files, uploadId, n - 1, original, size);
      NextPiece(n - 1, size);
      var a, b := Min((n - 1) * size, |original|), Min(n * size, |original|);
      assert original[..a] + original[a..b] == original[..b];
    }
  }

  /** Every request accepted for a chunk of this upload carried that slice; what refused
      requests carried does not matter. */
  ghost predicate SlicesOf(events: seq<Event>, uploadId: string, original: string, size: nat) {
    forall j: nat, i: nat :: j < |events| && Accepted(events, j, uploadId, ToDecimal(i)) ==>
                               events[j].data == Slice(original, i, size)
  }

  /** Whatever the order, repetition and interleaving with other uploads and sweeps, a
      completed upload whose accepted requests carried slices of a file is that file. */
  lemma MergedIsOriginal(events: seq<Event>, user: int, uploadId: string, original: string, size: nat)
    requires var u := Run(events);
             && Step(u, Complete(user, uploadId)).1.Merged? && SlicesOf(events, uploadId, original, size)
             && |original| <= u.sessions[uploadId].totalChunks * size
    ensures var u := Run(events);
            var s := u.sessions[uploadId];
            Step(u, Complete(user, uploadId)).1 == Merged(user, s.filename, s.fileSize, original)
  {
    RunInRange(events);
    hide Run, ToDecimal;
    var u := Run(events);
    var s := u.sessions[uploadId];
    MergeOpens(u.files, uploadId, s.totalChunks);
    forall i: nat | i < s.totalChunks
      ensures (uploadId, ToDecimal(i)) in u.files && u.files[(uploadId, ToDecimal(i))] == Slice(original, i, size)
    {
      FileSource(events, uploadId, ToDecimal(i));
    }
    hide Slice, Merge;
    MergeContent(u.files, uploadId, s.totalChunks, original, size);
    assert original[..|original|] == original;
  }

  // ----------------------------------------------------------------------- expiry

  /** Under fresh tokens the session of a token carries the time of its own init. */
  lemma {:induction false} SessionOrigin(before: seq<Event>, init: Event, after: seq<Event>)
    requires init.Init? && FreshTokens(before + [init] + after)
    ensures var u := Run(before + [init] + after);
            init.token in u.sessions ==> u.sessions[init.token].createdAt == init.now
    decreases |after|
  {
    var events := before + [init] + after;
    var n := |events| - 1;
    IssuedSnoc(events, init.token);
    if after == [] {
      assert events[..n] == before && events[n] == init;
      NothingBeforeInit(before, init.token);
      hide ParseIndex, Merge;
    } else {
      var e := after[|after| - 1];
      assert events[..n] == before + [init] + after[..|after| - 1] && events[n] == e;
      assert events[|before|] == init && (e.Init? ==> e.token != init.token);
      SessionOrigin(before, init, after[..|after| - 1]);
      hide Step, Run, FreshTokens, Issued;
      if init.token in Step(Run(events[..n]), e).0.sessions { SessionAfter(Run(events[..n]), e, init.token); }
      RunLast(events);
    }
  }

  lemma RunLast(events: seq<Event>)
    requires events != []
    ensures Run(events) == Step(Run(events[..|events| - 1]), events[|events| - 1]).0
  {}

  lemma {:induction false} DeadStaysDead(events: seq<Event>, after: seq<Event>, token: string)
    requires token !in Run(events).sessions
    requires forall j :: 0 <= j < |after| && after[j].Init? ==> after[j].token != token
    ensures token !in Run(events + after).sessions
    decreases |after|
  {
    if after == [] {
      assert events + after == events;
    } else {
      var n := |after| - 1;
      assert (events + after)[..|events + after| - 1] == events + after[..n];
      DeadStaysDead(events, after[..n], token);
      hide Step, Run;
      RunLast(events + after);
      if token in Step(Run(events + after[..n]), after[n]).0.sessions {
        SessionAfter(Run(events + after[..n]), after[n], token);
      }
    }
  }

  /** Once a sweep has come more than 30 minutes after the init of an upload, every chunk and
      every completion of that upload is refused for good. */
  lemma ExpiredUploadIsRefused(before: seq<Event>, init: Event, middle: seq<Event>, now: int, after: seq<Event>,
                               user: int, index: string, data: string)
    requires init.Init? && FreshTokens(before + [init] + middle + [Sweep(now)] + after)
    requires now - init.now > 30 * 60 * 1_000_000_000
    ensures var u := Run(before + [init] + middle + [Sweep(now)] + after);
            && Step(u, Chunk(user, init.token, index, data)) == (u, Refused("upload session not found"))
            && Step(u, Complete(user, init.token)) == (u, Refused("upload session not found"))
  {
    var all := before + [init] + middle + [Sweep(now)] + after;
    var first := before + [init] + middle;
    var swept := first + [Sweep(now)];
    assert first == all[..|first|];
    SessionOrigin(before, init, middle);
    hide Step, Run;
    assert swept[..|first|] == first && swept[|first|] == Sweep(now);
    RunLast(swept);
    SweepExactly(Run(first), now);
    forall j | 0 <= j < |after| && after[j].Init? ensures after[j].token != init.token {
      assert all[|before|] == init && all[|swept| + j] == after[j];
    }
    DeadStaysDead(swept, after, init.token);
    assert swept + after == all;
    ChunkExactly(Run(all), user, init.token, index, data);
    CompleteStepExactly(Run(all), user, init.token);
  }

  // --------------------------------------------------------------------- success

  ghost predicate Valid(init: Event) {
    init.Init? && init.filename != "" && init.fileSize > 0 && init.totalChunks > 0 && init.chunkSize > 0
  }

  /** No request has completed the upload yet and no sweep finds the session too old. */
  ghost predicate Undisturbed(before: seq<Event>, init: Event, after: seq<Event>)
    requires init.Init?
  {
    forall j :: 0 <= j < |after| ==>
      && (after[j].Init? ==> after[j].token != init.token)
      && (after[j].Sweep? ==> after[j].now - init.now <= MAX_AGE)
      && (after[j].Complete? && after[j].uploadId == init.token ==>
            !Step(Run(before + [init] + after[..j]), after[j]).1.Merged?)
  }

  lemma UndisturbedBefore(before: seq<Event>, init: Event, after: seq<Event>, n: nat)
    requires init.Init? && n <= |after| && Undisturbed(before, init, after)
    ensures Undisturbed(before, init, after[..n])
  {
    hide Step, Run;
    forall j | 0 <= j < n ensures after[..n][..j] == after[..j] {}
  }

  function Opened(init: Event, received: set<int>): Session
    requires init.Init?
  {
    Session(init.user, init.filename, init.fileSize, init.totalChunks, init.chunkSize, received, init.now)
  }

  /** A session lives for 30 minutes unless it is completed. */
  lemma {:induction false} SessionLasts(before: seq<Event>, init: Event, after: seq<Event>)
    requires Valid(init) && Undisturbed(before, init, after)
    ensures var u := Run(before + [init] + after);
            init.token in u.sessions && u.sessions[init.token] == Opened(init, u.sessions[init.token].received)
    decreases |after|
  {
    var events := before + [init] + after;
    if after == [] {
      assert events[..|events| - 1] == before && events[|events| - 1] == init;
    } else {
      var n := |after| - 1;
      var e, u := after[n], Run(before + [init] + after[..n]);
      assert events[..|events| - 1] == before + [init] + after[..n] && events[|events| - 1] == e;
      UndisturbedBefore(before, init, after, n);
      SessionLasts(before, init, after[..n]);
      SessionStays(u, e, init);
    }
  }

  lemma SessionStays(u: Uploads, e: Event, init: Event)
    requires init.Init? && init.token in u.sessions
    requires u.sessions[init.token] == Opened(init, u.sessions[init.token].received)
    requires (e.Init? ==> e.token != init.token) && (e.Sweep? ==> e.now - init.now <= MAX_AGE)
    requires e.Complete? && e.uploadId == init.token ==> !Step(u, e).1.Merged?
    ensures var t := Step(u, e).0;
            init.token in t.sessions && t.sessions[init.token] == Opened(init, t.sessions[init.token].received)
  {
    hide ParseIndex, Merge;
  }

  lemma ChunkTaken(u: Uploads, init: Event, i: nat, data: string)
    requires Valid(init) && init.token in u.sessions && u.sessions[init.token].userId == init.user
    requires i < u.sessions[init.token].totalChunks && i <= INT_MAX && data != ""
    ensures Step(u, Chunk(init.user, init.token, ToDecimal(i), data)).1.Received?
  {
    IndexReadBack(i);
    hide ParseIndex, ToDecimal;
  }

  lemma SliceNotEmpty(original: string, i: nat, n: nat, size: nat)
    requires i < n && (n - 1) * size < |original| && size > 0
    ensures Slice(original, i, size) != ""
  {
    NextPiece(i, size);
    StepsMonotone(i, n - 1, size);
  }

  lemma {:induction false} StepsMonotone(i: nat, n: nat, size: nat)
    requires i <= n
    ensures i * size <= n * size
  {
    if i < n {
      StepsMonotone(i, n - 1, size);
      NextPiece(n - 1, size);
    }
  }

  /** After `init` the right slice of every chunk is sent at least once. */
  ghost predicate AllSent(after: seq<Event>, init: Event, original: string, size: nat)
    requires init.Init?
  {
    forall i: nat :: i < init.totalChunks ==>
                       Chunk(init.user, init.token, ToDecimal(i), Slice(original, i, size)) in after
  }

  lemma SentArrives(before: seq<Event>, init: Event, after: seq<Event>, original: string, size: nat, i: nat)
    requires Valid(init) && Undisturbed(before, init, after) && AllSent(after, init, original, size)
    requires i < init.totalChunks <= INT_MAX && size > 0 && (init.totalChunks - 1) * size < |original|
    ensures Arrived(before + [init] + after, init.token, ToDecimal(i))
  {
    var events := before + [init] + after;
    var data := Slice(original, i, size);
    SliceNotEmpty(original, i, init.totalChunks, size);
    hide Slice, Run, ToDecimal, Step;
    var j :| 0 <= j < |after| && after[j] == Chunk(init.user, init.token, ToDecimal(i), data);
    var k: nat := |before| + 1 + j;
    assert events[..k] == before + [init] + after[..j] && events[k] == after[j];
    UndisturbedBefore(before, init, after, j);
    SessionLasts(before, init, after[..j]);
    ChunkTaken(Run(events[..k]), init, i, data);
    assert Accepted(events, k, init.token, ToDecimal(i));
  }

  /** The protocol end to end: open a session, send every slice of a file in any order,
      with any repetition and any other traffic between, within 30 minutes: completing it
      yields the file. */
  lemma UploadSucceeds(before: seq<Event>, init: Event, after: seq<Event>, original: string, size: nat)
    requires Valid(init) && init.totalChunks <= INT_MAX
    requires FreshTokens(before + [init] + after) && Undisturbed(before, init, after)
    requires SlicesOf(before + [init] + after, init.token, original, size) && AllSent(after, init, original, size)
    requires size > 0 && (init.totalChunks - 1) * size < |original| <= init.totalChunks * size
    ensures Step(Run(before + [init] + after), Complete(init.user, init.token)).1
            == Merged(init.user, init.filename, init.fileSize, original)
  {
    var events := before + [init] + after;
    SessionLasts(before, init, after);
    hide Run, Step, SlicesOf, AllSent, FreshTokens, Undisturbed, Arrived, ToDecimal;
    forall i: nat | i < init.totalChunks ensures Arrived(events, init.token, ToDecimal(i)) {
      SentArrives(before, init, after, original, size, i);
    }
    CompleteExactly(events, init.user, init.token);
    MergedIsOriginal(events, init.user, init.token, original, size);
  }

  /** Counting marks is not enough: a chunk sent under another spelling of its number is
      marked, but the file merged later is not there. */
  lemma OtherSpellingIsLost(user: int, token: string, data: string, now: int)
    requires data != ""
    ensures var u := Run([Init(user, "a", 1, 1, 1, token, now), Chunk(user, token, "00", data)]);
            && token in u.sessions && |u.sessions[token].received| == u.sessions[token].totalChunks == 1
            && Step(u, Complete(user, token)) == (u, Refused("failed to read chunk 0"))
  {
    var init, chunk := Init(user, "a", 1, 1, 1, token, now), Chunk(user, token, "00", data);
    var session := Session(user, "a", 1, 1, 1, {}, now);
    assert ParseIndex("00") == Some(0) by {
      assert "00"[0..2] == "00" && "00"[..1] == "0" && "0"[..0] == "";
      assert Value("0") == 0;
    }
    assert ToDecimal(0) == "0";
    hide ParseIndex, ToDecimal;
    RunPair(init, chunk);
    var u1 := Uploads(map[token := session], map[]);
    assert Step(EMPTY, init).0 == u1;
    var u2 := Uploads(map[token := session.(received := {0})], map[(token, "00") := data]);
    assert Step(u1, chunk).0 == u2 by { assert {} + {0} == {0}; }
    assert Merge(u2.files, token, 1) == None by { assert Merge(u2.files, token, 0) == Some(""); }
    assert FirstMissing(u2.files, token, 1) == 0;
    assert "failed to read chunk " + "0" == "failed to read chunk 0";
  }

  lemma RunPair(a: Event, b: Event)
    ensures Run([a, b]) == Step(Step(EMPTY, a).0, b).0
  {
    hide Step;
    assert [a, b][..1] == [a] && [a][..0] == [];
    assert Run([a]) == Step(EMPTY, a).0;
  }
}
