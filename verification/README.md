# FileAgent server: a verified model

FileAgent is a C++20 file server behind FastCGI: users upload files (whole or in chunks), share, download and delete them; texts are cut into chunks and indexed for semantic search. This project models the parts of it whose correctness is not visible from one function body, in Dafny 4.11, and proves what they promise. `dafny verify dfyconfig.toml` checks the whole project.

How it is organised:

- `TextChunker`, `ParagraphChunker`: the sliding window and the greedy paragraph packing. Each loop is a method proved against a function; the theorems are about that function.
- `Multipart`: the hand-written `multipart/form-data` parser against an encoder written from section 5.1.1 of RFC 2046.
- `ConnectionPool`: the pool as a state machine in which the steps of clients, `init`, `shutdown`, the producer thread and the recycler thread interleave freely; a lock owner stands for the mutex, and `running_` changes outside it as in the code.
- `LruCache`, `Recency`: the list-and-index cache as linked node objects refining a recency-ordered sequence of entries; then theorems over whole traces of operations.
- `FileStore`, `FileCoherence`, `FileHandlers`, `FileStaleness`, `FileService`: the file table, the two caches, the stored blobs and the request handlers. `FileStore` is the specification, `FileService` the mutable class proved against it, and the other three hold the theorems over every run of requests: what the caches share with the database, what the handlers promise, and exactly when an answer is out of date.
- `ChunkUpload`, `ChunkManager`, `ChunkedFile`: the chunked upload protocol over any interleaving of requests and expiry sweeps, the session manager that implements it with shared mutable sessions, and the two servers joined end to end.
- `RedisCache`, `Decimal`: the record printers and the search-based readers of the Redis caches, down to `std::to_string` and `strtoll`.
- `RateLimiter`, `VectorStore`: the sliding-window limiter and the top-k vector search with its per-file aggregation.
- `Strings`, `Models`: `find`, `rfind` and first-occurrence reasoning; the two row types.

Results worth knowing before changing the code:

- `chunkBySize` finishes on every text exactly when the overlap in effect is at most half the window plus one. `TextChunker.StuckText` is a text that makes it run forever otherwise. The comment in the source says the window advances by at least a quarter of its size; what the code does is step back by at least a quarter. It also advances by a quarter on every text exactly when the overlap and a quarter window fit together into the shortest possible window (`TextChunker.QuarterAdvanceExactly`). Where it stops it keeps the whole text exactly when the overlap is at most half the window plus two; `TextChunker.LostText` loses its end to a wrapped `size_t`.
- A part whose content ends in CRLF loses that CRLF, a filename with a quote is cut at it, and a `Content-Type` in the last header line is dropped.
- For every configuration the idle queue stays within `max_size`, and a shutdown leaves nothing undeleted, on every run exactly when calls of `init` and `shutdown` do not overlap.
- `removeFile` alone can leave a stale entry in the hash cache (`FileStaleness.RemoveAloneGoesStale` is a run); `handleDelete` never does, because it reads the file by id first.
- Updates of summary, tags and status bypass the caches: an answer is current exactly when the updates since the copy entered the cache cancel out. `handleUpload` itself caches the row before it writes the summary, so every upload that gets one is answered without it until the copy is evicted (`FileStaleness.UploadedSummaryIsMissed`).
- A smaller cache's keys are always a prefix of a larger one's, but a bare get keeps it so only when both hit, both miss, or the smaller cache is empty.
- Saving a share announces a new record in its comment and reports success, but `createFile` finds the original by its hash: no row is added and the saver has only the access there was before.
- A chunk sent under another spelling of its number (`00` for `0`) counts as received, and completing then fails on the missing file.
- A record with a double quote in a string does not come back unchanged from Redis.

## Model

| member | source | states |
|---|---|---|
| TextChunker.CutIsLastNewline | src/vector/TextChunker.cpp:46-56 | a window that is not the last ends just after the last newline of its second half, the character past the window included, or else after exactly `chunk_size` characters |
| TextChunker.CutBounds | src/vector/TextChunker.cpp:46-56 | a window is never empty, at most one character longer than `chunk_size`, and unless it is the last more than half full |
| TextChunker.NextStartStepsBack | src/vector/TextChunker.cpp:69-72 | in the safe range no `size_t` subtraction wraps, the step back is the larger of the overlap and a quarter window, and the start strictly advances |
| TextChunker.NextStartCases | src/vector/TextChunker.cpp:69-72 | the four outcomes of the two assignments without modular arithmetic, the wrapped ones included |
| TextChunker.QuarterAdvanceExactly | src/vector/TextChunker.cpp:69-72 | each turn advances by at least a quarter window, on every text and from every start, if and only if overlap plus quarter fit into the shortest window |
| TextChunker.StaysAtStart | src/vector/TextChunker.cpp:44-73 | for any larger overlap below the window size, a text on which the loop is still at position 0 after any number of turns |
| TextChunker.HaltsOnEveryText | src/vector/TextChunker.cpp:44-73 | the loop stops on every text if and only if the overlap is at most half the window plus one |
| TextChunker.PiecesRebuild | src/vector/TextChunker.cpp:41-75 | the text is the first chunk followed by every later chunk without its first max(overlap, quarter window) characters |
| TextChunker.PiecesShape | src/vector/TextChunker.cpp:41-75 | no chunk is empty or longer than the window plus one; neighbours share exactly the overlap; the number of chunks is bounded by the text length over the least advance |
| TextChunker.ShortTextIsOnePiece | src/vector/TextChunker.cpp:29-39 | the shortcut for short texts gives what the loop would give |
| TextChunker.PiecesEndAtNewlines | src/vector/TextChunker.cpp:46-56 | every chunk but the last ends just after a newline beyond its middle, or is a full window with no newline there |
| TextChunker.WindowEnd | src/vector/TextChunker.cpp:46-56 | the code that moves `end` back to a newline computes `Cut` |
| TextChunker.StepBack | src/vector/TextChunker.cpp:69-72 | the two assignments to `start`, in wrapping arithmetic, compute `NextStart` |
| TextChunker.Normalise | src/vector/TextChunker.cpp:23-27 | the parameters in effect after the fallbacks for a zero size and an overlap as large as the window |
| TextChunker.LoopIsPieces | src/vector/TextChunker.cpp:41-75 | in the safe range the loop stops and what it emits turn by turn are the chunks the theorems above speak of |
| TextChunker.TextKeptExactly | src/vector/TextChunker.cpp:41-75 | the chunks rebuild the text, on every text for which the loop stops, if and only if the overlap is at most half the window plus two; a larger overlap can wrap the start around and drop the rest of the text |
| TextChunker.Slide | src/vector/TextChunker.cpp:41-75 | on every text for which it stops, the loop emits the windows of its turns, numbered from 0 |
| TextChunker.ChunkBySize | src/vector/TextChunker.cpp:11-76 | the whole function, for every text that fits the window or on which the loop stops: nothing for an empty text, the text for a short one, else the chunks of the loop under the sizes in effect, numbered 0 to n-1, with file and name |
| ParagraphChunker.LinesKeepText | src/vector/TextChunker.cpp:106-110 | reading lines loses nothing but a missing final newline |
| ParagraphChunker.ParagraphsAreParagraphs | src/vector/TextChunker.cpp:110-124 | every paragraph ends in a newline and holds no blank line inside |
| ParagraphChunker.ParagraphsKeepLines | src/vector/TextChunker.cpp:110-124 | paragraphs with a blank line after each restore the lines up to one newline at the very end |
| ParagraphChunker.ParagraphsFit | src/vector/TextChunker.cpp:104-124 | paragraphs are not empty, fit into the text, and hold its characters in order up to newlines |
| ParagraphChunker.PackIsPlan | src/vector/TextChunker.cpp:126-167 | the greedy packing groups the paragraphs in order, loses none, keeps groups within the limit and cuts up only over-long paragraphs |
| ParagraphChunker.PackIsOptimal | src/vector/TextChunker.cpp:126-167 | no in-order grouping of the paragraphs within the limit gives fewer chunks, over-long paragraphs included |
| ParagraphChunker.TightPlanIsGreedy | src/vector/TextChunker.cpp:126-167 | the greedy grouping is the only one within the limit that closes a chunk just when the next paragraph would overflow it |
| ParagraphChunker.GreedyIsTight | src/vector/TextChunker.cpp:126-167 | and it is one: no chunk is closed earlier |
| ParagraphChunker.BodyIsParas | src/vector/TextChunker.cpp:130-167 | the chunks of any such grouping, the overlap inside split paragraphs dropped, concatenate to the paragraphs, and each has between 1 and `max_chunk_size + 1` characters |
| ParagraphChunker.ByParagraphKeepsText | src/vector/TextChunker.cpp:78-170 | the main theorem on `chunkByParagraph`: text kept in order up to newlines, sizes bounded, chunk count minimal |
| ParagraphChunker.GetLine | src/vector/TextChunker.cpp:110-110 | one `std::getline` takes the next line off the unread text |
| ParagraphChunker.ReadParagraphs | src/vector/TextChunker.cpp:104-124 | the line loop computes the paragraphs |
| ParagraphChunker.Renumber | src/vector/TextChunker.cpp:147-151 | the chunks of a split paragraph are renumbered from the running index |
| ParagraphChunker.SplitParagraph | src/vector/TextChunker.cpp:143-152 | an over-long paragraph becomes its sliding-window chunks with running indices |
| ParagraphChunker.PackParagraphs | src/vector/TextChunker.cpp:126-169 | the packing loop emits exactly the greedy grouping, indices 0 to n-1 |
| ParagraphChunker.ChunkByParagraph | src/vector/TextChunker.cpp:78-170 | the whole function: no chunk for an empty text, the text itself for one that fits the limit (2000 when none is given), else at least one chunk; chunks numbered 0 to n-1, with file and name, none empty or longer than the limit plus one |
| Multipart.LocatePart | src/server/FastCgiServer.cpp:45-71 | there is no part without a delimiter, at the closing one, or without an end of its line; otherwise the part starts after that line and ends before the first delimiter line, else before the first closing delimiter, else with the body |
| Multipart.ReadFilename | src/server/FastCgiServer.cpp:88-97 | the quoted text after the first `filename="` |
| Multipart.ReadContentType | src/server/FastCgiServer.cpp:99-109 | the rest of the line after the first `Content-Type:` and its spaces, empty when no line follows |
| Multipart.ReadPart | src/server/FastCgiServer.cpp:73-111 | a part without a blank line gives no file; otherwise its headers and content split at the first one, and exactly one trailing CRLF is stripped |
| Multipart.ParseMultipartFormData | src/server/FastCgiServer.cpp:35-118 | the parser terminates on every body, `pos` growing each turn, and returns the files in order |
| Multipart.NextPartFound | src/server/FastCgiServer.cpp:45-71 | whatever stands between two delimiter lines is located exactly, and the search resumes at the delimiter after it |
| Multipart.ParseUndoesSections | src/server/FastCgiServer.cpp:35-118 | parsing any encoded list of sections gives the files of those with a blank line, in order, whatever the preamble and epilogue |
| Multipart.MalformedIsSkipped | src/server/FastCgiServer.cpp:73-79 | a section without a blank line is passed over wherever it stands; the ones after it are still read |
| Multipart.UnterminatedLast | src/server/FastCgiServer.cpp:60-67 | a body that breaks off inside its last section still yields that section |
| Multipart.ParseUndoesEncode | src/server/FastCgiServer.cpp:35-118 | parsing an encoded body returns every part in order, whatever the headers, preamble and epilogue, if no part contains the delimiter line |
| Multipart.StripCrlfExactly | src/server/FastCgiServer.cpp:84-86 | a content comes back unchanged if and only if it does not end in CRLF |
| Multipart.FilenameReadExactly | src/server/FastCgiServer.cpp:88-97 | what is read of a filename is the text before its first quote; so it comes back if and only if it holds none |
| Multipart.NoFilename | src/server/FastCgiServer.cpp:88-97 | without the key, or without a closing quote after it, the filename is empty |
| Multipart.ContentTypeRead | src/server/FastCgiServer.cpp:99-109 | a content type is read when another header line follows |
| Multipart.LastContentTypeLost | src/server/FastCgiServer.cpp:106-108 | a content type in the last header line is reported as empty |
| Multipart.NoContentType | src/server/FastCgiServer.cpp:99-101 | without the header the content type is empty |
| Multipart.ContentTypeExactly | src/server/FastCgiServer.cpp:99-109 | a content type comes back if and only if another header line follows it |
| Multipart.UploadRoundTrip | src/server/FastCgiServer.cpp:35-118 | encoding any list of files and parsing gives them back in order: each filename exactly when it has no quote, each content exactly when it does not end in CRLF |
| ConnectionPool.EveryConnectionInOnePlace | src/db/ConnectionPool.cpp:92-271 | on every interleaving, overlapping `init` and `shutdown` included: each connection ever opened is queued, held or deleted, in one place and once; the active counter counts the guards alive; the queue is ordered by last use |
| ConnectionPool.AlwaysExclusive | src/db/ConnectionPool.cpp:92-271 | mutual exclusion on every interleaving: the lock belongs to the one thread inside its critical section |
| ConnectionPool.GetMovesFront | src/db/ConnectionPool.cpp:123-168 | on every run a client gets exactly the connection used least recently, which nobody holds; that one leaves the queue and nothing else changes; nothing is given out while the lock is taken, the pool is stopped or the queue is empty |
| ConnectionPool.ReturnGoesBackOrAway | src/db/ConnectionPool.cpp:142-165 | on every run a released connection goes to the back, stamped with the time, or is deleted when the pool is stopped or the queue has its maximum |
| ConnectionPool.InitializedIsFull | src/db/ConnectionPool.cpp:92-121 | on every run, overlapping calls included, the pool is called initialized only with the minimum queued and both threads started |
| ConnectionPool.InitBringsUp | src/db/ConnectionPool.cpp:92-121 | from any run that left the pool down, an undisturbed `init` brings it up with exactly the minimum |
| ConnectionPool.FailedInitUndoes | src/db/ConnectionPool.cpp:104-115 | an `init` whose connection fails deletes what it opened and leaves the pool down and unlocked |
| ConnectionPool.ProducerTopsUp | src/db/ConnectionPool.cpp:223-248 | an undisturbed producer tops the queue up to the minimum and no further |
| ConnectionPool.RecyclerWakesUp | src/db/ConnectionPool.cpp:250-256 | an undisturbed recycler comes to hold the lock |
| ConnectionPool.ShutdownEnds | src/db/ConnectionPool.cpp:181-202 | an undisturbed `shutdown` joins both threads and leaves an empty, uninitialized, unlocked pool; what clients hold they keep |
| ConnectionPool.RecyclerIsExact | src/db/ConnectionPool.cpp:256-269 | stopping at the first unexpired connection is exact: a pass deletes the oldest min(surplus over the minimum, number expired) connections, leaves everything else as it is, and never goes below the minimum |
| ConnectionPool.RecyclerIsExactOnRuns | src/db/ConnectionPool.cpp:250-271 | on every interleaving, once the recycler has the lock its turns delete exactly those connections and free the lock |
| ConnectionPool.ScansMakeAPass | src/db/ConnectionPool.cpp:250-271 | the recycler thread's turns between taking and releasing the lock add up to one such pass |
| ConnectionPool.AlwaysCoordinated | src/db/ConnectionPool.cpp:92-271 | how lock, threads and flags fit together on every run without overlapping calls, the bound on the queue included |
| ConnectionPool.ShutdownDeletesEverything | src/db/ConnectionPool.cpp:181-202 | on runs in which calls of `init` and `shutdown` do not overlap: after `shutdown` returned and every guard is released, each connection ever opened has been deleted exactly once |
| ConnectionPool.ShutdownDeletesExactly | src/db/ConnectionPool.cpp:181-202 | for every configuration that holds on every run if and only if calls of `init` and `shutdown` do not overlap |
| ConnectionPool.OverlapOverfills | src/db/ConnectionPool.cpp:92-202 | for every configuration, a run with overlapping calls after which the pool runs, initialized and unlocked, with `max_size + min_size` queued connections |
| ConnectionPool.QueueBoundedExactly | src/db/ConnectionPool.cpp:151-154 | for every configuration the queue stays within `max_size` on every run if and only if calls of `init` and `shutdown` do not overlap |
| ConnectionPool.ConnectionPool.AddConnectionLocked | src/db/ConnectionPool.cpp:204-221 | a successful connection joins the back of the queue, stamped with the time; a failed one changes nothing; every field is given |
| ConnectionPool.ConnectionPool.Acquire | src/db/ConnectionPool.cpp:133-167 | the connection handed out is the front one, the queue loses exactly that one, its number joins those held and the counter grows by one; when stopped or empty nothing is handed out or changed |
| ConnectionPool.ConnectionPool.Release | src/db/ConnectionPool.cpp:142-165 | the connection joins the back, stamped with the time, while running and below the maximum, else it is deleted once; it is no longer held and is counted out, never below zero |
| ConnectionPool.ConnectionPool.DrainLocked | src/db/ConnectionPool.cpp:195-201 | the loop of `shutdown` leaves an empty queue, each of its connections deleted once more, and nothing else changed |
| ConnectionPool.ConnectionPool.RecycleLocked | src/db/ConnectionPool.cpp:256-269 | the inner loop deletes the longest front part of the queue that leaves the minimum and has been idle for `idle_timeout` seconds, and nothing else |
| LruCache.LruCache.constructor | src/common/LruCache.h:37-40 | an empty cache; capacity 0 becomes 1 |
| LruCache.LruCache.Put | src/common/LruCache.h:48-73 | list and index stay linked and the entries become those of the recency-ordered sequence after a put |
| LruCache.LruCache.Refresh | src/common/LruCache.h:53-59 | an existing node gets the value and moves to the front, all others keep their order |
| LruCache.LruCache.EvictLast | src/common/LruCache.h:62-68 | the last entry leaves list and index |
| LruCache.LruCache.InsertFront | src/common/LruCache.h:70-72 | a new node is linked at the front |
| LruCache.LruCache.Get | src/common/LruCache.h:81-94 | the value of the key, whose entry moves to the front; a miss changes nothing |
| LruCache.LruCache.Exists | src/common/LruCache.h:99-103 | whether the key is cached, nothing changed |
| LruCache.LruCache.Remove | src/common/LruCache.h:109-122 | exactly the entry of that key leaves |
| LruCache.LruCache.Clear | src/common/LruCache.h:127-132 | nothing is cached any more |
| LruCache.LruCache.Size | src/common/LruCache.h:137-141 | the number of entries, never above the capacity |
| LruCache.PairsFound | src/common/LruCache.h:52-57 | the node the index gives for a key is the list node of that key and holds its value |
| Recency.PutMeaning | src/common/LruCache.h:48-73 | after a put the key is found in front with the new value, and at most the last entry of a full cache without the key is lost |
| Recency.TouchMeaning | src/common/LruCache.h:81-94 | a get changes no later answer |
| Recency.WithoutMeaning | src/common/LruCache.h:109-122 | a remove loses that key and no other |
| Recency.CacheBounded | src/common/LruCache.h:48-132 | after any trace of operations keys are distinct and the size is within the capacity |
| Recency.CacheByRecency | src/common/LruCache.h:48-132 | after any trace the entries are ordered by last use |
| Recency.EvictionIsLeastRecent | src/common/LruCache.h:61-68 | a put into a full cache evicts exactly the key used least recently |
| Recency.HitIsLastWritten | src/common/LruCache.h:81-94 | after any trace a hit returns the value last written for the key |
| Recency.SmallerCacheIsPrefix | src/service/FileService.cpp:91-108 | on one trace of puts, removes and read-throughs the keys of a smaller cache are always a prefix of those of a larger one |
| Recency.GetKeepsPrefixExactly | src/common/LruCache.h:81-94 | a bare get keeps the smaller cache's keys a prefix of the larger one's if and only if both hit, both miss, or the smaller cache is empty |
| Recency.TraceGetKeepsPrefixExactly | src/common/LruCache.h:81-94 | the same after any trace of puts, removes and read-throughs |
| Recency.PlainGetsBreakInclusion | src/common/LruCache.h:81-94 | a trace of two puts and a get on which the prefix property fails |
| FileCoherence.GetByIdIsDatabase | src/service/FileService.cpp:84-111 | on a coherent server `getFileById` succeeds exactly when the row exists; it answers with the cached copy, else with the row, agreeing with the row on every column that never changes; the answer becomes the most recent entry; a failure changes nothing |
| FileCoherence.GetByHashIsDatabase | src/service/FileService.cpp:113-141 | the same for `getFileByHash` on the trimmed hash |
| FileCoherence.CreateFileResult | src/service/FileService.cpp:46-82 | `createFile` gives the row already stored for the hash, or appends one row, every column of which is given; it fails exactly on an invalid user, blank filename or negative size |
| FileCoherence.RefusalMessages | src/service/FileService.cpp:11-44 | for any record, which of the five refusals is given and when none is; a refusal changes nothing |
| FileCoherence.CreatedIsCached | src/service/FileService.cpp:77-79 | a created row heads both caches, under its key and under its hash |
| FileCoherence.TrimExactly | src/common/StringUtil.h:15-28 | trimming takes white space off both ends and nothing else, and leaves none there |
| FileCoherence.RemoveFileResult | src/service/FileService.cpp:180-204 | only non-positive keys are refused; otherwise the table and the id cache lose that key alone |
| FileCoherence.RemoveFileExactly | src/service/FileService.cpp:180-204 | on its own `removeFile` keeps the caches right if and only if the id cache holds the file, or the hash cache does not hold its hash, or there is no such row |
| FileCoherence.PathsDiffer | src/main.cpp:45-52 | different hashes of any length are stored under different paths |
| FileCoherence.PathForm | src/main.cpp:45-52 | a path lies under `uploads/`, in the directory of the first two characters when there are two, and ends with the hash |
| FileHandlers.UploadResult | src/main.cpp:375-426 | an upload is answered with the row of its content; the row is new exactly when the digest was unknown, then all its columns and its blob are given; each refusal, when it is given, and that it leaves neither row nor blob |
| FileHandlers.ChunkCompleteResult | src/main.cpp:674-710 | storing merged content writes its blob and gives a row with its digest, all columns given when the digest was unknown, the declared size among them; it fails exactly on an invalid user, blank filename or negative declared size, each with its message |
| FileHandlers.ShareSaveAddsNothing | src/main.cpp:1000-1080 | saving a share adds no row and writes no blob; it answers with the original file |
| FileHandlers.ShareSaveRefused | src/main.cpp:1018-1070 | which refusal a save gets: for an own share, a missing original, or a user that is none |
| FileHandlers.SavedShareStaysOwners | src/main.cpp:1000-1080 | after a save that reports success the saver can download the file exactly when it was the saver's before |
| FileHandlers.DownloadResult | src/main.cpp:809-861 | the owner gets the blob, whose digest is the row's hash; a missing row is not found and a foreign one denied; a row's blob is never missing |
| FileHandlers.DeleteResult | src/main.cpp:864-905 | a delete by the owner removes that row and its blob, anything else is refused without effect, and the blobs of all other rows are untouched |
| FileHandlers.FetchResult | src/service/FileService.cpp:84-111 | looking a file up by key finds it exactly when it has a row |
| FileHandlers.CheckResult | src/main.cpp:1141-1175 | the upload check refuses a missing hash, and otherwise finds a file exactly when the trimmed hash has a row |
| FileHandlers.MetaIsExact | src/dao/FileDao.cpp:131-147 | writing summary and tags changes those two columns of that row and nothing else anywhere |
| FileHandlers.StatusIsExact | src/dao/FileDao.cpp:108-118 | writing the status changes that column of that row and nothing else anywhere |
| FileHandlers.HandleKeeps | src/main.cpp:348-905 | every handler keeps the server coherent, deletes at most the row its owner asked to delete, and changes no other row's fixed columns |
| FileHandlers.ServeKeeps | src/server/FastCgiServer.cpp:336-378 | coherence over every sequence of requests |
| FileHandlers.EveryRunIsCoherent | src/service/FileService.cpp:46-204 | from the empty server, after any requests: keys and hashes are unique, every row's blob exists at the path of its hash with content of that digest, both caches hold only rows of the table and agree with it, and stay within capacity |
| FileHandlers.RowsLast | src/service/FileService.cpp:180-204 | a row lives, with its fixed columns, until its owner deletes it |
| FileHandlers.KeysNeverReturn | src/dao/FileDao.cpp:30-46 | a key whose row was deleted is never given out again |
| FileHandlers.DownloadLater | src/main.cpp:809-861 | whatever requests follow, short of its deletion, a file's owner downloads bytes with its digest |
| FileHandlers.DownloadGivesUpload | src/main.cpp:348-426 | any run, an accepted upload, any run without its deletion: the owner downloads the uploaded bytes (up to digest collisions), everybody else is refused |
| FileStaleness.CurrentExactly | src/service/FileService.cpp:84-141 | on a coherent server each lookup of a row answers with the row as it is if and only if it holds no copy or an equal one |
| FileStaleness.UpdateGoesStale | src/dao/FileDao.cpp:108-147 | an update of summary and tags or of the status writes the row and neither cache; afterwards each lookup is current if and only if it holds no copy or a copy equal to what was written |
| FileStaleness.HandleCopies | src/service/FileService.cpp:46-204 | every handler leaves a cached copy as it is, and a copy it brings in is the row |
| FileStaleness.HandleRow | src/dao/FileDao.cpp:108-147 | of a row that is not deleted, requests change nothing but what updates write |
| FileStaleness.IdCopyIsEntryRow | src/service/FileService.cpp:84-111 | on every run a copy cached by id is the row as it was when the copy last entered |
| FileStaleness.HashCopyIsEntryRow | src/service/FileService.cpp:113-141 | the same for the hash cache |
| FileStaleness.AnswerByIdIsCurrent | src/service/FileService.cpp:84-111 | on every run from the empty server the answer by id is current if and only if nothing is cached or the updates since the copy entered cancel out |
| FileStaleness.AnswerByHashIsCurrent | src/service/FileService.cpp:113-141 | the same for the answer by hash |
| FileStaleness.RemoveAloneGoesStale | src/service/FileService.cpp:180-204 | two uploads and a check on caches of one entry lead to a state in which `removeFile` alone leaves the deleted file answered by its hash |
| FileStaleness.UploadedSummaryIsMissed | src/main.cpp:419-495 | after any run, an upload of new content that then writes a summary or tags leaves both lookups answering without them |
| FileStaleness.FirstSummaryIsMissed | src/main.cpp:419-495 | the shortest such run from the empty server |
| FileService.FileService.constructor | src/common/LruCache.h:37-40 | two empty caches of the same capacity, at least one, in front of an empty table and disk; keys start at 1 |
| FileService.FileService.CreateFile | src/service/FileService.cpp:46-82 | the method on the mutable caches and table does to their contents what the specification says, and nothing else |
| FileService.FileService.GetFileById | src/service/FileService.cpp:84-111 | read-through by id, likewise |
| FileService.FileService.GetFileByHash | src/service/FileService.cpp:113-141 | read-through by hash, likewise |
| FileService.FileService.RemoveFile | src/service/FileService.cpp:180-204 | lookup, the two invalidations and the row deletion, likewise |
| FileService.FileService.StoreFile | src/main.cpp:146-166 | local storage writes the bytes under the path of the digest and nothing else |
| FileService.FileService.DeleteStoredFile | src/main.cpp:208-222 | local storage drops exactly that path, if it is there |
| FileService.FileService.HandleUpload | src/main.cpp:375-426 | the upload handler's calls compose to the specified change and answer |
| FileService.FileService.HandleChunkComplete | src/main.cpp:674-710 | the storing half of the complete handler, likewise |
| FileService.FileService.HandleShareSave | src/main.cpp:1000-1080 | the share-save handler, likewise |
| FileService.FileService.HandleDownload | src/main.cpp:809-861 | the download handler, likewise |
| FileService.FileService.HandleDelete | src/main.cpp:864-905 | the delete handler, likewise |
| ChunkUpload.ExpiredUploadIsRefused | src/service/ChunkUploadService.cpp:94-127 | on every run with fresh tokens, after a sweep more than 30 minutes past the init of an upload, every chunk and every completion of it is refused and changes nothing |
| ChunkUpload.ParseIndexMeaning | src/main.cpp:568-568 | `std::stoi` on every text: white space, a sign, digits and any rest; it throws without a digit or outside 32 bits |
| ChunkUpload.SweepExactly | src/service/ChunkUploadService.cpp:94-127 | a sweep erases a session if and only if it is older than 30 minutes, given in nanoseconds; survivors and files are untouched |
| ChunkUpload.CompleteStepExactly | src/main.cpp:607-703 | the refusals of completing in their order, with the counts or the first missing chunk they report, changing nothing; and that a success removes exactly that session and its files |
| ChunkUpload.ChunkExactly | src/main.cpp:552-604 | a chunk is received if and only if the session is live and the sender's, the index parses into the chunk range and the data is not empty; then exactly that file and that mark are added; otherwise the first reason that applies is given and nothing changes |
| ChunkUpload.InitExactly | src/main.cpp:519-549 | when opening a session is refused, and otherwise the one session it adds, field by field |
| ChunkUpload.IndexReadBack | src/main.cpp:568-568 | `std::stoi` reads a number back from its `std::to_string`, and throws when it does not fit an `int` |
| ChunkUpload.CountIsComplete | src/main.cpp:622-633 | comparing the number of marks with `total_chunks` is the same as asking for every chunk, given that only existing numbers are marked |
| ChunkUpload.RunInRange | src/main.cpp:568-573 | on every run only numbers of existing chunks are marked |
| ChunkUpload.RunMatches | src/main.cpp:583-598 | on every run a live session has exactly the chunk files that have arrived, and exactly the numbers their names parse to are marked |
| ChunkUpload.CompleteExactly | src/main.cpp:616-657 | on every run completing succeeds if and only if the live session is the user's and every chunk has arrived under the usual spelling of its number |
| ChunkUpload.FileSource | src/main.cpp:583-596 | a chunk file holds what an accepted request for it carried |
| ChunkUpload.MergeContent | src/main.cpp:638-657 | merging slices 0 to n-1 of a file gives the file's first n slices |
| ChunkUpload.MergedIsOriginal | src/main.cpp:607-657 | for any order, repetition and interleaving, a completed upload whose accepted requests carried slices of a file is that file, whatever refused requests carried |
| ChunkUpload.SessionLasts | src/service/ChunkUploadService.cpp:94-127 | a session lives, unchanged but for its marks, until it is completed or a sweep finds it older than 30 minutes |
| ChunkUpload.SentArrives | src/main.cpp:552-604 | a slice sent for a live session is accepted |
| ChunkUpload.UploadSucceeds | src/main.cpp:519-703 | open a session, send every slice within 30 minutes in any order among any other traffic, premature attempts to complete included: completing yields the file |
| ChunkUpload.OtherSpellingIsLost | src/main.cpp:568-598 | a run in which all chunks count as received and completing still fails, the chunk having been sent as `00` |
| ChunkManager.ChunkUploadManager.CreateSession | src/service/ChunkUploadService.cpp:33-63 | a new session object with nothing received is registered under the token |
| ChunkManager.ChunkUploadManager.GetSession | src/service/ChunkUploadService.cpp:65-74 | the registered session object, or null |
| ChunkManager.ChunkUploadManager.MarkChunkReceived | src/service/ChunkUploadService.cpp:76-86 | the number joins the received set of that session and of no other; false when there is none |
| ChunkManager.ChunkUploadManager.RemoveSession | src/service/ChunkUploadService.cpp:88-92 | exactly that session is forgotten |
| ChunkManager.ChunkUploadManager.CollectExpired | src/service/ChunkUploadService.cpp:105-112 | the first loop of a cleanup round finds exactly the sessions older than 30 minutes |
| ChunkManager.ChunkUploadManager.EraseSessions | src/service/ChunkUploadService.cpp:114-119 | the second loop erases exactly those it is given |
| ChunkManager.ChunkUploadManager.Cleanup | src/service/ChunkUploadService.cpp:94-127 | after one round a session object is registered if and only if it was and is not older than 30 minutes; survivors and files are untouched |
| ChunkManager.ChunkUploadManager.MergeChunks | src/main.cpp:638-657 | the merge loop concatenates the chunk files in order, or stops at the first missing one |
| ChunkManager.ChunkUploadManager.HandleChunkInit | src/main.cpp:519-549 | the init handler refuses bad parameters or opens the session the protocol speaks of |
| ChunkManager.ChunkUploadManager.HandleChunkUpload | src/main.cpp:552-604 | the upload handler, all its refusals included, is the protocol step; data is received only for a registered session of that user |
| ChunkManager.ChunkUploadManager.HandleChunkComplete | src/main.cpp:607-657 | the checks and the merge of the complete handler are the protocol step; only the owner of a registered session completes it |
| ChunkedFile.ChunkedFileDownloads | src/main.cpp:519-703 | end to end over both servers: a file sent in slices and completed is stored, and its owner downloads the file that was sent |
| Decimal.ReadsBack | src/common/RedisCache.cpp:222-230 | `strtoll` reads back what `std::to_string` wrote, for every 64-bit number |
| Decimal.ToDecimalIsShortest | src/common/RedisCache.cpp:205-211 | `std::to_string` writes the only spelling of a number without a leading zero |
| Decimal.StrToLLMeaning | src/common/RedisCache.cpp:222-230 | `strtoll` on every text: white space, a sign, digits and any rest; 0 without a digit, clamped to 64 bits |
| RedisCache.FieldSkipped | src/common/RedisCache.cpp:222-242 | searching for a key skips every field with another key and no quote in its text |
| RedisCache.FieldFound | src/common/RedisCache.cpp:222-242 | a key is first found at its own field |
| RedisCache.IntReadBack | src/common/RedisCache.cpp:222-230 | every 64-bit number of a document is read back |
| RedisCache.TextReadBack | src/common/RedisCache.cpp:232-242 | a text is read back up to its first quote, so if and only if it holds none |
| RedisCache.UnreadableFields | src/common/RedisCache.cpp:222-242 | a missing key reads as 0 or as the empty text, and so does a text that is never closed |
| RedisCache.ToInt32Wraps | src/common/RedisCache.cpp:250-250 | the status keeps the low 32 bits of what was read |
| RedisCache.DocumentReadExactly | src/common/RedisCache.cpp:217-254 | all texts of a document come back if and only if none holds a quote, and then every number does too |
| RedisCache.RecordRoundTrip | src/common/RedisCache.cpp:200-254 | a file record comes back without summary and tags if and only if filename, hash, path and creation time hold no quote |
| RedisCache.SessionRoundTrip | src/common/RedisCache.cpp:349-395 | a session record comes back if and only if its three strings hold no quote |
| RateLimiter.GrantsAreSpaced | src/common/RateLimiter.h:35-59 | under a monotone clock any grant is more than a window after the grant `max_requests` places earlier |
| RateLimiter.LimiterIsOptimal | src/common/RateLimiter.h:35-59 | grant by grant the limiter is never behind any way of accepting the arrivals that keeps that spacing |
| RateLimiter.LimiterAcceptsMost | src/common/RateLimiter.h:35-59 | on every prefix of the arrivals no such way has accepted more |
| RateLimiter.NoLimitNoGrants | src/common/RateLimiter.h:50-54 | a limit of zero or less grants nothing |
| RateLimiter.AddressesAreIndependent | src/common/RateLimiter.h:41-41 | what an address is granted depends only on its own requests since its last reset |
| RateLimiter.EveryAddressIsLimited | src/common/RateLimiter.h:35-66 | spacing and optimality for every address, whatever the others do and whenever resets happen |
| RateLimiter.RateLimiter.Allow | src/common/RateLimiter.h:35-59 | of that address the front times older than `window_sec` seconds are dropped, the request is granted if and only if fewer than `max_requests` remain, and a grant is recorded; no other address changes |
| RateLimiter.RateLimiter.ResetAddress | src/common/RateLimiter.h:62-66 | forgets that address and no other |
| VectorStore.Accumulate | src/vector/VectorStore.cpp:100-106 | the loop computes the inner product and the two squared norms |
| VectorStore.DotSplits | src/vector/VectorStore.cpp:100-106 | the inner product adds up over any split of the vectors, down to single products |
| VectorStore.CauchySchwarz | src/vector/VectorStore.cpp:100-106 | for vectors of any length dot² <= norm_a · norm_b |
| VectorStore.CosineBounded | src/vector/VectorStore.cpp:95-113 | the similarity lies between -1 and 1 and is symmetric |
| VectorStore.CosineMeaning | src/vector/VectorStore.cpp:95-113 | times the product of the lengths the similarity is the inner product; it is 0 for vectors of different lengths, empty ones and ones too short to divide by |
| VectorStore.CosineSimilarity | src/vector/VectorStore.cpp:95-113 | the function computes that similarity |
| VectorStore.EmbeddedIsExact | src/vector/VectorStore.cpp:52-58 | the loop keeps exactly the chunks with an embedding, each as often as it is indexed |
| VectorStore.EmbeddedInOrder | src/vector/VectorStore.cpp:52-58 | and in index order |
| VectorStore.ScoredIsExact | src/vector/VectorStore.cpp:52-58 | each of these gets its own result, in index order |
| VectorStore.ScoredFromIndex | src/vector/VectorStore.cpp:52-58 | every result carries the file, name, text and number of a chunk with an embedding, and the score of that embedding |
| VectorStore.ChunkIsScored | src/vector/VectorStore.cpp:52-58 | every chunk with an embedding has its result among them |
| VectorStore.PrefixIsTopK | src/vector/VectorStore.cpp:60-78 | the first k of any descending arrangement are k best: nothing left out beats anything returned |
| VectorStore.TopKOfIndex | src/vector/VectorStore.cpp:34-81 | what a search answers, said of the index: as many results as `top_k` and the embedded chunks allow, best first, each one a chunk's own, and no chunk left out scores higher |
| VectorStore.Aggregate | src/main.cpp:1315-1324 | the aggregation loop computes the best result per file |
| VectorStore.BestIsBest | src/main.cpp:1315-1324 | each file among the results is kept once, under its own id, with its maximal score |
| VectorStore.BestIsFirst | src/main.cpp:1315-1324 | among equal scores the first result of a file is kept |
| VectorStore.AggregationIsGlobal | src/main.cpp:1312-1324 | though only the top k chunks were looked at, each file kept has the best score of all its chunks in the index, and no chunk of an unlisted file beats a listed one |
| VectorStore.SearchIsGlobal | src/main.cpp:1312-1324 | the same of the index: each file kept is described by one of its own chunks, with the best score of all its chunks, and no chunk of a file not kept scores higher |
| VectorStore.RemovalIsExact | src/vector/VectorStore.cpp:24-32 | removing a file leaves every other document exactly as often as before |
| VectorStore.RemovalKeepsOrder | src/vector/VectorStore.cpp:24-32 | and in their order |
| VectorStore.VectorStore.AddDocument | src/vector/VectorStore.cpp:12-16 | appends the document |
| VectorStore.VectorStore.RemoveByFileId | src/vector/VectorStore.cpp:24-32 | the index keeps exactly the other files' documents, in order |
| VectorStore.VectorStore.Search | src/vector/VectorStore.cpp:34-81 | k best of all chunks with an embedding, best first, each result with the file, name, text, number and score of one chunk; nothing for an empty query |

## Left out

- TextChunker.ChunkBySize: required to be called only where the text fits the window or the loop stops, since it promises to return. Chunk indices are unbounded; the wrap of `int idx` after 2^31 chunks is not modelled.
- ParagraphChunker.ChunkByParagraph: texts of the greatest possible string length are excluded, because a paragraph is one character longer than its last line.
- ConnectionPool.AlwaysCoordinated: starting threads over joinable ones ends the process in C++; in the model that step is never enabled. `wait_for` timeouts are free steps, so nothing is said about how long a caller waits. The unlocked `running_ = false` is one atomic step.
- LruCache.LruCache.Put: the cache's mutex is not modelled; its callers are single-threaded handlers.
- FileHandlers.HandleKeeps: handlers run one after the other, as the accept loop calls them. Database calls and file operations succeed; authentication, JSON and the error answers that depend on them are parameters or left out. Comparing hashes is exact, as for lower-case hex digests; a collation that ignores case is not part of this model.
- FileHandlers.DownloadGivesUpload: SHA-256 is any function from contents to 64-digit hex strings; equality of contents is claimed only where the digest tells them apart. FastDFS storage and its redirect are not part of this model.
- FileHandlers.UploadResult: text extraction, embedding and summaries after an upload are left out; their one effect on the table is the request `SetMeta`, allowed at any time. Deleting a file does not remove its documents from the vector index, and the model does not connect the two.
- FileHandlers.ChunkCompleteResult: a refused completion leaves its blob behind without a row, as in the code; such blobs are not counted or collected.
- ChunkUpload.UploadSucceeds: upload ids are assumed never to repeat (they are random 128-bit tokens). A sweep is atomic between requests; one that falls inside a request only erases the session and has the same result as right after it. The declared file size is stored and never compared with the merged length, in the code as in the model. Temporary files of expired sessions stay, as in the code.
- RedisCache.RecordRoundTrip: the Redis connection, expiry and key scanning are left out, and so are NUL bytes, at which `%s` formatting would stop.
- RateLimiter.GrantsAreSpaced: calls are sequential; the code reads the clock before taking the lock, so concurrent calls may record times out of order.
- VectorStore.CosineBounded: scores are real numbers and the square roots are given as such; rounding, NaN and the numerical value of `sqrt` are left out.
- VectorStore.VectorStore.Search: the score is any function of the two embeddings, `cosineSimilarity` being one; an insertion sort stands for `std::sort`, whose order among equal scores is unspecified, so the contract fixes only what every descending arrangement has.
- Session cache: a cached session is returned without a new look at its expiry, so no expiry is promised and none is modelled.
- HTTP routing, MySQL, hiredis, FastDFS, the language model client, the agent engine, configuration, logging, hashing and password storage: library calls or easy additions.
