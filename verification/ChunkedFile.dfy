/** The chunked upload protocol in front of the file store. */
module ChunkedFile {
  import opened FileStore
  import opened FileCoherence
  import opened FileHandlers
  import C = ChunkUpload

  /** A file sent in slices, completed, stored, and left alone by its owner is downloaded as
      the file that was sent, whatever both servers did before, between and after. */
  lemma ChunkedFileDownloads(before: seq<C.Event>, init: C.Event, sent: seq<C.Event>, original: string, size: nat,
                             capacity: nat, earlier: seq<Request>, stamp: string, later: seq<Request>, sha: Sha)
    requires C.Valid(init) && init.totalChunks <= C.INT_MAX
    requires C.FreshTokens(before + [init] + sent) && C.Undisturbed(before, init, sent)
    requires C.SlicesOf(before + [init] + sent, init.token, original, size) && C.AllSent(sent, init, original, size)
    requires size > 0 && (init.totalChunks - 1) * size < |original| <= init.totalChunks * size
    requires init.user > 0 && Trim(init.filename) != ""
    ensures var merged := C.Step(C.Run(before + [init] + sent), C.Complete(init.user, init.token)).1;
            var s := Serve(Empty(capacity), earlier, sha);
            merged.Merged? &&
            var request := ChunkComplete(init.user, merged.filename, merged.fileSize, merged.content, stamp);
            var (t, stored) := Handle(s, request, sha);
            stored.File? && LookupRow(t.table, stored.id).Some? &&
            var owner := LookupRow(t.table, stored.id).value.userId;
            && (LookupHash(s.table, sha(original)).None? ==> owner == init.user)
            && (Spared(t, later, stored.id, sha) && (forall x :: sha(x) == sha(original) ==> x == original) ==>
                  Handle(Serve(t, later, sha), Download(owner, stored.id), sha).1 == Bytes(original))
  {
    C.UploadSucceeds(before, init, sent, original, size);
    hide C.Run, C.Step, C.SlicesOf, C.AllSent, C.FreshTokens, C.Undisturbed;
    hide Coherent, Serve, LookupRow, LookupHash, HandleChunkComplete, HandleDownload, Spared, BuildStoragePath, Trim;
    EmptyCoherent(capacity, sha);
    var s := Serve(Empty(capacity), earlier, sha);
    ServeKeeps(Empty(capacity), earlier, sha);
    ChunkCompleteResult(s, init.user, init.filename, init.fileSize, original, stamp, sha);
    var (t, stored) := Handle(s, ChunkComplete(init.user, init.filename, init.fileSize, original, stamp), sha);
    if Spared(t, later, stored.id, sha) {
      DownloadLater(t, stored.id, original, later, LookupRow(t.table, stored.id).value.userId, sha);
    }
  }
}
