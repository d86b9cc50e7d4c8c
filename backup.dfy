/** The backup run: list the local and the remote folder, resolve the pending files, and
    upload them one after another in pending order. */
module Backup {
  import opened Protocol
  import opened Pending
  import opened UploadSession

  /** The store's replies for one file's upload: the session id of the start reply and the
      status of the finish reply. */
  datatype Answers = Answers(sessionId: string, finishStatus: int)

  datatype RunResult =
    | Stopped(reason: AbortReason)
    | Done(uploaded: seq<string>, outcomes: seq<UploadOutcome>)

  /** The logs of uploading `files` in order, each upload awaited before the next begins. */
  function UploadsLog(remoteDir: string, files: seq<string>,
                      contents: string -> seq<seq<Byte>>, answers: string -> Answers): seq<Event>
  {
    if files == [] then []
    else
      var name := files[|files| - 1];
      UploadsLog(remoteDir, files[..|files| - 1], contents, answers)
        + UploadLog(remoteDir, name, answers(name).sessionId, contents(name))
  }

  /** The log of a whole run. The local folder is read first (no request); the remote folder
      is then listed with one request; the uploads follow only if both listings succeeded. */
  function BackupLog(remoteDir: string, local: Listing, remote: Listing,
                     contents: string -> seq<seq<Byte>>, answers: string -> Answers): seq<Event>
  {
    if local.ListingFailed? then []
    else
      [Sent(ListFolder(remoteDir, ListFolderLimit)), Answered]
        + (if remote.ListingFailed? then []
           else UploadsLog(remoteDir, PendingFiles(local.names, remote.names), contents, answers))
  }

  /** The commit paths of a list of files, in order. */
  function Destinations(remoteDir: string, files: seq<string>): seq<string>
  {
    if files == [] then []
    else Destinations(remoteDir, files[..|files| - 1]) + [remoteDir + "/" + files[|files| - 1]]
  }

  /** Consecutive uploads never overlap: each request of the run waits for the reply to the
      previous one. */
  lemma {:induction false} UploadsLogAlternates(remoteDir: string, files: seq<string>,
                                                contents: string -> seq<seq<Byte>>, answers: string -> Answers)
    ensures Alternates(UploadsLog(remoteDir, files, contents, answers))
    ensures |UploadsLog(remoteDir, files, contents, answers)| % 2 == 0
  {
    if files != [] {
      var name := files[|files| - 1];
      UploadsLogAlternates(remoteDir, files[..|files| - 1], contents, answers);
      UploadLogAlternates(remoteDir, name, answers(name).sessionId, contents(name));
      AlternatesConcat(UploadsLog(remoteDir, files[..|files| - 1], contents, answers),
                       UploadLog(remoteDir, name, answers(name).sessionId, contents(name)));
    }
  }

  /** Every pending file is committed exactly once, in pending order, whatever status the
      earlier finish replies had. */
  lemma {:induction false} UploadsLogCommitPaths(remoteDir: string, files: seq<string>,
                                                 contents: string -> seq<seq<Byte>>, answers: string -> Answers)
    ensures CommitPaths(Requests(UploadsLog(remoteDir, files, contents, answers))) == Destinations(remoteDir, files)
  {
    if files != [] {
      var name := files[|files| - 1];
      var earlier := UploadsLog(remoteDir, files[..|files| - 1], contents, answers);
      var last := UploadLog(remoteDir, name, answers(name).sessionId, contents(name));
      UploadsLogCommitPaths(remoteDir, files[..|files| - 1], contents, answers);
      UploadLogCommitPaths(remoteDir, name, answers(name).sessionId, contents(name));
      RequestsConcat(earlier, last);
      CommitPathsConcat(Requests(earlier), Requests(last));
    }
  }

  /** The whole run, listing included, has at most one request in flight at any time. */
  lemma BackupLogAlternates(remoteDir: string, local: Listing, remote: Listing,
                            contents: string -> seq<seq<Byte>>, answers: string -> Answers)
    ensures Alternates(BackupLog(remoteDir, local, remote, contents, answers))
    ensures forall n :: 0 <= n <= |BackupLog(remoteDir, local, remote, contents, answers)| ==>
      0 <= Outstanding(BackupLog(remoteDir, local, remote, contents, answers)[..n]) <= 1
  {
    var log := BackupLog(remoteDir, local, remote, contents, answers);
    if local.Listed? {
      var listing: seq<Event> := [Sent(ListFolder(remoteDir, ListFolderLimit)), Answered];
      if remote.Listed? {
        UploadsLogAlternates(remoteDir, PendingFiles(local.names, remote.names), contents, answers);
        AlternatesConcat(listing, UploadsLog(remoteDir, PendingFiles(local.names, remote.names), contents, answers));
      } else {
        assert log == listing;
      }
    }
    forall n | 0 <= n <= |log| ensures 0 <= Outstanding(log[..n]) <= 1 {
      AlternatesBoundsOutstanding(log, n);
    }
  }

  /** When both listings succeed, the run commits each pending file once, in pending order,
      to remoteDir/name. */
  lemma BackupCommitsPendingInOrder(remoteDir: string, localNames: seq<string>, remoteNames: seq<string>,
                                    contents: string -> seq<seq<Byte>>, answers: string -> Answers)
    ensures CommitPaths(Requests(BackupLog(remoteDir, Listed(localNames), Listed(remoteNames), contents, answers)))
         == Destinations(remoteDir, PendingFiles(localNames, remoteNames))
  {
    var listing: seq<Event> := [Sent(ListFolder(remoteDir, ListFolderLimit)), Answered];
    var uploads := UploadsLog(remoteDir, PendingFiles(localNames, remoteNames), contents, answers);
    UploadsLogCommitPaths(remoteDir, PendingFiles(localNames, remoteNames), contents, answers);
    RequestsConcat(listing, uploads);
    RequestsOfExchange(ListFolder(remoteDir, ListFolderLimit));
    CommitPathsConcat([ListFolder(remoteDir, ListFolderLimit)], Requests(uploads));
    assert [ListFolder(remoteDir, ListFolderLimit)][..0] == [];
  }

  /** A failed listing stops the run before any upload: a failed local listing sends nothing,
      a failed remote listing sends only the listing request. */
  lemma FailedListingUploadsNothing(remoteDir: string, local: Listing, remote: Listing,
                                    contents: string -> seq<seq<Byte>>, answers: string -> Answers)
    requires local.ListingFailed? || remote.ListingFailed?
    ensures Requests(BackupLog(remoteDir, local, remote, contents, answers))
         == if local.ListingFailed? then [] else [ListFolder(remoteDir, ListFolderLimit)]
  {
    if local.Listed? {
      RequestsOfExchange(ListFolder(remoteDir, ListFolderLimit));
      assert BackupLog(remoteDir, local, remote, contents, answers)
          == [Sent(ListFolder(remoteDir, ListFolderLimit)), Answered];
    }
  }

  /** The loop over the pending files: each upload is awaited before the next begins, and
      every file gets an outcome whatever the earlier finish statuses were. */
  method UploadAll(remoteDir: string, pending: seq<string>,
                   contents: string -> seq<seq<Byte>>, answers: string -> Answers)
    returns (log: seq<Event>, outcomes: seq<UploadOutcome>)
    requires forall name :: name in pending ==> BytesRead(contents(name)) <= MaxSafeInteger
    ensures log == UploadsLog(remoteDir, pending, contents, answers)
    ensures |outcomes| == |pending|
    ensures forall k :: 0 <= k < |pending| ==>
              (outcomes[k].Committed? <==> answers(pending[k]).finishStatus == 200)
  {
    log := [];
    outcomes := [];
    var idx := 0;
    while idx < |pending|
      invariant idx <= |pending|
      invariant log == UploadsLog(remoteDir, pending[..idx], contents, answers)
      invariant |outcomes| == idx
      invariant forall k :: 0 <= k < idx ==>
                  (outcomes[k].Committed? <==> answers(pending[k]).finishStatus == 200)
    {
      var name := pending[idx];
      var fileLog, outcome := Upload(remoteDir, name, answers(name).sessionId, contents(name), answers(name).finishStatus);
      log := log + fileLog;
      outcomes := outcomes + [outcome];
      assert pending[..idx + 1][..idx] == pending[..idx];
      idx := idx + 1;
    }
    assert pending[..idx] == pending;
  }

  /** Runs one backup. `contents` gives the chunks the read stream emits for each local file
      and `answers` the store's replies for each file's upload. Each upload is awaited before
      the next starts; a rejected commit is only reported and does not stop later files. */
  method BackupPendingFiles(remoteDir: string, local: Listing, remote: Listing,
                            contents: string -> seq<seq<Byte>>, answers: string -> Answers)
    returns (log: seq<Event>, result: RunResult)
    requires local.Listed? && remote.Listed? ==>
      forall name :: name in PendingFiles(local.names, remote.names) ==> BytesRead(contents(name)) <= MaxSafeInteger
    ensures log == BackupLog(remoteDir, local, remote, contents, answers)
    ensures local.ListingFailed? ==> result == Stopped(LocalDirUnreadable)
    ensures local.Listed? && remote.ListingFailed? ==> result == Stopped(RemoteListFailed)
    ensures local.Listed? && remote.Listed? ==>
      && result.Done?
      && result.uploaded == PendingFiles(local.names, remote.names)
      && |result.outcomes| == |result.uploaded|
      && forall k :: 0 <= k < |result.outcomes| ==>
           (result.outcomes[k].Committed? <==> answers(result.uploaded[k]).finishStatus == 200)
  {
    if local.ListingFailed? {
      return [], Stopped(LocalDirUnreadable);
    }
    log := [Sent(ListFolder(remoteDir, ListFolderLimit)), Answered];
    var resolution := ResolvePending(local, remote);
    if resolution.Aborted? {
      return log, Stopped(resolution.reason);
    }
    var pending := resolution.pending;
    var uploadsLog, outcomes := UploadAll(remoteDir, pending, contents, answers);
    log := log + uploadsLog;
    result := Done(pending, outcomes);
  }
}
