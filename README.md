# Database backup uploader — a Dafny model

The tool backs up a local folder of database dumps to a Dropbox folder. It lists the local
folder and the remote folder. The pending files are the local names that the remote listing
lacks. It then uploads the pending files one after another. Each file goes up through an
upload session: one `upload_session/start`, one `upload_session/append_v2` per chunk that the
file's read stream emits, and one `upload_session/finish`. The finish carries the total byte
offset and the commit record.

The model has five modules:

- `Pending` (`pending.dfy`): the pending-set filter `PendingFiles` over name lists, and
  `ResolvePending`, which combines the two listings. A failed listing aborts the run.
- `Protocol` (`protocol.dfy`): the requests the tool sends, and the run's event log. The log
  records each request sent (`Sent`) and each reply received (`Answered`). `Alternates` says
  that requests and replies strictly alternate, so at most one request is in flight.
- `UploadSession` (`upload.dfy`): the `Upload` method. Its loop keeps the offset counter, one
  append per chunk, and is proved against the specification function `UploadLog`. Lemmas about
  `UploadLog` give the k-th append's offset, the single Start and Finish, the commit record,
  backpressure, and end-to-end acceptance. `DriveAppendPhase` runs the append phase as the
  stream's `data` handler and the reply handler do, for any order of events the environment
  offers, and proves that pausing and resuming keep at most one append in flight, and that
  under the lockstep schedule every chunk is sent.
- `Server` (`server.dfy`): a reference model of the store's side of an upload session. It
  accepts an append or a finish only when the declared offset equals the bytes received so
  far. `UploadSession.UploadCommitsFile` proves that this store commits exactly the file's
  bytes under `remoteDir/filename`.
- `Backup` (`backup.dfy`): the `BackupPendingFiles` method, proved against `BackupLog`. It lists
  the folders, resolves the pending files and hands them to `UploadAll`, whose loop uploads them
  in order and is proved against `UploadsLog`. Lemmas cover ordering, commit paths, single
  in-flight requests and aborts.

The network, the file system and the store's replies are inputs:
- the two listings (`Listing`: the names, or a failure);
- for each file, the chunks its read stream emits (`contents`);
- for each file, the session id from the start reply and the status of the finish reply
  (`answers`).

The output is the event log of the run and a result: stopped with a reason, or done with one
outcome per pending file. Offsets are unbounded `nat`s, as the source's `BigInt` counter is.

The model follows the code:
- Files are uploaded strictly one at a time, in pending order, each upload awaited before the
  next begins (index.js:22-35). Nothing runs concurrently.
- The offset is advanced right after the append is written, before its reply arrives
  (index.js:157). The stream emits the next chunk only after the reply, because it is paused
  before each append (index.js:132) and resumed in the reply callback (index.js:150). So no
  append is sent while another is waiting for its reply.
- A non-200 finish reply only produces log lines: the source prints the reply body, not the
  status. The upload still completes and the run goes on (index.js:185-197). The model records
  the status in the upload's outcome.
- An empty file gets no append, only start and finish at offset 0.

## Model

| member | source | states |
|---|---|---|
| `Pending.PendingFiles` | index.js:44 | the filter itself; its contract says the pending list is no longer than the local list and holds only local names the remote list lacks; `PendingMembership`, `PendingMultiplicity` and `PendingKeepsOrder` characterise it fully |
| `Pending.PendingMembership` | index.js:44 | a name is pending if and only if it occurs in the local list and not in the remote list |
| `Pending.PendingMultiplicity` | index.js:44 | each name occurs in the pending list as often as in the local list when the remote list lacks it, and never otherwise |
| `Pending.PendingKeepsOrder` | index.js:44 | the pending list is a subsequence of the local list, so it keeps local order and is no longer |
| `Pending.PendingIsSetDifference` | index.js:40-45 | as a set, the pending list is local minus remote |
| `Pending.PendingIdempotent` | index.js:44 | filtering the pending list against the same remote list changes nothing |
| `Pending.PendingConcat` | index.js:44 | the filter decides name by name: filtering a concatenation concatenates the filtered parts |
| `Pending.PendingOfEmptyRemote` | index.js:44 | with an empty remote folder every local file is pending, in order |
| `Pending.ResolvePending` | index.js:40-102 | a failed local listing aborts with LocalDirUnreadable whatever the remote side; otherwise a failed remote listing aborts with RemoteListFailed; only with both listings is there a pending set, which is the filtered local list: exactly the local names the remote lacks, in local order |
| `Protocol.AlternatesBoundsOutstanding` | index.js:131-151 | in a log where requests and replies alternate, at every point the number of unanswered requests is 0 or 1 |
| `UploadSession.BytesReadIsFlattenLength` | index.js:128-157 | the offset counter, which adds up chunk lengths, equals the number of bytes the stream has emitted |
| `UploadSession.AppendPhaseLength` | index.js:131-158 | one append exchange (request and reply) per chunk |
| `UploadSession.AppendPhaseAt` | index.js:131-158 | the k-th append exchange sends chunk k with the session id at offset equal to the bytes of chunks 0..k-1, and is followed by its reply |
| `UploadSession.AppendPhaseAlternates` | index.js:131-151 | within the append phase every append waits for the previous append's reply |
| `UploadSession.UploadLogAt` | index.js:105-209 | an upload's log is Start and its reply, then the append phase, then Finish and its reply |
| `UploadSession.UploadLogAppend` | index.js:128-157 | the k-th append of an upload carries the start's session id, chunk k, and the offset of the bytes before it, so the first is at 0 |
| `UploadSession.UploadLogStartAndFinish` | index.js:160-181 | exactly one Start, first, and exactly one Finish, the last request, carrying the total byte count and the commit record (path remoteDir/filename, mode "add", autorename true, mute false, strict_conflict false) |
| `UploadSession.EmptyFileUpload` | index.js:128-181 | an empty file is started and finished at offset 0 with no append |
| `UploadSession.UploadLogAlternates` | index.js:131-151 | in one upload each request is sent only after the previous request's reply |
| `UploadSession.AppendPhaseAccepted` | index.js:139-157 | against a store that checks offsets, every append is accepted and the session holds exactly the bytes emitted |
| `UploadSession.UploadCommitsFile` | index.js:105-209 | against a store that checks offsets, the upload's requests commit exactly the file's bytes under remoteDir/filename |
| `UploadSession.UploadLogCommitPaths` | index.js:160-181 | one upload commits exactly one file, to remoteDir/filename |
| `UploadSession.Upload` | index.js:105-209 | the method emits exactly UploadLog: Start, the appends at the running offset, then Finish at the total; the outcome is Committed exactly when the finish status is 200; otherwise it is a rejection, and the model records the reply's status in it |
| `UploadSession.DriveAppendPhase` | index.js:131-158 | for every order in which data events and replies arrive, with data handled only while the stream is not paused and a reply only for a request in flight, the log alternates, at most one append is in flight, and the log is a prefix of the append phase: the appends sent so far, at their running offsets; and when each chunk's reply arrives before the next data event (the lockstep schedule), every data event sends its chunk and every reply resumes the stream, so all chunks are sent and answered and the log is the whole append phase |
| `Backup.UploadsLogAlternates` | index.js:22-35 | consecutive uploads never overlap: across all files, each request waits for the previous reply |
| `Backup.UploadsLogCommitPaths` | index.js:22-35 | uploading a file list commits remoteDir/name for each file exactly once, in list order, whatever the finish statuses |
| `Backup.UploadAll` | index.js:22-35 | the loop over the pending files emits exactly UploadsLog, the per-file logs in pending order, and gives every file an outcome, Committed exactly when its finish status is 200, whatever the earlier statuses |
| `Backup.BackupLogAlternates` | index.js:16-38 | over the whole run, listing included, at most one request is in flight at any point |
| `Backup.BackupCommitsPendingInOrder` | index.js:16-45 | with both listings, the run commits each pending file once, in pending order |
| `Backup.FailedListingUploadsNothing` | index.js:90-102 | a failed local listing sends no request; a failed remote listing sends only the listing request; either way nothing is uploaded |
| `Backup.BackupPendingFiles` | index.js:16-38 | the method emits exactly BackupLog; a failed listing stops the run with its reason; otherwise every pending file is uploaded in order and has an outcome, Committed exactly when its finish status is 200 |

## Left out

- HTTPS requests, headers, the bearer token, JSON encoding and parsing, and reply buffering
  (index.js:47-94, 105-209). Requests are records in a log. The store's replies are inputs:
  the session id of the start reply and the status of the finish reply.
- UploadSession.Upload: requires the file to hold at most 2^53 - 1 bytes. The finish offset
  passes through `parseInt(offset.toString())` (index.js:170-172), a JavaScript number, and is
  exact only up to that bound. The appends use the exact `BigInt` offset.
- Backup.BackupPendingFiles: requires every uploaded file (every pending file, when both
  listings succeed) to hold at most 2^53 - 1 bytes, for the same reason.
- Remote listing pagination: the listing asks for at most 2000 entries and follows no cursor
  (index.js:53). The model takes the listing reply as given; it does not model truncation.
- Process crashes: a start reply that is not JSON, an `error` event on any request, or a
  failing `fs.stat` throws outside any handler and ends the process. So does a file name that is
  not header-safe: the finish request's `Dropbox-API-Arg` header carries the commit path through
  `JSON.stringify` (index.js:167-181), which leaves non-ASCII characters as they are, and the
  HTTPS client rejects a header character outside tab, 0x20-0x7E and 0x80-0xFF by throwing
  inside the stream's `end` handler (index.js:160-161). A name such as `dump-€.sql` or a
  Cyrillic or CJK name therefore gets its start and appends sent, then ends the process with no
  finish. The model assumes every reply arrives and parses, and every finish is sent.
- UploadSession.Upload: assumes the file is a readable regular file. The read stream has no
  `error` listener (index.js:130), so a directory entry (EISDIR) or an unreadable file (EACCES)
  ends the process after the start exchange, with the session never finished. The model's
  chunks always arrive and the finish is always sent.
- UploadSession.Upload: assumes the file name is header-safe. A name with a character outside
  tab, 0x20-0x7E and 0x80-0xFF ends the process after the appends, before the finish is sent
  (index.js:160-181); the model always sends the finish.
- UploadSession.Upload: the outcome records the finish reply's status, but the source never
  prints it. Its log call passes the status as the `isError` argument of `logMessage`
  (index.js:187-191, 211), so the line reads `statusCode: ` with no number; only the reply body
  is printed (index.js:192-194).
- Backup.UploadAll: requires every uploaded file to hold at most 2^53 - 1 bytes, for the
  finish offset's sake as in `Upload`. It assumes every pending file is a readable regular file
  with a header-safe name. A read error (index.js:130) ends the run after that file's start
  exchange; a name that is not header-safe (index.js:160-181) ends it after that file's appends.
  Either way the later pending files are never uploaded; the model gives every pending file an
  outcome.
- Backup.BackupPendingFiles: assumes every local entry is a readable regular file with a
  header-safe name. A read error or a name that is not header-safe ends the run inside that
  file's upload, and the later pending files are never uploaded; the model instead gives every
  pending file an outcome.
- The start reply's status is not checked in the source. The model takes the session id it
  carries as given.
- `fs.stat` and `prettyBytes` (index.js:24-26) only feed a log line, and `logMessage`
  (index.js:211-217) only writes timestamped lines. Neither is modelled.
- `dotenv` configuration (index.js:9-12) becomes the `remoteDir` parameter and the inputs. The
  local directory is implicit in `contents`.
- `exit(1)` on a failed listing (index.js:92, 101) is modelled as the `Stopped` result.
- The read stream's chunk boundaries are an input (`contents`). Its buffer size is not modelled.
- test.js only drives a terminal progress-bar demo and has no logic to model.
