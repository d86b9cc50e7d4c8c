/** One file's chunked upload: start a session, append each chunk the read stream emits
    at the current offset, then finish with the total offset and the commit record. */
module UploadSession {
  import opened Protocol
  import Server

  /** How one upload ended once the finish reply arrived: committed (status 200), or rejected
      with the reply's status as the model records it (the tool itself prints only the reply
      body). The upload completes either way. */
  datatype UploadOutcome = Committed | CommitRejected(statusCode: int)

  /** The number of bytes in the chunks: what the offset counter adds up. */
  function BytesRead(chunks: seq<seq<Byte>>): nat
  {
    if chunks == [] then 0 else BytesRead(chunks[..|chunks| - 1]) + |chunks[|chunks| - 1]|
  }

  /** The bytes of the file, as the read stream emits them. */
  function Flatten(chunks: seq<seq<Byte>>): seq<Byte>
  {
    if chunks == [] then [] else Flatten(chunks[..|chunks| - 1]) + chunks[|chunks| - 1]
  }

  /** The offset counter always equals the number of bytes the stream has emitted so far. */
  lemma {:induction false} BytesReadIsFlattenLength(chunks: seq<seq<Byte>>)
    ensures BytesRead(chunks) == |Flatten(chunks)|
  {
    if chunks != [] {
      BytesReadIsFlattenLength(chunks[..|chunks| - 1]);
    }
  }

  /** The destination and policy of the finish request. */
  function CommitFor(remoteDir: string, filename: string): CommitInfo
  {
    CommitInfo(remoteDir + "/" + filename, "add", true, false, false)
  }

  /** The append exchanges for the chunks, each sent at the offset reached by the chunks before it. */
  function AppendPhase(sessionId: string, chunks: seq<seq<Byte>>): seq<Event>
  {
    if chunks == [] then []
    else
      var before := chunks[..|chunks| - 1];
      AppendPhase(sessionId, before)
        + [Sent(SessionAppend(sessionId, BytesRead(before), chunks[|chunks| - 1], false)), Answered]
  }

  /** The whole exchange for one file. */
  function UploadLog(remoteDir: string, filename: string, sessionId: string, chunks: seq<seq<Byte>>): seq<Event>
  {
    [Sent(SessionStart(false)), Answered]
      + AppendPhase(sessionId, chunks)
      + [Sent(SessionFinish(sessionId, BytesRead(chunks), CommitFor(remoteDir, filename))), Answered]
  }

  lemma {:induction false} AppendPhaseLength(sessionId: string, chunks: seq<seq<Byte>>)
    ensures |AppendPhase(sessionId, chunks)| == 2 * |chunks|
  {
    if chunks != [] {
      AppendPhaseLength(sessionId, chunks[..|chunks| - 1]);
    }
  }

  /** The k-th append exchange: the k-th chunk, sent with the session id, at the offset that
      counts the bytes of chunks 0..k-1, followed by its reply. */
  lemma {:induction false} AppendPhaseAt(sessionId: string, chunks: seq<seq<Byte>>, k: nat)
    requires k < |chunks|
    ensures |AppendPhase(sessionId, chunks)| == 2 * |chunks|
    ensures AppendPhase(sessionId, chunks)[2 * k] == Sent(SessionAppend(sessionId, BytesRead(chunks[..k]), chunks[k], false))
    ensures AppendPhase(sessionId, chunks)[2 * k + 1] == Answered
  {
    var before := chunks[..|chunks| - 1];
    AppendPhaseLength(sessionId, chunks);
    AppendPhaseLength(sessionId, before);
    if k < |chunks| - 1 {
      AppendPhaseAt(sessionId, before, k);
      assert before[..k] == chunks[..k];
    } else {
      assert before == chunks[..k];
    }
  }

  lemma AppendPhaseAlternates(sessionId: string, chunks: seq<seq<Byte>>)
    ensures Alternates(AppendPhase(sessionId, chunks))
  {
    AppendPhaseLength(sessionId, chunks);
    var log := AppendPhase(sessionId, chunks);
    forall i | 0 <= i < |log| ensures (log[i].Sent? <==> i % 2 == 0) {
      AppendPhaseAt(sessionId, chunks, i / 2);
    }
  }

  /** Where each part of an upload's log sits: Start, then the append phase, then Finish. */
  lemma UploadLogAt(remoteDir: string, filename: string, sessionId: string, chunks: seq<seq<Byte>>, i: nat)
    requires i < 2 * |chunks| + 4
    ensures var log := UploadLog(remoteDir, filename, sessionId, chunks);
      && |log| == 2 * |chunks| + 4
      && (i == 0 ==> log[i] == Sent(SessionStart(false)))
      && (i == 1 || i == |log| - 1 ==> log[i] == Answered)
      && (2 <= i < |log| - 2 ==> log[i] == AppendPhase(sessionId, chunks)[i - 2])
      && (i == |log| - 2 ==> log[i] == Sent(SessionFinish(sessionId, BytesRead(chunks), CommitFor(remoteDir, filename))))
  {
    AppendPhaseLength(sessionId, chunks);
  }

  /** The k-th append of an upload carries the session id, the k-th chunk, and the offset
      that counts the bytes of chunks 0..k-1, so the first append is at offset 0. */
  lemma UploadLogAppend(remoteDir: string, filename: string, sessionId: string, chunks: seq<seq<Byte>>, k: nat)
    requires k < |chunks|
    ensures |UploadLog(remoteDir, filename, sessionId, chunks)| == 2 * |chunks| + 4
    ensures UploadLog(remoteDir, filename, sessionId, chunks)[2 + 2 * k]
         == Sent(SessionAppend(sessionId, BytesRead(chunks[..k]), chunks[k], false))
  {
    UploadLogAt(remoteDir, filename, sessionId, chunks, 2 + 2 * k);
    AppendPhaseAt(sessionId, chunks, k);
  }

  /** The log of one upload has exactly one Start, first, and exactly one Finish, as its last
      request, carrying the total byte count and the commit record: path remoteDir/filename,
      mode "add", autorename, not muted, no strict conflict. */
  lemma UploadLogStartAndFinish(remoteDir: string, filename: string, sessionId: string, chunks: seq<seq<Byte>>)
    ensures var log := UploadLog(remoteDir, filename, sessionId, chunks);
      && |log| == 2 * |chunks| + 4
      && log[|log| - 2] == Sent(SessionFinish(sessionId, BytesRead(chunks),
                                  CommitInfo(remoteDir + "/" + filename, "add", true, false, false)))
      && (forall i :: 0 <= i < |log| && log[i].Sent? ==>
            (log[i].request.SessionStart? <==> i == 0)
            && (log[i].request.SessionFinish? <==> i == |log| - 2))
  {
    var log := UploadLog(remoteDir, filename, sessionId, chunks);
    UploadLogAt(remoteDir, filename, sessionId, chunks, |log| - 2);
    forall i | 0 <= i < |log| && log[i].Sent?
      ensures (log[i].request.SessionStart? <==> i == 0) && (log[i].request.SessionFinish? <==> i == |log| - 2)
    {
      UploadLogAt(remoteDir, filename, sessionId, chunks, i);
      if 2 <= i < |log| - 2 {
        var k := (i - 2) / 2;
        assert i == 2 + 2 * k || i == 3 + 2 * k;
        AppendPhaseAt(sessionId, chunks, k);
        assert log[i].request.SessionAppend?;
      }
    }
  }

  /** An empty file is started and finished at offset 0, with no append in between. */
  lemma EmptyFileUpload(remoteDir: string, filename: string, sessionId: string)
    ensures UploadLog(remoteDir, filename, sessionId, [])
         == [Sent(SessionStart(false)), Answered,
             Sent(SessionFinish(sessionId, 0, CommitFor(remoteDir, filename))), Answered]
  {
  }

  /** Backpressure: within one upload, each request waits for the previous reply. */
  lemma UploadLogAlternates(remoteDir: string, filename: string, sessionId: string, chunks: seq<seq<Byte>>)
    ensures Alternates(UploadLog(remoteDir, filename, sessionId, chunks))
    ensures |UploadLog(remoteDir, filename, sessionId, chunks)| % 2 == 0
  {
    var start: seq<Event> := [Sent(SessionStart(false)), Answered];
    var finish: seq<Event> := [Sent(SessionFinish(sessionId, BytesRead(chunks), CommitFor(remoteDir, filename))), Answered];
    AppendPhaseAlternates(sessionId, chunks);
    AppendPhaseLength(sessionId, chunks);
    AlternatesConcat(start, AppendPhase(sessionId, chunks));
    AlternatesConcat(start + AppendPhase(sessionId, chunks), finish);
  }

  /** Against the store's offset check, the appends are all accepted and leave the session
      holding exactly the bytes emitted so far. */
  lemma {:induction false} AppendPhaseAccepted(sessionId: string, chunks: seq<seq<Byte>>)
    ensures Server.Replay(Server.Open([]), sessionId, Requests(AppendPhase(sessionId, chunks)))
         == Server.Open(Flatten(chunks))
  {
    if chunks != [] {
      var before := chunks[..|chunks| - 1];
      var r := SessionAppend(sessionId, BytesRead(before), chunks[|chunks| - 1], false);
      AppendPhaseAccepted(sessionId, before);
      BytesReadIsFlattenLength(before);
      RequestsConcat(AppendPhase(sessionId, before), [Sent(r), Answered]);
      RequestsOfExchange(r);
      Server.ReplayConcat(Server.Open([]), sessionId, Requests(AppendPhase(sessionId, before)), [r]);
      assert [r][..0] == [];
    }
  }

  /** End to end: the store commits exactly the file's bytes under remoteDir/filename. */
  lemma UploadCommitsFile(remoteDir: string, filename: string, sessionId: string, chunks: seq<seq<Byte>>)
    ensures Server.Replay(Server.Idle, sessionId, Requests(UploadLog(remoteDir, filename, sessionId, chunks)))
         == Server.Committed(remoteDir + "/" + filename, Flatten(chunks))
  {
    var start := SessionStart(false);
    var finish := SessionFinish(sessionId, BytesRead(chunks), CommitFor(remoteDir, filename));
    var appends := AppendPhase(sessionId, chunks);
    RequestsConcat([Sent(start), Answered] + appends, [Sent(finish), Answered]);
    RequestsConcat([Sent(start), Answered], appends);
    RequestsOfExchange(start);
    RequestsOfExchange(finish);
    var rs := [start] + Requests(appends) + [finish];
    assert Requests(UploadLog(remoteDir, filename, sessionId, chunks)) == rs;
    Server.ReplayConcat(Server.Idle, sessionId, [start] + Requests(appends), [finish]);
    Server.ReplayConcat(Server.Idle, sessionId, [start], Requests(appends));
    assert [start][..0] == [];
    assert [finish][..0] == [];
    AppendPhaseAccepted(sessionId, chunks);
    BytesReadIsFlattenLength(chunks);
  }

  /** The finish requests of a request sequence, as their commit paths. */
  function CommitPaths(rs: seq<Request>): seq<string>
  {
    if rs == [] then []
    else
      var init := CommitPaths(rs[..|rs| - 1]);
      if rs[|rs| - 1].SessionFinish? then init + [rs[|rs| - 1].commit.path] else init
  }

  lemma {:induction false} CommitPathsConcat(a: seq<Request>, b: seq<Request>)
    ensures CommitPaths(a + b) == CommitPaths(a) + CommitPaths(b)
  {
    if b == [] {
      assert a + b == a;
    } else {
      CommitPathsConcat(a, b[..|b| - 1]);
      assert (a + b)[..|a + b| - 1] == a + b[..|b| - 1];
    }
  }

  lemma {:induction false} AppendPhaseCommitsNothing(sessionId: string, chunks: seq<seq<Byte>>)
    ensures CommitPaths(Requests(AppendPhase(sessionId, chunks))) == []
  {
    if chunks != [] {
      var before := chunks[..|chunks| - 1];
      var r := SessionAppend(sessionId, BytesRead(before), chunks[|chunks| - 1], false);
      AppendPhaseCommitsNothing(sessionId, before);
      RequestsConcat(AppendPhase(sessionId, before), [Sent(r), Answered]);
      RequestsOfExchange(r);
      CommitPathsConcat(Requests(AppendPhase(sessionId, before)), [r]);
      assert [r][..0] == [];
    }
  }

  /** One upload commits one file, to remoteDir/filename. */
  lemma UploadLogCommitPaths(remoteDir: string, filename: string, sessionId: string, chunks: seq<seq<Byte>>)
    ensures CommitPaths(Requests(UploadLog(remoteDir, filename, sessionId, chunks))) == [remoteDir + "/" + filename]
  {
    var start := SessionStart(false);
    var finish := SessionFinish(sessionId, BytesRead(chunks), CommitFor(remoteDir, filename));
    var appends := AppendPhase(sessionId, chunks);
    RequestsConcat([Sent(start), Answered] + appends, [Sent(finish), Answered]);
    RequestsConcat([Sent(start), Answered], appends);
    RequestsOfExchange(start);
    RequestsOfExchange(finish);
    AppendPhaseCommitsNothing(sessionId, chunks);
    CommitPathsConcat([start] + Requests(appends), [finish]);
    CommitPathsConcat([start], Requests(appends));
    assert [start][..0] == [];
    assert [finish][..0] == [];
  }

  /** Uploads one file. The session id is the one the start reply carries; the chunks are
      what the read stream emits; finishStatus is the status of the finish reply. Each chunk
      is sent with the current offset while the stream is paused, the offset then grows by
      the chunk's length, and the stream emits the next chunk only once the append's reply is in.
      The finish offset passes through a JavaScript number, which is exact only up to 2^53 - 1. */
  method Upload(remoteDir: string, filename: string, sessionId: string, chunks: seq<seq<Byte>>, finishStatus: int)
    returns (log: seq<Event>, outcome: UploadOutcome)
    requires BytesRead(chunks) <= MaxSafeInteger
    ensures log == UploadLog(remoteDir, filename, sessionId, chunks)
    ensures outcome.Committed? <==> finishStatus == 200
    ensures outcome.CommitRejected? ==> outcome.statusCode == finishStatus
  {
    log := [Sent(SessionStart(false)), Answered];
    var offset: nat := 0;
    var i := 0;
    while i < |chunks|
      invariant i <= |chunks|
      invariant offset == BytesRead(chunks[..i])
      invariant log == [Sent(SessionStart(false)), Answered] + AppendPhase(sessionId, chunks[..i])
    {
      var chunk := chunks[i];
      log := log + [Sent(SessionAppend(sessionId, offset, chunk, false))];
      offset := offset + |chunk|;
      log := log + [Answered];
      assert chunks[..i + 1][..i] == chunks[..i];
      i := i + 1;
    }
    assert chunks[..i] == chunks;
    log := log + [Sent(SessionFinish(sessionId, offset, CommitFor(remoteDir, filename))), Answered];
    if finishStatus != 200 {
      outcome := CommitRejected(finishStatus);
    } else {
      outcome := Committed;
    }
  }

  /** What can happen next while the append phase runs: the read stream emits a chunk
      (a `'data'` event), or the reply to the append in flight arrives. */
  datatype StreamStep = EmitData | DeliverReply

  /** The schedule in which every chunk's reply arrives before the stream emits the next one:
      data, reply, data, reply, ..., one pair per chunk. */
  predicate Lockstep(schedule: seq<StreamStep>, chunkCount: nat)
  {
    && |schedule| == 2 * chunkCount
    && forall j :: 0 <= j < |schedule| ==> schedule[j] == if j % 2 == 0 then EmitData else DeliverReply
  }

  /** The append phase as the event handlers run it, for any order in which the environment
      offers events. A `'data'` event happens only while the stream is not paused and has
      chunks left; its handler pauses the stream, sends the append at the current offset and
      advances the offset. A reply arrives only for a request in flight; its handler resumes
      the stream. Whatever the schedule, the log is a prefix of the append phase and at most
      one append is in flight; under the lockstep schedule every chunk is sent and answered. */
  method DriveAppendPhase(sessionId: string, chunks: seq<seq<Byte>>, schedule: seq<StreamStep>)
    returns (log: seq<Event>, emitted: nat, inFlight: nat)
    ensures emitted <= |chunks| && inFlight <= 1
    ensures Alternates(log)
    ensures inFlight == 0 ==> log == AppendPhase(sessionId, chunks[..emitted])
    ensures inFlight == 1 ==>
      && emitted > 0
      && log == AppendPhase(sessionId, chunks[..emitted - 1])
                + [Sent(SessionAppend(sessionId, BytesRead(chunks[..emitted - 1]), chunks[emitted - 1], false))]
    ensures Lockstep(schedule, |chunks|) ==>
      inFlight == 0 && emitted == |chunks| && log == AppendPhase(sessionId, chunks)
  {
    log := [];
    emitted, inFlight := 0, 0;
    var paused := false;
    var offset: nat := 0;
    for j := 0 to |schedule|
      invariant emitted <= |chunks|
      invariant offset == BytesRead(chunks[..emitted])
      invariant inFlight == if paused then 1 else 0
      invariant paused ==> emitted > 0
      invariant !paused ==> log == AppendPhase(sessionId, chunks[..emitted])
      invariant paused ==>
                  log == AppendPhase(sessionId, chunks[..emitted - 1])
                         + [Sent(SessionAppend(sessionId, BytesRead(chunks[..emitted - 1]), chunks[emitted - 1], false))]
      invariant Lockstep(schedule, |chunks|) ==> emitted == (j + 1) / 2 && paused == (j % 2 == 1)
    {
      match schedule[j]
      case EmitData =>
        if !paused && emitted < |chunks| {
          paused := true;
          log := log + [Sent(SessionAppend(sessionId, offset, chunks[emitted], false))];
          inFlight := inFlight + 1;
          offset := offset + |chunks[emitted]|;
          assert chunks[..emitted + 1][..emitted] == chunks[..emitted];
          emitted := emitted + 1;
        }
      case DeliverReply =>
        if inFlight > 0 {
          log := log + [Answered];
          inFlight := inFlight - 1;
          paused := false;
          assert chunks[..emitted][..emitted - 1] == chunks[..emitted - 1];
        }
    }
    assert emitted == |chunks| ==> chunks[..emitted] == chunks;
    if inFlight == 0 {
      AppendPhaseAlternates(sessionId, chunks[..emitted]);
    } else {
      var done := AppendPhase(sessionId, chunks[..emitted - 1]);
      AppendPhaseAlternates(sessionId, chunks[..emitted - 1]);
      AppendPhaseLength(sessionId, chunks[..emitted - 1]);
      AlternatesConcat(done, [Sent(SessionAppend(sessionId, BytesRead(chunks[..emitted - 1]), chunks[emitted - 1], false))]);
    }
  }
}
