/** The requests the backup tool sends to the remote store, and the log of a run:
    every request sent and every reply received, in the order they happen. */
module Protocol {

  newtype Byte = x: int | 0 <= x < 256

  /** The largest integer a JavaScript number holds exactly (2^53 - 1). */
  const MaxSafeInteger: nat := 0x1F_FFFF_FFFF_FFFF

  /** The number of entries the folder listing asks for; no continuation is requested. */
  const ListFolderLimit: nat := 2000

  /** The commit record of an upload_session/finish request. */
  datatype CommitInfo = CommitInfo(path: string, mode: string, autorename: bool, mute: bool, strictConflict: bool)

  datatype Request =
    | ListFolder(path: string, limit: nat)
    | SessionStart(close: bool)
    | SessionAppend(sessionId: string, offset: nat, data: seq<Byte>, close: bool)
    | SessionFinish(sessionId: string, offset: nat, commit: CommitInfo)

  /** One step of a run: a request goes out, or the reply to the request in flight comes back. */
  datatype Event = Sent(request: Request) | Answered

  /** The requests of a log, in the order they were sent. */
  function Requests(log: seq<Event>): seq<Request>
  {
    if log == [] then []
    else
      var init := Requests(log[..|log| - 1]);
      if log[|log| - 1].Sent? then init + [log[|log| - 1].request] else init
  }

  /** The number of requests sent and not yet answered at the end of a log. */
  function Outstanding(log: seq<Event>): int
  {
    if log == [] then 0
    else Outstanding(log[..|log| - 1]) + (if log[|log| - 1].Sent? then 1 else -1)
  }

  /** Requests and replies strictly alternate, starting with a request:
      nothing is sent until the previous request has been answered. */
  ghost predicate Alternates(log: seq<Event>)
  {
    forall i :: 0 <= i < |log| ==> (log[i].Sent? <==> i % 2 == 0)
  }

  /** In an alternating log, at every point at most one request is in flight. */
  lemma {:induction false} AlternatesBoundsOutstanding(log: seq<Event>, n: nat)
    requires Alternates(log) && n <= |log|
    ensures Outstanding(log[..n]) == n % 2
    ensures 0 <= Outstanding(log[..n]) <= 1
  {
    if n > 0 {
      AlternatesBoundsOutstanding(log, n - 1);
      assert log[..n][..n - 1] == log[..n - 1];
    }
  }

  /** A completed alternating exchange followed by another alternating log still alternates. */
  lemma AlternatesConcat(a: seq<Event>, b: seq<Event>)
    requires Alternates(a) && |a| % 2 == 0 && Alternates(b)
    ensures Alternates(a + b)
  {
  }

  lemma {:induction false} RequestsConcat(a: seq<Event>, b: seq<Event>)
    ensures Requests(a + b) == Requests(a) + Requests(b)
  {
    if b == [] {
      assert a + b == a;
    } else {
      RequestsConcat(a, b[..|b| - 1]);
      assert (a + b)[..|a + b| - 1] == a + b[..|b| - 1];
    }
  }

  /** The request of a single exchange. */
  lemma RequestsOfExchange(r: Request)
    ensures Requests([Sent(r), Answered]) == [r]
  {
    var log := [Sent(r), Answered];
    assert log[..1] == [Sent(r)];
    assert log[..1][..0] == [];
    assert Requests(log[..1][..0]) == [];
    assert Requests(log[..1]) == [r];
  }
}
