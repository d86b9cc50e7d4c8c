/** A reference model of the remote store's side of one upload session: an append or a
    finish is accepted only when its declared offset equals the number of bytes the session
    has received so far; anything else breaks the session. */
module Server {
  import opened Protocol

  datatype SessionView =
    | Idle
    | Open(received: seq<Byte>)
    | Committed(path: string, content: seq<Byte>)
    | Broken

  /** How the session identified by `sessionId` reacts to one request. */
  function Step(v: SessionView, sessionId: string, r: Request): SessionView
  {
    match r
    case ListFolder(_, _) => v
    case SessionStart(_) => if v.Idle? then Open([]) else Broken
    case SessionAppend(sid, offset, data, _) =>
      if v.Open? && sid == sessionId && offset == |v.received| then Open(v.received + data) else Broken
    case SessionFinish(sid, offset, commit) =>
      if v.Open? && sid == sessionId && offset == |v.received| then Committed(commit.path, v.received) else Broken
  }

  /** The session after a sequence of requests. */
  function Replay(v: SessionView, sessionId: string, rs: seq<Request>): SessionView
  {
    if rs == [] then v else Step(Replay(v, sessionId, rs[..|rs| - 1]), sessionId, rs[|rs| - 1])
  }

  lemma {:induction false} ReplayConcat(v: SessionView, sessionId: string, a: seq<Request>, b: seq<Request>)
    ensures Replay(v, sessionId, a + b) == Replay(Replay(v, sessionId, a), sessionId, b)
  {
    if b == [] {
      assert a + b == a;
    } else {
      ReplayConcat(v, sessionId, a, b[..|b| - 1]);
      assert (a + b)[..|a + b| - 1] == a + b[..|b| - 1];
    }
  }
}
