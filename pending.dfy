/** The backup set resolver: which local backup files are not yet in the remote folder.
    Names are compared by exact string equality only; no size or content comparison. */
module Pending {

  /** Outcome of listing a directory: the entry names, or a failure
      (an unreadable local directory, a failed or malformed remote listing). */
  datatype Listing = Listed(names: seq<string>) | ListingFailed

  /** Why a run stops before uploading anything. */
  datatype AbortReason = LocalDirUnreadable | RemoteListFailed

  datatype Resolution = Resolved(pending: seq<string>) | Aborted(reason: AbortReason)

  /** The local names that do not occur in the remote name list, in local order. */
  function PendingFiles(local: seq<string>, remote: seq<string>): (r: seq<string>)
    ensures |r| <= |local|
    ensures forall x :: x in r ==> x in local && x !in remote
  {
    if local == [] then []
    else if local[0] in remote then PendingFiles(local[1..], remote)
    else [local[0]] + PendingFiles(local[1..], remote)
  }

  /** `a` can be obtained from `b` by deleting elements, so `a` keeps the relative order of `b`. */
  ghost predicate IsSubsequence(a: seq<string>, b: seq<string>)
  {
    a == [] || (b != [] && ((a[0] == b[0] && IsSubsequence(a[1..], b[1..])) || IsSubsequence(a, b[1..])))
  }

  /** A name is pending exactly when it is a local name that the remote list lacks. */
  lemma {:induction false} PendingMembership(local: seq<string>, remote: seq<string>, x: string)
    ensures x in PendingFiles(local, remote) <==> x in local && x !in remote
  {
    if local != [] {
      PendingMembership(local[1..], remote, x);
      assert local == [local[0]] + local[1..];
    }
  }

  /** The pending list holds every such name as often as the local list does, and no other. */
  lemma {:induction false} PendingMultiplicity(local: seq<string>, remote: seq<string>, x: string)
    ensures multiset(PendingFiles(local, remote))[x] == if x in remote then 0 else multiset(local)[x]
  {
    if local != [] {
      PendingMultiplicity(local[1..], remote, x);
      assert local == [local[0]] + local[1..];
    }
  }

  /** The pending list keeps the relative order of the local names and is no longer. */
  lemma {:induction false} PendingKeepsOrder(local: seq<string>, remote: seq<string>)
    ensures IsSubsequence(PendingFiles(local, remote), local)
    ensures |PendingFiles(local, remote)| <= |local|
  {
    if local != [] {
      PendingKeepsOrder(local[1..], remote);
      var rest := PendingFiles(local[1..], remote);
      if local[0] !in remote {
        assert ([local[0]] + rest)[1..] == rest;
      } else {
        SubsequenceOfTail(rest, local);
      }
    }
  }

  lemma {:induction false} SubsequenceOfTail(a: seq<string>, b: seq<string>)
    requires b != [] && IsSubsequence(a, b[1..])
    ensures IsSubsequence(a, b)
  {
  }

  /** The pending list, as a set, is the set difference local - remote. */
  lemma PendingIsSetDifference(local: seq<string>, remote: seq<string>)
    ensures (set x | x in PendingFiles(local, remote)) == (set x | x in local) - (set x | x in remote)
  {
    forall x ensures x in PendingFiles(local, remote) <==> x in local && x !in remote {
      PendingMembership(local, remote, x);
    }
  }

  /** Resolving again against the same remote list changes nothing. */
  lemma {:induction false} PendingIdempotent(local: seq<string>, remote: seq<string>)
    ensures PendingFiles(PendingFiles(local, remote), remote) == PendingFiles(local, remote)
  {
    if local != [] {
      PendingIdempotent(local[1..], remote);
      var rest := PendingFiles(local[1..], remote);
      if local[0] !in remote {
        assert ([local[0]] + rest)[1..] == rest;
      }
    }
  }

  /** The filter works name by name: resolving a concatenation resolves each part. */
  lemma {:induction false} PendingConcat(a: seq<string>, b: seq<string>, remote: seq<string>)
    ensures PendingFiles(a + b, remote) == PendingFiles(a, remote) + PendingFiles(b, remote)
  {
    if a != [] {
      PendingConcat(a[1..], b, remote);
      assert (a + b)[1..] == a[1..] + b;
    } else {
      assert a + b == b;
    }
  }

  /** With an empty remote folder every local file is pending. */
  lemma {:induction false} PendingOfEmptyRemote(local: seq<string>)
    ensures PendingFiles(local, []) == local
  {
    if local != [] {
      PendingOfEmptyRemote(local[1..]);
    }
  }

  /** Resolving the pending set from the two listings, local first: a failed listing aborts
      the run, and a failed local listing aborts it before the remote folder is listed. */
  function ResolvePending(local: Listing, remote: Listing): (r: Resolution)
    ensures local.ListingFailed? ==> r == Aborted(LocalDirUnreadable)
    ensures local.Listed? && remote.ListingFailed? ==> r == Aborted(RemoteListFailed)
    ensures r.Resolved? <==> local.Listed? && remote.Listed?
    ensures r.Resolved? ==> forall x :: x in r.pending <==> x in local.names && x !in remote.names
    ensures r.Resolved? ==> r.pending == PendingFiles(local.names, remote.names)
  {
    match local
    case ListingFailed => Aborted(LocalDirUnreadable)
    case Listed(localNames) =>
      match remote
      case ListingFailed => Aborted(RemoteListFailed)
      case Listed(remoteNames) =>
        var pending := PendingFiles(localNames, remoteNames);
        assert forall x :: x in pending <==> x in localNames && x !in remoteNames by {
          forall x ensures x in pending <==> x in localNames && x !in remoteNames {
            PendingMembership(localNames, remoteNames, x);
          }
        }
        Resolved(pending)
  }
}
