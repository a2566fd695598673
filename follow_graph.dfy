/** The follow graph of user profiles: who follows whom, the follow
    requests sent to private profiles, and the per-user follower and
    following counters that `updateFollowersSummary` recomputes. */
module FollowGraph {
  import opened Common

  /** A row of the follows table: (follower, followed). */
  type Edge = (UserId, UserId)

  datatype RequestStatus = Pending | Accepted | Rejected

  /** A row of the follow_requests table; its key (requester, target) is
      unique, so the table is a map from that pair. */
  datatype FollowRequest = FollowRequest(id: nat, status: RequestStatus, requestedAt: int)

  /** What the users table tells the follow handlers about a handle. */
  datatype Account = Account(id: UserId, isPublic: bool)

  /** A row of followers_summary. */
  datatype Counters = Counters(followersCount: nat, followingCount: nat)

  datatype FollowError =
    | SelfFollow             // 400 "You cannot follow yourself"
    | UserNotFound           // 404
    | AlreadyFollowing       // 400
    | RequestAlreadyPending  // 400
    | NotFollowing           // 400
    | NoPendingRequest       // 400
    | InvalidAction          // 400 INVALID_ACTION
    | RequestNotFound        // 404 REQUEST_NOT_FOUND
    | Internal               // an exception: rolled back and passed to the error handler

  /** The `data` of a successful follow or unfollow. */
  datatype FollowReply = FollowReply(isFollowing: bool, followRequestStatus: Option<RequestStatus>)

  /** The users table has unique ids as well as unique handles. */
  predicate IdsDistinct(users: map<string, Account>)
  {
    forall h1, h2 :: h1 in users && h2 in users && users[h1].id == users[h2].id ==> h1 == h2
  }

  function InEdges(edges: set<Edge>, u: UserId): set<Edge>
  {
    set e | e in edges && e.1 == u
  }

  function OutEdges(edges: set<Edge>, u: UserId): set<Edge>
  {
    set e | e in edges && e.0 == u
  }

  // ---------------------------------------------------------------------
  // Invariants of the three tables

  predicate NoSelfEdges(edges: set<Edge>)
  {
    forall e :: e in edges ==> e.0 != e.1
  }

  predicate NoSelfRequests(requests: map<Edge, FollowRequest>)
  {
    forall k :: k in requests ==> k.0 != k.1
  }

  predicate IsPending(requests: map<Edge, FollowRequest>, k: Edge)
  {
    k in requests && requests[k].status == Pending
  }

  /** No ordered pair is both followed and waiting for approval. */
  predicate NoPendingEdge(edges: set<Edge>, requests: map<Edge, FollowRequest>)
  {
    forall k :: k in requests && requests[k].status == Pending ==> k !in edges
  }

  /** Request ids are below the next id to hand out and never shared. */
  predicate RequestIdsFresh(requests: map<Edge, FollowRequest>, nextId: nat)
  {
    (forall k :: k in requests ==> requests[k].id < nextId)
    && (forall k1, k2 :: k1 in requests && k2 in requests && requests[k1].id == requests[k2].id ==> k1 == k2)
  }

  /** Every summary row holds the true counts. */
  predicate CountersExact(summary: map<UserId, Counters>, edges: set<Edge>)
  {
    forall u :: u in summary ==> summary[u] == Counters(|InEdges(edges, u)|, |OutEdges(edges, u)|)
  }

  /** Every user touching an edge has a summary row. */
  predicate EndpointsCounted(summary: map<UserId, Counters>, edges: set<Edge>)
  {
    forall e :: e in edges ==> e.0 in summary && e.1 in summary
  }

  // ---------------------------------------------------------------------
  // updateFollowersSummary

  /** The first upsert: `f`'s following_count is recounted; its
      followers_count is kept, or 0 on a new row. */
  function RecountFollowing(summary: map<UserId, Counters>, edges: set<Edge>, f: UserId): map<UserId, Counters>
  {
    summary[f := Counters(if f in summary then summary[f].followersCount else 0, |OutEdges(edges, f)|)]
  }

  /** The second upsert: `t`'s followers_count is recounted; its
      following_count is kept, or 0 on a new row. */
  function RecountFollowers(summary: map<UserId, Counters>, edges: set<Edge>, t: UserId): map<UserId, Counters>
  {
    summary[t := Counters(|InEdges(edges, t)|, if t in summary then summary[t].followingCount else 0)]
  }

  /** Both upserts, in the order the helper issues them. */
  function Recount(summary: map<UserId, Counters>, edges: set<Edge>, f: UserId, t: UserId): (r: map<UserId, Counters>)
    ensures r.Keys == summary.Keys + {f, t}
    ensures r[f].followingCount == |OutEdges(edges, f)|
    ensures r[t].followersCount == |InEdges(edges, t)|
    ensures f != t ==> r[f].followersCount == (if f in summary then summary[f].followersCount else 0)
    ensures f != t ==> r[t].followingCount == (if t in summary then summary[t].followingCount else 0)
    ensures forall u :: u in summary && u != f && u != t ==> r[u] == summary[u]
  {
    RecountFollowers(RecountFollowing(summary, edges, f), edges, t)
  }

  /** Only the edges into `u` decide its followers count: changing an edge into someone else leaves it alone. */
  lemma InEdgesOther(edges: set<Edge>, edges': set<Edge>, f: UserId, t: UserId, u: UserId)
    requires edges' == edges + {(f, t)} || edges' == edges - {(f, t)}
    requires u != t
    ensures InEdges(edges', u) == InEdges(edges, u)
  {
  }

  lemma OutEdgesOther(edges: set<Edge>, edges': set<Edge>, f: UserId, t: UserId, u: UserId)
    requires edges' == edges + {(f, t)} || edges' == edges - {(f, t)}
    requires u != f
    ensures OutEdges(edges', u) == OutEdges(edges, u)
  {
  }

  /** A user without a summary row has no edges. */
  lemma UncountedIsolated(summary: map<UserId, Counters>, edges: set<Edge>, u: UserId)
    requires EndpointsCounted(summary, edges)
    requires u !in summary
    ensures InEdges(edges, u) == {} && OutEdges(edges, u) == {}
  {
    forall e | e in edges
      ensures e.0 != u && e.1 != u
    {
    }
  }

  /** Recounting the two ends of the one edge that was added or removed
      keeps every counter exact, new rows included (their kept counter
      starts at 0, which is right because a user without a row has no edges). */
  lemma {:induction false} RecountKeepsExact(summary: map<UserId, Counters>, edges: set<Edge>, edges': set<Edge>, f: UserId, t: UserId)
    requires CountersExact(summary, edges) && EndpointsCounted(summary, edges)
    requires f != t
    requires edges' == edges + {(f, t)} || edges' == edges - {(f, t)}
    ensures CountersExact(Recount(summary, edges', f, t), edges')
    ensures EndpointsCounted(Recount(summary, edges', f, t), edges')
  {
    var r := Recount(summary, edges', f, t);
    InEdgesOther(edges, edges', f, t, f);
    OutEdgesOther(edges, edges', f, t, t);
    if f !in summary {
      UncountedIsolated(summary, edges, f);
    }
    if t !in summary {
      UncountedIsolated(summary, edges, t);
    }
    forall u | u in r
      ensures r[u] == Counters(|InEdges(edges', u)|, |OutEdges(edges', u)|)
    {
      if u != f && u != t {
        InEdgesOther(edges, edges', f, t, u);
        OutEdgesOther(edges, edges', f, t, u);
      }
    }
  }

  /** Everything the follow handlers keep true of the three tables. */
  predicate StoreInvariant(edges: set<Edge>, requests: map<Edge, FollowRequest>, summary: map<UserId, Counters>, nextId: nat)
  {
    NoSelfEdges(edges) && NoSelfRequests(requests) && NoPendingEdge(edges, requests)
    && RequestIdsFresh(requests, nextId)
    && CountersExact(summary, edges) && EndpointsCounted(summary, edges)
  }

  /** Dropping an edge (and possibly its request row), then recounting its
      two ends, keeps the invariant: unfollowUser and removeFollower. */
  lemma DropEdgeKeepsInvariant(edges: set<Edge>, requests: map<Edge, FollowRequest>,
                               summary: map<UserId, Counters>, nextId: nat, e: Edge)
    requires StoreInvariant(edges, requests, summary, nextId)
    requires e in edges
    ensures StoreInvariant(edges - {e}, requests, Recount(summary, edges - {e}, e.0, e.1), nextId)
  {
    RecountKeepsExact(summary, edges, edges - {e}, e.0, e.1);
  }

  /** Adding an edge whose pair has no pending request, then recounting
      its two ends, keeps the invariant: a public follow and an accepted request. */
  lemma AddEdgeKeepsInvariant(edges: set<Edge>, requests: map<Edge, FollowRequest>,
                              summary: map<UserId, Counters>, nextId: nat, e: Edge)
    requires StoreInvariant(edges, requests, summary, nextId)
    requires e.0 != e.1
    requires !IsPending(requests, e)
    ensures StoreInvariant(edges + {e}, requests, Recount(summary, edges + {e}, e.0, e.1), nextId)
  {
    RecountKeepsExact(summary, edges, edges + {e}, e.0, e.1);
  }

  // ---------------------------------------------------------------------
  // The three tables and the handlers that change them

  /** The tables' contents at one moment, for stating what a handler left unchanged. */
  datatype Tables = Tables(edges: set<Edge>, requests: map<Edge, FollowRequest>, summary: map<UserId, Counters>)

  class FollowStore {
    var edges: set<Edge>
    var requests: map<Edge, FollowRequest>
    var summary: map<UserId, Counters>
    var nextRequestId: nat

    ghost predicate Valid()
      reads this
    {
      StoreInvariant(edges, requests, summary, nextRequestId)
    }

    ghost function Contents(): Tables
      reads this
    {
      Tables(edges, requests, summary)
    }

    constructor ()
      ensures Valid() && edges == {} && requests == map[] && summary == map[]
    {
      edges, requests, summary, nextRequestId := {}, map[], map[], 1;
    }

    /** updateFollowersSummary(f, t): recounts f's following and t's followers. */
    method UpdateFollowersSummary(f: UserId, t: UserId)
      modifies this`summary
      ensures summary == Recount(old(summary), edges, f, t)
    {
      var following := |OutEdges(edges, f)|;
      var keptFollowers := if f in summary then summary[f].followersCount else 0;
      summary := summary[f := Counters(keptFollowers, following)];
      var followers := |InEdges(edges, t)|;
      var keptFollowing := if t in summary then summary[t].followingCount else 0;
      summary := summary[t := Counters(followers, keptFollowing)];
    }

    /** Deletes one follows row and recounts both of its ends. */
    method DropEdge(e: Edge)
      requires Valid() && e in edges
      modifies this`edges, this`summary
      ensures Valid()
      ensures edges == old(edges) - {e}
      ensures summary == Recount(old(summary), edges, e.0, e.1)
    {
      edges := edges - {e};
      UpdateFollowersSummary(e.0, e.1);
      DropEdgeKeepsInvariant(old(edges), requests, old(summary), nextRequestId, e);
    }

    /** Inserts one follows row and recounts both of its ends. */
    method AddEdge(e: Edge)
      requires Valid() && e.0 != e.1 && !IsPending(requests, e)
      modifies this`edges, this`summary
      ensures Valid()
      ensures edges == old(edges) + {e}
      ensures summary == Recount(old(summary), edges, e.0, e.1)
    {
      edges := edges + {e};
      UpdateFollowersSummary(e.0, e.1);
      AddEdgeKeepsInvariant(old(edges), requests, old(summary), nextRequestId, e);
    }

    /** followUser: the caller's handle follows (public target) or asks to
        follow (private target) the target handle. */
    method FollowUser(users: map<string, Account>, followerName: string, targetName: string, now: int)
      returns (r: Result<FollowReply, FollowError>)
      requires Valid() && IdsDistinct(users)
      modifies this
      ensures Valid()
      ensures r.Failure? ==> Contents() == old(Contents())
      ensures followerName == targetName ==> r == Failure(SelfFollow)
      ensures followerName != targetName && (followerName !in users || targetName !in users) ==> r == Failure(Internal)
      ensures followerName != targetName && followerName in users && targetName in users ==>
        var f, t, isPublic := users[followerName].id, users[targetName].id, users[targetName].isPublic;
        && ((f, t) in old(edges) ==> r == Failure(AlreadyFollowing))
        && ((f, t) !in old(edges) && IsPending(old(requests), (f, t)) ==> r == Failure(RequestAlreadyPending))
        && ((f, t) !in old(edges) && !IsPending(old(requests), (f, t)) && isPublic ==>
              && r == Success(FollowReply(true, None))
              && edges == old(edges) + {(f, t)}
              && requests == old(requests)
              && summary == Recount(old(summary), edges, f, t))
        && ((f, t) !in old(edges) && !IsPending(old(requests), (f, t)) && !isPublic ==>
              && r == Success(FollowReply(false, Some(Pending)))
              && edges == old(edges) && summary == old(summary)
              && (f, t) in requests && requests[(f, t)].status == Pending && requests[(f, t)].requestedAt == now
              && ((f, t) in old(requests) ==> requests[(f, t)].id == old(requests)[(f, t)].id)
              && (forall k :: k != (f, t) ==> (k in requests <==> k in old(requests)))
              && (forall k :: k in old(requests) && k != (f, t) ==> requests[k] == old(requests)[k]))
    {
      if followerName == targetName {
        return Failure(SelfFollow);
      }
      // Reading `rows[0].id` of an empty result throws before any check.
      if followerName !in users || targetName !in users {
        return Failure(Internal);
      }
      var f := users[followerName].id;
      var target := users[targetName];
      var t := target.id;
      if (f, t) in edges {
        return Failure(AlreadyFollowing);
      }
      if (f, t) in requests {
        var existing := requests[(f, t)];
        if existing.status == Pending {
          return Failure(RequestAlreadyPending);
        }
        if !target.isPublic {
          requests := requests[(f, t) := existing.(status := Pending, requestedAt := now)];
          return Success(FollowReply(false, Some(Pending)));
        }
      }
      if target.isPublic {
        AddEdge((f, t));
        r := Success(FollowReply(true, None));
      } else {
        // No row exists for the pair here, so the upsert inserts.
        requests := requests[(f, t) := FollowRequest(nextRequestId, Pending, now)];
        nextRequestId := nextRequestId + 1;
        r := Success(FollowReply(false, Some(Pending)));
      }
    }

    /** unfollowUser: removes the caller's edge to the target and any request row for the pair. */
    method UnfollowUser(users: map<string, Account>, followerId: UserId, targetName: string)
      returns (r: Result<FollowReply, FollowError>)
      requires Valid()
      modifies this
      ensures Valid()
      ensures r.Failure? ==> Contents() == old(Contents())
      ensures targetName !in users ==> r == Failure(UserNotFound)
      ensures targetName in users ==>
        var pair := (followerId, users[targetName].id);
        && (pair !in old(edges) ==> r == Failure(NotFollowing))
        && (pair in old(edges) ==>
              && r == Success(FollowReply(false, None))
              && edges == old(edges) - {pair}
              && requests == old(requests) - {pair}
              && summary == Recount(old(summary), edges, pair.0, pair.1))
    {
      if targetName !in users {
        return Failure(UserNotFound);
      }
      var t := users[targetName].id;
      if (followerId, t) !in edges {
        return Failure(NotFollowing);
      }
      DropEdge((followerId, t));
      requests := requests - {(followerId, t)};
      r := Success(FollowReply(false, None));
    }

    /** cancelFollowRequest: withdraws the caller's pending request to the target. */
    method CancelFollowRequest(users: map<string, Account>, requesterId: UserId, targetName: string)
      returns (r: Result<(), FollowError>)
      requires Valid()
      modifies this
      ensures Valid()
      ensures r.Failure? ==> Contents() == old(Contents())
      ensures targetName !in users ==> r == Failure(UserNotFound)
      ensures targetName in users ==>
        var pair := (requesterId, users[targetName].id);
        && (!IsPending(old(requests), pair) ==> r == Failure(NoPendingRequest))
        && (IsPending(old(requests), pair) ==>
              r.Success? && requests == old(requests) - {pair} && edges == old(edges) && summary == old(summary))
    {
      if targetName !in users {
        return Failure(UserNotFound);
      }
      var t := users[targetName].id;
      if !((requesterId, t) in requests && requests[(requesterId, t)].status == Pending) {
        return Failure(NoPendingRequest);
      }
      requests := requests - {(requesterId, t)};
      r := Success(());
    }

    /** respondToFollowRequest: the target of a pending request accepts it
        (the requester now follows them) or rejects it. */
    method RespondToFollowRequest(callerId: UserId, requestId: nat, action: string)
      returns (r: Result<RequestStatus, FollowError>)
      requires Valid()
      modifies this
      ensures Valid()
      ensures r.Failure? ==> Contents() == old(Contents())
      ensures action != "accept" && action != "reject" ==> r == Failure(InvalidAction)
      ensures (action == "accept" || action == "reject") && !HasRequestFor(old(requests), requestId, callerId) ==>
        r == Failure(RequestNotFound)
      ensures forall k :: k in old(requests) && RequestFor(old(requests), k, requestId, callerId) ==>
        && (action == "accept" ==>
              && r == Success(Accepted)
              && requests == old(requests)[k := old(requests)[k].(status := Accepted)]
              && edges == old(edges) + {(k.0, callerId)}
              && summary == Recount(old(summary), edges, k.0, callerId))
        && (action == "reject" ==>
              && r == Success(Rejected)
              && requests == old(requests)[k := old(requests)[k].(status := Rejected)]
              && edges == old(edges) && summary == old(summary))
    {
      if action != "accept" && action != "reject" {
        return Failure(InvalidAction);
      }
      if !HasRequestFor(requests, requestId, callerId) {
        return Failure(RequestNotFound);
      }
      var k :| k in requests && RequestFor(requests, k, requestId, callerId);
      var requester := k.0;
      if action == "accept" {
        requests := requests[k := requests[k].(status := Accepted)];
        AddEdge((requester, callerId));
        r := Success(Accepted);
      } else {
        requests := requests[k := requests[k].(status := Rejected)];
        r := Success(Rejected);
      }
    }

    /** removeFollower: the caller drops a user who follows them; the
        request row for that pair, if any, stays. */
    method RemoveFollower(users: map<string, Account>, currentId: UserId, followerName: string)
      returns (r: Result<(), FollowError>)
      requires Valid()
      modifies this
      ensures Valid()
      ensures r.Failure? ==> Contents() == old(Contents())
      ensures followerName !in users ==> r == Failure(UserNotFound)
      ensures followerName in users ==>
        var pair := (users[followerName].id, currentId);
        && (pair !in old(edges) ==> r == Failure(NotFollowing))
        && (pair in old(edges) ==>
              && r == Success(())
              && edges == old(edges) - {pair}
              && requests == old(requests)
              && summary == Recount(old(summary), edges, pair.0, pair.1))
    {
      if followerName !in users {
        return Failure(UserNotFound);
      }
      var f := users[followerName].id;
      if (f, currentId) !in edges {
        return Failure(NotFollowing);
      }
      DropEdge((f, currentId));
      r := Success(());
    }
  }

  /** The request with this id, addressed to this user and still pending. */
  predicate RequestFor(requests: map<Edge, FollowRequest>, k: Edge, requestId: nat, callerId: UserId)
    requires k in requests
  {
    requests[k].id == requestId && k.1 == callerId && requests[k].status == Pending
  }

  predicate HasRequestFor(requests: map<Edge, FollowRequest>, requestId: nat, callerId: UserId)
  {
    exists k :: k in requests && RequestFor(requests, k, requestId, callerId)
  }

  // ---------------------------------------------------------------------
  // The follower and following listings (read-only)

  /** One row of a listing, annotated from the viewer's side. */
  datatype ListedUser = ListedUser(id: UserId, isFollowing: bool, followRequestStatus: Option<RequestStatus>)

  datatype ListError = ListUserNotFound | PrivateProfile

  /** The viewer's relation to a listed user: whether the viewer follows
      them, and the status of the viewer's request row to them, whatever it is. */
  function Annotate(edges: set<Edge>, requests: map<Edge, FollowRequest>, viewer: UserId, u: UserId): ListedUser
  {
    ListedUser(u, (viewer, u) in edges,
      if (viewer, u) in requests then Some(requests[(viewer, u)].status) else None)
  }

  /** getFollowers (viewer == owner) and the list behind getUserFollowers. */
  function FollowersListing(edges: set<Edge>, requests: map<Edge, FollowRequest>, viewer: UserId, owner: UserId): (rows: set<ListedUser>)
    ensures forall e :: e in edges && e.1 == owner ==> Annotate(edges, requests, viewer, e.0) in rows
    ensures forall row :: row in rows ==> (row.id, owner) in edges && row == Annotate(edges, requests, viewer, row.id)
  {
    set e | e in edges && e.1 == owner :: Annotate(edges, requests, viewer, e.0)
  }

  /** getFollowing (viewer == owner) and the list behind getUserFollowing. */
  function FollowingListing(edges: set<Edge>, requests: map<Edge, FollowRequest>, viewer: UserId, owner: UserId): (rows: set<ListedUser>)
    ensures forall e :: e in edges && e.0 == owner ==> Annotate(edges, requests, viewer, e.1) in rows
    ensures forall row :: row in rows ==> (owner, row.id) in edges && row == Annotate(edges, requests, viewer, row.id)
  {
    set e | e in edges && e.0 == owner :: Annotate(edges, requests, viewer, e.1)
  }

  /** The privacy gate of getUserFollowers and getUserFollowing: an
      unknown user is 404; a private profile is listed only to its followers. */
  function ListingGate(profiles: map<UserId, bool>, edges: set<Edge>, viewer: UserId, owner: UserId): (r: Result<(), ListError>)
    ensures owner !in profiles ==> r == Failure(ListUserNotFound)
    ensures owner in profiles ==> (r.Success? <==> profiles[owner] || (viewer, owner) in edges)
    ensures r.Failure? && owner in profiles ==> r.error == PrivateProfile
  {
    if owner !in profiles then Failure(ListUserNotFound)
    else if !profiles[owner] && (viewer, owner) !in edges then Failure(PrivateProfile)
    else Success(())
  }

  /** getUserFollowers. */
  function UserFollowers(profiles: map<UserId, bool>, edges: set<Edge>, requests: map<Edge, FollowRequest>, viewer: UserId, owner: UserId)
    : (r: Result<set<ListedUser>, ListError>)
    ensures r.Success? <==> ListingGate(profiles, edges, viewer, owner).Success?
    ensures r.Success? ==> r.value == FollowersListing(edges, requests, viewer, owner)
  {
    match ListingGate(profiles, edges, viewer, owner)
    case Failure(e) => Failure(e)
    case Success(_) => Success(FollowersListing(edges, requests, viewer, owner))
  }

  /** getUserFollowing. */
  function UserFollowing(profiles: map<UserId, bool>, edges: set<Edge>, requests: map<Edge, FollowRequest>, viewer: UserId, owner: UserId)
    : (r: Result<set<ListedUser>, ListError>)
    ensures r.Success? <==> ListingGate(profiles, edges, viewer, owner).Success?
    ensures r.Success? ==> r.value == FollowingListing(edges, requests, viewer, owner)
  {
    match ListingGate(profiles, edges, viewer, owner)
    case Failure(e) => Failure(e)
    case Success(_) => Success(FollowingListing(edges, requests, viewer, owner))
  }

  /** Under the store's invariant, no listed user is shown as both
      followed and awaiting approval. */
  lemma ListingNeverFollowingAndPending(edges: set<Edge>, requests: map<Edge, FollowRequest>, viewer: UserId, owner: UserId)
    requires NoPendingEdge(edges, requests)
    ensures forall row :: row in FollowersListing(edges, requests, viewer, owner) ==>
      !(row.isFollowing && row.followRequestStatus == Some(Pending))
    ensures forall row :: row in FollowingListing(edges, requests, viewer, owner) ==>
      !(row.isFollowing && row.followRequestStatus == Some(Pending))
  {
    forall row | row in FollowersListing(edges, requests, viewer, owner)
      ensures !(row.isFollowing && row.followRequestStatus == Some(Pending))
    {
      if row.isFollowing && (viewer, row.id) in requests {
        assert (viewer, row.id) in edges;
      }
    }
    forall row | row in FollowingListing(edges, requests, viewer, owner)
      ensures !(row.isFollowing && row.followRequestStatus == Some(Pending))
    {
      if row.isFollowing && (viewer, row.id) in requests {
        assert (viewer, row.id) in edges;
      }
    }
  }

  /** A private profile cannot list its own followers or following through
      the by-id routes, since nobody follows themselves. */
  lemma OwnPrivateListingDenied(profiles: map<UserId, bool>, edges: set<Edge>, u: UserId)
    requires NoSelfEdges(edges)
    requires u in profiles && !profiles[u]
    ensures ListingGate(profiles, edges, u, u) == Failure(PrivateProfile)
  {
    assert (u, u) !in edges;
  }
}
