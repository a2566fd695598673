/** User search and the public profile page: who a search lists and how
    it pages through them, and what of a profile a visitor may see. */
module Search {
  import opened Common
  import opened Text
  import opened Query
  import FollowGraph
  import Links
  import Projects

  /** The users table, as the two handlers read it. */
  datatype UserRow = UserRow(id: UserId, firstName: string, lastName: string, userName: string,
                             bio: Option<string>, pictureUrl: Option<string>, isPublic: bool, createdAt: int)

  /** The follow tables the listing joins. */
  datatype Relations = Relations(edges: set<FollowGraph.Edge>,
                                 requests: map<FollowGraph.Edge, FollowGraph.FollowRequest>,
                                 summary: map<UserId, FollowGraph.Counters>)

  // ---------------------------------------------------------------------
  // Paging parameters

  /** `Math.max(1, parseInt(page) || 1)`; None stands for an absent or
      unparsable parameter. */
  function PageNumber(page: Option<int>): (r: int)
    ensures r >= 1
    ensures page.Some? && page.value >= 1 ==> r == page.value
    ensures page.None? || page.value < 1 ==> r == 1
  {
    var p := OrDefault(page, 1);
    if p < 1 then 1 else p
  }

  /** `Math.min(20, Math.max(5, parseInt(limit) || 10))`. */
  function LimitNumber(limit: Option<int>): (r: int)
    ensures 5 <= r <= 20
    ensures limit.Some? && 5 <= limit.value <= 20 ==> r == limit.value
    ensures limit.None? || limit.value == 0 ==> r == 10
    ensures limit.Some? && limit.value != 0 && limit.value < 5 ==> r == 5
    ensures limit.Some? && limit.value > 20 ==> r == 20
  {
    var l := OrDefault(limit, 10);
    var atLeast := if l < 5 then 5 else l;
    if atLeast > 20 then 20 else atLeast
  }

  /** `(pageNum - 1) * limitNum`: the number of matches on earlier pages. */
  function Offset(page: Option<int>, limit: Option<int>): (r: nat)
    ensures r == (PageNumber(page) - 1) * LimitNumber(limit)
    ensures r == 0 <==> PageNumber(page) == 1
  {
    var p, l := PageNumber(page), LimitNumber(limit);
    MulMono(l, 0, p - 1);
    assert p > 1 ==> l * 1 <= l * (p - 1) by {
      if p > 1 {
        MulMono(l, 1, p - 1);
      }
    }
    (p - 1) * l
  }

  /** `Math.ceil(total / limit)`: the fewest pages of `limit` rows that hold `total` rows. */
  function TotalPages(total: nat, limit: int): (r: nat)
    requires limit > 0
    ensures r == 0 <==> total == 0
    ensures (r - 1) * limit < total <= r * limit || total == 0
  {
    var a := total + limit - 1;
    var q := a / limit;
    DivBounds(a, limit);
    assert limit * (q - 1) == limit * q - limit;
    q
  }

  /** The page after `page` holds rows exactly when `page` pages do not hold them all. */
  lemma PagesLeft(page: int, limit: int, total: nat)
    requires page >= 1 && limit > 0
    ensures page < TotalPages(total, limit) <==> page * limit < total
  {
    var t := TotalPages(total, limit);
    if page < t {
      MulMono(limit, page, t - 1);
      assert limit * page <= limit * (t - 1);
    }
    if page >= t {
      MulMono(limit, t, page);
      assert limit * t <= limit * page;
    }
  }

  // ---------------------------------------------------------------------
  // Who a search lists

  /** `query ? query.trim() : ""`. */
  function SearchTerms(query: Option<string>): (r: string)
    ensures query.None? ==> r == []
    ensures query.Some? ==> r == Trim(query.value)
  {
    if query.None? then [] else Trim(query.value)
  }

  /** The three `LOWER(…) LIKE LOWER('%terms%')` tests: the folded terms
      occur in the first name, the last name or the full name. */
  predicate NameMatches(u: UserRow, terms: string)
  {
    var t := ToLower(terms);
    Contains(ToLower(u.firstName), t) || Contains(ToLower(u.lastName), t)
    || Contains(ToLower(u.firstName + " " + u.lastName), t)
  }

  /** The WHERE of the listing and of the count: never the caller, and,
      once the terms have two characters, only name matches. */
  predicate Shown(u: UserRow, terms: string, viewer: Option<UserId>)
  {
    (viewer.None? || u.id != viewer.value) && (|terms| < 2 || NameMatches(u, terms))
  }

  /** The matching users, in the order the listing gives them. */
  function Matched(users: seq<UserRow>, terms: string, viewer: Option<UserId>): (r: seq<UserRow>)
    ensures |r| <= |users|
    ensures forall u :: u in r <==> u in users && Shown(u, terms, viewer)
  {
    Filter(users, (u: UserRow) => Shown(u, terms, viewer))
  }

  /** Letter case never hides a user: terms of two or more characters found
      as written in a first or last name find that user. */
  lemma MatchIgnoresCase(users: seq<UserRow>, u: UserRow, terms: string, viewer: Option<UserId>)
    requires u in users && (viewer.None? || u.id != viewer.value)
    requires Contains(u.firstName, terms) || Contains(u.lastName, terms)
    ensures u in Matched(users, terms, viewer)
  {
    if Contains(u.firstName, terms) {
      ContainsFolded(u.firstName, terms);
    } else {
      ContainsFolded(u.lastName, terms);
    }
  }

  /** Terms shorter than two characters list every user but the caller. */
  lemma ShortTermsListEveryone(users: seq<UserRow>, query: Option<string>, viewer: Option<UserId>, u: UserRow)
    requires |SearchTerms(query)| < 2
    ensures u in Matched(users, SearchTerms(query), viewer) <==> u in users && (viewer.None? || u.id != viewer.value)
  {
  }

  // ---------------------------------------------------------------------
  // What a search returns

  datatype UserSummary = UserSummary(id: UserId, firstName: string, lastName: string, userName: string,
                                     bio: Option<string>, pictureUrl: Option<string>,
                                     followersCount: nat, followingCount: nat, isPublic: bool,
                                     isFollowing: bool, followRequestStatus: Option<FollowGraph.RequestStatus>)

  datatype Pagination = Pagination(currentPage: int, totalPages: nat, totalUsers: nat, limit: int,
                                   hasNextPage: bool, hasPrevPage: bool)

  datatype SearchReply = SearchReply(users: seq<UserSummary>, pagination: Pagination)

  /** The user's bio, cut to 100 characters and marked with "..." when
      longer; a missing or empty bio is null. */
  function ShortBio(bio: Option<string>): (r: Option<string>)
    ensures r.None? <==> bio.None? || bio.value == []
    ensures r.Some? && |bio.value| <= 100 ==> r == bio
    ensures r.Some? && |bio.value| > 100 ==> |r.value| == 103 && r.value[..100] == bio.value[..100]
    ensures r.Some? ==> |r.value| <= 103
  {
    if bio.None? || bio.value == [] then None
    else if |bio.value| > 100 then Some(bio.value[..100] + "...")
    else bio
  }

  /** The `COALESCE(…, 0)` of a user without a followers_summary row. */
  function CountersOf(summary: map<UserId, FollowGraph.Counters>, u: UserId): (r: FollowGraph.Counters)
    ensures u in summary ==> r == summary[u]
    ensures u !in summary ==> r == FollowGraph.Counters(0, 0)
  {
    if u in summary then summary[u] else FollowGraph.Counters(0, 0)
  }

  /** The follows join: the caller follows `u`; never for an anonymous caller. */
  predicate Follows(edges: set<FollowGraph.Edge>, viewer: Option<UserId>, u: UserId)
  {
    viewer.Some? && (viewer.value, u) in edges
  }

  /** The follow_requests join: the status of the caller's request to `u`, if any. */
  function RequestStatusOf(requests: map<FollowGraph.Edge, FollowGraph.FollowRequest>,
                           viewer: Option<UserId>, u: UserId): (r: Option<FollowGraph.RequestStatus>)
    ensures r.Some? <==> viewer.Some? && (viewer.value, u) in requests
    ensures r.Some? ==> r.value == requests[(viewer.value, u)].status
  {
    if viewer.Some? && (viewer.value, u) in requests then Some(requests[(viewer.value, u)].status) else None
  }

  /** One row of the listing, as the handler maps it. */
  function SummaryOf(u: UserRow, rel: Relations, viewer: Option<UserId>): (r: UserSummary)
    ensures r.id == u.id && r.userName == u.userName && r.isPublic == u.isPublic
    ensures r.bio == ShortBio(u.bio)
    ensures r.isFollowing <==> Follows(rel.edges, viewer, u.id)
    ensures r.followRequestStatus == RequestStatusOf(rel.requests, viewer, u.id)
    ensures viewer.None? ==> !r.isFollowing && r.followRequestStatus.None?
    ensures FollowGraph.CountersExact(rel.summary, rel.edges) && u.id in rel.summary ==>
      && r.followersCount == |FollowGraph.InEdges(rel.edges, u.id)|
      && r.followingCount == |FollowGraph.OutEdges(rel.edges, u.id)|
    ensures u.id !in rel.summary ==> r.followersCount == 0 && r.followingCount == 0
  {
    var c := CountersOf(rel.summary, u.id);
    UserSummary(u.id, u.firstName, u.lastName, u.userName, ShortBio(u.bio), u.pictureUrl,
                c.followersCount, c.followingCount, u.isPublic,
                Follows(rel.edges, viewer, u.id), RequestStatusOf(rel.requests, viewer, u.id))
  }

  /** searchUsers: one page of the matching users, and the count of all of them. */
  function SearchUsers(users: seq<UserRow>, rel: Relations, query: Option<string>,
                       page: Option<int>, limit: Option<int>, viewer: Option<UserId>): (r: SearchReply)
    ensures r.pagination.currentPage == PageNumber(page) && r.pagination.limit == LimitNumber(limit)
    ensures r.pagination.totalUsers == |Matched(users, SearchTerms(query), viewer)|
    ensures r.pagination.totalPages == TotalPages(r.pagination.totalUsers, r.pagination.limit)
    ensures |r.users| <= r.pagination.limit
    ensures forall i :: 0 <= i < |r.users| ==>
      && Offset(page, limit) + i < r.pagination.totalUsers
      && r.users[i] == SummaryOf(Matched(users, SearchTerms(query), viewer)[Offset(page, limit) + i], rel, viewer)
    ensures Offset(page, limit) + r.pagination.limit <= r.pagination.totalUsers ==> |r.users| == r.pagination.limit
    ensures Offset(page, limit) + r.pagination.limit > r.pagination.totalUsers ==>
      |r.users| == if Offset(page, limit) < r.pagination.totalUsers then r.pagination.totalUsers - Offset(page, limit) else 0
    ensures r.pagination.hasNextPage <==> r.pagination.currentPage < r.pagination.totalPages
    ensures r.pagination.hasPrevPage <==> Offset(page, limit) > 0
  {
    var terms := SearchTerms(query);
    var pageNum, limitNum := PageNumber(page), LimitNumber(limit);
    var matched := Matched(users, terms, viewer);
    var shown := Page(matched, Offset(page, limit), limitNum);
    var total := |matched|;
    var pages := TotalPages(total, limitNum);
    SearchReply(seq(|shown|, i requires 0 <= i < |shown| => SummaryOf(shown[i], rel, viewer)),
                Pagination(pageNum, pages, total, limitNum, pageNum < pages, pageNum > 1))
  }

  /** Nobody finds themselves: an authenticated caller is never in their own results. */
  lemma NeverSelf(users: seq<UserRow>, rel: Relations, query: Option<string>,
                  page: Option<int>, limit: Option<int>, me: UserId)
    ensures forall s :: s in SearchUsers(users, rel, query, page, limit, Some(me)).users ==> s.id != me
  {
    var r := SearchUsers(users, rel, query, page, limit, Some(me));
    var m := Matched(users, SearchTerms(query), Some(me));
    forall s | s in r.users ensures s.id != me {
      var i :| 0 <= i < |r.users| && r.users[i] == s;
      assert m[Offset(page, limit) + i] in m;
    }
  }

  /** `hasNextPage` tells the truth: it is set exactly when matches remain
      after the ones on this page. */
  lemma HasNextPageIffMoreMatches(users: seq<UserRow>, rel: Relations, query: Option<string>,
                                  page: Option<int>, limit: Option<int>, viewer: Option<UserId>)
    ensures var r := SearchUsers(users, rel, query, page, limit, viewer);
      r.pagination.hasNextPage <==> Offset(page, limit) + |r.users| < r.pagination.totalUsers
  {
    var r := SearchUsers(users, rel, query, page, limit, viewer);
    var p, l, total := PageNumber(page), LimitNumber(limit), r.pagination.totalUsers;
    var offset := Offset(page, limit);
    PagesLeft(p, l, total);
    assert p * l == offset + l;
  }

  /** A match whose position falls in a page's window is shown on that page. */
  lemma ShownOnPage(users: seq<UserRow>, rel: Relations, query: Option<string>,
                    page: Option<int>, limit: Option<int>, viewer: Option<UserId>, k: nat)
    requires Offset(page, limit) <= k < Offset(page, limit) + LimitNumber(limit)
    requires k < |Matched(users, SearchTerms(query), viewer)|
    ensures var r := SearchUsers(users, rel, query, page, limit, viewer);
      && k - Offset(page, limit) < |r.users|
      && r.users[k - Offset(page, limit)] == SummaryOf(Matched(users, SearchTerms(query), viewer)[k], rel, viewer)
  {
    var r := SearchUsers(users, rel, query, page, limit, viewer);
    var off := Offset(page, limit);
    assert k - off < |r.users|;
    assert off + (k - off) == k;
  }

  /** The window of page `k / limit + 1` holds position `k`. */
  lemma PageOfPosition(k: nat, limit: int)
    requires 5 <= limit <= 20
    ensures var page := Some(k / limit + 1);
      Offset(page, Some(limit)) <= k < Offset(page, Some(limit)) + LimitNumber(Some(limit))
  {
    var q := k / limit;
    DivBounds(k, limit);
    assert PageNumber(Some(q + 1)) == q + 1 && LimitNumber(Some(limit)) == limit;
    assert Offset(Some(q + 1), Some(limit)) == limit * q;
  }

  /** Paging finds every match: with a limit in range, the match at
      position `k` of the listing is on page `k / limit + 1`. */
  lemma EveryMatchOnSomePage(users: seq<UserRow>, rel: Relations, query: Option<string>,
                             limit: int, viewer: Option<UserId>, k: nat)
    requires 5 <= limit <= 20
    requires k < |Matched(users, SearchTerms(query), viewer)|
    ensures var page := Some(k / limit + 1);
      var r := SearchUsers(users, rel, query, page, Some(limit), viewer);
      && Offset(page, Some(limit)) <= k < Offset(page, Some(limit)) + |r.users|
      && r.users[k - Offset(page, Some(limit))] == SummaryOf(Matched(users, SearchTerms(query), viewer)[k], rel, viewer)
  {
    PageOfPosition(k, limit);
    ShownOnPage(users, rel, query, Some(k / limit + 1), Some(limit), viewer, k);
  }

  // ---------------------------------------------------------------------
  // The public profile

  datatype AccessMessage =
    | FollowToSee  // "This profile is private. Follow to see their content."
    | LogInToSee   // "Please log in to view this profile."

  datatype ProfileError = UserNotFound  // 404 USER_NOT_FOUND

  datatype Profile = Profile(id: UserId, firstName: string, lastName: string, userName: string,
                             bio: Option<string>, pictureUrl: Option<string>, isPublic: bool, createdAt: int,
                             followersCount: nat, followingCount: nat, isFollowing: bool,
                             followRequestStatus: Option<FollowGraph.RequestStatus>,
                             links: seq<Links.LinkView>, projects: seq<Projects.ProjectCard>,
                             canViewFullProfile: bool, accessMessage: Option<AccessMessage>)

  /** `SELECT id FROM users WHERE user_name = $1`. */
  function FindByName(users: seq<UserRow>, name: string): (r: Option<UserRow>)
    ensures r.None? <==> forall u :: u in users ==> u.userName != name
    ensures r.Some? ==> r.value in users && r.value.userName == name
  {
    if users == [] then None
    else if users[0].userName == name then Some(users[0])
    else FindByName(users[1..], name)
  }

  /** Who sees the whole profile: anyone when it is public, its followers, and its owner. */
  predicate CanViewFullProfile(u: UserRow, edges: set<FollowGraph.Edge>, viewer: Option<UserId>)
  {
    u.isPublic || Follows(edges, viewer, u.id) || viewer == Some(u.id)
  }

  /** The profile join reports only a pending request. */
  function PendingOnly(s: Option<FollowGraph.RequestStatus>): (r: Option<FollowGraph.RequestStatus>)
    ensures r.Some? <==> s == Some(FollowGraph.Pending)
    ensures r.Some? ==> r == s
  {
    if s == Some(FollowGraph.Pending) then s else None
  }

  function LinkNewestFirst(l: Links.Link): (int, int)
  {
    (-l.createdAt, 0)
  }

  /** `SELECT … FROM user_links WHERE user_id = $1 ORDER BY created_at DESC`. */
  function ProfileLinks(rows: seq<Links.Link>, u: UserId): (r: seq<Links.Link>)
    ensures forall l :: l in r <==> l in rows && l.owner == u
    ensures SortedBy(r, LinkNewestFirst)
  {
    var mine := Links.LinksOf(rows, u);
    var sorted := SortBy(mine, LinkNewestFirst);
    assert forall l :: l in sorted <==> l in mine by {
      forall l ensures l in sorted <==> l in mine { SortByMembers(mine, LinkNewestFirst, l); }
    }
    sorted
  }

  function LinkViews(s: seq<Links.Link>): (r: seq<Links.LinkView>)
    ensures |r| == |s|
    ensures forall i :: 0 <= i < |s| ==> r[i] == Links.LinkView(s[i].id, s[i].title, s[i].url)
  {
    seq(|s|, i requires 0 <= i < |s| => Links.LinkView(s[i].id, s[i].title, s[i].url))
  }

  /** getPublicProfile: 404 for an unknown handle; otherwise the profile,
      with its links and projects only for those allowed to see them. */
  function PublicProfile(users: seq<UserRow>, rel: Relations, links: seq<Links.Link>,
                         projects: seq<Projects.Project>, likes: set<Projects.Like>,
                         userName: string, viewer: Option<UserId>): (r: Result<Profile, ProfileError>)
    ensures r.Failure? <==> FindByName(users, userName).None?
    ensures r.Success? ==>
      var u := FindByName(users, userName).value;
      && r.value.id == u.id && r.value.userName == userName
      && (r.value.canViewFullProfile <==> CanViewFullProfile(u, rel.edges, viewer))
      && (r.value.isFollowing <==> Follows(rel.edges, viewer, u.id))
      && r.value.followRequestStatus == PendingOnly(RequestStatusOf(rel.requests, viewer, u.id))
    ensures r.Success? && !r.value.canViewFullProfile ==>
      && r.value.links == [] && r.value.projects == [] && r.value.bio.None?
      && r.value.accessMessage == Some(if viewer.Some? then FollowToSee else LogInToSee)
    ensures r.Success? && r.value.canViewFullProfile ==>
      && r.value.links == LinkViews(ProfileLinks(links, r.value.id))
      && r.value.projects == Projects.OwnProjects(projects, likes, r.value.id)
      && r.value.accessMessage.None?
  {
    var found := FindByName(users, userName);
    if found.None? then Failure(UserNotFound)
    else
      var u := found.value;
      var c := CountersOf(rel.summary, u.id);
      var status := PendingOnly(RequestStatusOf(rel.requests, viewer, u.id));
      var following := Follows(rel.edges, viewer, u.id);
      if !CanViewFullProfile(u, rel.edges, viewer) then
        Success(Profile(u.id, u.firstName, u.lastName, u.userName, None, u.pictureUrl, u.isPublic, u.createdAt,
                        c.followersCount, c.followingCount, following, status, [], [], false,
                        Some(if viewer.Some? then FollowToSee else LogInToSee)))
      else
        var bio := if u.bio == Some([]) then None else u.bio;
        Success(Profile(u.id, u.firstName, u.lastName, u.userName, bio, u.pictureUrl, u.isPublic, u.createdAt,
                        c.followersCount, c.followingCount, following, status,
                        LinkViews(ProfileLinks(links, u.id)), Projects.OwnProjects(projects, likes, u.id),
                        true, None))
  }

  /** The profile page and the projects endpoint agree: the profile lists
      a user's projects exactly when getUserProjectsWithAccess would let
      the same visitor see them. */
  lemma ProfileAgreesWithProjectsAccess(users: seq<UserRow>, rel: Relations, links: seq<Links.Link>,
                                        projects: seq<Projects.Project>, likes: set<Projects.Like>,
                                        userName: string, viewer: Option<UserId>, isPublic: map<UserId, bool>)
    requires PublicProfile(users, rel, links, projects, likes, userName, viewer).Success?
    requires var u := FindByName(users, userName).value; u.id in isPublic && isPublic[u.id] == u.isPublic
    ensures var p := PublicProfile(users, rel, links, projects, likes, userName, viewer).value;
      p.canViewFullProfile <==> Projects.ProjectsAccess(isPublic, rel.edges, p.id, viewer).Success?
  {
  }

  /** A private profile shows a stranger nothing of its content, and
      following the user is what opens it. */
  lemma FollowingOpensPrivateProfile(users: seq<UserRow>, rel: Relations, links: seq<Links.Link>,
                                     projects: seq<Projects.Project>, likes: set<Projects.Like>,
                                     userName: string, me: UserId)
    requires FindByName(users, userName).Some?
    requires var u := FindByName(users, userName).value; !u.isPublic && u.id != me
    ensures var u := FindByName(users, userName).value;
      var before := PublicProfile(users, rel, links, projects, likes, userName, Some(me)).value;
      var after := PublicProfile(users, rel.(edges := rel.edges + {(me, u.id)}), links, projects, likes,
                                 userName, Some(me)).value;
      && ((me, u.id) !in rel.edges ==> before.links == [] && before.projects == [])
      && after.canViewFullProfile && after.projects == Projects.OwnProjects(projects, likes, u.id)
  {
  }
}
