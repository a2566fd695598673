/** Portfolio projects (projectController): creation checks, the owner-only
    delete, the like toggle, who may list a user's projects, and the paged
    feed and public gallery. */
module Projects {
  import opened Common
  import opened Text
  import opened Query
  import FollowGraph

  /** A projects row. */
  datatype Project = Project(id: ProjectId, owner: UserId, title: string, description: Option<string>,
                             imageUrls: seq<string>, createdAt: int)

  datatype ProjectError = TitleTooShort | TitleTooLong | DescriptionTooLong | NotFound | Forbidden
                        | UserNotFound | AccessDenied | BadPaging
                        | NoSuchProject  // 500: a like for a missing project breaks the foreign key

  /** A project_likes row: (user_id, project_id). */
  type Like = (UserId, ProjectId)

  // ---------------------------------------------------------------------
  // Creation

  /** createProject's checks, in order. The multipart form gives the title
      and description as strings when present. */
  function ValidateCreate(title: Option<string>, description: Option<string>): (r: Result<(), ProjectError>)
    ensures r.Success? <==>
      && title.Some? && 3 <= |Trim(title.value)| && |title.value| <= 100
      && (description.Some? ==> |description.value| <= 500)
    ensures title.None? || |Trim(title.value)| < 3 ==> r == Failure(TitleTooShort)
    ensures r == Failure(TitleTooLong) ==> title.Some? && 3 <= |Trim(title.value)| && |title.value| > 100
    ensures r == Failure(DescriptionTooLong) ==>
      && title.Some? && 3 <= |Trim(title.value)| <= |title.value| <= 100
      && description.Some? && |description.value| > 500
  {
    if title.None? || title.value == "" || |Trim(title.value)| < 3 then Failure(TitleTooShort)
    else if |title.value| > 100 then Failure(TitleTooLong)
    else if description.Some? && description.value != "" && |description.value| > 500 then Failure(DescriptionTooLong)
    else Success(())
  }

  /** The row createProject inserts: trimmed title, trimmed description or null. */
  function NewProject(id: ProjectId, owner: UserId, title: string, description: Option<string>,
                      imageUrls: seq<string>, now: int): (r: Project)
    ensures r.id == id && r.owner == owner && r.imageUrls == imageUrls && r.createdAt == now
    ensures r.title == Trim(title) && r.description == TrimOrNull(description)
  {
    Project(id, owner, Trim(title), TrimOrNull(description), imageUrls, now)
  }

  // ---------------------------------------------------------------------
  // Likes

  /** toggleLike on the like set: remove the pair if present, add it otherwise. */
  function Toggled(likes: set<Like>, u: UserId, p: ProjectId): (r: set<Like>)
    ensures (u, p) in r <==> (u, p) !in likes
    ensures forall x :: x != (u, p) ==> (x in r <==> x in likes)
  {
    if (u, p) in likes then likes - {(u, p)} else likes + {(u, p)}
  }

  /** Toggling twice restores the like set. */
  lemma ToggleTwice(likes: set<Like>, u: UserId, p: ProjectId)
    ensures Toggled(Toggled(likes, u, p), u, p) == likes
  {
    var r := Toggled(Toggled(likes, u, p), u, p);
    assert forall x :: x in r <==> x in likes;
  }

  /** `COUNT(pl.id)` for one project. */
  function LikesCount(likes: set<Like>, p: ProjectId): nat
  {
    |LikesOf(likes, p)|
  }

  function LikesOf(likes: set<Like>, p: ProjectId): (r: set<Like>)
    ensures forall x :: x in r <==> x in likes && x.1 == p
  {
    set x | x in likes && x.1 == p
  }

  /** A toggle moves the project's like count by exactly one, and leaves
      every other project's count alone. */
  lemma {:induction false} ToggleCount(likes: set<Like>, u: UserId, p: ProjectId, q: ProjectId)
    ensures (u, p) in likes ==> LikesCount(Toggled(likes, u, p), p) == LikesCount(likes, p) - 1
    ensures (u, p) !in likes ==> LikesCount(Toggled(likes, u, p), p) == LikesCount(likes, p) + 1
    ensures q != p ==> LikesCount(Toggled(likes, u, p), q) == LikesCount(likes, q)
  {
    var t := Toggled(likes, u, p);
    if (u, p) in likes {
      assert LikesOf(t, p) == LikesOf(likes, p) - {(u, p)};
    } else {
      assert LikesOf(t, p) == LikesOf(likes, p) + {(u, p)};
    }
    if q != p {
      assert LikesOf(t, q) == LikesOf(likes, q);
    }
  }

  // ---------------------------------------------------------------------
  // Listing a user's projects

  /** The access rule of getUserProjectsWithAccess: an unknown user is 404;
      otherwise a public profile, a followed one or one's own is visible. */
  function ProjectsAccess(isPublic: map<UserId, bool>, edges: set<FollowGraph.Edge>,
                          target: UserId, viewer: Option<UserId>): (r: Result<(), ProjectError>)
    ensures r == Failure(UserNotFound) <==> target !in isPublic
    ensures target in isPublic && isPublic[target] ==> r.Success?
    ensures viewer == Some(target) && target in isPublic ==> r.Success?
    ensures viewer.Some? && (viewer.value, target) in edges && target in isPublic ==> r.Success?
    ensures viewer.None? && target in isPublic ==> (r.Success? <==> isPublic[target])
    ensures r == Failure(AccessDenied) ==>
      && target in isPublic && !isPublic[target]
      && (viewer.Some? ==> viewer.value != target && (viewer.value, target) !in edges)
  {
    if target !in isPublic then Failure(UserNotFound)
    else if isPublic[target] || (viewer.Some? && ((viewer.value, target) in edges || viewer.value == target)) then
      Success(())
    else Failure(AccessDenied)
  }

  /** Following someone never takes away access to their projects. */
  lemma MoreEdgesMoreAccess(isPublic: map<UserId, bool>, edges: set<FollowGraph.Edge>,
                            edges': set<FollowGraph.Edge>, target: UserId, viewer: Option<UserId>)
    requires edges <= edges'
    requires ProjectsAccess(isPublic, edges, target, viewer).Success?
    ensures ProjectsAccess(isPublic, edges', target, viewer).Success?
  {
  }

  /** A project with its like count, as the listings return it. */
  datatype ProjectCard = ProjectCard(project: Project, likesCount: nat)

  function NewestFirst(p: Project): (int, int)
  {
    (-p.createdAt, 0)
  }

  /** Rows of one author, newest first. */
  function ByAuthor(rows: seq<Project>, u: UserId): (r: seq<Project>)
    ensures forall q :: q in r <==> q in rows && q.owner == u
    ensures SortedBy(r, NewestFirst)
  {
    var mine := Filter(rows, (q: Project) => q.owner == u);
    var sorted := SortBy(mine, NewestFirst);
    assert forall q :: q in sorted <==> q in mine by {
      forall q ensures q in sorted <==> q in mine { SortByMembers(mine, NewestFirst, q); }
    }
    sorted
  }

  /** Each row with its `COUNT(pl.id)`. */
  function Cards(s: seq<Project>, likes: set<Like>): (r: seq<ProjectCard>)
    ensures |r| == |s|
    ensures forall i :: 0 <= i < |s| ==> r[i] == ProjectCard(s[i], LikesCount(likes, s[i].id))
  {
    seq(|s|, i requires 0 <= i < |s| => ProjectCard(s[i], LikesCount(likes, s[i].id)))
  }

  /** `WHERE p.user_id = $1 … ORDER BY p.created_at DESC`, with like counts:
      the author's projects as ByAuthor lists them, each with its count. */
  function OwnProjects(rows: seq<Project>, likes: set<Like>, u: UserId): (r: seq<ProjectCard>)
    ensures |r| == |ByAuthor(rows, u)|
    ensures forall i :: 0 <= i < |r| ==>
      r[i].project == ByAuthor(rows, u)[i] && r[i].likesCount == LikesCount(likes, r[i].project.id)
  {
    Cards(ByAuthor(rows, u), likes)
  }

  /** getUserProjectsWithAccess: the access rule, then the user's projects. */
  function UserProjectsWithAccess(rows: seq<Project>, likes: set<Like>, isPublic: map<UserId, bool>,
                                  edges: set<FollowGraph.Edge>, target: UserId, viewer: Option<UserId>)
    : (r: Result<seq<ProjectCard>, ProjectError>)
    ensures r.Failure? <==> ProjectsAccess(isPublic, edges, target, viewer).Failure?
    ensures r.Failure? ==> r.error == ProjectsAccess(isPublic, edges, target, viewer).error
    ensures r.Success? ==> r.value == OwnProjects(rows, likes, target)
  {
    var access := ProjectsAccess(isPublic, edges, target, viewer);
    if access.Failure? then Failure(access.error) else Success(OwnProjects(rows, likes, target))
  }

  // ---------------------------------------------------------------------
  // Feed and gallery

  /** A listed project: its like count and whether the viewer liked it. */
  datatype FeedItem = FeedItem(project: Project, likesCount: nat, isLiked: bool)

  datatype FeedPage = FeedPage(items: seq<FeedItem>, page: int, limit: int, hasMore: bool)

  /** The projects the listing joins with their author (`JOIN users`), and
      for the gallery only those whose author's profile is public, newest first. */
  function Listing(rows: seq<Project>, isPublic: map<UserId, bool>, publicOnly: bool): (r: seq<Project>)
    ensures forall q :: q in r <==> q in rows && q.owner in isPublic && (publicOnly ==> isPublic[q.owner])
    ensures SortedBy(r, NewestFirst)
  {
    var shown := Filter(rows, (q: Project) => q.owner in isPublic && (publicOnly ==> isPublic[q.owner]));
    var sorted := SortBy(shown, NewestFirst);
    assert forall q :: q in sorted <==> q in shown by {
      forall q ensures q in sorted <==> q in shown { SortByMembers(shown, NewestFirst, q); }
    }
    sorted
  }

  function ItemOf(p: Project, likes: set<Like>, viewer: Option<UserId>): FeedItem
  {
    FeedItem(p, LikesCount(likes, p.id), viewer.Some? && (viewer.value, p.id) in likes)
  }

  /** One page of a listing: `parseInt(page) || 1`, `parseInt(limit) || 10`,
      `OFFSET (page - 1) * limit`; a negative LIMIT or OFFSET is an SQL error. */
  function ListingPage(rows: seq<Project>, isPublic: map<UserId, bool>, likes: set<Like>, viewer: Option<UserId>,
                       pageParam: Option<int>, limitParam: Option<int>, publicOnly: bool)
    : (r: Result<FeedPage, ProjectError>)
    ensures r.Failure? <==>
      OrDefault(limitParam, 10) < 0 || (OrDefault(pageParam, 1) - 1) * OrDefault(limitParam, 10) < 0
    ensures r.Success? ==> 0 <= r.value.limit && 0 <= (r.value.page - 1) * r.value.limit
    ensures r.Success? ==>
      && r.value.page == OrDefault(pageParam, 1) && r.value.limit == OrDefault(limitParam, 10)
      && |r.value.items| <= r.value.limit
      && (r.value.hasMore <==> |r.value.items| == r.value.limit)
    ensures r.Success? ==>
      var window := Page(Listing(rows, isPublic, publicOnly), (r.value.page - 1) * r.value.limit, r.value.limit);
      && |r.value.items| == |window|
      && forall i :: 0 <= i < |window| ==> r.value.items[i] == ItemOf(window[i], likes, viewer)
  {
    var page := OrDefault(pageParam, 1);
    var limit := OrDefault(limitParam, 10);
    var offset := (page - 1) * limit;
    if limit < 0 || offset < 0 then Failure(BadPaging)
    else
      var window := Page(Listing(rows, isPublic, publicOnly), offset, limit);
      var items := seq(|window|, i requires 0 <= i < |window| => ItemOf(window[i], likes, viewer));
      Success(FeedPage(items, page, limit, |items| == limit))
  }

  /** Each item of a page is a listed project with its own like count and
      the viewer's like. */
  lemma PageItems(rows: seq<Project>, isPublic: map<UserId, bool>, likes: set<Like>, viewer: Option<UserId>,
                  pageParam: Option<int>, limitParam: Option<int>, publicOnly: bool)
    requires ListingPage(rows, isPublic, likes, viewer, pageParam, limitParam, publicOnly).Success?
    ensures forall it :: it in ListingPage(rows, isPublic, likes, viewer, pageParam, limitParam, publicOnly).value.items ==>
      it.project in Listing(rows, isPublic, publicOnly) && it == ItemOf(it.project, likes, viewer)
  {
    var r := ListingPage(rows, isPublic, likes, viewer, pageParam, limitParam, publicOnly).value;
    var window := Page(Listing(rows, isPublic, publicOnly), (r.page - 1) * r.limit, r.limit);
    forall it | it in r.items
      ensures it.project in Listing(rows, isPublic, publicOnly) && it == ItemOf(it.project, likes, viewer)
    {
      var i :| 0 <= i < |r.items| && r.items[i] == it;
      assert window[i] in Listing(rows, isPublic, publicOnly);
    }
  }

  /** getProjects: every author, for a signed-in viewer, who sees which of
      the listed projects they liked. */
  function Feed(rows: seq<Project>, isPublic: map<UserId, bool>, likes: set<Like>, viewer: UserId,
                pageParam: Option<int>, limitParam: Option<int>): (r: Result<FeedPage, ProjectError>)
    ensures r.Success? ==> forall it :: it in r.value.items ==>
      && it.project in rows && it.project.owner in isPublic
      && it.likesCount == LikesCount(likes, it.project.id)
      && (it.isLiked <==> (viewer, it.project.id) in likes)
  {
    var r := ListingPage(rows, isPublic, likes, Some(viewer), pageParam, limitParam, false);
    if r.Success? then
      PageItems(rows, isPublic, likes, Some(viewer), pageParam, limitParam, false);
      r
    else r
  }

  /** getPublicProjectGallery: public authors only; anyone may look, and
      an anonymous viewer has liked nothing. */
  function Gallery(rows: seq<Project>, isPublic: map<UserId, bool>, likes: set<Like>, viewer: Option<UserId>,
                   pageParam: Option<int>, limitParam: Option<int>): (r: Result<FeedPage, ProjectError>)
    ensures r.Success? ==> forall it :: it in r.value.items ==>
      && it.project in rows && it.project.owner in isPublic && isPublic[it.project.owner]
      && it.likesCount == LikesCount(likes, it.project.id)
      && (it.isLiked <==> viewer.Some? && (viewer.value, it.project.id) in likes)
  {
    var r := ListingPage(rows, isPublic, likes, viewer, pageParam, limitParam, true);
    if r.Success? then
      PageItems(rows, isPublic, likes, viewer, pageParam, limitParam, true);
      r
    else r
  }

  /** A page that comes back short (`hasMore` false) holds the end of the
      listing: nothing lies beyond it. */
  lemma ShortPageIsLast(rows: seq<Project>, isPublic: map<UserId, bool>, likes: set<Like>, viewer: Option<UserId>,
                        pageParam: Option<int>, limitParam: Option<int>, publicOnly: bool)
    requires ListingPage(rows, isPublic, likes, viewer, pageParam, limitParam, publicOnly).Success?
    ensures var r := ListingPage(rows, isPublic, likes, viewer, pageParam, limitParam, publicOnly).value;
      !r.hasMore ==> (r.page - 1) * r.limit + |r.items| >= |Listing(rows, isPublic, publicOnly)|
  {
  }

  /** The converse fails: `hasMore` is only a guess. A full page says there
      is more even when nothing follows it, as with one public project
      listed one per page. */
  lemma HasMoreIsAGuess()
    ensures var p := Project(1, 1, "Portfolio", None, [], 0);
      var r := ListingPage([p], map[1 := true], {}, None, None, Some(1), true);
      r.Success? && r.value.hasMore && (r.value.page - 1) * r.value.limit + |r.value.items| == 1
  {
    var p := Project(1, 1, "Portfolio", None, [], 0);
    var listing := Listing([p], map[1 := true], true);
    assert p in listing;
    assert |listing| <= 1 by {
      assert |Filter([p], (q: Project) => q.owner in map[1 := true] && (true ==> map[1 := true][q.owner]))| <= 1;
    }
  }

  // ---------------------------------------------------------------------
  // The table

  /** Row ids are below the next id to hand out, and an id names one row. */
  predicate RowsInvariant(rows: seq<Project>, nextId: nat)
  {
    && 0 < nextId
    && (forall q :: q in rows ==> q.id < nextId)
    && (forall q, q' :: q in rows && q' in rows && q.id == q'.id ==> q == q')
  }

  /** `SELECT … WHERE id = $1`. */
  function Find(rows: seq<Project>, id: ProjectId): (r: Option<Project>)
    ensures r.Some? ==> r.value in rows && r.value.id == id
    ensures r.None? ==> forall q :: q in rows ==> q.id != id
  {
    if rows == [] then None
    else if rows[0].id == id then Some(rows[0])
    else Find(rows[1..], id)
  }

  /** A row appended to the table is found only when no earlier row has its id. */
  lemma {:induction false} FindSnoc(rows: seq<Project>, x: Project, id: ProjectId)
    ensures Find(rows + [x], id) == if Find(rows, id).Some? then Find(rows, id) else if x.id == id then Some(x) else None
  {
    if rows == [] {
      assert [x][1..] == [];
    } else {
      assert (rows + [x])[0] == rows[0];
      assert (rows + [x])[1..] == rows[1..] + [x];
      if rows[0].id != id {
        FindSnoc(rows[1..], x, id);
      }
    }
  }

  /** One row under `SET title = …, description = … WHERE id = $3`. */
  function Retitle(q: Project, id: ProjectId, title: string, description: Option<string>): Project
  {
    if q.id == id then q.(title := title, description := description) else q
  }

  /** `DELETE FROM projects WHERE id = $1`: every other row, in table order. */
  function Without(rows: seq<Project>, id: ProjectId): (r: seq<Project>)
    ensures forall q :: q in r <==> q in rows && q.id != id
  {
    Filter(rows, (q: Project) => q.id != id)
  }

  /** The UPDATE applied to every row of the table. */
  function Retitled(rows: seq<Project>, id: ProjectId, title: string, description: Option<string>): (r: seq<Project>)
    ensures |r| == |rows|
    ensures forall i :: 0 <= i < |rows| ==> r[i] == Retitle(rows[i], id, title, description) && r[i].id == rows[i].id
  {
    seq(|rows|, i requires 0 <= i < |rows| => Retitle(rows[i], id, title, description))
  }

  /** Retitling keeps the table's invariant. */
  lemma RetitleKeepsInvariant(rows: seq<Project>, nextId: nat, id: ProjectId, title: string, description: Option<string>)
    requires RowsInvariant(rows, nextId)
    ensures RowsInvariant(Retitled(rows, id, title, description), nextId)
  {
    var r := Retitled(rows, id, title, description);
    forall q, q' | q in r && q' in r && q.id == q'.id
      ensures q == q'
    {
      var i :| 0 <= i < |r| && r[i] == q;
      var k :| 0 <= k < |r| && r[k] == q';
      assert rows[i] in rows && rows[k] in rows;
    }
    forall q | q in r
      ensures q.id < nextId
    {
      var i :| 0 <= i < |r| && r[i] == q;
      assert rows[i] in rows;
    }
  }

  /** After retitling, the row with that id carries the new title and
      description, and every other row is found as before. */
  lemma RetitledFind(rows: seq<Project>, nextId: nat, id: ProjectId, title: string, description: Option<string>, j: ProjectId)
    requires RowsInvariant(rows, nextId)
    ensures Find(Retitled(rows, id, title, description), j) ==
      if Find(rows, j).Some? then Some(Retitle(Find(rows, j).value, id, title, description)) else None
  {
    var r := Retitled(rows, id, title, description);
    RetitleKeepsInvariant(rows, nextId, id, title, description);
    if Find(rows, j).Some? {
      var i :| 0 <= i < |rows| && rows[i] == Find(rows, j).value;
      assert r[i] in r;
    }
  }

  class ProjectTable {
    var rows: seq<Project>
    var likes: set<Like>
    var nextId: nat

    ghost predicate Valid()
      reads this
    {
      RowsInvariant(rows, nextId)
    }

    constructor ()
      ensures Valid() && rows == [] && likes == {}
    {
      rows := [];
      likes := {};
      nextId := 1;
    }

    /** createProject: the checks, then the INSERT (image upload left out:
        the urls are given). */
    method CreateProject(owner: UserId, title: Option<string>, description: Option<string>,
                         imageUrls: seq<string>, now: int) returns (r: Result<Project, ProjectError>)
      requires Valid()
      modifies this`rows, this`nextId
      ensures Valid()
      ensures r.Failure? <==> ValidateCreate(title, description).Failure?
      ensures r.Failure? ==> r.error == ValidateCreate(title, description).error && rows == old(rows) && nextId == old(nextId)
      ensures r.Success? ==>
        && r.value == NewProject(old(nextId), owner, title.value, description, imageUrls, now)
        && Find(old(rows), r.value.id).None?
        && rows == old(rows) + [r.value]
    {
      var check := ValidateCreate(title, description);
      if check.Failure? {
        return Failure(check.error);
      }
      var p := NewProject(nextId, owner, title.value, description, imageUrls, now);
      Append(p);
      r := Success(p);
    }

    /** The INSERT under the next id. */
    method Append(p: Project)
      requires Valid() && p.id == nextId
      modifies this`rows, this`nextId
      ensures Valid()
      ensures Find(old(rows), p.id).None? && rows == old(rows) + [p] && nextId == old(nextId) + 1
    {
      rows := rows + [p];
      nextId := nextId + 1;
    }

    /** deleteProject: 404 for a missing project, 403 unless the caller owns it. */
    method DeleteProject(caller: UserId, id: ProjectId) returns (r: Result<(), ProjectError>)
      requires Valid()
      modifies this`rows
      ensures Valid()
      ensures r == Failure(NotFound) <==> Find(old(rows), id).None?
      ensures r == Failure(Forbidden) <==> Find(old(rows), id).Some? && Find(old(rows), id).value.owner != caller
      ensures r.Success? <==> Find(old(rows), id).Some? && Find(old(rows), id).value.owner == caller
      ensures r.Failure? ==> rows == old(rows)
      ensures r.Success? ==> rows == Without(old(rows), id)
      ensures r.Success? ==> forall q :: q in rows <==> q in old(rows) && q.id != id
    {
      var found := Find(rows, id);
      if found.None? {
        return Failure(NotFound);
      }
      if found.value.owner != caller {
        return Failure(Forbidden);
      }
      Remove(id);
      r := Success(());
    }

    /** `DELETE FROM projects WHERE id = $1`. */
    method Remove(id: ProjectId)
      requires Valid()
      modifies this`rows
      ensures Valid()
      ensures rows == Without(old(rows), id)
      ensures Find(rows, id).None?
      ensures forall j :: j != id ==> Find(rows, j) == Find(old(rows), j)
    {
      rows := Without(rows, id);
      forall j | j != id
        ensures Find(rows, j) == Find(old(rows), j)
      {
        if Find(old(rows), j).Some? {
          assert Find(old(rows), j).value in rows;
        }
      }
    }

    /** The title and description of one row change; nothing else does. */
    method SetText(id: ProjectId, title: string, description: Option<string>)
      requires Valid()
      modifies this`rows
      ensures Valid()
      ensures rows == Retitled(old(rows), id, title, description)
      ensures Find(old(rows), id).Some? ==>
        Find(rows, id) == Some(Find(old(rows), id).value.(title := title, description := description))
      ensures forall j :: j != id ==> Find(rows, j) == Find(old(rows), j)
    {
      RetitleKeepsInvariant(rows, nextId, id, title, description);
      forall j ensures Find(Retitled(rows, id, title, description), j) ==
        if Find(rows, j).Some? then Some(Retitle(Find(rows, j).value, id, title, description)) else None
      {
        RetitledFind(rows, nextId, id, title, description, j);
      }
      rows := Retitled(rows, id, title, description);
    }

    /** toggleLike: removes the caller's like, or adds it; `liked` says
        which. The handler never looks the project up: removing a like
        needs no project row, but the INSERT of a like for a project no
        row carries breaks project_likes' foreign key and the error
        reaches the error handler with nothing changed. */
    method ToggleLike(u: UserId, p: ProjectId) returns (r: Result<bool, ProjectError>)
      requires Valid()
      modifies this`likes
      ensures Valid()
      ensures (u, p) in old(likes) ==> r == Success(false) && likes == Toggled(old(likes), u, p)
      ensures (u, p) !in old(likes) && Find(rows, p).Some? ==> r == Success(true) && likes == Toggled(old(likes), u, p)
      ensures (u, p) !in old(likes) && Find(rows, p).None? ==> r == Failure(NoSuchProject) && likes == old(likes)
      ensures r.Success? ==> (r.value <==> (u, p) in likes)
    {
      if (u, p) in likes {
        likes := likes - {(u, p)};
        r := Success(false);
      } else if Find(rows, p).None? {
        r := Failure(NoSuchProject);
      } else {
        likes := likes + {(u, p)};
        r := Success(true);
      }
    }
  }
}
