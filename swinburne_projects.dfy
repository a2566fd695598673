/** Academic (Swinburne) projects: creation with its checks and the
    creator's Leader membership, the visibility rule that decides who may
    view a project, the allow-listed update, the Leader-only delete with its
    cascade, and the team finder. */
module SwinburneProjects {
  import opened Common
  import opened Text
  import opened Query
  import Collaboration
  import Milestones
  import Projects

  /** The columns of swinburne_projects a request body can name. */
  datatype Col =
    | UnitCode | UnitName | Semester | AcademicYear | Campus | ProjectType
    | AssessmentWeight | DueDate | CollaborationStatus | Visibility | InstructorCode
    | Tags | Status | ProgressPercentage | FinalGrade
    | Id | BaseProjectId | CreatedAt | UpdatedAt

  function ColName(c: Col): string
  {
    match c
    case UnitCode => "unit_code"
    case UnitName => "unit_name"
    case Semester => "semester"
    case AcademicYear => "academic_year"
    case Campus => "campus"
    case ProjectType => "project_type"
    case AssessmentWeight => "assessment_weight"
    case DueDate => "due_date"
    case CollaborationStatus => "collaboration_status"
    case Visibility => "visibility"
    case InstructorCode => "instructor_code"
    case Tags => "tags"
    case Status => "status"
    case ProgressPercentage => "progress_percentage"
    case FinalGrade => "final_grade"
    case Id => "id"
    case BaseProjectId => "base_project_id"
    case CreatedAt => "created_at"
    case UpdatedAt => "updated_at"
  }

  /** A swinburne_projects row joined with its base projects row. The
      academic columns are kept as the request bodies gave them. */
  datatype AcademicProject = AcademicProject(
    id: ProjectId, baseId: nat, owner: UserId, title: string, description: Option<string>,
    columns: map<Col, JsValue>, createdAt: int)

  datatype ProjectError =
    | InvalidTitle        // 400 "Title must be at least 3 characters long"
    | TitleTooLong        // 400
    | DescriptionTooLong  // 400
    | MissingDetails      // 400 "All course and project details are required"
    | NotSwinburne        // 403 the creator has no university address
    | AccessDenied        // 403 not an Active collaborator
    | LeaderOnly          // 403 "Only project leaders can delete projects"
    | BadPaging           // a negative LIMIT or OFFSET, which the database refuses

  /** A swinburne_projects row on its own: the academic columns, with the
      title, description and owner left on its base projects row. */
  datatype SwinburneRow = SwinburneRow(id: ProjectId, baseId: nat, columns: map<Col, JsValue>, createdAt: int)

  /** The update's reply: the changed swinburne_projects row as `RETURNING *`
      gives it, or "No changes to update". */
  datatype UpdateReply = Changed(row: SwinburneRow) | NoChanges

  /** Who asks for the team finder: nobody signed in, a signed-in user
      whose users row is gone, or a user with an e-mail address. */
  datatype Viewer = Anonymous | Unknown(id: UserId) | Known(id: UserId, email: string)

  /** The course and project details a new academic project must carry. */
  const RequiredDetails: seq<Col> :=
    [UnitCode, UnitName, Semester, AcademicYear, Campus, ProjectType]

  /** The swinburne_projects columns an update may set. */
  const AllowList: seq<Col> :=
    [UnitCode, UnitName, Semester, AcademicYear, Campus,
     ProjectType, AssessmentWeight, DueDate, CollaborationStatus,
     Visibility, InstructorCode, Tags, Status, ProgressPercentage,
     FinalGrade]

  /** The columns an update may set: all but the keys and the timestamps. */
  predicate Settable(k: Col)
  {
    !(k.Id? || k.BaseProjectId? || k.CreatedAt? || k.UpdatedAt?)
  }

  /** The allow-list names exactly the settable columns. */
  lemma AllowListSettable(k: Col)
    ensures k in AllowList <==> Settable(k)
  {
  }

  /** A body field or column by name; a missing one reads as `undefined`. */
  function Get(m: map<Col, JsValue>, k: Col): (r: JsValue)
    ensures k in m ==> r == m[k]
    ensures k !in m ==> r == Undefined
  {
    if k in m then m[k] else Undefined
  }

  function Column(proj: AcademicProject, k: Col): JsValue
  {
    Get(proj.columns, k)
  }

  // ---------------------------------------------------------------------
  // Creation

  /** createSwinburneProject's checks, in the handler's order. A `title` of ""
      stands for a missing title. */
  function ValidateCreation(title: string, description: Option<string>, details: map<Col, JsValue>,
                            email: string): (r: Result<(), ProjectError>)
    ensures r.Success? <==>
      && 3 <= |Trim(title)| && |title| <= 100
      && (description.Some? ==> |description.value| <= 1000)
      && (forall k :: k in RequiredDetails ==> Truthy(Get(details, k)))
      && IsSwinburneEmail(email)
    ensures |Trim(title)| < 3 ==> r == Failure(InvalidTitle)
    ensures r == Failure(TitleTooLong) ==> 3 <= |Trim(title)| && |title| > 100
    ensures r == Failure(DescriptionTooLong) ==> description.Some? && |description.value| > 1000
    ensures r == Failure(MissingDetails) ==> exists k :: k in RequiredDetails && !Truthy(Get(details, k))
    ensures r == Failure(NotSwinburne) ==> !IsSwinburneEmail(email)
  {
    if title == "" || |Trim(title)| < 3 then Failure(InvalidTitle)
    else if |title| > 100 then Failure(TitleTooLong)
    else if description.Some? && description.value != "" && |description.value| > 1000 then Failure(DescriptionTooLong)
    else if exists k :: k in RequiredDetails && !Truthy(Get(details, k)) then Failure(MissingDetails)
    else if !IsSwinburneEmail(email) then Failure(NotSwinburne)
    else Success(())
  }

  /** A project that passes the checks is stored with a title of 3 to 100
      characters that neither starts nor ends with white space. */
  lemma StoredTitleBounds(title: string, description: Option<string>, details: map<Col, JsValue>, email: string)
    requires ValidateCreation(title, description, details, email).Success?
    ensures 3 <= |Trim(title)| <= 100
    ensures !IsJsSpace(Trim(title)[0]) && !IsJsSpace(Trim(title)[|Trim(title)| - 1])
  {
    TrimIsCut(title);
  }

  /** The academic columns createSwinburneProject writes, over the defaults
      the database fills in: collaboration_status defaults to 'Open',
      visibility to 'Swinburne Only', tags to an empty array, and the
      optional details to null. */
  function InsertedColumns(details: map<Col, JsValue>, defaults: map<Col, JsValue>): (r: map<Col, JsValue>)
    ensures forall k :: k in r <==> k in defaults || k in InsertedSet
    ensures forall k :: k in r ==> r[k] == if k in InsertedSet then InsertedValue(details, k) else defaults[k]
  {
    map k | k in defaults.Keys + InsertedSet :: if k in InsertedSet then InsertedValue(details, k) else defaults[k]
  }

  /** The required details are stored as given; collaboration_status and
      visibility always get a value, 'Open' and 'Swinburne Only' when the
      body leaves them out. */
  lemma InsertedDefaults(details: map<Col, JsValue>, defaults: map<Col, JsValue>)
    ensures forall k :: k in RequiredDetails ==>
      (k in InsertedColumns(details, defaults) && InsertedColumns(details, defaults)[k] == Get(details, k))
    ensures var r := InsertedColumns(details, defaults);
      && CollaborationStatus in r && r[CollaborationStatus] == OrElse(Get(details, CollaborationStatus), Str("Open"))
      && Visibility in r && r[Visibility] == OrElse(Get(details, Visibility), Str("Swinburne Only"))
      && Truthy(r[CollaborationStatus]) && Truthy(r[Visibility])
  {
    var r := InsertedColumns(details, defaults);
    assert CollaborationStatus in InsertedSet && Visibility in InsertedSet;
    forall k | k in RequiredDetails
      ensures k in r && r[k] == Get(details, k)
    {
      assert k in InsertedSet;
    }
  }

  /** The twelve columns the INSERT names. */
  const InsertedSet: set<Col> :=
    {UnitCode, UnitName, Semester, AcademicYear, Campus, ProjectType, AssessmentWeight, DueDate,
     CollaborationStatus, Visibility, InstructorCode, Tags}

  /** The value the INSERT gives an inserted column: the body's value for
      the required details, and the handler's fallback for the optional ones. */
  function InsertedValue(details: map<Col, JsValue>, k: Col): (r: JsValue)
    ensures k in NullFallback ==> r == OrElse(Get(details, k), Other(false))
    ensures k in RequiredDetails ==> r == Get(details, k)
  {
    match k
    case CollaborationStatus => OrElse(Get(details, k), Str("Open"))
    case Visibility => OrElse(Get(details, k), Str("Swinburne Only"))
    case Tags => OrElse(Get(details, k), Other(true))
    case AssessmentWeight | DueDate | InstructorCode => OrElse(Get(details, k), Other(false))
    case _ => Get(details, k)
  }

  /** The project createSwinburneProject stores: trimmed title, trimmed
      description or null, and the inserted columns. */
  function Created(id: ProjectId, baseId: nat, owner: UserId, title: string, description: Option<string>,
                   details: map<Col, JsValue>, defaults: map<Col, JsValue>, now: int): (r: AcademicProject)
    ensures r.id == id && r.baseId == baseId && r.owner == owner && r.createdAt == now
    ensures r.title == Trim(title) && r.description == TrimOrNull(description)
    ensures r.columns == InsertedColumns(details, defaults)
  {
    AcademicProject(id, baseId, owner, Trim(title), TrimOrNull(description), InsertedColumns(details, defaults), now)
  }

  /** The columns that the INSERT fills from the body only when it gives
      them, falling back to null. */
  const NullFallback: set<Col> := {AssessmentWeight, DueDate, InstructorCode}

  /** The project the 201 reply describes. It is built from the request
      rather than read back: the title is the one the body gave, untrimmed,
      and assessment_weight, due_date and instructor_code are the body's own
      values, without the null the INSERT puts in their place. Status and
      progress_percentage are the stored ones, as `RETURNING` gives them. */
  function CreatedReply(stored: AcademicProject, title: string, details: map<Col, JsValue>): (r: AcademicProject)
    ensures r.id == stored.id && r.baseId == stored.baseId && r.owner == stored.owner
    ensures r.createdAt == stored.createdAt && r.description == stored.description
    ensures r.title == title
    ensures forall k :: k in r.columns <==> k in InsertedSet || k == Status || k == ProgressPercentage
    ensures forall k :: k in r.columns && k !in NullFallback ==> r.columns[k] == Column(stored, k)
    ensures forall k :: k in NullFallback ==> r.columns[k] == Get(details, k)
  {
    var cols := map k | k in InsertedSet + {Status, ProgressPercentage} ::
      if k in NullFallback then Get(details, k) else Column(stored, k);
    stored.(title := title, columns := cols)
  }

  /** The reply agrees with what was stored, up to trimming the title and
      the null fallback of the three optional columns. */
  lemma ReplyAgreesWithStored(id: ProjectId, baseId: nat, owner: UserId, title: string, description: Option<string>,
                              details: map<Col, JsValue>, defaults: map<Col, JsValue>, now: int)
    ensures var stored := Created(id, baseId, owner, title, description, details, defaults, now);
      var reply := CreatedReply(stored, title, details);
      && Trim(reply.title) == stored.title
      && (forall k :: k in InsertedSet ==> k in reply.columns && k in stored.columns)
      && (forall k :: k in InsertedSet && k !in NullFallback ==> reply.columns[k] == stored.columns[k])
      && (forall k :: k in NullFallback ==> OrElse(reply.columns[k], Other(false)) == stored.columns[k])
  {
    var stored := Created(id, baseId, owner, title, description, details, defaults, now);
    ReplyColumnsAgree(stored, title, details, defaults);
  }

  lemma ReplyColumnsAgree(stored: AcademicProject, title: string, details: map<Col, JsValue>, defaults: map<Col, JsValue>)
    requires stored.columns == InsertedColumns(details, defaults)
    ensures var reply := CreatedReply(stored, title, details);
      && (forall k :: k in InsertedSet ==> k in reply.columns && k in stored.columns)
      && (forall k :: k in InsertedSet && k !in NullFallback ==> reply.columns[k] == stored.columns[k])
      && (forall k :: k in NullFallback ==> OrElse(reply.columns[k], Other(false)) == stored.columns[k])
  {
    forall k | k in InsertedSet {
      ReplyColumnAgrees(stored, title, details, defaults, k);
    }
    assert forall k :: k in NullFallback ==> k in InsertedSet;
  }

  lemma ReplyColumnAgrees(stored: AcademicProject, title: string, details: map<Col, JsValue>,
                          defaults: map<Col, JsValue>, k: Col)
    requires stored.columns == InsertedColumns(details, defaults)
    requires k in InsertedSet
    ensures var reply := CreatedReply(stored, title, details);
      && k in reply.columns && k in stored.columns
      && (k !in NullFallback ==> reply.columns[k] == stored.columns[k])
      && (k in NullFallback ==> OrElse(reply.columns[k], Other(false)) == stored.columns[k])
  {
    var reply := CreatedReply(stored, title, details);
    assert k in stored.columns && stored.columns[k] == InsertedValue(details, k);
    if k in NullFallback {
      assert reply.columns[k] == Get(details, k);
    } else {
      assert reply.columns[k] == Column(stored, k);
    }
  }

  // ---------------------------------------------------------------------
  // Where a project's columns live

  /** The swinburne_projects columns of a project, as `RETURNING *` gives them. */
  function Returned(proj: AcademicProject): (r: SwinburneRow)
    ensures r.id == proj.id && r.baseId == proj.baseId && r.createdAt == proj.createdAt
    ensures r.columns == proj.columns
  {
    SwinburneRow(proj.id, proj.baseId, proj.columns, proj.createdAt)
  }

  /** A project as the swinburne_projects table keeps it: without the
      progress column, whose one copy the milestone board keeps. */
  function Unjoined(proj: AcademicProject): (r: SwinburneRow)
    ensures r == Returned(proj).(columns := r.columns)
    ensures ProgressPercentage !in r.columns
    ensures forall k :: k != ProgressPercentage ==> Get(r.columns, k) == Get(proj.columns, k)
  {
    Returned(proj).(columns := proj.columns - {ProgressPercentage})
  }

  /** The base projects row of a project: its owner, title and description. */
  function BaseRow(proj: AcademicProject, imageUrls: seq<string>): (r: Projects.Project)
    ensures r.id == proj.baseId && r.owner == proj.owner && r.createdAt == proj.createdAt
    ensures r.title == proj.title && r.description == proj.description && r.imageUrls == imageUrls
  {
    Projects.Project(proj.baseId, proj.owner, proj.title, proj.description, imageUrls, proj.createdAt)
  }

  /** A swinburne_projects row read with its base row (`JOIN projects`)
      and with the progress_percentage the board keeps for it. */
  function Joined(sp: SwinburneRow, base: Projects.Project, progress: map<ProjectId, JsValue>): (r: AcademicProject)
    ensures r.id == sp.id && r.baseId == sp.baseId && r.createdAt == sp.createdAt
    ensures r.owner == base.owner && r.title == base.title && r.description == base.description
    ensures forall k :: k != ProgressPercentage ==> Get(r.columns, k) == Get(sp.columns, k)
    ensures sp.id in progress ==> Column(r, ProgressPercentage) == progress[sp.id]
    ensures sp.id !in progress ==> r.columns == sp.columns
  {
    var columns := if sp.id in progress then sp.columns[ProgressPercentage := progress[sp.id]] else sp.columns;
    AcademicProject(sp.id, sp.baseId, base.owner, base.title, base.description, columns, sp.createdAt)
  }

  /** The board's progress column after a project is written: the
      project's progress_percentage, or none when it carries none. */
  function ProgressAfter(proj: AcademicProject, progress: map<ProjectId, JsValue>): (r: map<ProjectId, JsValue>)
    ensures forall q :: q != proj.id ==> (q in r <==> q in progress)
    ensures forall q :: q != proj.id && q in r ==> r[q] == progress[q]
    ensures proj.id in r <==> ProgressPercentage in proj.columns
    ensures proj.id in r ==> r[proj.id] == proj.columns[ProgressPercentage]
  {
    if ProgressPercentage in proj.columns then progress[proj.id := proj.columns[ProgressPercentage]]
    else progress - {proj.id}
  }

  /** Splitting a project between swinburne_projects, its base row and the
      board, then reading it back, gives the project. */
  lemma SplitJoinRoundTrip(proj: AcademicProject, base: Projects.Project, progress: map<ProjectId, JsValue>)
    requires base.owner == proj.owner && base.title == proj.title && base.description == proj.description
    ensures Joined(Unjoined(proj), base, ProgressAfter(proj, progress)) == proj
  {
    var back := Joined(Unjoined(proj), base, ProgressAfter(proj, progress));
    assert back.columns.Keys == proj.columns.Keys;
    forall k | k in proj.columns
      ensures back.columns[k] == proj.columns[k]
    {
      assert Get(back.columns, k) == Get(proj.columns, k);
    }
  }

  /** Reading a stored row with its base row and progress, then splitting
      it again, gives the stored row back. */
  lemma JoinSplitRoundTrip(sp: SwinburneRow, base: Projects.Project, progress: map<ProjectId, JsValue>)
    requires ProgressPercentage !in sp.columns
    ensures Unjoined(Joined(sp, base, progress)) == sp
  {
    var back := Unjoined(Joined(sp, base, progress));
    assert back.columns.Keys == sp.columns.Keys;
    forall k | k in sp.columns
      ensures back.columns[k] == sp.columns[k]
    {
      assert Get(back.columns, k) == Get(sp.columns, k);
    }
  }

  /** The swinburne_projects table holds no copy of the progress column. */
  predicate ProgressOnBoard(projects: map<ProjectId, SwinburneRow>)
  {
    forall q :: q in projects ==> ProgressPercentage !in projects[q].columns
  }

  // ---------------------------------------------------------------------
  // Who may view a project

  predicate IsSwinburneViewer(emails: map<UserId, string>, u: UserId)
  {
    u in emails && IsSwinburneEmail(emails[u])
  }

  /** checkProjectAccess: Public projects are open to all; Private and Team
      Only projects to their Active members; Swinburne Only projects to
      users with a university address; any other visibility to nobody. */
  function CheckProjectAccess(proj: AcademicProject, rows: seq<Collaboration.Collaborator>,
                              viewer: Option<UserId>, emails: map<UserId, string>): (r: bool)
    ensures Column(proj, Visibility) == Str("Public") ==> r
    ensures viewer.None? ==> (r <==> Column(proj, Visibility) == Str("Public"))
    ensures r && Column(proj, Visibility) != Str("Public") ==> viewer.Some?
    ensures viewer.Some? && Column(proj, Visibility) in {Str("Private"), Str("Team Only")} ==>
      (r <==> Collaboration.IsActiveIn(rows, proj.id, viewer.value))
    ensures viewer.Some? && Column(proj, Visibility) == Str("Swinburne Only") ==>
      (r <==> IsSwinburneViewer(emails, viewer.value))
    ensures Column(proj, Visibility) !in {Str("Public"), Str("Private"), Str("Team Only"), Str("Swinburne Only")} ==> !r
  {
    var visibility := Column(proj, Visibility);
    if visibility == Str("Public") then true
    else if visibility == Str("Private") || visibility == Str("Team Only") then
      viewer.Some? && Collaboration.IsActiveIn(rows, proj.id, viewer.value)
    else if visibility == Str("Swinburne Only") then
      viewer.Some? && IsSwinburneViewer(emails, viewer.value)
    else false
  }

  /** A Private or Team Only project hides from a user exactly when they are
      not an Active member, whatever their address. */
  lemma MembershipDecidesPrivate(proj: AcademicProject, rows: seq<Collaboration.Collaborator>,
                                 u: UserId, emails: map<UserId, string>, emails2: map<UserId, string>)
    requires Column(proj, Visibility) in {Str("Private"), Str("Team Only")}
    ensures CheckProjectAccess(proj, rows, Some(u), emails) == CheckProjectAccess(proj, rows, Some(u), emails2)
    ensures CheckProjectAccess(proj, rows, Some(u), emails) <==> Collaboration.IsActiveIn(rows, proj.id, u)
  {
  }

  // ---------------------------------------------------------------------
  // The update

  /** The allow-listed fields the body carries, in allow-list order. */
  function PresentFields(body: map<Col, JsValue>): (r: seq<Col>)
    ensures forall k :: k in r <==> Settable(k) && k in body
  {
    forall k ensures k in AllowList <==> Settable(k) { AllowListSettable(k); }
    Filter(AllowList, (k: Col) => k in body)
  }

  /** The project after a committed update: title and description replaced
      (trimmed) when the body carries either with a non-empty value, each
      allow-listed column the body carries set to the body's value, and
      updated_at set to the time of the update. */
  function Updated(proj: AcademicProject, title: Option<string>, description: Option<string>,
                   body: map<Col, JsValue>, now: int): (r: AcademicProject)
    ensures r.id == proj.id && r.baseId == proj.baseId && r.owner == proj.owner && r.createdAt == proj.createdAt
    ensures forall k :: k in r.columns <==> k in proj.columns || (Settable(k) && k in body) || k == UpdatedAt
    ensures r.columns[UpdatedAt] == Num(now)
    ensures forall k :: k in r.columns && k != UpdatedAt ==>
      r.columns[k] == if Settable(k) && k in body then body[k] else proj.columns[k]
    ensures (title.Some? && title.value != "") || (description.Some? && description.value != "") ==>
      && r.title == (if title.Some? then Trim(title.value) else proj.title)
      && r.description == (if description.Some? then Some(Trim(description.value)) else proj.description)
    ensures (title.None? || title.value == "") && (description.None? || description.value == "") ==>
      r.title == proj.title && r.description == proj.description
  {
    var base :=
      if (title.Some? && title.value != "") || (description.Some? && description.value != "") then
        proj.(title := if title.Some? then Trim(title.value) else proj.title,
              description := if description.Some? then Some(Trim(description.value)) else proj.description)
      else proj;
    base.(columns := Overlay(proj.columns, body)[UpdatedAt := Num(now)])
  }

  /** A progress_percentage the body sends is what the progress column
      holds after the update is written back. */
  lemma UpdateWritesProgress(proj: AcademicProject, title: Option<string>, description: Option<string>,
                             body: map<Col, JsValue>, now: int, progress: map<ProjectId, JsValue>)
    requires ProgressPercentage in body
    ensures var u := Updated(proj, title, description, body, now);
      u.id == proj.id && proj.id in ProgressAfter(u, progress) && ProgressAfter(u, progress)[proj.id] == body[ProgressPercentage]
  {
    var u := Updated(proj, title, description, body, now);
    assert Settable(ProgressPercentage);
    assert ProgressPercentage in u.columns;
  }

  /** The columns after `SET field = value` for each allow-listed field of the body. */
  function Overlay(columns: map<Col, JsValue>, body: map<Col, JsValue>): (r: map<Col, JsValue>)
    ensures forall k :: k in r <==> k in columns || (Settable(k) && k in body)
    ensures forall k :: k in r ==> r[k] == if Settable(k) && k in body then body[k] else columns[k]
  {
    map k | k in columns.Keys + (set f | f in body && Settable(f)) ::
      if Settable(k) && k in body then body[k] else columns[k]
  }

  // ---------------------------------------------------------------------
  // The team finder

  /** The finder's WHERE clause: open for collaboration, visible beyond the
      team, and not finished. */
  predicate Listed(proj: AcademicProject)
  {
    && Column(proj, CollaborationStatus) == Str("Open")
    && Column(proj, Visibility) in {Str("Public"), Str("Swinburne Only")}
    && Column(proj, Status) in {Str("Not Started"), Str("Planning"), Str("In Progress")}
  }

  predicate IsPublic(proj: AcademicProject)
  {
    Column(proj, Visibility) == Str("Public")
  }

  function NewestFirst(proj: AcademicProject): (int, int)
  {
    (-proj.createdAt, 0)
  }

  /** The listed projects, newest first. */
  function FinderMatches(rows: seq<AcademicProject>): (r: seq<AcademicProject>)
    ensures SortedBy(r, NewestFirst)
    ensures forall x :: x in r <==> x in rows && Listed(x)
  {
    var listed := Filter(rows, Listed);
    var sorted := SortBy(listed, NewestFirst);
    assert forall x :: x in sorted <==> x in listed by {
      forall x ensures x in sorted <==> x in listed { SortByMembers(listed, NewestFirst, x); }
    }
    sorted
  }

  datatype FinderPage = FinderPage(projects: seq<AcademicProject>, page: int, limit: int, hasMore: bool)

  /** Whether the finder shows this viewer Swinburne Only projects: only a
      signed-in user whose address on file is a university address. */
  predicate SeesSwinburneOnly(viewer: Viewer)
  {
    viewer.Known? && IsSwinburneEmail(viewer.email)
  }

  /** One page of listed projects, newest first; with `publicOnly` the page
      is narrowed to its Public projects, and `hasMore` is decided on the
      page before that filter. */
  function FinderFor(rows: seq<AcademicProject>, pageParam: Option<int>, limitParam: Option<int>, publicOnly: bool)
    : (r: Result<FinderPage, ProjectError>)
    ensures r.Failure? <==>
      OrDefault(limitParam, 10) < 0 || (OrDefault(pageParam, 1) - 1) * OrDefault(limitParam, 10) < 0
    ensures r.Success? ==> 0 <= r.value.limit && 0 <= (r.value.page - 1) * r.value.limit
    ensures r.Success? ==>
      && r.value.page == OrDefault(pageParam, 1) && r.value.limit == OrDefault(limitParam, 10)
      && |r.value.projects| <= r.value.limit
      && (forall x :: x in r.value.projects ==> x in rows && Listed(x))
      && (publicOnly ==> forall x :: x in r.value.projects ==> IsPublic(x))
    ensures r.Success? && !publicOnly ==>
      r.value.projects == Page(FinderMatches(rows), (r.value.page - 1) * r.value.limit, r.value.limit)
    ensures r.Success? && publicOnly ==>
      forall x :: x in r.value.projects <==>
        x in Page(FinderMatches(rows), (r.value.page - 1) * r.value.limit, r.value.limit) && IsPublic(x)
    ensures r.Success? ==>
      (r.value.hasMore <==> |Page(FinderMatches(rows), (r.value.page - 1) * r.value.limit, r.value.limit)| == r.value.limit)
  {
    var page := OrDefault(pageParam, 1);
    var limit := OrDefault(limitParam, 10);
    var offset := (page - 1) * limit;
    if limit < 0 || offset < 0 then Failure(BadPaging)
    else
      var window := Page(FinderMatches(rows), offset, limit);
      forall x | x in window ensures x in FinderMatches(rows) {
        var i :| 0 <= i < |window| && window[i] == x;
      }
      var shown := if publicOnly then Filter(window, IsPublic) else window;
      Success(FinderPage(shown, page, limit, |window| == limit))
  }

  /** getSwinburneTeamFinder, with the filter applied to every viewer
      without a university address on file: a Swinburne Only project is
      listed only to a user whose address is a university address. */
  function TeamFinder(rows: seq<AcademicProject>, pageParam: Option<int>, limitParam: Option<int>, viewer: Viewer)
    : (r: Result<FinderPage, ProjectError>)
    ensures r == FinderFor(rows, pageParam, limitParam, !SeesSwinburneOnly(viewer))
    ensures r.Success? ==> forall x :: x in r.value.projects && !IsPublic(x) ==>
      viewer.Known? && IsSwinburneEmail(viewer.email) && Column(x, Visibility) == Str("Swinburne Only")
  {
    FinderFor(rows, pageParam, limitParam, !SeesSwinburneOnly(viewer))
  }

  /** getSwinburneTeamFinder as written: the filter runs only when the
      caller's users row is found, so a signed-in caller without one is
      shown the whole page. */
  function AsWrittenTeamFinder(rows: seq<AcademicProject>, pageParam: Option<int>, limitParam: Option<int>, viewer: Viewer)
    : (r: Result<FinderPage, ProjectError>)
    ensures r.Success? ==> 0 <= r.value.limit && 0 <= (r.value.page - 1) * r.value.limit
    ensures r.Success? && viewer.Unknown? ==>
      r.value.projects == Page(FinderMatches(rows), (r.value.page - 1) * r.value.limit, r.value.limit)
    ensures !viewer.Unknown? ==> r == TeamFinder(rows, pageParam, limitParam, viewer)
  {
    if viewer.Unknown? then FinderFor(rows, pageParam, limitParam, false)
    else TeamFinder(rows, pageParam, limitParam, viewer)
  }

  /** A listed Swinburne Only project that every finder page of size 1 holds. */
  function SampleListed(): (proj: AcademicProject)
    ensures Listed(proj) && !IsPublic(proj) && Column(proj, Visibility) == Str("Swinburne Only")
    ensures FinderMatches([proj]) == [proj]
  {
    var proj := AcademicProject(1, 1, 1, "Capstone", None,
      map[CollaborationStatus := Str("Open"), Visibility := Str("Swinburne Only"),
          Status := Str("Planning")], 0);
    assert Listed(proj);
    assert FinderMatches([proj]) == [proj] by {
      var m := FinderMatches([proj]);
      assert proj in m;
      assert |m| <= 1 by {
        assert |Filter([proj], Listed)| <= 1;
      }
    }
    proj
  }

  /** The finder as written lists a Swinburne Only project to a signed-in
      caller whose users row is gone, though checkProjectAccess refuses
      that caller the project. */
  lemma AsWrittenFinderLeaksSwinburneOnly()
    ensures exists rows: seq<AcademicProject>, u: UserId, emails: map<UserId, string>, x: AcademicProject ::
      && u !in emails
      && AsWrittenTeamFinder(rows, None, Some(1), Unknown(u)).Success?
      && x in AsWrittenTeamFinder(rows, None, Some(1), Unknown(u)).value.projects
      && !CheckProjectAccess(x, [], Some(u), emails)
  {
    var proj := SampleListed();
    var emails: map<UserId, string> := map[];
    assert Page([proj], 0, 1) == [proj];
    assert proj in AsWrittenTeamFinder([proj], None, Some(1), Unknown(7)).value.projects;
    assert !CheckProjectAccess(proj, [], Some(7), emails);
  }

  /** `hasMore` counts rows the viewer does not get to see: an anonymous
      viewer can be told there is more while the page shown is empty. */
  lemma HasMoreCountsHiddenRows()
    ensures exists rows: seq<AcademicProject> ::
      var r := TeamFinder(rows, None, Some(1), Anonymous);
      r.Success? && r.value.projects == [] && r.value.hasMore
  {
    var proj := SampleListed();
    var rows := [proj];
    var r := TeamFinder(rows, None, Some(1), Anonymous);
    assert Page([proj], 0, 1) == [proj];
    assert Filter([proj], IsPublic) == [];
  }

  /** Whatever the finder shows a viewer, that viewer may also open:
      the finder never lists a project checkProjectAccess would refuse. */
  lemma FinderRespectsAccess(rows: seq<AcademicProject>, pageParam: Option<int>, limitParam: Option<int>,
                             viewer: Viewer, team: seq<Collaboration.Collaborator>, emails: map<UserId, string>)
    requires viewer.Known? ==> viewer.id in emails && emails[viewer.id] == viewer.email
    requires TeamFinder(rows, pageParam, limitParam, viewer).Success?
    ensures forall x :: x in TeamFinder(rows, pageParam, limitParam, viewer).value.projects ==>
      CheckProjectAccess(x, team, if viewer.Anonymous? then None else Some(viewer.id), emails)
  {
  }

  // ---------------------------------------------------------------------
  // The store and its handlers

  /** Every membership row belongs to a stored project, and every stored
      project's id is below the next one to hand out. */
  predicate StoreInvariant(projects: map<ProjectId, SwinburneRow>, nextId: nat, rows: seq<Collaboration.Collaborator>)
  {
    && (forall p :: p in projects ==> p < nextId && projects[p].id == p)
    && (forall c :: c in rows ==> c.project in projects)
  }

  /** The next id is used by no project and no membership row. */
  lemma FreshIdUnused(projects: map<ProjectId, SwinburneRow>, nextId: nat, rows: seq<Collaboration.Collaborator>)
    requires StoreInvariant(projects, nextId, rows)
    ensures nextId !in projects
    ensures forall c :: c in rows ==> c.project != nextId
  {
  }

  /** Storing a project under the next id, with a membership row for it,
      keeps the store's invariant. */
  lemma CreateKeepsInvariant(projects: map<ProjectId, SwinburneRow>, nextId: nat,
                             rows: seq<Collaboration.Collaborator>, proj: SwinburneRow, c: Collaboration.Collaborator)
    requires StoreInvariant(projects, nextId, rows)
    requires proj.id == nextId && c.project == nextId
    ensures StoreInvariant(projects[nextId := proj], nextId + 1, rows + [c])
  {
  }

  /** The handler's loop over the allow-list: the fields of the body
      that become `SET` clauses, in allow-list order. */
  method CollectFields(body: map<Col, JsValue>) returns (fields: seq<Col>)
    ensures fields == PresentFields(body)
  {
    fields := [];
    var i := 0;
    while i < |AllowList|
      invariant 0 <= i <= |AllowList|
      invariant fields == Filter(AllowList[..i], (k: Col) => k in body)
    {
      FilterSnoc(AllowList[..i], AllowList[i], (k: Col) => k in body);
      assert AllowList[..i + 1] == AllowList[..i] + [AllowList[i]];
      if AllowList[i] in body {
        fields := fields + [AllowList[i]];
      }
      i := i + 1;
    }
    assert AllowList[..i] == AllowList;
  }

  /** The body names none of the columns the update may set. */
  predicate NoAllowedField(body: map<Col, JsValue>)
  {
    forall k :: Settable(k) ==> k !in body
  }

  /** The update has nothing to write exactly when the body carries no
      allow-listed field. */
  lemma NoFieldsIffNoneAllowed(body: map<Col, JsValue>)
    ensures PresentFields(body) == [] <==> NoAllowedField(body)
  {
    var r := PresentFields(body);
    if r != [] {
      assert r[0] in r;
    }
  }

  /** The handler's test after its loop: no `SET` clause was collected. */
  method NothingToSet(body: map<Col, JsValue>) returns (none: bool)
    ensures none <==> NoAllowedField(body)
  {
    var fields := CollectFields(body);
    NoFieldsIffNoneAllowed(body);
    none := fields == [];
  }

  /** A project someone is an Active member of is a stored project. */
  lemma MemberProjectStored(projects: map<ProjectId, SwinburneRow>, nextId: nat,
                            rows: seq<Collaboration.Collaborator>, p: ProjectId, u: UserId)
    requires StoreInvariant(projects, nextId, rows)
    requires Collaboration.IsActiveIn(rows, p, u)
    ensures p in projects
  {
    var c :| c in rows && Collaboration.IsActiveOf(c, p, u);
  }

  /** Every academic project's base row is in the projects table. */
  predicate BasesPresent(projects: map<ProjectId, SwinburneRow>, baseRows: seq<Projects.Project>)
  {
    forall q :: q in projects ==> Projects.Find(baseRows, projects[q].baseId).Some?
  }

  /** No two academic projects share a base row. */
  predicate BasesDistinct(projects: map<ProjectId, SwinburneRow>)
  {
    forall q, q' :: q in projects && q' in projects && projects[q].baseId == projects[q'].baseId ==> q == q'
  }

  /** Appending a base row leaves every academic project's base row where it was. */
  lemma BaseAppendKeepsBases(projects: map<ProjectId, SwinburneRow>, rows: seq<Projects.Project>, b: Projects.Project)
    requires BasesPresent(projects, rows)
    ensures BasesPresent(projects, rows + [b])
    ensures forall q :: q in projects ==> Projects.Find(rows + [b], projects[q].baseId) == Projects.Find(rows, projects[q].baseId)
  {
    forall q | q in projects
      ensures Projects.Find(rows + [b], projects[q].baseId) == Projects.Find(rows, projects[q].baseId)
    {
      Projects.FindSnoc(rows, b, projects[q].baseId);
    }
  }

  /** What the store's tables promise one another: the base table's own
      invariant, memberships of stored projects, the progress column kept
      on the board only, and one base row of its own for every project. */
  predicate Tables(projects: map<ProjectId, SwinburneRow>, nextId: nat, teamRows: seq<Collaboration.Collaborator>,
                   baseRows: seq<Projects.Project>, nextBase: nat)
  {
    && Projects.RowsInvariant(baseRows, nextBase)
    && StoreInvariant(projects, nextId, teamRows) && ProgressOnBoard(projects)
    && BasesPresent(projects, baseRows) && BasesDistinct(projects)
  }

  /** A new project under the next ids, with its base row and its Leader
      row, keeps the tables in agreement; the base row is found under the
      new base id, which no earlier row had. */
  lemma AddKeepsTables(projects: map<ProjectId, SwinburneRow>, nextId: nat, teamRows: seq<Collaboration.Collaborator>,
                       baseRows: seq<Projects.Project>, nextBase: nat,
                       proj: AcademicProject, b: Projects.Project, leader: Collaboration.Collaborator)
    requires Tables(projects, nextId, teamRows, baseRows, nextBase)
    requires proj.id == nextId && proj.baseId == nextBase && b.id == nextBase && leader.project == nextId
    ensures proj.id !in projects && (forall c :: c in teamRows ==> c.project != nextId)
    ensures Projects.Find(baseRows, nextBase).None? && Projects.Find(baseRows + [b], nextBase) == Some(b)
    ensures Tables(projects[nextId := Unjoined(proj)], nextId + 1, teamRows + [leader], baseRows + [b], nextBase + 1)
  {
    var sp := Unjoined(proj);
    FreshIdUnused(projects, nextId, teamRows);
    CreateKeepsInvariant(projects, nextId, teamRows, sp, leader);
    BaseAppendKeepsBases(projects, baseRows, b);
    Projects.FindSnoc(baseRows, b, b.id);
    forall q | q in projects
      ensures projects[q].baseId != nextBase
    {
      assert Projects.Find(baseRows, projects[q].baseId).value in baseRows;
    }
    assert Projects.RowsInvariant(baseRows + [b], nextBase + 1);
  }

  /** Writing a project back under its own id and base row keeps the
      tables in agreement. */
  lemma ReplaceKeepsTables(projects: map<ProjectId, SwinburneRow>, nextId: nat, teamRows: seq<Collaboration.Collaborator>,
                           baseRows: seq<Projects.Project>, nextBase: nat,
                           sp: SwinburneRow, title: string, description: Option<string>)
    requires Tables(projects, nextId, teamRows, baseRows, nextBase)
    requires sp.id in projects && sp.baseId == projects[sp.id].baseId && ProgressPercentage !in sp.columns
    ensures Tables(projects[sp.id := sp], nextId, teamRows, Projects.Retitled(baseRows, sp.baseId, title, description), nextBase)
  {
    var projects' := projects[sp.id := sp];
    Projects.RetitleKeepsInvariant(baseRows, nextBase, sp.baseId, title, description);
    RetitleKeepsBases(projects, baseRows, nextBase, sp.baseId, title, description);
    assert BasesDistinct(projects');
    assert StoreInvariant(projects', nextId, teamRows);
  }

  /** Retitling a base row moves no base row. */
  lemma RetitleKeepsBases(projects: map<ProjectId, SwinburneRow>, baseRows: seq<Projects.Project>, nextBase: nat,
                          id: ProjectId, title: string, description: Option<string>)
    requires Projects.RowsInvariant(baseRows, nextBase) && BasesPresent(projects, baseRows)
    ensures BasesPresent(projects, Projects.Retitled(baseRows, id, title, description))
  {
    forall q | q in projects
      ensures Projects.Find(Projects.Retitled(baseRows, id, title, description), projects[q].baseId).Some?
    {
      Projects.RetitledFind(baseRows, nextBase, id, title, description, projects[q].baseId);
    }
  }

  /** Deleting a project, its memberships and its base row keeps the
      tables in agreement. */
  lemma RemoveKeepsTables(projects: map<ProjectId, SwinburneRow>, nextId: nat, teamRows: seq<Collaboration.Collaborator>,
                          teamRows': seq<Collaboration.Collaborator>, baseRows: seq<Projects.Project>,
                          baseRows': seq<Projects.Project>, nextBase: nat, p: ProjectId)
    requires Tables(projects, nextId, teamRows, baseRows, nextBase)
    requires p in projects
    requires forall c :: c in teamRows' ==> c in teamRows && c.project != p
    requires Projects.RowsInvariant(baseRows', nextBase)
    requires forall j :: j != projects[p].baseId ==> Projects.Find(baseRows', j) == Projects.Find(baseRows, j)
    ensures Tables(projects - {p}, nextId, teamRows', baseRows', nextBase)
  {
  }

  class AcademicProjectStore {
    /** swinburne_projects */
    var projects: map<ProjectId, SwinburneRow>
    var nextId: nat
    /** projects: the base rows, shared with the portfolio handlers */
    var base: Projects.ProjectTable
    /** project_collaborators */
    var team: Collaboration.CollaboratorTable
    /** project_milestones, and the progress_percentage column */
    var board: Milestones.MilestoneBoard

    ghost predicate Valid()
      reads this, team, board`milestones, board`nextId, base`rows, base`nextId
    {
      && team.Valid() && board.Valid()
      && Tables(projects, nextId, team.rows, base.rows, base.nextId)
    }

    /** The project as the handlers read it: its swinburne_projects row
        joined with its base row and with the progress column. */
    function Row(p: ProjectId): (r: AcademicProject)
      reads this, base, board
      requires p in projects && Projects.Find(base.rows, projects[p].baseId).Some?
      ensures var b := Projects.Find(base.rows, projects[p].baseId).value;
        BaseRow(r, b.imageUrls) == b.(createdAt := r.createdAt)
      ensures ProgressPercentage !in projects[p].columns ==> Unjoined(r) == projects[p]
      ensures projects[p].id in board.progress ==> Column(r, ProgressPercentage) == board.progress[projects[p].id]
    {
      var b := Projects.Find(base.rows, projects[p].baseId).value;
      if ProgressPercentage !in projects[p].columns then
        JoinSplitRoundTrip(projects[p], b, board.progress);
        Joined(projects[p], b, board.progress)
      else Joined(projects[p], b, board.progress)
    }

    constructor ()
      ensures Valid() && fresh(team) && fresh(board) && fresh(base)
      ensures projects == map[] && base.rows == [] && team.rows == [] && board.milestones == []
    {
      projects := map[];
      nextId := 1;
      base := new Projects.ProjectTable();
      team := new Collaboration.CollaboratorTable();
      board := new Milestones.MilestoneBoard();
    }

    /** createSwinburneProject: the base and academic rows, and the creator
        as the project's one Active Leader; the reply describes the project
        as `CreatedReply` builds it. The image upload is left out: the urls
        are given. */
    method CreateProject(owner: UserId, email: string, title: string, description: Option<string>,
                         details: map<Col, JsValue>, defaults: map<Col, JsValue>, imageUrls: seq<string>, now: int)
      returns (r: Result<AcademicProject, ProjectError>)
      requires Valid()
      modifies this`projects, this`nextId, team, board`progress, base`rows, base`nextId
      ensures Valid()
      ensures r.Failure? <==> ValidateCreation(title, description, details, email).Failure?
      ensures r.Failure? ==>
        && r.error == ValidateCreation(title, description, details, email).error
        && projects == old(projects) && team.rows == old(team.rows) && board.progress == old(board.progress)
        && base.rows == old(base.rows) && nextId == old(nextId) && base.nextId == old(base.nextId)
      ensures r.Success? ==>
        var stored := Created(old(nextId), old(base.nextId), owner, title, description, details, defaults, now);
        && r.value == CreatedReply(stored, title, details)
        && stored.id !in old(projects) && stored.id in projects
        && projects == old(projects)[stored.id := Unjoined(stored)]
        && base.rows == old(base.rows) + [Projects.NewProject(stored.baseId, owner, title, description, imageUrls, now)]
        && Projects.Find(old(base.rows), stored.baseId).None?
        && Row(stored.id) == stored
        && board.progress == ProgressAfter(stored, old(board.progress))
        && team.rows == old(team.rows) + [Collaboration.Collaborator(stored.id, owner, Collaboration.Leader,
                                                                     Collaboration.Active, None, now)]
        && Collaboration.LeaderCount(team.rows, stored.id) == 1
    {
      var check := ValidateCreation(title, description, details, email);
      if check.Failure? {
        return Failure(check.error);
      }
      var proj := Created(nextId, base.nextId, owner, title, description, details, defaults, now);
      Store(proj, imageUrls, now);
      r := Success(CreatedReply(proj, title, details));
    }

    /** The two INSERTs and the Leader row of a new project, under fresh ids. */
    method Store(proj: AcademicProject, imageUrls: seq<string>, now: int)
      requires Valid()
      requires proj.id == nextId && proj.baseId == base.nextId
      modifies this`projects, this`nextId, team, board`progress, base`rows, base`nextId
      ensures Valid()
      ensures nextId == old(nextId) + 1 && base.nextId == old(base.nextId) + 1
      ensures proj.id !in old(projects) && projects == old(projects)[proj.id := Unjoined(proj)]
      ensures Projects.Find(old(base.rows), proj.baseId).None? && base.rows == old(base.rows) + [BaseRow(proj, imageUrls)]
      ensures board.progress == ProgressAfter(proj, old(board.progress))
      ensures proj.id in projects && Projects.Find(base.rows, proj.baseId).Some? && Row(proj.id) == proj
      ensures team.rows == old(team.rows) + [Collaboration.Collaborator(proj.id, proj.owner, Collaboration.Leader,
                                                                        Collaboration.Active, None, now)]
      ensures Collaboration.LeaderCount(team.rows, proj.id) == 1
    {
      var leader := Collaboration.Collaborator(proj.id, proj.owner, Collaboration.Leader, Collaboration.Active, None, now);
      var b := BaseRow(proj, imageUrls);
      AddKeepsTables(projects, nextId, team.rows, base.rows, base.nextId, proj, b, leader);
      base.Append(b);
      team.BootstrapLeader(nextId, proj.owner, now);
      projects := projects[nextId := Unjoined(proj)];
      board.progress := ProgressAfter(proj, board.progress);
      nextId := nextId + 1;
      assert Projects.Find(base.rows, proj.baseId) == Some(b);
      SplitJoinRoundTrip(proj, b, old(board.progress));
    }

    /** Writes a changed project back: its academic columns to its
        swinburne_projects row, its title and description to its base row,
        and its progress column to the board. */
    method Replace(proj: AcademicProject)
      requires Valid()
      requires proj.id in projects && proj.baseId == projects[proj.id].baseId
      requires Projects.Find(base.rows, proj.baseId).Some? && Projects.Find(base.rows, proj.baseId).value.owner == proj.owner
      modifies this`projects, board`progress, base`rows
      ensures Valid()
      ensures projects == old(projects)[proj.id := Unjoined(proj)]
      ensures base.rows == Projects.Retitled(old(base.rows), proj.baseId, proj.title, proj.description)
      ensures board.progress == ProgressAfter(proj, old(board.progress))
      ensures Projects.Find(base.rows, proj.baseId).Some? && Row(proj.id) == proj
    {
      var b := Projects.Find(base.rows, proj.baseId).value.(title := proj.title, description := proj.description);
      ReplaceKeepsTables(projects, nextId, team.rows, base.rows, base.nextId, Unjoined(proj), proj.title, proj.description);
      base.SetText(proj.baseId, proj.title, proj.description);
      assert Projects.Find(base.rows, proj.baseId) == Some(b);
      projects := projects[proj.id := Unjoined(proj)];
      board.progress := ProgressAfter(proj, board.progress);
      SplitJoinRoundTrip(proj, b, old(board.progress));
    }

    /** The committed update of a stored project: the two UPDATEs. */
    method Commit(p: ProjectId, title: Option<string>, description: Option<string>, body: map<Col, JsValue>, now: int)
      returns (proj: AcademicProject)
      requires Valid() && p in projects
      modifies this`projects, board`progress, base`rows
      ensures Valid()
      ensures p in old(projects) && proj == Updated(old(Row(p)), title, description, body, now)
      ensures p in projects && Projects.Find(base.rows, projects[p].baseId).Some? && Row(p) == proj
      ensures projects == old(projects)[p := Unjoined(proj)]
      ensures base.rows == Projects.Retitled(old(base.rows), proj.baseId, proj.title, proj.description)
      ensures board.progress == ProgressAfter(proj, old(board.progress))
    {
      proj := Updated(Row(p), title, description, body, now);
      assert proj.id == p && proj.baseId == projects[p].baseId;
      Replace(proj);
    }

    /** updateSwinburneProject: any Active collaborator; the allow-listed
        columns the body carries are collected in a loop, and when there
        are none the transaction rolls back, title and description included.
        The reply is the swinburne_projects row. */
    method UpdateProject(actor: UserId, p: ProjectId, title: Option<string>, description: Option<string>,
                         body: map<Col, JsValue>, now: int)
      returns (r: Result<UpdateReply, ProjectError>)
      requires Valid()
      modifies this`projects, board`progress, base`rows
      ensures Valid()
      ensures r.Failure? <==> !Collaboration.IsActiveIn(team.rows, p, actor)
      ensures r.Failure? ==> r.error == AccessDenied
      ensures r.Failure? || r == Success(NoChanges) ==>
        projects == old(projects) && board.progress == old(board.progress) && base.rows == old(base.rows)
      ensures r == Success(NoChanges) <==>
        Collaboration.IsActiveIn(team.rows, p, actor) && NoAllowedField(body)
      ensures r.Success? && r.value.Changed? ==>
        && p in old(projects) && p in projects && Projects.Find(base.rows, projects[p].baseId).Some?
        && var proj := Updated(old(Row(p)), title, description, body, now);
        && Row(p) == proj
        && r.value.row == Returned(proj)
        && projects == old(projects)[p := Unjoined(proj)]
        && base.rows == Projects.Retitled(old(base.rows), proj.baseId, proj.title, proj.description)
        && board.progress == ProgressAfter(proj, old(board.progress))
    {
      if !Collaboration.IsActiveIn(team.rows, p, actor) {
        return Failure(AccessDenied);
      }
      var none := NothingToSet(body);
      if none {
        // ROLLBACK: nothing the handler wrote is kept.
        return Success(NoChanges);
      }
      MemberProjectStored(projects, nextId, team.rows, p, actor);
      var proj := Commit(p, title, description, body, now);
      r := Success(Changed(Returned(proj)));
    }

    /** deleteSwinburneProject: only an Active Leader of an existing project;
        its memberships, milestones and progress go with it, and then its
        base row. */
    method DeleteProject(actor: UserId, p: ProjectId)
      returns (r: Result<(), ProjectError>)
      requires Valid()
      modifies this`projects, team, board`milestones, board`progress, base`rows
      ensures Valid()
      ensures r.Success? <==> p in old(projects) && Collaboration.IsActiveLeader(old(team.rows), p, actor)
      ensures r.Failure? ==>
        && r.error == LeaderOnly
        && projects == old(projects) && team.rows == old(team.rows) && board.milestones == old(board.milestones)
        && board.progress == old(board.progress) && base.rows == old(base.rows)
      ensures r.Success? ==>
        && projects == old(projects) - {p}
        && (forall c :: c in team.rows <==> c in old(team.rows) && c.project != p)
        && (forall m :: m in board.milestones <==> m in old(board.milestones) && m.project != p)
        && board.progress == old(board.progress) - {p}
        && p in old(projects)
        && base.rows == Projects.Without(old(base.rows), old(projects)[p].baseId)
    {
      if !(p in projects && Collaboration.IsActiveLeader(team.rows, p, actor)) {
        return Failure(LeaderOnly);
      }
      Remove(p);
      r := Success(());
    }

    /** The DELETEs of a stored project: its memberships, milestones and
        progress, its swinburne_projects row and its base row. */
    method Remove(p: ProjectId)
      requires Valid() && p in projects
      modifies this`projects, team, board`milestones, board`progress, base`rows
      ensures Valid()
      ensures projects == old(projects) - {p}
      ensures forall c :: c in team.rows <==> c in old(team.rows) && c.project != p
      ensures forall m :: m in board.milestones <==> m in old(board.milestones) && m.project != p
      ensures board.progress == old(board.progress) - {p}
      ensures base.rows == Projects.Without(old(base.rows), old(projects)[p].baseId)
    {
      var baseId := projects[p].baseId;
      projects := projects - {p};
      team.RemoveProject(p);
      board.RemoveProject(p);
      base.Remove(baseId);
      RemoveKeepsTables(old(projects), nextId, old(team.rows), team.rows, old(base.rows), base.rows, base.nextId, p);
    }
  }
}
