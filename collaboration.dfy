/** Membership of academic projects: the project_collaborators rows, the
    guards of the handlers that invite, promote, demote, remove, accept and
    reject members, and the invariant those guards exist for, namely that
    a project never loses its last Active Leader. */
module Collaboration {
  import opened Common
  import opened Text
  import opened Query

  datatype Role = Leader | Developer | Designer | Researcher | Writer

  datatype MemberStatus = Invited | Active | Inactive

  /** A project_collaborators row. No unique key covers (project, user):
      a re-invited former member gets a second row. */
  datatype Collaborator = Collaborator(
    project: ProjectId, user: UserId, role: Role, status: MemberStatus,
    invitedBy: Option<UserId>, joinedAt: int)

  datatype CollabError =
    | MissingFields          // 400 "User ID and role are required"
    | InvalidRole            // 400
    | AccessDenied           // 403
    | LeaderOnly             // 403 only a Leader may do this
    | UserNotFound           // 404
    | NotSwinburne           // 400 target without a university address
    | AlreadyActive          // 400
    | AlreadyInvited         // 400
    | LastLeader             // 400 the project would lose its last Leader
    | CollaboratorNotFound   // 404
    | NoInvitation           // 404

  function RoleName(r: Role): string
  {
    match r
    case Leader => "Leader"
    case Developer => "Developer"
    case Designer => "Designer"
    case Researcher => "Researcher"
    case Writer => "Writer"
  }

  /** The role list both handlers check a request's role against. */
  function ParseRole(s: string): (r: Option<Role>)
    ensures r.Some? <==> s in ["Leader", "Developer", "Designer", "Researcher", "Writer"]
    ensures r.Some? ==> RoleName(r.value) == s
  {
    if s == "Leader" then Some(Leader)
    else if s == "Developer" then Some(Developer)
    else if s == "Designer" then Some(Designer)
    else if s == "Researcher" then Some(Researcher)
    else if s == "Writer" then Some(Writer)
    else None
  }

  /** Every role's stored name parses back to that role. */
  lemma RoleNameRoundTrip(r: Role)
    ensures ParseRole(RoleName(r)) == Some(r)
  {
  }

  // ---------------------------------------------------------------------
  // Reading the rows

  /** Invited and Active rows are live; Inactive rows are kept for the record. */
  predicate IsLive(c: Collaborator)
  {
    c.status == Active || c.status == Invited
  }

  predicate IsActiveOf(c: Collaborator, p: ProjectId, u: UserId)
  {
    c.project == p && c.user == u && c.status == Active
  }

  predicate IsInvitedOf(c: Collaborator, p: ProjectId, u: UserId)
  {
    c.project == p && c.user == u && c.status == Invited
  }

  predicate IsActiveLeaderRow(c: Collaborator, p: ProjectId)
  {
    c.project == p && c.role == Leader && c.status == Active
  }

  predicate IsActiveIn(rows: seq<Collaborator>, p: ProjectId, u: UserId)
  {
    exists c :: c in rows && IsActiveOf(c, p, u)
  }

  predicate IsActiveLeader(rows: seq<Collaborator>, p: ProjectId, u: UserId)
  {
    exists c :: c in rows && IsActiveLeaderRow(c, p) && c.user == u
  }

  predicate HasActiveLeader(rows: seq<Collaborator>, p: ProjectId)
  {
    exists c :: c in rows && IsActiveLeaderRow(c, p)
  }

  predicate HasInvite(rows: seq<Collaborator>, p: ProjectId, u: UserId)
  {
    exists c :: c in rows && IsInvitedOf(c, p, u)
  }

  /** The role on the first Active row of `u` in `p` (`rows[0].role`). */
  function ActiveRole(rows: seq<Collaborator>, p: ProjectId, u: UserId): (r: Option<Role>)
    ensures r.Some? <==> IsActiveIn(rows, p, u)
    ensures r.Some? ==> exists c :: c in rows && IsActiveOf(c, p, u) && c.role == r.value
  {
    if rows == [] then None
    else
      assert rows == [rows[0]] + rows[1..];
      if IsActiveOf(rows[0], p, u) then Some(rows[0].role) else ActiveRole(rows[1..], p, u)
  }

  /** `SELECT COUNT(*) … WHERE role = 'Leader' AND status = 'Active'`. */
  function LeaderCount(rows: seq<Collaborator>, p: ProjectId): nat
  {
    if rows == [] then 0
    else (if IsActiveLeaderRow(rows[0], p) then 1 else 0) + LeaderCount(rows[1..], p)
  }

  // ---------------------------------------------------------------------
  // The table invariant

  /** Two live rows for the same member of the same project. */
  predicate LiveClash(a: Collaborator, b: Collaborator)
  {
    IsLive(a) && IsLive(b) && a.project == b.project && a.user == b.user
  }

  /** A member has at most one live row per project. */
  predicate LiveRowUnique(rows: seq<Collaborator>)
  {
    forall i, j :: 0 <= i < j < |rows| ==> !LiveClash(rows[i], rows[j])
  }

  /** Every project that has rows has an Active Leader. */
  predicate EveryProjectLed(rows: seq<Collaborator>)
  {
    forall c :: c in rows ==> HasActiveLeader(rows, c.project)
  }

  predicate TableInvariant(rows: seq<Collaborator>)
  {
    LiveRowUnique(rows) && EveryProjectLed(rows)
  }

  lemma {:induction false} LeaderCountPositive(rows: seq<Collaborator>, p: ProjectId)
    ensures LeaderCount(rows, p) > 0 <==> HasActiveLeader(rows, p)
  {
    if rows != [] {
      assert rows == [rows[0]] + rows[1..];
      LeaderCountPositive(rows[1..], p);
    }
  }

  /** With one live row per member, a member's role is the role on their only Active row. */
  lemma {:induction false} UniqueActiveRole(rows: seq<Collaborator>, p: ProjectId, u: UserId, c: Collaborator)
    requires LiveRowUnique(rows)
    requires c in rows && IsActiveOf(c, p, u)
    ensures ActiveRole(rows, p, u) == Some(c.role)
  {
    if IsActiveOf(rows[0], p, u) {
      // c is rows[0] itself, or a later row that would clash with it.
      var k :| 0 <= k < |rows| && rows[k] == c;
      assert k == 0 || !LiveClash(rows[0], rows[k]);
    } else {
      var rest := rows[1..];
      assert rows == [rows[0]] + rest;
      assert LiveRowUnique(rest) by {
        forall i, j | 0 <= i < j < |rest| ensures !LiveClash(rest[i], rest[j]) {
          assert rest[i] == rows[i + 1] && rest[j] == rows[j + 1];
        }
      }
      UniqueActiveRole(rest, p, u, c);
    }
  }

  /** Two Active Leader rows means a Leader other than any given user. */
  lemma {:induction false} OtherLeader(rows: seq<Collaborator>, p: ProjectId, u: UserId)
    requires LiveRowUnique(rows)
    requires LeaderCount(rows, p) >= 2
    ensures exists c :: c in rows && IsActiveLeaderRow(c, p) && c.user != u
  {
    assert rows == [rows[0]] + rows[1..];
    if IsActiveLeaderRow(rows[0], p) {
      if rows[0].user == u {
        LeaderCountPositive(rows[1..], p);
        var c :| c in rows[1..] && IsActiveLeaderRow(c, p);
        var k :| 0 <= k < |rows[1..]| && rows[1..][k] == c;
        assert rows[k + 1] == c && !LiveClash(rows[0], rows[k + 1]);
      }
    } else {
      OtherLeader(rows[1..], p, u);
    }
  }

  /** The only Active Leader of a project cannot be removed, not even by themselves. */
  lemma LastLeaderCannotLeave(rows: seq<Collaborator>, p: ProjectId, u: UserId)
    requires LiveRowUnique(rows)
    requires IsActiveLeader(rows, p, u) && LeaderCount(rows, p) == 1
    ensures RemoveCheck(rows, p, u, u) == Failure(LastLeader)
  {
    var c :| c in rows && IsActiveLeaderRow(c, p) && c.user == u;
    UniqueActiveRole(rows, p, u, c);
  }

  // ---------------------------------------------------------------------
  // Row updates

  /** `UPDATE … SET role = $1 WHERE project_id = $2 AND user_id = $3 AND status = 'Active'`. */
  function SetRoleOfActive(rows: seq<Collaborator>, p: ProjectId, u: UserId, role: Role): (r: seq<Collaborator>)
    ensures |r| == |rows|
    ensures forall i :: 0 <= i < |rows| ==> r[i] == if IsActiveOf(rows[i], p, u) then rows[i].(role := role) else rows[i]
  {
    seq(|rows|, i requires 0 <= i < |rows| => if IsActiveOf(rows[i], p, u) then rows[i].(role := role) else rows[i])
  }

  /** `UPDATE … SET status = 'Inactive' WHERE … AND status = 'Active'`. */
  function Deactivate(rows: seq<Collaborator>, p: ProjectId, u: UserId): (r: seq<Collaborator>)
    ensures |r| == |rows|
    ensures forall i :: 0 <= i < |rows| ==> r[i] == if IsActiveOf(rows[i], p, u) then rows[i].(status := Inactive) else rows[i]
  {
    seq(|rows|, i requires 0 <= i < |rows| => if IsActiveOf(rows[i], p, u) then rows[i].(status := Inactive) else rows[i])
  }

  /** `UPDATE … SET status = 'Active', joined_at = now WHERE … AND status = 'Invited'`. */
  function Activate(rows: seq<Collaborator>, p: ProjectId, u: UserId, now: int): (r: seq<Collaborator>)
    ensures |r| == |rows|
    ensures forall i :: 0 <= i < |rows| ==>
      r[i] == if IsInvitedOf(rows[i], p, u) then rows[i].(status := Active, joinedAt := now) else rows[i]
  {
    seq(|rows|, i requires 0 <= i < |rows| =>
      if IsInvitedOf(rows[i], p, u) then rows[i].(status := Active, joinedAt := now) else rows[i])
  }

  /** Deleting rows keeps at most one live row per member. */
  lemma {:induction false} FilterKeepsUnique(rows: seq<Collaborator>, keep: Collaborator -> bool)
    requires LiveRowUnique(rows)
    ensures LiveRowUnique(Filter(rows, keep))
  {
    if rows != [] {
      var rest := Filter(rows[1..], keep);
      FilterKeepsUnique(rows[1..], keep);
      if keep(rows[0]) {
        var r := [rows[0]] + rest;
        forall i, j | 0 <= i < j < |r|
          ensures !LiveClash(r[i], r[j])
        {
          if i == 0 {
            assert r[j] in rows[1..];
            var k :| 0 <= k < |rows[1..]| && rows[1..][k] == r[j];
            assert rows[k + 1] == r[j];
          } else {
            assert r[i] == rest[i - 1] && r[j] == rest[j - 1];
          }
        }
      }
    }
  }

  // ---------------------------------------------------------------------
  // The handlers' guards, in the order the handlers test them

  /** The duplicate-invitation guard: a member with a live row cannot be invited again. */
  function ExistingCheck(rows: seq<Collaborator>, p: ProjectId, u: UserId): (r: Result<(), CollabError>)
    ensures r.Success? <==> forall c :: c in rows && c.project == p && c.user == u ==> !IsLive(c)
    ensures r == Failure(AlreadyActive) <==> IsActiveIn(rows, p, u)
    ensures r == Failure(AlreadyInvited) <==> !IsActiveIn(rows, p, u) && HasInvite(rows, p, u)
  {
    if IsActiveIn(rows, p, u) then Failure(AlreadyActive)
    else if HasInvite(rows, p, u) then Failure(AlreadyInvited)
    else Success(())
  }

  /** addCollaborator's checks; success carries the role to invite with. A
      target id of 0 stands for a missing id and "" for a missing role. */
  function AddCheck(rows: seq<Collaborator>, emails: map<UserId, string>, collaborationStatus: Option<string>,
                    p: ProjectId, actor: UserId, target: UserId, role: string): (r: Result<Role, CollabError>)
    ensures r.Success? <==>
      && target != 0 && ParseRole(role).Some?
      && IsActiveIn(rows, p, actor) && collaborationStatus.Some?
      && (ActiveRole(rows, p, actor) == Some(Leader) || collaborationStatus == Some("Open"))
      && target in emails && IsSwinburneEmail(emails[target])
      && ExistingCheck(rows, p, target).Success?
    ensures r.Success? ==> RoleName(r.value) == role
    ensures target == 0 || role == "" ==> r == Failure(MissingFields)
    ensures target != 0 && role != "" && ParseRole(role).None? ==> r == Failure(InvalidRole)
    ensures r == Failure(AccessDenied) ==> !IsActiveIn(rows, p, actor) || collaborationStatus.None?
    ensures r == Failure(LeaderOnly) ==>
      IsActiveIn(rows, p, actor) && ActiveRole(rows, p, actor) != Some(Leader) && collaborationStatus != Some("Open")
  {
    if target == 0 || role == "" then Failure(MissingFields)
    else if ParseRole(role).None? then Failure(InvalidRole)
    // The permission query joins the actor's Active row with the project's academic record.
    else if ActiveRole(rows, p, actor).None? || collaborationStatus.None? then Failure(AccessDenied)
    else if ActiveRole(rows, p, actor) != Some(Leader) && collaborationStatus != Some("Open") then Failure(LeaderOnly)
    else if target !in emails then Failure(UserNotFound)
    else if !IsSwinburneEmail(emails[target]) then Failure(NotSwinburne)
    else match ExistingCheck(rows, p, target)
      case Failure(e) => Failure(e)
      case Success(_) => Success(ParseRole(role).value)
  }

  /** updateCollaboratorRole's checks; success carries the new role. */
  function RoleCheck(rows: seq<Collaborator>, p: ProjectId, actor: UserId, target: UserId, role: string): (r: Result<Role, CollabError>)
    ensures ParseRole(role).None? ==> r == Failure(InvalidRole)
    ensures ParseRole(role).Some? && !IsActiveLeader(rows, p, actor) ==> r == Failure(LeaderOnly)
    ensures r == Failure(LastLeader) <==>
      ParseRole(role).Some? && IsActiveLeader(rows, p, actor)
      && role != "Leader" && LeaderCount(rows, p) == 1 && IsActiveLeader(rows, p, target)
    ensures r.Success? <==>
      ParseRole(role).Some? && IsActiveLeader(rows, p, actor) && IsActiveIn(rows, p, target)
      && !(role != "Leader" && LeaderCount(rows, p) == 1 && IsActiveLeader(rows, p, target))
    ensures r.Success? ==> RoleName(r.value) == role
  {
    if ParseRole(role).None? then Failure(InvalidRole)
    else if !IsActiveLeader(rows, p, actor) then Failure(LeaderOnly)
    else if role != "Leader" && LeaderCount(rows, p) == 1 && IsActiveLeader(rows, p, target) then Failure(LastLeader)
    // The UPDATE matched no Active row of the target.
    else if !IsActiveIn(rows, p, target) then Failure(CollaboratorNotFound)
    else Success(ParseRole(role).value)
  }

  /** removeCollaborator's checks. */
  function RemoveCheck(rows: seq<Collaborator>, p: ProjectId, actor: UserId, target: UserId): (r: Result<(), CollabError>)
    ensures r.Success? <==>
      (actor == target || IsActiveLeader(rows, p, actor)) && IsActiveIn(rows, p, target)
      && !(ActiveRole(rows, p, target) == Some(Leader) && LeaderCount(rows, p) == 1)
    ensures actor != target && !IsActiveLeader(rows, p, actor) ==> r == Failure(AccessDenied)
    ensures r == Failure(CollaboratorNotFound) ==> !IsActiveIn(rows, p, target)
  {
    if actor != target && !IsActiveLeader(rows, p, actor) then Failure(AccessDenied)
    else if ActiveRole(rows, p, target).None? then Failure(CollaboratorNotFound)
    else if ActiveRole(rows, p, target) == Some(Leader) && LeaderCount(rows, p) == 1 then Failure(LastLeader)
    else Success(())
  }

  // ---------------------------------------------------------------------
  // Each guarded update keeps the table invariant

  lemma InviteKeepsInvariant(rows: seq<Collaborator>, c: Collaborator, actor: UserId)
    requires TableInvariant(rows)
    requires IsActiveIn(rows, c.project, actor)
    requires ExistingCheck(rows, c.project, c.user).Success?
    requires c.status == Invited
    ensures TableInvariant(rows + [c])
  {
    var r := rows + [c];
    var a :| a in rows && IsActiveOf(a, c.project, actor);
    assert HasActiveLeader(rows, a.project);
    forall i, j | 0 <= i < j < |r|
      ensures !LiveClash(r[i], r[j])
    {
      if j == |rows| {
        assert r[i] in rows;
      } else {
        assert r[i] == rows[i] && r[j] == rows[j];
      }
    }
  }

  /** An update row by row that touches only rows of `p`, never revives a
      row, and leaves `p` with an Active Leader row keeps the invariant. */
  lemma {:induction false} RowUpdateKeepsInvariant(rows: seq<Collaborator>, r: seq<Collaborator>, p: ProjectId, w: Collaborator)
    requires TableInvariant(rows)
    requires |r| == |rows|
    requires forall i :: 0 <= i < |rows| ==> r[i].project == rows[i].project && r[i].user == rows[i].user
    requires forall i :: 0 <= i < |rows| && IsLive(r[i]) ==> IsLive(rows[i])
    requires forall i :: 0 <= i < |rows| && rows[i].project != p ==> r[i] == rows[i]
    requires w in r && IsActiveLeaderRow(w, p)
    ensures TableInvariant(r)
  {
    forall c | c in r
      ensures HasActiveLeader(r, c.project)
    {
      var k :| 0 <= k < |r| && r[k] == c;
      if c.project != p {
        assert HasActiveLeader(rows, rows[k].project);
        var b :| b in rows && IsActiveLeaderRow(b, c.project);
        var j :| 0 <= j < |rows| && rows[j] == b;
        assert r[j] == b;
      }
    }
    forall i, j | 0 <= i < j < |r|
      ensures !LiveClash(r[i], r[j])
    {
      assert !LiveClash(rows[i], rows[j]);
    }
  }

  /** A role change that passed its checks leaves every project led. */
  lemma RoleChangeKeepsInvariant(rows: seq<Collaborator>, p: ProjectId, actor: UserId, target: UserId, role: string)
    requires TableInvariant(rows)
    requires RoleCheck(rows, p, actor, target, role).Success?
    ensures TableInvariant(SetRoleOfActive(rows, p, target, RoleCheck(rows, p, actor, target, role).value))
  {
    var newRole := RoleCheck(rows, p, actor, target, role).value;
    var r := SetRoleOfActive(rows, p, target, newRole);
    // A Leader row of `p` that survives the update.
    var a :| a in rows && IsActiveLeaderRow(a, p) && a.user == actor;
    var w: Collaborator;
    if newRole == Leader {
      w := if a.user == target then a.(role := Leader) else a;
    } else if !IsActiveLeader(rows, p, target) {
      w := a;
    } else {
      LeaderCountPositive(rows, p);
      OtherLeader(rows, p, target);
      w :| w in rows && IsActiveLeaderRow(w, p) && w.user != target;
    }
    var i :| 0 <= i < |rows| && rows[i] == (if newRole == Leader then a else w);
    assert r[i] == w;
    RowUpdateKeepsInvariant(rows, r, p, w);
  }

  /** When a removal passes its checks, an Active Leader other than the
      target remains. */
  lemma SurvivingLeader(rows: seq<Collaborator>, p: ProjectId, actor: UserId, target: UserId)
    returns (w: Collaborator)
    requires TableInvariant(rows)
    requires RemoveCheck(rows, p, actor, target).Success?
    ensures w in rows && IsActiveLeaderRow(w, p) && w.user != target
  {
    var t :| t in rows && IsActiveOf(t, p, target);
    if t.role == Leader {
      UniqueActiveRole(rows, p, target, t);
      LeaderCountPositive(rows, p);
      OtherLeader(rows, p, target);
      w :| w in rows && IsActiveLeaderRow(w, p) && w.user != target;
    } else {
      assert HasActiveLeader(rows, t.project);
      w :| w in rows && IsActiveLeaderRow(w, p);
      // The target's one active role is not Leader, so w is someone else.
      UniqueActiveRole(rows, p, target, t);
      UniqueActiveRole(rows, p, w.user, w);
    }
  }

  /** A removal that passed its checks leaves every project led. */
  lemma RemovalKeepsInvariant(rows: seq<Collaborator>, p: ProjectId, actor: UserId, target: UserId)
    requires TableInvariant(rows)
    requires RemoveCheck(rows, p, actor, target).Success?
    ensures TableInvariant(Deactivate(rows, p, target))
  {
    var r := Deactivate(rows, p, target);
    var w := SurvivingLeader(rows, p, actor, target);
    var i :| 0 <= i < |rows| && rows[i] == w;
    assert r[i] == w;
    RowUpdateKeepsInvariant(rows, r, p, w);
  }

  lemma AcceptKeepsInvariant(rows: seq<Collaborator>, p: ProjectId, u: UserId, now: int)
    requires TableInvariant(rows)
    ensures TableInvariant(Activate(rows, p, u, now))
  {
    var r := Activate(rows, p, u, now);
    forall c | c in r
      ensures HasActiveLeader(r, c.project)
    {
      var k :| 0 <= k < |r| && r[k] == c;
      assert HasActiveLeader(rows, rows[k].project);
      var b :| b in rows && IsActiveLeaderRow(b, c.project);
      var j :| 0 <= j < |rows| && rows[j] == b;
      assert r[j] == b;
    }
    forall i, j | 0 <= i < j < |r|
      ensures !LiveClash(r[i], r[j])
    {
      assert !LiveClash(rows[i], rows[j]);
    }
  }

  /** Deleting rows leaves every project led, provided an Active Leader
      row goes only together with all of its project's rows. */
  lemma FilterKeepsInvariant(rows: seq<Collaborator>, keep: Collaborator -> bool)
    requires TableInvariant(rows)
    requires forall b :: b in rows && b.role == Leader && b.status == Active ==>
      keep(b) || (forall d :: d in rows && d.project == b.project ==> !keep(d))
    ensures TableInvariant(Filter(rows, keep))
  {
    FilterKeepsUnique(rows, keep);
    var r := Filter(rows, keep);
    forall c | c in r
      ensures HasActiveLeader(r, c.project)
    {
      var b :| b in rows && IsActiveLeaderRow(b, c.project);
      assert keep(b);
    }
  }

  // ---------------------------------------------------------------------
  // The table and its handlers

  class CollaboratorTable {
    var rows: seq<Collaborator>

    ghost predicate Valid()
      reads this
    {
      TableInvariant(rows)
    }

    constructor ()
      ensures Valid() && rows == []
    {
      rows := [];
    }

    /** The creator of a new academic project becomes its Active Leader. */
    method BootstrapLeader(p: ProjectId, creator: UserId, now: int)
      requires Valid()
      requires forall c :: c in rows ==> c.project != p
      modifies this
      ensures Valid()
      ensures rows == old(rows) + [Collaborator(p, creator, Leader, Active, None, now)]
      ensures IsActiveLeader(rows, p, creator) && LeaderCount(rows, p) == 1
    {
      var c := Collaborator(p, creator, Leader, Active, None, now);
      rows := rows + [c];
      forall i, j | 0 <= i < j < |rows|
        ensures !LiveClash(rows[i], rows[j])
      {
        if j == |old(rows)| {
          assert rows[i] in old(rows);
        } else {
          assert rows[i] == old(rows)[i] && rows[j] == old(rows)[j];
        }
      }
      assert c in rows;
      LeaderCountNew(old(rows), p, c);
    }

    /** addCollaborator: records an invitation. */
    method AddCollaborator(emails: map<UserId, string>, collaborationStatus: Option<string>,
                           p: ProjectId, actor: UserId, target: UserId, role: string, now: int)
      returns (r: Result<Collaborator, CollabError>)
      requires Valid()
      modifies this
      ensures Valid()
      ensures r.Failure? ==> rows == old(rows)
      ensures r.Failure? <==> AddCheck(old(rows), emails, collaborationStatus, p, actor, target, role).Failure?
      ensures r.Failure? ==> r.error == AddCheck(old(rows), emails, collaborationStatus, p, actor, target, role).error
      ensures r.Success? ==>
        && r.value == Collaborator(p, target, AddCheck(old(rows), emails, collaborationStatus, p, actor, target, role).value,
                                   Invited, Some(actor), now)
        && rows == old(rows) + [r.value]
    {
      var check := AddCheck(rows, emails, collaborationStatus, p, actor, target, role);
      if check.Failure? {
        return Failure(check.error);
      }
      var c := Collaborator(p, target, check.value, Invited, Some(actor), now);
      InviteKeepsInvariant(rows, c, actor);
      rows := rows + [c];
      r := Success(c);
    }

    /** updateCollaboratorRole. */
    method UpdateCollaboratorRole(p: ProjectId, actor: UserId, target: UserId, role: string)
      returns (r: Result<Role, CollabError>)
      requires Valid()
      modifies this
      ensures Valid()
      ensures r == RoleCheck(old(rows), p, actor, target, role)
      ensures r.Failure? ==> rows == old(rows)
      ensures r.Success? ==> rows == SetRoleOfActive(old(rows), p, target, r.value)
    {
      r := RoleCheck(rows, p, actor, target, role);
      if r.Success? {
        RoleChangeKeepsInvariant(rows, p, actor, target, role);
        rows := SetRoleOfActive(rows, p, target, r.value);
      }
    }

    /** removeCollaborator: the row turns Inactive and stays. */
    method RemoveCollaborator(p: ProjectId, actor: UserId, target: UserId)
      returns (r: Result<(), CollabError>)
      requires Valid()
      modifies this
      ensures Valid()
      ensures r == RemoveCheck(old(rows), p, actor, target)
      ensures r.Failure? ==> rows == old(rows)
      ensures r.Success? ==> rows == Deactivate(old(rows), p, target)
    {
      r := RemoveCheck(rows, p, actor, target);
      if r.Success? {
        RemovalKeepsInvariant(rows, p, actor, target);
        rows := Deactivate(rows, p, target);
      }
    }

    /** acceptCollaborationInvite. */
    method AcceptInvite(p: ProjectId, u: UserId, now: int)
      returns (r: Result<(), CollabError>)
      requires Valid()
      modifies this
      ensures Valid()
      ensures r.Failure? <==> !HasInvite(old(rows), p, u)
      ensures r.Failure? ==> r.error == NoInvitation && rows == old(rows)
      ensures r.Success? ==> rows == Activate(old(rows), p, u, now) && IsActiveIn(rows, p, u)
    {
      if !HasInvite(rows, p, u) {
        return Failure(NoInvitation);
      }
      var c :| c in rows && IsInvitedOf(c, p, u);
      var i :| 0 <= i < |rows| && rows[i] == c;
      AcceptKeepsInvariant(rows, p, u, now);
      rows := Activate(rows, p, u, now);
      assert IsActiveOf(rows[i], p, u);
      r := Success(());
    }

    /** rejectCollaborationInvite: the invitation rows are deleted. */
    method RejectInvite(p: ProjectId, u: UserId)
      returns (r: Result<(), CollabError>)
      requires Valid()
      modifies this
      ensures Valid()
      ensures r.Failure? <==> !HasInvite(old(rows), p, u)
      ensures r.Failure? ==> r.error == NoInvitation && rows == old(rows)
      ensures r.Success? ==> rows == Filter(old(rows), (c: Collaborator) => !IsInvitedOf(c, p, u)) && !HasInvite(rows, p, u)
    {
      if !HasInvite(rows, p, u) {
        return Failure(NoInvitation);
      }
      FilterKeepsInvariant(rows, (c: Collaborator) => !IsInvitedOf(c, p, u));
      rows := Filter(rows, (c: Collaborator) => !IsInvitedOf(c, p, u));
      r := Success(());
    }

    /** The cascade when an academic project is deleted. */
    method RemoveProject(p: ProjectId)
      requires Valid()
      modifies this
      ensures Valid()
      ensures rows == Filter(old(rows), (c: Collaborator) => c.project != p)
      ensures forall c :: c in rows ==> c.project != p
    {
      FilterKeepsInvariant(rows, (c: Collaborator) => c.project != p);
      rows := Filter(rows, (c: Collaborator) => c.project != p);
    }
  }

  lemma {:induction false} LeaderCountNew(rows: seq<Collaborator>, p: ProjectId, c: Collaborator)
    requires forall d :: d in rows ==> d.project != p
    requires IsActiveLeaderRow(c, p)
    ensures LeaderCount(rows + [c], p) == 1
  {
    if rows == [] {
      assert LeaderCount([c][1..], p) == 0;
    } else {
      assert (rows + [c])[1..] == rows[1..] + [c];
      LeaderCountNew(rows[1..], p, c);
    }
  }

  // ---------------------------------------------------------------------
  // Listings

  /** getProjectCollaborators' order: Leaders first, then by joined_at. */
  function LeadersFirst(c: Collaborator): (int, int)
  {
    (if c.role == Leader then 0 else 1, c.joinedAt)
  }

  /** getUserCollaborationInvites' order: newest invitation first. */
  function NewestFirst(c: Collaborator): (int, int)
  {
    (-c.joinedAt, 0)
  }

  /** getProjectCollaborators: only a member may look, and sees the Active members. */
  function ProjectCollaborators(rows: seq<Collaborator>, p: ProjectId, caller: UserId): (r: Result<seq<Collaborator>, CollabError>)
    ensures r.Failure? <==> !IsActiveIn(rows, p, caller)
    ensures r.Failure? ==> r.error == AccessDenied
    ensures r.Success? ==> SortedBy(r.value, LeadersFirst)
    ensures r.Success? ==> forall c :: c in r.value <==> c in rows && c.project == p && c.status == Active
    ensures r.Success? ==>
      multiset(r.value) == multiset(Filter(rows, (c: Collaborator) => c.project == p && c.status == Active))
    ensures r.Success? ==> forall i :: 0 <= i < |r.value| && r.value[i].role == Leader ==>
      forall j :: 0 <= j < i ==> r.value[j].role == Leader
  {
    if !IsActiveIn(rows, p, caller) then Failure(AccessDenied)
    else
      var active := Filter(rows, (c: Collaborator) => c.project == p && c.status == Active);
      var sorted := SortBy(active, LeadersFirst);
      assert forall c :: c in sorted <==> c in active by {
        forall c ensures c in sorted <==> c in active { SortByMembers(active, LeadersFirst, c); }
      }
      Success(sorted)
  }

  /** getUserCollaborationInvites: the user's open invitations, newest first. */
  function UserInvites(rows: seq<Collaborator>, u: UserId): (r: seq<Collaborator>)
    ensures SortedBy(r, NewestFirst)
    ensures forall c :: c in r <==> c in rows && c.user == u && c.status == Invited
    ensures multiset(r) == multiset(Filter(rows, (c: Collaborator) => c.user == u && c.status == Invited))
    ensures forall i, j :: 0 <= i < j < |r| ==> r[i].joinedAt >= r[j].joinedAt
  {
    var invited := Filter(rows, (c: Collaborator) => c.user == u && c.status == Invited);
    var sorted := SortBy(invited, NewestFirst);
    assert forall c :: c in sorted <==> c in invited by {
      forall c ensures c in sorted <==> c in invited { SortByMembers(invited, NewestFirst, c); }
    }
    sorted
  }

  // ---------------------------------------------------------------------
  // The duplicate-invitation guard as written

  /** The status on the first row of `u` in `p`, in whatever order the
      table returns rows: the as-written guard reads only `rows[0]`. */
  function FirstRowStatus(rows: seq<Collaborator>, p: ProjectId, u: UserId): Option<MemberStatus>
  {
    if rows == [] then None
    else if rows[0].project == p && rows[0].user == u then Some(rows[0].status)
    else FirstRowStatus(rows[1..], p, u)
  }

  function AsWrittenExistingCheck(rows: seq<Collaborator>, p: ProjectId, u: UserId): (r: Result<(), CollabError>)
    ensures r.Failure? ==> !ExistingCheck(rows, p, u).Success?
  {
    match FirstRowStatus(rows, p, u)
    case Some(Active) => FirstRowLive(rows, p, u); Failure(AlreadyActive)
    case Some(Invited) => FirstRowLive(rows, p, u); Failure(AlreadyInvited)
    case _ => Success(())
  }

  lemma {:induction false} FirstRowLive(rows: seq<Collaborator>, p: ProjectId, u: UserId)
    requires FirstRowStatus(rows, p, u) == Some(Active) || FirstRowStatus(rows, p, u) == Some(Invited)
    ensures exists c :: c in rows && c.project == p && c.user == u && IsLive(c)
  {
    if rows[0].project == p && rows[0].user == u {
      assert rows[0] in rows;
    } else {
      FirstRowLive(rows[1..], p, u);
      assert forall c :: c in rows[1..] ==> c in rows;
    }
  }

  /** A former member (Inactive row first) with an open invitation passes
      the as-written guard, and a second invitation row is inserted. */
  lemma AsWrittenAdmitsDuplicateInvite()
    ensures
      var former := Collaborator(1, 2, Developer, Inactive, Some(3), 10);
      var invited := Collaborator(1, 2, Developer, Invited, Some(3), 20);
      var leader := Collaborator(1, 3, Leader, Active, None, 0);
      var rows := [former, invited, leader];
      && TableInvariant(rows)
      && AsWrittenExistingCheck(rows, 1, 2) == Success(())
      && ExistingCheck(rows, 1, 2) == Failure(AlreadyInvited)
      && !LiveRowUnique(rows + [Collaborator(1, 2, Developer, Invited, Some(3), 30)])
  {
    var former := Collaborator(1, 2, Developer, Inactive, Some(3), 10);
    var invited := Collaborator(1, 2, Developer, Invited, Some(3), 20);
    var leader := Collaborator(1, 3, Leader, Active, None, 0);
    var rows := [former, invited, leader];
    assert HasActiveLeader(rows, 1) by { assert leader in rows; }
    assert HasInvite(rows, 1, 2) by { assert invited in rows; }
    assert LiveClash((rows + [Collaborator(1, 2, Developer, Invited, Some(3), 30)])[1],
                     (rows + [Collaborator(1, 2, Developer, Invited, Some(3), 30)])[3]);
  }

  /** Once a member holds two Active Leader rows (two Leader invitations
      accepted together), the last-leader guard counts rows, not members:
      that member can demote themselves and the project is left without a Leader. */
  lemma DuplicateLeaderRowsLoseLastLeader()
    ensures
      var rows := [Collaborator(1, 2, Leader, Active, Some(3), 10), Collaborator(1, 2, Leader, Active, Some(3), 20)];
      && RoleCheck(rows, 1, 2, 2, "Developer") == Success(Developer)
      && !HasActiveLeader(SetRoleOfActive(rows, 1, 2, Developer), 1)
  {
    var rows := [Collaborator(1, 2, Leader, Active, Some(3), 10), Collaborator(1, 2, Leader, Active, Some(3), 20)];
    assert rows[0] in rows;
    assert LeaderCount(rows, 1) == 2;
    var r := SetRoleOfActive(rows, 1, 2, Developer);
    assert r == [rows[0].(role := Developer), rows[1].(role := Developer)];
  }
}
