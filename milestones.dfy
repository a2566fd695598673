/** Milestones of academic projects: the project_milestones rows, the
    handlers that add, edit, complete, reopen, delete and reorder them, and
    the progress percentage recomputed from them. */
module Milestones {
  import opened Common
  import opened Text
  import opened Query
  import Collaboration

  /** A project_milestones row. `completedBy` and `completedAt` are set
      exactly while the milestone is completed. */
  datatype Milestone = Milestone(
    id: nat, project: ProjectId, name: string, description: Option<string>,
    dueDate: int, orderIndex: int,
    isCompleted: bool, completedBy: Option<UserId>, completedAt: Option<int>)

  datatype MilestoneError =
    | MissingFields      // 400 "Milestone name and due date are required"
    | NameTooLong        // 400 more than 200 characters
    | AccessDenied       // 403 not an Active collaborator
    | DueDateInPast      // 400 before the start of today
    | NotFound           // 404 no such milestone in this project
    | AlreadyCompleted   // 400
    | NotCompleted       // 400
    | LeaderOnly         // 403 only a Leader may delete
    | EmptyBatch         // 400 "Milestones array is required"
    | MalformedEntry     // 500 an entry without id or order_index; the batch rolls back

  /** addMilestone's body. A `name` of "" stands for a missing name. */
  datatype MilestoneDraft = MilestoneDraft(
    name: string, description: Option<string>, dueDate: Option<int>, orderIndex: Option<int>)

  /** A body field that the handler copies whenever the body has the
      property: missing, present as `null`, or present with a value. */
  datatype BodyField<T> = Missing | Null | Given(value: T)

  /** updateMilestone's body: `Some` for each allowed field the body carries.
      A description may also be present as `null`. */
  datatype MilestonePatch = MilestonePatch(
    name: Option<string>, description: BodyField<string>, dueDate: Option<int>, orderIndex: Option<int>)

  /** One entry of reorderMilestones' array. An `id` of 0 stands for a
      missing id (row ids start at 1); `None` for a missing order_index. */
  datatype ReorderEntry = ReorderEntry(id: nat, orderIndex: Option<int>)

  // ---------------------------------------------------------------------
  // Progress

  /** `Math.round(completed / total * 100)`, and 0 for a project without
      milestones: the integer nearest to the percentage, halves rounding up. */
  function Progress(completed: nat, total: nat): (r: nat)
    requires completed <= total
    ensures r <= 100
    ensures total == 0 ==> r == 0
    ensures total > 0 ==> -(total as int) < 2 * total * r - 200 * completed <= total
  {
    if total == 0 then 0
    else
      var d := 2 * total;
      var a := 200 * completed + total;
      var r := a / d;
      DivBounds(a, d);
      MulCancel(d, r, 101);
      r
  }

  /** Every milestone completed means 100 percent. */
  lemma ProgressFull(total: nat)
    requires total > 0
    ensures Progress(total, total) == 100
  {
    var r := Progress(total, total);
    MulCancel(2 * total, 99, r);
  }

  /** Completing one more milestone never lowers the percentage. */
  lemma ProgressMonotone(c: nat, total: nat)
    requires c < total
    ensures Progress(c, total) <= Progress(c + 1, total)
  {
    var a, b := Progress(c, total), Progress(c + 1, total);
    assert 2 * total * (b + 1) == 2 * total * b + 2 * total;
    MulCancel(2 * total, a, b + 1);
  }

  /** COUNT(*) of the project's milestones. */
  function Total(ms: seq<Milestone>, p: ProjectId): (n: nat)
    ensures n <= |ms|
  {
    if ms == [] then 0 else (if ms[0].project == p then 1 else 0) + Total(ms[1..], p)
  }

  /** COUNT(CASE WHEN is_completed …) of the project's milestones. */
  function Done(ms: seq<Milestone>, p: ProjectId): (n: nat)
    ensures n <= Total(ms, p)
  {
    if ms == [] then 0 else (if ms[0].project == p && ms[0].isCompleted then 1 else 0) + Done(ms[1..], p)
  }

  /** updateProjectProgress' figure for project `p`. */
  function ProjectProgress(ms: seq<Milestone>, p: ProjectId): nat
  {
    Progress(Done(ms, p), Total(ms, p))
  }

  /** A project whose milestones are all completed is at 100 percent. */
  lemma {:induction false} AllDoneIsFull(ms: seq<Milestone>, p: ProjectId)
    requires Total(ms, p) > 0
    requires forall m :: m in ms && m.project == p ==> m.isCompleted
    ensures ProjectProgress(ms, p) == 100
  {
    AllDoneCounts(ms, p);
    ProgressFull(Total(ms, p));
  }

  lemma {:induction false} AllDoneCounts(ms: seq<Milestone>, p: ProjectId)
    requires forall m :: m in ms && m.project == p ==> m.isCompleted
    ensures Done(ms, p) == Total(ms, p)
  {
    if ms != [] {
      assert ms == [ms[0]] + ms[1..];
      AllDoneCounts(ms[1..], p);
    }
  }

  // ---------------------------------------------------------------------
  // Looking rows up and rewriting them

  /** The row a statement `WHERE id = $id AND project_id = $p` touches. */
  predicate Targets(m: Milestone, id: nat, p: ProjectId)
  {
    m.id == id && m.project == p
  }

  /** `SELECT * … WHERE id = $1 AND project_id = $2`, first row. */
  function Find(ms: seq<Milestone>, id: nat, p: ProjectId): (r: Option<Milestone>)
    ensures r.Some? <==> exists m :: m in ms && Targets(m, id, p)
    ensures r.Some? ==> r.value in ms && Targets(r.value, id, p)
  {
    if ms == [] then None
    else
      assert ms == [ms[0]] + ms[1..];
      if Targets(ms[0], id, p) then Some(ms[0]) else Find(ms[1..], id, p)
  }

  /** `UPDATE … SET … WHERE id = $id AND project_id = $p`, the row change given by `f`. */
  function Rewrite(ms: seq<Milestone>, id: nat, p: ProjectId, f: Milestone -> Milestone): (r: seq<Milestone>)
    ensures |r| == |ms|
    ensures forall i :: 0 <= i < |ms| ==> r[i] == if Targets(ms[i], id, p) then f(ms[i]) else ms[i]
  {
    seq(|ms|, i requires 0 <= i < |ms| => if Targets(ms[i], id, p) then f(ms[i]) else ms[i])
  }

  /** completeMilestone's SET clause: the row becomes completed by `who`
      at `at`, and no other column changes. */
  function Completed(m: Milestone, who: UserId, at: int): (r: Milestone)
    ensures Consistent(r) && r.isCompleted && r.completedBy == Some(who) && r.completedAt == Some(at)
    ensures r.(isCompleted := m.isCompleted, completedBy := m.completedBy, completedAt := m.completedAt) == m
  {
    m.(isCompleted := true, completedBy := Some(who), completedAt := Some(at))
  }

  /** completeMilestone's row change. */
  function Completer(who: UserId, at: int): Milestone -> Milestone
  {
    (m: Milestone) => Completed(m, who, at)
  }

  /** uncompleteMilestone's SET clause: the completion columns are cleared,
      and no other column changes. */
  function Reopened(m: Milestone): (r: Milestone)
    ensures Consistent(r) && !r.isCompleted
    ensures r.(isCompleted := m.isCompleted, completedBy := m.completedBy, completedAt := m.completedAt) == m
  {
    m.(isCompleted := false, completedBy := None, completedAt := None)
  }

  /** uncompleteMilestone's row change. */
  function Reopener(): Milestone -> Milestone
  {
    (m: Milestone) => Reopened(m)
  }

  /** reorderMilestones' row change. */
  function Reorderer(k: int): Milestone -> Milestone
  {
    (m: Milestone) => m.(orderIndex := k)
  }

  /** updateMilestone's SET clause: each field the patch carries, with name
      and description trimmed (a blank description stays ""); a description
      present as `null` is written as NULL, since `null?.trim()` is
      `undefined`. Only those four columns can change. */
  function Patched(m: Milestone, patch: MilestonePatch): (r: Milestone)
    ensures r.(name := m.name, description := m.description, dueDate := m.dueDate, orderIndex := m.orderIndex) == m
    ensures patch.name.Some? ==> r.name == Trim(patch.name.value) && |r.name| <= |patch.name.value|
    ensures patch.description.Given? ==> r.description == Some(Trim(patch.description.value))
    ensures patch.description.Null? ==> r.description.None?
    ensures IsEmptyPatch(patch) ==> r == m
  {
    m.(
      name := if patch.name.Some? then Trim(patch.name.value) else m.name,
      description := match patch.description
                     case Missing => m.description
                     case Null => None
                     case Given(d) => Some(Trim(d)),
      dueDate := if patch.dueDate.Some? then patch.dueDate.value else m.dueDate,
      orderIndex := if patch.orderIndex.Some? then patch.orderIndex.value else m.orderIndex)
  }

  /** updateMilestone's row change. */
  function Patcher(patch: MilestonePatch): Milestone -> Milestone
  {
    (m: Milestone) => Patched(m, patch)
  }

  /** `DELETE … WHERE id = $id AND project_id = $p`. */
  function Without(ms: seq<Milestone>, id: nat, p: ProjectId): (r: seq<Milestone>)
    ensures forall m :: m in r <==> m in ms && !Targets(m, id, p)
  {
    Filter(ms, (m: Milestone) => !Targets(m, id, p))
  }

  lemma {:induction false} RewriteTail(ms: seq<Milestone>, id: nat, p: ProjectId, f: Milestone -> Milestone)
    requires ms != []
    ensures Rewrite(ms, id, p, f)[1..] == Rewrite(ms[1..], id, p, f)
  {
  }

  /** A row change that keeps every row's project keeps each project's count. */
  lemma {:induction false} RewriteKeepsTotal(ms: seq<Milestone>, id: nat, p: ProjectId, f: Milestone -> Milestone, q: ProjectId)
    requires forall m :: f(m).project == m.project
    ensures Total(Rewrite(ms, id, p, f), q) == Total(ms, q)
  {
    if ms != [] {
      RewriteTail(ms, id, p, f);
      RewriteKeepsTotal(ms[1..], id, p, f, q);
    }
  }

  /** A row change that keeps project and completion keeps the completed count too. */
  lemma {:induction false} RewriteKeepsDone(ms: seq<Milestone>, id: nat, p: ProjectId, f: Milestone -> Milestone, q: ProjectId)
    requires forall m :: f(m).project == m.project && f(m).isCompleted == m.isCompleted
    ensures Done(Rewrite(ms, id, p, f), q) == Done(ms, q)
  {
    if ms != [] {
      RewriteTail(ms, id, p, f);
      RewriteKeepsDone(ms[1..], id, p, f, q);
    }
  }

  /** Setting the completion flag of the one targeted row to `b`, where it
      was not `b`, moves the project's completed count by exactly one. */
  lemma {:induction false} ToggleCounts(ms: seq<Milestone>, id: nat, p: ProjectId, f: Milestone -> Milestone, b: bool)
    requires forall m :: f(m).project == m.project && f(m).isCompleted == b
    requires UniqueIds(ms)
    requires exists m :: m in ms && Targets(m, id, p) && m.isCompleted != b
    ensures Done(Rewrite(ms, id, p, f), p) == if b then Done(ms, p) + 1 else Done(ms, p) - 1
  {
    var m :| m in ms && Targets(m, id, p) && m.isCompleted != b;
    UniqueTail(ms);
    if Targets(ms[0], id, p) {
      ToggleHead(ms, id, p, f, b, m);
    } else {
      var r := Rewrite(ms, id, p, f);
      RewriteTail(ms, id, p, f);
      assert ms == [ms[0]] + ms[1..];
      assert m in ms[1..];
      ToggleCounts(ms[1..], id, p, f, b);
      assert r[0] == ms[0];
      var head := if ms[0].project == p && ms[0].isCompleted then 1 else 0;
      assert Done(ms, p) == head + Done(ms[1..], p);
      assert Done(r, p) == head + Done(Rewrite(ms[1..], id, p, f), p);
    }
  }

  lemma ToggleHead(ms: seq<Milestone>, id: nat, p: ProjectId, f: Milestone -> Milestone, b: bool, m: Milestone)
    requires forall m :: f(m).project == m.project && f(m).isCompleted == b
    requires ms != [] && Targets(ms[0], id, p)
    requires forall m :: m in ms[1..] ==> m.id != ms[0].id
    requires m in ms && Targets(m, id, p) && m.isCompleted != b
    ensures Done(Rewrite(ms, id, p, f), p) == if b then Done(ms, p) + 1 else Done(ms, p) - 1
  {
    var r := Rewrite(ms, id, p, f);
    RewriteTail(ms, id, p, f);
    NoTargetNoChange(ms[1..], id, p, f);
    assert ms == [ms[0]] + ms[1..];
    assert m == ms[0];
    assert r[0] == f(ms[0]);
    assert Done(r, p) == (if b then 1 else 0) + Done(ms[1..], p);
  }

  /** The rows after the first keep unique ids, none of them the first row's. */
  lemma UniqueTail(ms: seq<Milestone>)
    requires UniqueIds(ms) && ms != []
    ensures UniqueIds(ms[1..])
    ensures forall m :: m in ms[1..] ==> m.id != ms[0].id
  {
    forall m | m in ms[1..]
      ensures m.id != ms[0].id
    {
      var k :| 0 <= k < |ms[1..]| && ms[1..][k] == m;
      assert ms[k + 1] == m;
    }
    forall i, j | 0 <= i < j < |ms[1..]|
      ensures ms[1..][i].id != ms[1..][j].id
    {
      assert ms[1..][i] == ms[i + 1] && ms[1..][j] == ms[j + 1];
    }
  }

  lemma NoTargetNoChange(ms: seq<Milestone>, id: nat, p: ProjectId, f: Milestone -> Milestone)
    requires forall m :: m in ms ==> !Targets(m, id, p)
    ensures Rewrite(ms, id, p, f) == ms
  {
  }

  // ---------------------------------------------------------------------
  // The table invariant

  predicate UniqueIds(ms: seq<Milestone>)
  {
    forall i, j :: 0 <= i < j < |ms| ==> ms[i].id != ms[j].id
  }

  /** The completion columns are set together with is_completed and cleared with it. */
  predicate Consistent(m: Milestone)
  {
    m.isCompleted == m.completedBy.Some? && m.isCompleted == m.completedAt.Some?
  }

  /** Ids are unique and below the next id to hand out; every row is consistent. */
  predicate BoardInvariant(ms: seq<Milestone>, nextId: nat)
  {
    0 < nextId && UniqueIds(ms) && forall m :: m in ms ==> 0 < m.id < nextId && Consistent(m)
  }

  lemma RewriteKeepsInvariant(ms: seq<Milestone>, nextId: nat, id: nat, p: ProjectId, f: Milestone -> Milestone)
    requires BoardInvariant(ms, nextId)
    requires forall m :: f(m).id == m.id && (Consistent(m) ==> Consistent(f(m)))
    ensures BoardInvariant(Rewrite(ms, id, p, f), nextId)
  {
    var r := Rewrite(ms, id, p, f);
    forall m | m in r
      ensures 0 < m.id < nextId && Consistent(m)
    {
      var i :| 0 <= i < |r| && r[i] == m;
      assert ms[i] in ms;
    }
  }

  lemma {:induction false} OtherProjectsKeepUnique(ms: seq<Milestone>, p: ProjectId)
    requires UniqueIds(ms)
    ensures UniqueIds(Filter(ms, (m: Milestone) => m.project != p))
  {
    if ms != [] {
      var keep := (m: Milestone) => m.project != p;
      var rest := Filter(ms[1..], keep);
      UniqueTail(ms);
      OtherProjectsKeepUnique(ms[1..], p);
      if keep(ms[0]) {
        var r := [ms[0]] + rest;
        forall i, j | 0 <= i < j < |r|
          ensures r[i].id != r[j].id
        {
          if i != 0 {
            assert r[i] == rest[i - 1] && r[j] == rest[j - 1];
          } else {
            assert r[j] in ms[1..];
          }
        }
      }
    }
  }

  /** A new row takes the next id and is not completed. */
  lemma AppendKeepsInvariant(ms: seq<Milestone>, nextId: nat, m: Milestone)
    requires BoardInvariant(ms, nextId)
    requires m.id == nextId && !m.isCompleted && m.completedBy.None? && m.completedAt.None?
    ensures BoardInvariant(ms + [m], nextId + 1)
  {
    var r := ms + [m];
    forall i, j | 0 <= i < j < |r|
      ensures r[i].id != r[j].id
    {
      if j < |ms| {
        assert r[i] == ms[i] && r[j] == ms[j];
      } else {
        assert r[i] in ms;
      }
    }
  }

  lemma {:induction false} WithoutKeepsUnique(ms: seq<Milestone>, id: nat, p: ProjectId)
    requires UniqueIds(ms)
    ensures UniqueIds(Without(ms, id, p))
  {
    if ms != [] {
      var keep := (m: Milestone) => !Targets(m, id, p);
      var rest := Filter(ms[1..], keep);
      assert UniqueIds(ms[1..]) by {
        forall i, j | 0 <= i < j < |ms[1..]| ensures ms[1..][i].id != ms[1..][j].id {
          assert ms[1..][i] == ms[i + 1] && ms[1..][j] == ms[j + 1];
        }
      }
      WithoutKeepsUnique(ms[1..], id, p);
      assert Without(ms[1..], id, p) == rest;
      if keep(ms[0]) {
        var r := [ms[0]] + rest;
        forall i, j | 0 <= i < j < |r|
          ensures r[i].id != r[j].id
        {
          if i == 0 {
            assert r[j] in ms[1..];
            var k :| 0 <= k < |ms[1..]| && ms[1..][k] == r[j];
            assert ms[k + 1] == r[j];
          } else {
            assert r[i] == rest[i - 1] && r[j] == rest[j - 1];
          }
        }
      }
    }
  }

  /** Completing (b) or reopening (!b) a milestone of `p` keeps the table
      invariant and the project's count, moves its completed count by one
      and moves its progress in the same direction. */
  lemma ToggleEffects(ms: seq<Milestone>, nextId: nat, id: nat, p: ProjectId, f: Milestone -> Milestone, b: bool)
    requires BoardInvariant(ms, nextId)
    requires forall m :: f(m).id == m.id && f(m).project == m.project && f(m).isCompleted == b && Consistent(f(m))
    requires Find(ms, id, p).Some? && Find(ms, id, p).value.isCompleted != b
    ensures BoardInvariant(Rewrite(ms, id, p, f), nextId)
    ensures Total(Rewrite(ms, id, p, f), p) == Total(ms, p)
    ensures Done(Rewrite(ms, id, p, f), p) == if b then Done(ms, p) + 1 else Done(ms, p) - 1
    ensures b ==> ProjectProgress(ms, p) <= ProjectProgress(Rewrite(ms, id, p, f), p)
    ensures !b ==> ProjectProgress(Rewrite(ms, id, p, f), p) <= ProjectProgress(ms, p)
  {
    var r := Rewrite(ms, id, p, f);
    RewriteKeepsInvariant(ms, nextId, id, p, f);
    RewriteKeepsTotal(ms, id, p, f, p);
    ToggleCounts(ms, id, p, f, b);
    ToggleProgress(ms, r, p, b);
  }

  /** A completed count one up (b) or one down (!b) over the same number of
      milestones moves the progress the same way. */
  lemma ToggleProgress(ms: seq<Milestone>, r: seq<Milestone>, p: ProjectId, b: bool)
    requires Total(r, p) == Total(ms, p)
    requires Done(r, p) == if b then Done(ms, p) + 1 else Done(ms, p) - 1
    ensures b ==> ProjectProgress(ms, p) <= ProjectProgress(r, p)
    ensures !b ==> ProjectProgress(r, p) <= ProjectProgress(ms, p)
  {
    if b {
      ProgressMonotone(Done(ms, p), Total(ms, p));
    } else {
      ProgressMonotone(Done(r, p), Total(r, p));
    }
  }

  // ---------------------------------------------------------------------
  // Guards, in the order the handlers test them

  /** `COALESCE(MAX(order_index), 0)` over the project, as an option. */
  function MaxOrder(ms: seq<Milestone>, p: ProjectId): (r: Option<int>)
    ensures r.None? <==> forall m :: m in ms ==> m.project != p
    ensures r.Some? ==> exists m :: m in ms && m.project == p && m.orderIndex == r.value
    ensures r.Some? ==> forall m :: m in ms && m.project == p ==> m.orderIndex <= r.value
  {
    if ms == [] then None
    else
      var rest := MaxOrder(ms[1..], p);
      assert ms == [ms[0]] + ms[1..];
      if ms[0].project != p then rest
      else if rest.None? || rest.value < ms[0].orderIndex then Some(ms[0].orderIndex)
      else rest
  }

  /** The order index addMilestone hands out when none is given: one past
      the project's largest, and 1 for a project without milestones. */
  function NextOrderIndex(ms: seq<Milestone>, p: ProjectId): (r: int)
    ensures forall m :: m in ms && m.project == p ==> m.orderIndex < r
    ensures (forall m :: m in ms ==> m.project != p) ==> r == 1
    ensures (exists m :: m in ms && m.project == p) ==> exists m :: m in ms && m.project == p && m.orderIndex == r - 1
  {
    var mx := MaxOrder(ms, p);
    if mx.None? then 1 else mx.value + 1
  }

  /** addMilestone's checks. */
  function AddCheck(team: seq<Collaboration.Collaborator>, p: ProjectId, caller: UserId,
                    draft: MilestoneDraft, today: int): (r: Result<(), MilestoneError>)
    ensures r.Success? <==>
      draft.name != "" && draft.dueDate.Some? && |draft.name| <= 200
      && Collaboration.IsActiveIn(team, p, caller) && draft.dueDate.value >= today
    ensures draft.name == "" || draft.dueDate.None? ==> r == Failure(MissingFields)
    ensures r == Failure(NameTooLong) ==> |draft.name| > 200
    ensures r == Failure(AccessDenied) ==> !Collaboration.IsActiveIn(team, p, caller)
    ensures r == Failure(DueDateInPast) ==> Collaboration.IsActiveIn(team, p, caller) && draft.dueDate.value < today
    ensures r.Failure? ==> r.error in {MissingFields, NameTooLong, AccessDenied, DueDateInPast}
  {
    if draft.name == "" || draft.dueDate.None? then Failure(MissingFields)
    else if |draft.name| > 200 then Failure(NameTooLong)
    else if !Collaboration.IsActiveIn(team, p, caller) then Failure(AccessDenied)
    else if draft.dueDate.value < today then Failure(DueDateInPast)
    else Success(())
  }

  /** updateMilestone's checks; success carries the milestone as stored. */
  function UpdateCheck(team: seq<Collaboration.Collaborator>, ms: seq<Milestone>, p: ProjectId, caller: UserId,
                       id: nat, patch: MilestonePatch, today: int): (r: Result<Milestone, MilestoneError>)
    ensures r.Success? <==>
      Collaboration.IsActiveIn(team, p, caller) && Find(ms, id, p).Some?
      && (patch.dueDate.Some? ==> patch.dueDate.value >= today)
      && (patch.name.Some? ==> |patch.name.value| <= 200)
    ensures r.Success? ==> r.value in ms && Targets(r.value, id, p)
    ensures !Collaboration.IsActiveIn(team, p, caller) ==> r == Failure(AccessDenied)
    ensures Collaboration.IsActiveIn(team, p, caller) && Find(ms, id, p).None? ==> r == Failure(NotFound)
    ensures r == Failure(DueDateInPast) ==> patch.dueDate.Some? && patch.dueDate.value < today
    ensures r == Failure(NameTooLong) ==> patch.name.Some? && |patch.name.value| > 200
  {
    if !Collaboration.IsActiveIn(team, p, caller) then Failure(AccessDenied)
    else if Find(ms, id, p).None? then Failure(NotFound)
    else if patch.dueDate.Some? && patch.dueDate.value < today then Failure(DueDateInPast)
    // "" is falsy and skips the length test; so does any name of 200 or fewer characters
    else if patch.name.Some? && patch.name.value != "" && |patch.name.value| > 200 then Failure(NameTooLong)
    else Success(Find(ms, id, p).value)
  }

  /** A patch carrying none of the allowed fields. */
  predicate IsEmptyPatch(patch: MilestonePatch)
  {
    patch.name.None? && patch.description.Missing? && patch.dueDate.None? && patch.orderIndex.None?
  }

  predicate WellFormed(e: ReorderEntry)
  {
    e.id != 0 && e.orderIndex.Some?
  }

  /** The effect of a batch of well-formed entries, applied in order: each
      sets the order index of its milestone, if that milestone is in `p`. */
  function ApplyOrders(ms: seq<Milestone>, es: seq<ReorderEntry>, p: ProjectId): (r: seq<Milestone>)
    requires forall k :: 0 <= k < |es| ==> WellFormed(es[k])
    ensures |r| == |ms|
    ensures forall i :: 0 <= i < |ms| ==> r[i] == ms[i].(orderIndex := r[i].orderIndex)
    ensures forall i :: 0 <= i < |ms| && ms[i].project != p ==> r[i] == ms[i]
    ensures forall i :: 0 <= i < |ms| && (forall k :: 0 <= k < |es| ==> es[k].id != ms[i].id) ==> r[i] == ms[i]
    decreases |es|
  {
    if es == [] then ms
    else
      var e := es[|es| - 1];
      assert WellFormed(e);
      var prefix := es[..|es| - 1];
      var before := ApplyOrders(ms, prefix, p);
      var r := Rewrite(before, e.id, p, Reorderer(e.orderIndex.value));
      assert forall i :: 0 <= i < |ms| && (forall k :: 0 <= k < |es| ==> es[k].id != ms[i].id) ==>
        (forall k :: 0 <= k < |prefix| ==> prefix[k].id != ms[i].id) by {
        forall i | 0 <= i < |ms| && (forall k :: 0 <= k < |es| ==> es[k].id != ms[i].id)
          ensures forall k :: 0 <= k < |prefix| ==> prefix[k].id != ms[i].id
        {
          forall k | 0 <= k < |prefix| ensures prefix[k].id != ms[i].id {
            assert prefix[k] == es[k];
          }
        }
      }
      r
  }

  /** When a batch names a milestone of `p` more than once, the last entry wins. */
  lemma {:induction false} LastEntryWins(ms: seq<Milestone>, es: seq<ReorderEntry>, p: ProjectId, i: nat, k: nat)
    requires forall j :: 0 <= j < |es| ==> WellFormed(es[j])
    requires i < |ms| && ms[i].project == p
    requires k < |es| && es[k].id == ms[i].id
    requires forall j :: k < j < |es| ==> es[j].id != ms[i].id
    ensures ApplyOrders(ms, es, p)[i].orderIndex == es[k].orderIndex.value
    decreases |es|
  {
    var prefix := es[..|es| - 1];
    var before := ApplyOrders(ms, prefix, p);
    if k < |es| - 1 {
      LastEntryWins(ms, prefix, p, i, k);
      assert before[i] == ms[i].(orderIndex := before[i].orderIndex);
    } else {
      assert before[i] == ms[i].(orderIndex := before[i].orderIndex);
    }
  }

  lemma {:induction false} ApplyOrdersKeepsCounts(ms: seq<Milestone>, es: seq<ReorderEntry>, p: ProjectId, q: ProjectId)
    requires forall k :: 0 <= k < |es| ==> WellFormed(es[k])
    ensures Total(ApplyOrders(ms, es, p), q) == Total(ms, q)
    ensures Done(ApplyOrders(ms, es, p), q) == Done(ms, q)
    decreases |es|
  {
    if es != [] {
      var e := es[|es| - 1];
      var prefix := es[..|es| - 1];
      ApplyOrdersKeepsCounts(ms, prefix, p, q);
      RewriteKeepsTotal(ApplyOrders(ms, prefix, p), e.id, p, Reorderer(e.orderIndex.value), q);
      RewriteKeepsDone(ApplyOrders(ms, prefix, p), e.id, p, Reorderer(e.orderIndex.value), q);
    }
  }

  /** Reordering never moves any project's progress. */
  lemma ReorderKeepsProgress(ms: seq<Milestone>, es: seq<ReorderEntry>, p: ProjectId, q: ProjectId)
    requires forall k :: 0 <= k < |es| ==> WellFormed(es[k])
    ensures ProjectProgress(ApplyOrders(ms, es, p), q) == ProjectProgress(ms, q)
  {
    ApplyOrdersKeepsCounts(ms, es, p, q);
  }

  // ---------------------------------------------------------------------
  // Listings

  /** The listing order: order_index, then due_date. */
  function ByOrder(m: Milestone): (int, int)
  {
    (m.orderIndex, m.dueDate)
  }

  /** `SELECT * … WHERE project_id = $1 ORDER BY order_index ASC, due_date ASC`. */
  function Listing(ms: seq<Milestone>, p: ProjectId): (r: seq<Milestone>)
    ensures forall m :: m in r <==> m in ms && m.project == p
    ensures forall i, j :: 0 <= i < j < |r| ==>
      r[i].orderIndex < r[j].orderIndex || (r[i].orderIndex == r[j].orderIndex && r[i].dueDate <= r[j].dueDate)
  {
    var own := Filter(ms, (m: Milestone) => m.project == p);
    var sorted := SortBy(own, ByOrder);
    assert forall m :: m in sorted <==> m in own by {
      forall m ensures m in sorted <==> m in own { SortByMembers(own, ByOrder, m); }
    }
    assert SortedBy(sorted, ByOrder);
    sorted
  }

  /** getProjectMilestones: only an Active collaborator may look. */
  function ProjectMilestones(team: seq<Collaboration.Collaborator>, ms: seq<Milestone>, p: ProjectId, caller: UserId)
    : (r: Result<seq<Milestone>, MilestoneError>)
    ensures r.Failure? <==> !Collaboration.IsActiveIn(team, p, caller)
    ensures r.Failure? ==> r.error == AccessDenied
    ensures r.Success? ==> forall m :: m in r.value <==> m in ms && m.project == p
    ensures r.Success? ==> r.value == Listing(ms, p)
  {
    if !Collaboration.IsActiveIn(team, p, caller) then Failure(AccessDenied) else Success(Listing(ms, p))
  }

  // ---------------------------------------------------------------------
  // The table and its handlers. Each handler reads the project's team
  // rows (`team`), which it does not change.

  /** The UPDATEs of reorderMilestones' transaction, one entry at a time on
      a working copy of the rows: a malformed entry stops the batch, and the
      copy is then dropped (ROLLBACK); otherwise the copy is committed. */
  method ApplyBatch(ms: seq<Milestone>, nextId: nat, entries: seq<ReorderEntry>, p: ProjectId)
    returns (r: Result<seq<Milestone>, MilestoneError>)
    requires BoardInvariant(ms, nextId)
    ensures r.Success? <==> forall k :: 0 <= k < |entries| ==> WellFormed(entries[k])
    ensures r.Failure? ==> r.error == MalformedEntry
    ensures r.Success? ==> r.value == ApplyOrders(ms, entries, p) && BoardInvariant(r.value, nextId)
  {
    var work := ms;
    var i := 0;
    while i < |entries|
      invariant 0 <= i <= |entries|
      invariant forall k :: 0 <= k < i ==> WellFormed(entries[k])
      invariant work == ApplyOrders(ms, entries[..i], p)
      invariant BoardInvariant(work, nextId)
    {
      var e := entries[i];
      if !WellFormed(e) {
        return Failure(MalformedEntry);
      }
      assert entries[..i + 1][..i] == entries[..i];
      RewriteKeepsInvariant(work, nextId, e.id, p, Reorderer(e.orderIndex.value));
      work := Rewrite(work, e.id, p, Reorderer(e.orderIndex.value));
      i := i + 1;
    }
    assert entries[..i] == entries;
    r := Success(work);
  }

  class MilestoneBoard {
    var milestones: seq<Milestone>
    var nextId: nat
    /** The progress_percentage column of each academic project: the figure
        updateProjectProgress last wrote, or what the project's own update
        or creation put there. This is the column's only copy. */
    var progress: map<ProjectId, JsValue>

    ghost predicate Valid()
      reads this`milestones, this`nextId
    {
      BoardInvariant(milestones, nextId)
    }

    constructor ()
      ensures Valid() && milestones == [] && nextId == 1 && progress == map[]
    {
      milestones := [];
      nextId := 1;
      progress := map[];
    }

    /** updateProjectProgress. */
    method UpdateProjectProgress(p: ProjectId)
      requires Valid()
      modifies this`progress
      ensures Valid()
      ensures progress == old(progress)[p := Num(ProjectProgress(milestones, p))]
      ensures 0 <= progress[p].n <= 100
    {
      progress := progress[p := Num(ProjectProgress(milestones, p))];
    }

    /** addMilestone: a new row; progress is not recomputed. */
    method AddMilestone(team: seq<Collaboration.Collaborator>, p: ProjectId, caller: UserId,
                        draft: MilestoneDraft, today: int)
      returns (r: Result<Milestone, MilestoneError>)
      requires Valid()
      modifies this`milestones, this`nextId
      ensures Valid()
      ensures r.Failure? <==> AddCheck(team, p, caller, draft, today).Failure?
      ensures r.Failure? ==>
        && r.error == AddCheck(team, p, caller, draft, today).error
        && milestones == old(milestones) && nextId == old(nextId)
      ensures r.Success? ==>
        && r.value == Milestone(old(nextId), p, Trim(draft.name), TrimOrNull(draft.description),
                                draft.dueDate.value, OrDefault(draft.orderIndex, NextOrderIndex(old(milestones), p)),
                                false, None, None)
        && milestones == old(milestones) + [r.value]
        && nextId == old(nextId) + 1
      ensures progress == old(progress)
    {
      var check := AddCheck(team, p, caller, draft, today);
      if check.Failure? {
        return Failure(check.error);
      }
      var m := Milestone(nextId, p, Trim(draft.name), TrimOrNull(draft.description),
                         draft.dueDate.value, OrDefault(draft.orderIndex, NextOrderIndex(milestones, p)),
                         false, None, None);
      milestones := milestones + [m];
      nextId := nextId + 1;
      AppendKeepsInvariant(old(milestones), old(nextId), m);
      r := Success(m);
    }

    /** updateMilestone: only the allowed fields change; progress is not recomputed. */
    method UpdateMilestone(team: seq<Collaboration.Collaborator>, p: ProjectId, caller: UserId,
                           id: nat, patch: MilestonePatch, today: int)
      returns (r: Result<Milestone, MilestoneError>)
      requires Valid()
      modifies this`milestones
      ensures Valid()
      ensures r.Failure? <==> UpdateCheck(team, old(milestones), p, caller, id, patch, today).Failure?
      ensures r.Failure? ==> r.error == UpdateCheck(team, old(milestones), p, caller, id, patch, today).error
      ensures r.Failure? || IsEmptyPatch(patch) ==> milestones == old(milestones)
      ensures r.Success? && IsEmptyPatch(patch) ==> r.value == Find(old(milestones), id, p).value
      ensures r.Success? && !IsEmptyPatch(patch) ==>
        && milestones == Rewrite(old(milestones), id, p, Patcher(patch))
        && r.value == Patcher(patch)(Find(old(milestones), id, p).value)
      ensures r.Success? && patch.description.Null? ==> r.value.description.None? && !IsEmptyPatch(patch)
      ensures progress == old(progress)
    {
      var check := UpdateCheck(team, milestones, p, caller, id, patch, today);
      if check.Failure? {
        return Failure(check.error);
      }
      if IsEmptyPatch(patch) {
        return Success(check.value);
      }
      milestones := Rewrite(milestones, id, p, Patcher(patch));
      RewriteKeepsInvariant(old(milestones), nextId, id, p, Patcher(patch));
      r := Success(Patcher(patch)(check.value));
    }

    /** completeMilestone: the milestone records who completed it and when,
        and the project's progress is recomputed. */
    method CompleteMilestone(team: seq<Collaboration.Collaborator>, p: ProjectId, caller: UserId, id: nat, now: int)
      returns (r: Result<Milestone, MilestoneError>)
      requires Valid()
      modifies this`milestones, this`progress
      ensures Valid()
      ensures r.Success? <==> Collaboration.IsActiveIn(team, p, caller) && Find(old(milestones), id, p).Some?
                              && !Find(old(milestones), id, p).value.isCompleted
      ensures !Collaboration.IsActiveIn(team, p, caller) ==> r == Failure(AccessDenied)
      ensures Collaboration.IsActiveIn(team, p, caller) && Find(old(milestones), id, p).None? ==> r == Failure(NotFound)
      ensures (Collaboration.IsActiveIn(team, p, caller) && Find(old(milestones), id, p).Some?
               && Find(old(milestones), id, p).value.isCompleted) ==> r == Failure(AlreadyCompleted)
      ensures r.Failure? ==> milestones == old(milestones) && progress == old(progress)
      ensures r.Success? ==>
        && milestones == Rewrite(old(milestones), id, p, Completer(caller, now))
        && r.value == Completer(caller, now)(Find(old(milestones), id, p).value)
        && Total(milestones, p) == Total(old(milestones), p)
        && Done(milestones, p) == Done(old(milestones), p) + 1
        && progress == old(progress)[p := Num(ProjectProgress(milestones, p))]
        && ProjectProgress(old(milestones), p) <= ProjectProgress(milestones, p)
    {
      if !Collaboration.IsActiveIn(team, p, caller) {
        return Failure(AccessDenied);
      }
      var found := Find(milestones, id, p);
      if found.None? {
        return Failure(NotFound);
      }
      if found.value.isCompleted {
        return Failure(AlreadyCompleted);
      }
      milestones := Rewrite(milestones, id, p, Completer(caller, now));
      ToggleEffects(old(milestones), nextId, id, p, Completer(caller, now), true);
      UpdateProjectProgress(p);
      r := Success(Completer(caller, now)(found.value));
    }

    /** uncompleteMilestone: the completion columns are cleared, and the
        project's progress is recomputed. */
    method UncompleteMilestone(team: seq<Collaboration.Collaborator>, p: ProjectId, caller: UserId, id: nat)
      returns (r: Result<Milestone, MilestoneError>)
      requires Valid()
      modifies this`milestones, this`progress
      ensures Valid()
      ensures r.Success? <==> Collaboration.IsActiveIn(team, p, caller) && Find(old(milestones), id, p).Some?
                              && Find(old(milestones), id, p).value.isCompleted
      ensures !Collaboration.IsActiveIn(team, p, caller) ==> r == Failure(AccessDenied)
      ensures Collaboration.IsActiveIn(team, p, caller) && Find(old(milestones), id, p).None? ==> r == Failure(NotFound)
      ensures (Collaboration.IsActiveIn(team, p, caller) && Find(old(milestones), id, p).Some?
               && !Find(old(milestones), id, p).value.isCompleted) ==> r == Failure(NotCompleted)
      ensures r.Failure? ==> milestones == old(milestones) && progress == old(progress)
      ensures r.Success? ==>
        && milestones == Rewrite(old(milestones), id, p, Reopener())
        && r.value == Reopener()(Find(old(milestones), id, p).value)
        && Total(milestones, p) == Total(old(milestones), p)
        && Done(milestones, p) + 1 == Done(old(milestones), p)
        && progress == old(progress)[p := Num(ProjectProgress(milestones, p))]
        && ProjectProgress(milestones, p) <= ProjectProgress(old(milestones), p)
    {
      if !Collaboration.IsActiveIn(team, p, caller) {
        return Failure(AccessDenied);
      }
      var found := Find(milestones, id, p);
      if found.None? {
        return Failure(NotFound);
      }
      if !found.value.isCompleted {
        return Failure(NotCompleted);
      }
      milestones := Rewrite(milestones, id, p, Reopener());
      ToggleEffects(old(milestones), nextId, id, p, Reopener(), false);
      UpdateProjectProgress(p);
      r := Success(Reopener()(found.value));
    }

    /** deleteMilestone: only an Active Leader; the project's progress is recomputed. */
    method DeleteMilestone(team: seq<Collaboration.Collaborator>, p: ProjectId, caller: UserId, id: nat)
      returns (r: Result<(), MilestoneError>)
      requires Valid()
      modifies this`milestones, this`progress
      ensures Valid()
      ensures r.Success? <==> Collaboration.ActiveRole(team, p, caller) == Some(Collaboration.Leader)
                              && Find(old(milestones), id, p).Some?
      ensures !Collaboration.IsActiveIn(team, p, caller) ==> r == Failure(AccessDenied)
      ensures (Collaboration.IsActiveIn(team, p, caller)
               && Collaboration.ActiveRole(team, p, caller) != Some(Collaboration.Leader)) ==> r == Failure(LeaderOnly)
      ensures (Collaboration.ActiveRole(team, p, caller) == Some(Collaboration.Leader)
               && Find(old(milestones), id, p).None?) ==> r == Failure(NotFound)
      ensures r.Failure? ==> milestones == old(milestones) && progress == old(progress)
      ensures r.Success? ==>
        && milestones == Without(old(milestones), id, p)
        && (forall m :: m in milestones <==> m in old(milestones) && !Targets(m, id, p))
        && progress == old(progress)[p := Num(ProjectProgress(milestones, p))]
    {
      var role := Collaboration.ActiveRole(team, p, caller);
      if role.None? {
        return Failure(AccessDenied);
      }
      if role != Some(Collaboration.Leader) {
        return Failure(LeaderOnly);
      }
      if Find(milestones, id, p).None? {
        return Failure(NotFound);
      }
      milestones := Without(milestones, id, p);
      WithoutKeepsUnique(old(milestones), id, p);
      UpdateProjectProgress(p);
      r := Success(());
    }

    /** reorderMilestones: all entries are applied or, when one of them is
        malformed, none; the reply lists the project's milestones in order. */
    method ReorderMilestones(team: seq<Collaboration.Collaborator>, p: ProjectId, caller: UserId,
                             entries: seq<ReorderEntry>)
      returns (r: Result<seq<Milestone>, MilestoneError>)
      requires Valid()
      modifies this`milestones
      ensures Valid()
      ensures r.Success? <==> entries != [] && Collaboration.IsActiveIn(team, p, caller)
                              && forall k :: 0 <= k < |entries| ==> WellFormed(entries[k])
      ensures entries == [] ==> r == Failure(EmptyBatch)
      ensures entries != [] && !Collaboration.IsActiveIn(team, p, caller) ==> r == Failure(AccessDenied)
      ensures (entries != [] && Collaboration.IsActiveIn(team, p, caller)
               && exists k :: 0 <= k < |entries| && !WellFormed(entries[k])) ==> r == Failure(MalformedEntry)
      ensures r.Failure? ==> milestones == old(milestones)
      ensures r.Success? ==>
        && milestones == ApplyOrders(old(milestones), entries, p)
        && r.value == Listing(milestones, p)
      ensures progress == old(progress)
    {
      if entries == [] {
        return Failure(EmptyBatch);
      }
      if !Collaboration.IsActiveIn(team, p, caller) {
        return Failure(AccessDenied);
      }
      var batch := ApplyBatch(milestones, nextId, entries, p);
      if batch.Failure? {
        return Failure(batch.error);
      }
      milestones := batch.value;
      r := Success(Listing(milestones, p));
    }

    /** The cascade when an academic project is deleted: its milestones
        and its progress figure go with it. */
    method RemoveProject(p: ProjectId)
      requires Valid()
      modifies this`milestones, this`progress
      ensures Valid()
      ensures milestones == Filter(old(milestones), (m: Milestone) => m.project != p)
      ensures forall m :: m in milestones <==> m in old(milestones) && m.project != p
      ensures progress == old(progress) - {p}
    {
      milestones := Filter(milestones, (m: Milestone) => m.project != p);
      OtherProjectsKeepUnique(old(milestones), p);
      progress := progress - {p};
    }
  }
}
