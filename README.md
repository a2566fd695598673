# A verified model of the student project network backend

The system is a small social network for students. Users:

- keep a profile with a bio, links and portfolio projects;
- follow each other; a private profile turns a follow into a request that its owner accepts or rejects;
- search for each other;
- run academic ("Swinburne") projects with a team of collaborators and a list of milestones;
- are paged through result lists by a React component.

This Dafny project models the rules of that backend, one module per source file:

- the follow graph and its counters (`FollowGraph`);
- project membership and its leaders (`Collaboration`);
- milestones and the progress percentage (`Milestones`);
- academic projects (`SwinburneProjects`);
- user search and the public profile (`Search`);
- portfolio projects and likes (`Projects`);
- profile links (`Links`);
- the four request validators (`ValidateProject`, `ValidatePassword`, `ValidateName`, `ValidateBio`);
- the frontend pagination component (`Pagination`).

Shared modules give the vocabulary:

- `Common`: identifiers, `Option`/`Result`, request-body values with JavaScript truthiness, `parseInt(x) || d`.
- `Text`: JavaScript `trim()`, ASCII case folding, `LIKE '%…%'` containment.
- `Query`: what SQL does to rows — `WHERE`, `LIMIT/OFFSET`, `ORDER BY`.

Handlers that change tables are methods of classes whose fields are the tables. The classes are:

- `FollowStore`: follows, follow_requests and followers_summary;
- `CollaboratorTable`: project_collaborators;
- `MilestoneBoard`: project_milestones, and the progress_percentage column of swinburne_projects, which both the milestone handlers and the project update write (the model keeps its only copy here);
- `ProjectTable`: projects and project_likes. The portfolio handlers and the academic store share one instance, so every projects row, portfolio or academic base row, takes its id from one counter;
- `AcademicProjectStore`: swinburne_projects. It holds the shared `ProjectTable` (`base`), where each project's base row lives, the `CollaboratorTable` (`team`) and the `MilestoneBoard` (`board`), whose progress column it reads;
- `LinkTable`: user_links.

Each method states its whole new state in terms of specification functions. It keeps a class invariant:

- no self-follow;
- no pair both followed and pending;
- exact counters;
- every led project keeps an Active Leader;
- unique ids.

The lemmas beside the methods prove what the handlers promise. Read-only handlers and validators are functions with contracts.

Each handler is one atomic step, as if its transaction ran alone. The caller's id, handle and e-mail, the clock ("now", "today") and the users table are parameters.

Two behaviours of the code are worth stating outright, and the model has them:

- Progress is recomputed only after completing, reopening or deleting a milestone. Adding or editing one leaves the stored percentage alone (`milestoneController.js:300,369,434`; no call in `addMilestone` or `updateMilestone`).
- `addCollaborator` accepts `Leader` as a role for an invitation (`collaborationController.js:22`).

## Model

| member | source | states |
|---|---|---|
| Common.OrDefault | teamawesome.fun_t4-main/backend/controllers/projectController.js:93-94 | `parseInt(x) \|\| d`: a parsed non-zero value is kept; a missing, unparsable or zero value gives the default |
| Common.OrElse | teamawesome.fun_t4-main/backend/controllers/milestoneController.js:124 | `v \|\| d`: a truthy value is kept, anything falsy gives the fallback |
| Common.Field | teamawesome.fun_t4-main/backend/middleware/validateBio.js:12 | a body property that is absent reads as `undefined`, a present one as its value |
| Text.Trim | teamawesome.fun_t4-main/backend/middleware/validatePassword.js:5 | `trim()` never makes a string longer; `TrimIsCut` states what it keeps and what it cuts |
| Text.TrimIsCut | teamawesome.fun_t4-main/backend/middleware/validatePassword.js:5 | `trim()` returns a slice of its input; everything cut off on either side is white space, and the result neither starts nor ends with white space |
| Text.TrimIdempotent | teamawesome.fun_t4-main/backend/middleware/validatePassword.js:5 | trimming a trimmed string changes nothing |
| Text.TrimEmptyIffBlank | teamawesome.fun_t4-main/backend/middleware/validateProject.js:25 | a string trims to "" if and only if it is all white space |
| Text.TrimPadded | teamawesome.fun_t4-main/backend/middleware/validateBio.js:5 | white space added at either end never changes what `trim()` returns |
| Text.TrimOrNull | teamawesome.fun_t4-main/backend/controllers/projectController.js:60 | `description?.trim() \|\| null`: null exactly when the text is missing or blank, otherwise the non-empty trimmed text |
| Text.ToLower | teamawesome.fun_t4-main/backend/controllers/profile/searchController.js:85-87 | `LOWER` keeps the length, leaves no upper-case ASCII letter and changes no other character |
| Text.ContainsFolded | teamawesome.fun_t4-main/backend/controllers/profile/searchController.js:85-87 | a substring found with its case intact is still found after both sides are folded to lower case |
| Query.Filter | teamawesome.fun_t4-main/backend/controllers/milestoneController.js:37 | `WHERE`: a row is kept if and only if it is a row that meets the condition |
| Query.FilterFilter | teamawesome.fun_t4-main/backend/controllers/projectController.js:164 | a narrower condition applied after a wider one gives the same rows as the narrow one alone |
| Query.Page | teamawesome.fun_t4-main/backend/controllers/projectController.js:118 | `LIMIT/OFFSET`: the rows from the offset on, at most `limit` of them, exactly `limit` when enough rows follow, in order |
| Query.SortBy | teamawesome.fun_t4-main/backend/controllers/milestoneController.js:38 | `ORDER BY`: the same rows (as a multiset), in non-decreasing key order |
| Query.SortByMembers | teamawesome.fun_t4-main/backend/controllers/milestoneController.js:38 | a row is listed after sorting if and only if it was a row before |
| FollowGraph.Recount | teamawesome.fun_t4-main/backend/controllers/profile/followController.js:668-702 | updateFollowersSummary: f's following_count equals the edges out of f, t's followers_count the edges into t. When f and t differ, f's followers_count and t's following_count are kept from their rows, or 0 for a user without one (the `COALESCE`). Every other user's row is unchanged, and the rows for f and t exist afterwards |
| FollowGraph.RecountKeepsExact | teamawesome.fun_t4-main/backend/controllers/profile/followController.js:668-702 | when one edge is added or removed, recounting its two ends leaves every counter row exact again |
| FollowGraph.UncountedIsolated | teamawesome.fun_t4-main/backend/controllers/profile/followController.js:671-702 | a user without a counter row has no edges |
| FollowGraph.InEdgesOther | teamawesome.fun_t4-main/backend/controllers/profile/followController.js:688-702 | adding or removing the edge (f, t) leaves every other user's followers unchanged |
| FollowGraph.OutEdgesOther | teamawesome.fun_t4-main/backend/controllers/profile/followController.js:671-685 | adding or removing the edge (f, t) leaves every other user's following unchanged |
| FollowGraph.DropEdgeKeepsInvariant | teamawesome.fun_t4-main/backend/controllers/profile/followController.js:195-203 | deleting an edge and recounting keeps the store invariant: no self-edge, no pair both followed and pending, fresh request ids, exact counters |
| FollowGraph.AddEdgeKeepsInvariant | teamawesome.fun_t4-main/backend/controllers/profile/followController.js:106-126 | inserting a non-self edge with no pending request for the pair and recounting keeps the store invariant |
| FollowGraph.FollowStore.constructor | teamawesome.fun_t4-main/backend/controllers/profile/followController.js:6-156 | empty tables satisfy the store invariant |
| FollowGraph.FollowStore.UpdateFollowersSummary | teamawesome.fun_t4-main/backend/controllers/profile/followController.js:668-707 | the counter table becomes `Recount` of the old one, and nothing else changes |
| FollowGraph.FollowStore.DropEdge | teamawesome.fun_t4-main/backend/controllers/profile/followController.js:195-203 | removes exactly the edge, recounts its two ends, keeps the invariant |
| FollowGraph.FollowStore.AddEdge | teamawesome.fun_t4-main/backend/controllers/profile/followController.js:106-126 | adds exactly the edge, recounts its two ends, keeps the invariant |
| FollowGraph.FollowStore.FollowUser | teamawesome.fun_t4-main/backend/controllers/profile/followController.js:6-156 | self-follow, an existing edge or a pending request fail with no change. An unknown handle fails as an internal error with no change, because `rows[0].id` is read before the 404 check. A public target gains the edge, and any accepted or rejected request row stays untouched. A private target keeps the edge set and ends with exactly one pending request for the pair: an existing row keeps its id, and no other request changes |
| FollowGraph.FollowStore.UnfollowUser | teamawesome.fun_t4-main/backend/controllers/profile/followController.js:159-220 | an unknown handle is a 404 and a missing edge fails, with no change; otherwise exactly that edge and the pair's request row go, and both ends are recounted |
| FollowGraph.FollowStore.CancelFollowRequest | teamawesome.fun_t4-main/backend/controllers/profile/followController.js:223-267 | succeeds only on a pending request from the caller to the target and deletes exactly that row; edges and counters stay |
| FollowGraph.FollowStore.RespondToFollowRequest | teamawesome.fun_t4-main/backend/controllers/profile/followController.js:304-381 | any action but accept/reject is refused. The request must be pending and addressed to the caller. Accept marks it accepted, adds the edge requester→caller and recounts. Reject marks it rejected and adds no edge |
| FollowGraph.FollowStore.RemoveFollower | teamawesome.fun_t4-main/backend/controllers/profile/followController.js:615-665 | fails with no change when the follower edge is absent; otherwise removes only that edge, leaves the request row in place, recounts |
| FollowGraph.FollowersListing | teamawesome.fun_t4-main/backend/controllers/profile/followController.js:384-426 | lists exactly the followers of the owner, each annotated from the viewer's side |
| FollowGraph.FollowingListing | teamawesome.fun_t4-main/backend/controllers/profile/followController.js:501-540 | lists exactly the users the owner follows, each annotated from the viewer's side |
| FollowGraph.ListingGate | teamawesome.fun_t4-main/backend/controllers/profile/followController.js:440-460 | an unknown owner is a 404; otherwise the list opens if and only if the profile is public or the viewer follows its owner, else PRIVATE_PROFILE |
| FollowGraph.UserFollowers | teamawesome.fun_t4-main/backend/controllers/profile/followController.js:429-498 | getUserFollowers succeeds exactly when the gate opens, and then returns the followers listing |
| FollowGraph.UserFollowing | teamawesome.fun_t4-main/backend/controllers/profile/followController.js:543-612 | getUserFollowing succeeds exactly when the gate opens, and then returns the following listing |
| FollowGraph.ListingNeverFollowingAndPending | teamawesome.fun_t4-main/backend/controllers/profile/followController.js:462-472 | under the invariant, no listed user is shown both as followed and with a pending request |
| FollowGraph.OwnPrivateListingDenied | teamawesome.fun_t4-main/backend/controllers/profile/followController.js:450-460 | the owner of a private profile is refused their own listing through the per-user endpoints, since nobody follows themselves |
| Collaboration.ParseRole | teamawesome.fun_t4-main/backend/controllers/collaborationController.js:22-27 | a role is accepted if and only if it is one of Leader, Developer, Designer, Researcher, Writer, and parses to the role of that name |
| Collaboration.RoleNameRoundTrip | teamawesome.fun_t4-main/backend/controllers/collaborationController.js:22-27 | every role's stored name parses back to the same role |
| Collaboration.ActiveRole | teamawesome.fun_t4-main/backend/controllers/collaborationController.js:239-250 | a role exactly when the user has an Active row in the project, and it is the role on such a row |
| Collaboration.LeaderCountPositive | teamawesome.fun_t4-main/backend/controllers/collaborationController.js:161-182 | the count of Active Leader rows is positive if and only if the project has an Active Leader |
| Collaboration.UniqueActiveRole | teamawesome.fun_t4-main/backend/controllers/collaborationController.js:239-250 | with one live row per member, the role read is the role on the member's Active row |
| Collaboration.OtherLeader | teamawesome.fun_t4-main/backend/controllers/collaborationController.js:254-268 | two or more Active Leader rows leave a Leader other than any given user |
| Collaboration.LastLeaderCannotLeave | teamawesome.fun_t4-main/backend/controllers/collaborationController.js:254-268 | the only Active Leader cannot remove themselves (LAST_LEADER) |
| Collaboration.SetRoleOfActive | teamawesome.fun_t4-main/backend/controllers/collaborationController.js:185-198 | the role UPDATE changes the role of the target's Active rows and no other row |
| Collaboration.Deactivate | teamawesome.fun_t4-main/backend/controllers/collaborationController.js:271-278 | the removal UPDATE turns the target's Active rows Inactive, keeps them, and touches no other row |
| Collaboration.Activate | teamawesome.fun_t4-main/backend/controllers/collaborationController.js:361-368 | the accept UPDATE turns the user's Invited rows Active with the new joined_at, and touches no other row |
| Collaboration.FilterKeepsUnique | teamawesome.fun_t4-main/backend/controllers/collaborationController.js:402-407 | deleting rows keeps at most one live row per member and project |
| Collaboration.ExistingCheck | teamawesome.fun_t4-main/backend/controllers/collaborationController.js:78-97 | the duplicate guard as intended: it passes if and only if the target has no live row; ALREADY_ACTIVE exactly for an Active row, ALREADY_INVITED exactly for an open invitation |
| Collaboration.AddCheck | teamawesome.fun_t4-main/backend/controllers/collaborationController.js:16-97 | addCollaborator succeeds if and only if all of these hold: ids and role present; role valid; actor Active; the project has an academic record; actor Leader or project Open; target known with a Swinburne address; no live row. Each failure names the check that refused it, in the handler's order |
| Collaboration.RoleCheck | teamawesome.fun_t4-main/backend/controllers/collaborationController.js:139-198 | invalid role, a non-Leader actor, demoting the only Active Leader, and a target without an Active row are refused, in that order; the role change goes ahead exactly otherwise |
| Collaboration.RemoveCheck | teamawesome.fun_t4-main/backend/controllers/collaborationController.js:218-268 | removal succeeds if and only if the actor removes themselves or is an Active Leader, the target is Active, and the target is not the only Active Leader |
| Collaboration.InviteKeepsInvariant | teamawesome.fun_t4-main/backend/controllers/collaborationController.js:100-111 | an invitation that passed the guard keeps one live row per member and every project led |
| Collaboration.RowUpdateKeepsInvariant | teamawesome.fun_t4-main/backend/controllers/collaborationController.js:185-198 | an update of one project's rows keeps the invariant when it: keeps each row's project and user, revives no row, and leaves an Active Leader in that project |
| Collaboration.RoleChangeKeepsInvariant | teamawesome.fun_t4-main/backend/controllers/collaborationController.js:161-198 | a role change that passed its checks leaves every project with an Active Leader |
| Collaboration.SurvivingLeader | teamawesome.fun_t4-main/backend/controllers/collaborationController.js:254-268 | when a removal passes its checks, an Active Leader other than the target exists |
| Collaboration.RemovalKeepsInvariant | teamawesome.fun_t4-main/backend/controllers/collaborationController.js:254-278 | a removal that passed its checks leaves every project with an Active Leader |
| Collaboration.AcceptKeepsInvariant | teamawesome.fun_t4-main/backend/controllers/collaborationController.js:361-368 | accepting an invitation keeps one live row per member and every project led |
| Collaboration.FilterKeepsInvariant | teamawesome.fun_t4-main/backend/controllers/collaborationController.js:402-407 | deleting rows that are never Active Leader rows keeps every project led |
| Collaboration.CollaboratorTable.constructor | teamawesome.fun_t4-main/backend/controllers/collaborationController.js:100-111 | an empty table satisfies the invariant |
| Collaboration.CollaboratorTable.BootstrapLeader | teamawesome.fun_t4-main/backend/controllers/swinburneProjectController.js:128-136 | the creator of a new project is appended as its only Active Leader, and the invariant holds |
| Collaboration.CollaboratorTable.AddCollaborator | teamawesome.fun_t4-main/backend/controllers/collaborationController.js:9-129 | fails with no change exactly when `AddCheck` refuses; otherwise appends one Invited row with the parsed role, invited_by = actor, and the time |
| Collaboration.CollaboratorTable.UpdateCollaboratorRole | teamawesome.fun_t4-main/backend/controllers/collaborationController.js:132-209 | answers `RoleCheck`; on success the table is `SetRoleOfActive` of the old one, otherwise unchanged; the invariant holds |
| Collaboration.CollaboratorTable.RemoveCollaborator | teamawesome.fun_t4-main/backend/controllers/collaborationController.js:212-289 | answers `RemoveCheck`; on success the target's Active rows turn Inactive and stay, otherwise nothing changes; the invariant holds |
| Collaboration.CollaboratorTable.AcceptInvite | teamawesome.fun_t4-main/backend/controllers/collaborationController.js:341-379 | fails with no change without an invitation; otherwise the invitation turns Active and the user is an Active member |
| Collaboration.CollaboratorTable.RejectInvite | teamawesome.fun_t4-main/backend/controllers/collaborationController.js:382-417 | fails with no change without an invitation; otherwise exactly the user's invitation rows for the project are deleted |
| Collaboration.CollaboratorTable.RemoveProject | teamawesome.fun_t4-main/backend/controllers/swinburneProjectController.js:526-531 | the cascade deletes exactly the project's rows and keeps the invariant |
| Collaboration.LeaderCountNew | teamawesome.fun_t4-main/backend/controllers/swinburneProjectController.js:128-136 | a project's first row, an Active Leader, makes its leader count exactly 1 |
| Collaboration.ProjectCollaborators | teamawesome.fun_t4-main/backend/controllers/collaborationController.js:292-338 | only an Active member may look (ACCESS_DENIED otherwise). It lists exactly the project's Active rows, each as often as the table holds it: Leaders first, then by joined_at ascending |
| Collaboration.UserInvites | teamawesome.fun_t4-main/backend/controllers/collaborationController.js:420-455 | exactly the user's Invited rows, each as often as the table holds it, newest invitation first |
| Collaboration.AsWrittenExistingCheck | teamawesome.fun_t4-main/backend/controllers/collaborationController.js:78-97 | the guard as written, reading only the first matching row: when it refuses, the intended guard refuses too |
| Collaboration.FirstRowLive | teamawesome.fun_t4-main/backend/controllers/collaborationController.js:78-97 | a first row that is Active or Invited is a live row of that member |
| Collaboration.AsWrittenAdmitsDuplicateInvite | teamawesome.fun_t4-main/backend/controllers/collaborationController.js:78-111 | a concrete table where an Inactive row comes before an open invitation: the written guard lets a second invitation in, the intended one refuses it, and the table loses one live row per member |
| Collaboration.DuplicateLeaderRowsLoseLastLeader | teamawesome.fun_t4-main/backend/controllers/collaborationController.js:161-198 | with a member holding two Active Leader rows, the last-leader guard counts two and lets that member demote themselves, leaving the project without a Leader |
| Milestones.Progress | teamawesome.fun_t4-main/backend/controllers/milestoneController.js:540-543 | 0 without milestones; otherwise the nearest whole percentage to 100·completed/total, halves rounding up, within 0..100 |
| Milestones.ProgressFull | teamawesome.fun_t4-main/backend/controllers/milestoneController.js:540-543 | every milestone completed gives exactly 100 |
| Milestones.ProgressMonotone | teamawesome.fun_t4-main/backend/controllers/milestoneController.js:540-543 | one more completed milestone never lowers the percentage |
| Milestones.Total | teamawesome.fun_t4-main/backend/controllers/milestoneController.js:529-538 | the project's milestone count, at most the table's size |
| Milestones.Done | teamawesome.fun_t4-main/backend/controllers/milestoneController.js:529-538 | the project's completed count, at most its total |
| Milestones.AllDoneIsFull | teamawesome.fun_t4-main/backend/controllers/milestoneController.js:529-543 | a project with milestones all completed is at 100 percent |
| Milestones.AllDoneCounts | teamawesome.fun_t4-main/backend/controllers/milestoneController.js:529-538 | with every milestone completed, the completed count equals the total |
| Milestones.Find | teamawesome.fun_t4-main/backend/controllers/milestoneController.js:266-277 | the lookup by id and project finds a milestone exactly when one exists, and returns one |
| Milestones.Rewrite | teamawesome.fun_t4-main/backend/controllers/milestoneController.js:288-297 | `UPDATE … WHERE id AND project_id` changes exactly the targeted rows, each by the given change |
| Milestones.Without | teamawesome.fun_t4-main/backend/controllers/milestoneController.js:426-431 | the DELETE keeps exactly the rows that are not the targeted milestone of that project |
| Milestones.RewriteTail | teamawesome.fun_t4-main/backend/controllers/milestoneController.js:288-297 | rewriting distributes over the first row and the rest |
| Milestones.RewriteKeepsTotal | teamawesome.fun_t4-main/backend/controllers/milestoneController.js:224-231 | a row change that keeps projects keeps each project's milestone count |
| Milestones.RewriteKeepsDone | teamawesome.fun_t4-main/backend/controllers/milestoneController.js:224-231 | a row change that keeps projects and completion keeps each completed count |
| Milestones.ToggleCounts | teamawesome.fun_t4-main/backend/controllers/milestoneController.js:288-297 | flipping the completion of one milestone (ids unique) moves the completed count by exactly one |
| Milestones.ToggleHead | teamawesome.fun_t4-main/backend/controllers/milestoneController.js:357-366 | the same, when the flipped milestone is the first row |
| Milestones.UniqueTail | teamawesome.fun_t4-main/backend/controllers/milestoneController.js:113-127 | unique ids stay unique in the rest of the table, none equal to the first row's |
| Milestones.NoTargetNoChange | teamawesome.fun_t4-main/backend/controllers/milestoneController.js:484-490 | an UPDATE whose id matches no row of the project changes nothing |
| Milestones.RewriteKeepsInvariant | teamawesome.fun_t4-main/backend/controllers/milestoneController.js:224-231 | a row change that keeps ids and consistency keeps the table invariant |
| Milestones.OtherProjectsKeepUnique | teamawesome.fun_t4-main/backend/controllers/swinburneProjectController.js:526-531 | deleting one project's milestones keeps ids unique |
| Milestones.AppendKeepsInvariant | teamawesome.fun_t4-main/backend/controllers/milestoneController.js:113-127 | a new, uncompleted milestone under the next id keeps the invariant |
| Milestones.WithoutKeepsUnique | teamawesome.fun_t4-main/backend/controllers/milestoneController.js:426-431 | deleting a milestone keeps ids unique |
| Milestones.ToggleEffects | teamawesome.fun_t4-main/backend/controllers/milestoneController.js:288-300 | completing or reopening a milestone keeps the invariant and the count, moves the completed count by one, and moves progress only in that direction |
| Milestones.ToggleProgress | teamawesome.fun_t4-main/backend/controllers/milestoneController.js:540-543 | a completed count one up (or down) over the same total never lowers (or raises) the percentage |
| Milestones.MaxOrder | teamawesome.fun_t4-main/backend/controllers/milestoneController.js:100-110 | `MAX(order_index)` over the project: none for a project without milestones, otherwise an order index that is attained and bounds all others |
| Milestones.NextOrderIndex | teamawesome.fun_t4-main/backend/controllers/milestoneController.js:100-110 | the default order index is above every existing one of the project, one past the largest, and 1 for an empty project |
| Milestones.AddCheck | teamawesome.fun_t4-main/backend/controllers/milestoneController.js:61-97 | addMilestone goes ahead if and only if all of these hold: name and due date present, name at most 200, caller Active, due date not before today. Each failure is the one the handler reports |
| Milestones.UpdateCheck | teamawesome.fun_t4-main/backend/controllers/milestoneController.js:148-194 | updateMilestone goes ahead if and only if the caller is Active, the milestone exists, the new due date is not past and the new name is at most 200; success carries the stored milestone |
| Milestones.ApplyOrders | teamawesome.fun_t4-main/backend/controllers/milestoneController.js:476-496 | applying a batch changes only order indexes, never another project's rows, and no row the batch does not name |
| Milestones.ApplyBatch | teamawesome.fun_t4-main/backend/controllers/milestoneController.js:478-497 | the transaction's loop: it fails with MalformedEntry exactly when some entry lacks id or order index, and otherwise its result is `ApplyOrders` of the batch and keeps the board invariant |
| Milestones.LastEntryWins | teamawesome.fun_t4-main/backend/controllers/milestoneController.js:476-496 | a milestone named more than once in a batch ends with the last entry's order index |
| Milestones.ApplyOrdersKeepsCounts | teamawesome.fun_t4-main/backend/controllers/milestoneController.js:476-496 | reordering keeps every project's total and completed counts |
| Milestones.ReorderKeepsProgress | teamawesome.fun_t4-main/backend/controllers/milestoneController.js:476-496 | reordering never changes any project's progress |
| Milestones.Listing | teamawesome.fun_t4-main/backend/controllers/milestoneController.js:31-38 | exactly the project's milestones, ordered by order_index then due_date |
| Milestones.ProjectMilestones | teamawesome.fun_t4-main/backend/controllers/milestoneController.js:9-51 | only an Active collaborator may look; the listing is `Listing`: exactly the project's milestones, ordered by order_index then due_date |
| Milestones.MilestoneBoard.constructor | teamawesome.fun_t4-main/backend/controllers/milestoneController.js:113-127 | an empty board satisfies the invariant |
| Milestones.Completed | teamawesome.fun_t4-main/backend/controllers/milestoneController.js:288-295 | completeMilestone's SET: the row is completed, completed_by is the caller and completed_at the time; the row is consistent and no other column changes |
| Milestones.Reopened | teamawesome.fun_t4-main/backend/controllers/milestoneController.js:357-364 | uncompleteMilestone's SET: the row is not completed, completed_by and completed_at are cleared (consistent), and no other column changes |
| Milestones.Patched | teamawesome.fun_t4-main/backend/controllers/milestoneController.js:201-229 | updateMilestone's SET: a given name becomes the trimmed name, a given description the trimmed description, a null description NULL; only name, description, due_date and order_index can change, and an empty patch changes nothing |
| Milestones.MilestoneBoard.UpdateProjectProgress | teamawesome.fun_t4-main/backend/controllers/milestoneController.js:527-557 | the project's progress_percentage column becomes its recomputed progress, a number from 0 to 100, and no other project's changes |
| Milestones.MilestoneBoard.AddMilestone | teamawesome.fun_t4-main/backend/controllers/milestoneController.js:54-138 | fails with no change exactly when `AddCheck` refuses; otherwise it appends an uncompleted milestone under the next id. The name is trimmed, the description trimmed or null, and the order index is the given one or the default. Progress is not recomputed |
| Milestones.MilestoneBoard.UpdateMilestone | teamawesome.fun_t4-main/backend/controllers/milestoneController.js:141-242 | answers `UpdateCheck`. An empty patch returns the milestone unchanged. Otherwise only name, description, due date and order index change on that row, with texts trimmed. A description present as `null` is cleared and counts as a change. Progress is not recomputed |
| Milestones.MilestoneBoard.CompleteMilestone | teamawesome.fun_t4-main/backend/controllers/milestoneController.js:245-311 | it refuses a non-member (ACCESS_DENIED), a missing milestone (NOT_FOUND) and a completed one (ALREADY_COMPLETED), changing nothing. Otherwise it sets the completion flag, completed_by = caller and completed_at on that row. The completed count goes up by one and the progress is recomputed, never lower |
| Milestones.MilestoneBoard.UncompleteMilestone | teamawesome.fun_t4-main/backend/controllers/milestoneController.js:314-380 | it refuses a non-member, a missing milestone and one not completed, changing nothing. Otherwise it clears the three completion columns. The completed count goes down by one and the progress is recomputed, never higher |
| Milestones.MilestoneBoard.DeleteMilestone | teamawesome.fun_t4-main/backend/controllers/milestoneController.js:383-444 | only an Active Leader, and only an existing milestone of the project; it removes exactly that milestone and recomputes progress |
| Milestones.MilestoneBoard.ReorderMilestones | teamawesome.fun_t4-main/backend/controllers/milestoneController.js:447-524 | an empty batch, a non-member, or any entry lacking id or order index leaves the table unchanged (the transaction rolls back). Otherwise the table becomes `ApplyOrders` of the batch, every entry in order, and the project's listing is returned; progress is not recomputed |
| Milestones.MilestoneBoard.RemoveProject | teamawesome.fun_t4-main/backend/controllers/swinburneProjectController.js:526-531 | the cascade deletes exactly the project's milestones and its stored percentage |
| SwinburneProjects.Get | teamawesome.fun_t4-main/backend/controllers/swinburneProjectController.js:51-55 | a body field by column; absent reads as `undefined` |
| SwinburneProjects.ValidateCreation | teamawesome.fun_t4-main/backend/controllers/swinburneProjectController.js:33-63 | it passes if and only if the trimmed title has 3 or more characters, the title at most 100, the description at most 1000, all six course details are truthy and the creator's address is a Swinburne one. Each failure is the first check that refused it |
| SwinburneProjects.StoredTitleBounds | teamawesome.fun_t4-main/backend/controllers/swinburneProjectController.js:33-43 | a stored title has 3 to 100 characters and no white space at either end |
| SwinburneProjects.InsertedColumns | teamawesome.fun_t4-main/backend/controllers/swinburneProjectController.js:101-125 | the INSERT writes exactly its twelve columns and leaves the others at their defaults |
| SwinburneProjects.InsertedDefaults | teamawesome.fun_t4-main/backend/controllers/swinburneProjectController.js:101-125 | the course details are stored as given; collaboration_status defaults to 'Open' and visibility to 'Swinburne Only' |
| SwinburneProjects.Created | teamawesome.fun_t4-main/backend/controllers/swinburneProjectController.js:85-125 | the stored project carries the given ids, owner and time, the trimmed title, the trimmed-or-null description and the inserted columns |
| SwinburneProjects.CreatedReply | teamawesome.fun_t4-main/backend/controllers/swinburneProjectController.js:142-166 | the 201 reply: the body's title untrimmed, the body's own assessment_weight, due_date and instructor_code, the stored status and progress_percentage, and otherwise the stored values |
| SwinburneProjects.ReplyAgreesWithStored | teamawesome.fun_t4-main/backend/controllers/swinburneProjectController.js:108-166 | the reply and the stored row agree, except that the stored title is the reply's trimmed and the three optional columns fall back to null when falsy |
| SwinburneProjects.Returned | teamawesome.fun_t4-main/backend/controllers/swinburneProjectController.js:450-463 | the `RETURNING *` row of swinburne_projects: the project's id, base_project_id, creation time and academic columns, and no title or description, which live in projects |
| SwinburneProjects.BaseRow | teamawesome.fun_t4-main/backend/controllers/swinburneProjectController.js:85-96 | the base projects row of an academic project: the base id, the owner, the title, the description, the image urls and the creation time |
| SwinburneProjects.Joined | teamawesome.fun_t4-main/backend/controllers/swinburneProjectController.js:244-262 | a project as `sp.*` joined with `projects p` reads it: ids and academic columns from swinburne_projects, owner, title and description from the base row, progress_percentage from the board |
| SwinburneProjects.Unjoined | teamawesome.fun_t4-main/backend/controllers/swinburneProjectController.js:446-455 | the swinburne_projects copy of a project: the `Returned` row without the progress column, every other column as the project has it |
| SwinburneProjects.ProgressAfter | teamawesome.fun_t4-main/backend/controllers/milestoneController.js:545-548 | the board's column after a row is written: that row's progress_percentage, and every other project's unchanged |
| SwinburneProjects.SplitJoinRoundTrip | teamawesome.fun_t4-main/backend/controllers/swinburneProjectController.js:446-455 | writing a row to the project table and the board, then reading it back, gives the same row |
| SwinburneProjects.JoinSplitRoundTrip | teamawesome.fun_t4-main/backend/controllers/swinburneProjectController.js:244-262 | reading a stored swinburne_projects row with its base row and progress, then splitting it again, gives the stored row back |
| SwinburneProjects.CheckProjectAccess | teamawesome.fun_t4-main/backend/controllers/swinburneProjectController.js:331-375 | Public: everyone. Private and Team Only: Active members only. Swinburne Only: Swinburne addresses only. An anonymous caller gets nothing else, and any other visibility value is denied |
| SwinburneProjects.MembershipDecidesPrivate | teamawesome.fun_t4-main/backend/controllers/swinburneProjectController.js:343-355 | for Private and Team Only projects, access is exactly Active membership, whatever the address |
| SwinburneProjects.PresentFields | teamawesome.fun_t4-main/backend/controllers/swinburneProjectController.js:427-444 | the columns the body carries that an update may set (all but id, base_project_id, created_at and updated_at), and only those |
| SwinburneProjects.AllowListSettable | teamawesome.fun_t4-main/backend/controllers/swinburneProjectController.js:427-432 | the handler's allow-list names exactly the columns other than the keys and the two timestamps |
| SwinburneProjects.Updated | teamawesome.fun_t4-main/backend/controllers/swinburneProjectController.js:410-465 | a committed update overlays exactly the settable fields of the body, sets updated_at to the time of the update, and keeps ids, owner and creation time. A non-empty title or description replaces the old one, trimmed; otherwise both stay |
| SwinburneProjects.UpdateWritesProgress | teamawesome.fun_t4-main/backend/controllers/swinburneProjectController.js:427-455 | a progress_percentage the body sends is what the progress column holds once the update is written back |
| SwinburneProjects.Overlay | teamawesome.fun_t4-main/backend/controllers/swinburneProjectController.js:438-444 | `SET field = value` for each settable field of the body, and no other column changes |
| SwinburneProjects.FinderMatches | teamawesome.fun_t4-main/backend/controllers/swinburneProjectController.js:588-593 | exactly the Open projects with visibility Public or Swinburne Only and a status Not Started, Planning or In Progress, newest first |
| SwinburneProjects.FinderFor | teamawesome.fun_t4-main/backend/controllers/swinburneProjectController.js:565-631 | a negative limit or offset is an error. Otherwise one page of the listing, narrowed to its Public rows when asked. `hasMore` says whether the unfiltered page was full |
| SwinburneProjects.TeamFinder | teamawesome.fun_t4-main/backend/controllers/swinburneProjectController.js:601-616 | the corrected finder: a project that is not Public is shown only to a viewer whose address on file is a Swinburne one, and only when it is Swinburne Only |
| SwinburneProjects.AsWrittenTeamFinder | teamawesome.fun_t4-main/backend/controllers/swinburneProjectController.js:601-616 | the finder as written: a signed-in caller without a users row is shown the whole unfiltered page; every other viewer as in `TeamFinder` |
| SwinburneProjects.AsWrittenFinderLeaksSwinburneOnly | teamawesome.fun_t4-main/backend/controllers/swinburneProjectController.js:601-616 | a concrete listing where the finder as written shows such a caller a Swinburne Only project that `checkProjectAccess` refuses them |
| SwinburneProjects.HasMoreCountsHiddenRows | teamawesome.fun_t4-main/backend/controllers/swinburneProjectController.js:601-624 | there are listings where an anonymous viewer gets an empty page that still says there is more |
| SwinburneProjects.FinderRespectsAccess | teamawesome.fun_t4-main/backend/controllers/swinburneProjectController.js:601-616 | for every viewer, anonymous, signed in without a users row, or known, every project the corrected finder shows passes `checkProjectAccess` for that viewer |
| SwinburneProjects.FreshIdUnused | teamawesome.fun_t4-main/backend/controllers/swinburneProjectController.js:85-96 | the next id names no stored project and no membership row |
| SwinburneProjects.CreateKeepsInvariant | teamawesome.fun_t4-main/backend/controllers/swinburneProjectController.js:85-136 | storing a project under the next id with its leader row keeps membership rows pointing at stored projects |
| SwinburneProjects.CollectFields | teamawesome.fun_t4-main/backend/controllers/swinburneProjectController.js:438-444 | the handler's loop collects exactly the allow-listed fields the body carries, in allow-list order |
| SwinburneProjects.NoFieldsIffNoneAllowed | teamawesome.fun_t4-main/backend/controllers/swinburneProjectController.js:438-472 | the update has nothing to write if and only if the body names no allow-listed column |
| SwinburneProjects.MemberProjectStored | teamawesome.fun_t4-main/backend/controllers/swinburneProjectController.js:385-398 | a project someone is an Active member of is a stored project |
| SwinburneProjects.NothingToSet | teamawesome.fun_t4-main/backend/controllers/swinburneProjectController.js:438-446 | the handler's `updateFields.length > 0` test: nothing to set exactly when the body names no allow-listed column |
| SwinburneProjects.AddKeepsTables | teamawesome.fun_t4-main/backend/controllers/swinburneProjectController.js:85-136 | a new project under the next ids, with its base row and Leader row, keeps the tables in agreement; the new base id names no earlier row |
| SwinburneProjects.ReplaceKeepsTables | teamawesome.fun_t4-main/backend/controllers/swinburneProjectController.js:410-465 | writing a project back under its own id and retitling its base row keeps the tables in agreement |
| SwinburneProjects.RetitleKeepsBases | teamawesome.fun_t4-main/backend/controllers/swinburneProjectController.js:410-423 | retitling a base row leaves every academic project's base row in the table |
| SwinburneProjects.RemoveKeepsTables | teamawesome.fun_t4-main/backend/controllers/swinburneProjectController.js:526-532 | deleting a project, its memberships and its base row keeps the tables in agreement |
| SwinburneProjects.AcademicProjectStore.Row | teamawesome.fun_t4-main/backend/controllers/swinburneProjectController.js:244-262 | the project as the handlers read it: its base row agrees with it on owner, title and description, its swinburne_projects row is its `Unjoined` copy, and its progress_percentage is the board's |
| SwinburneProjects.AcademicProjectStore.constructor | teamawesome.fun_t4-main/backend/controllers/swinburneProjectController.js:10-191 | an empty store satisfies its invariant, over a fresh base table, team and board that its caller may then change |
| SwinburneProjects.AcademicProjectStore.CreateProject | teamawesome.fun_t4-main/backend/controllers/swinburneProjectController.js:10-191 | fails exactly when `ValidateCreation` refuses, and then no table and neither id counter changes. Otherwise it stores the `Created` project under the next id, its base row (`NewProject`, with the image urls) in the shared projects table under an id no row had, its progress on the board, and its creator as only Active Leader; reading the project back gives `Created`, and the reply is `CreatedReply` |
| SwinburneProjects.AcademicProjectStore.Store | teamawesome.fun_t4-main/backend/controllers/swinburneProjectController.js:85-136 | the two INSERTs and the Leader row under the next ids: the swinburne_projects row is `Unjoined`, the base row `BaseRow` appended to the shared projects table, the progress on the board; the project reads back unchanged, and its leader count is 1 |
| SwinburneProjects.AcademicProjectStore.Replace | teamawesome.fun_t4-main/backend/controllers/swinburneProjectController.js:410-465 | writes a changed project back: its swinburne_projects row becomes `Unjoined`, its base row is retitled and no other base row changes, its progress_percentage goes to the board; the project reads back unchanged and the invariant holds |
| SwinburneProjects.AcademicProjectStore.Commit | teamawesome.fun_t4-main/backend/controllers/swinburneProjectController.js:410-465 | the two UPDATEs of a committed update: the project read back is `Updated` of the old one, and the swinburne_projects row, the base row and the progress column hold it |
| SwinburneProjects.AcademicProjectStore.UpdateProject | teamawesome.fun_t4-main/backend/controllers/swinburneProjectController.js:378-485 | any Active collaborator may update; a non-member is refused; a body with no allow-listed field rolls back everything (title and description too). Otherwise the project, read with its base row and progress, becomes `Updated` (updated_at is the time of the update), its base row is retitled, a `progress_percentage` in the body is the column's new value, and the reply is the `RETURNING *` swinburne_projects row, `Returned` |
| SwinburneProjects.AcademicProjectStore.DeleteProject | teamawesome.fun_t4-main/backend/controllers/swinburneProjectController.js:488-541 | only an Active Leader of an existing project, and otherwise nothing changes. The project, its membership rows, its milestones, its progress and its base row go, and the other tables' rows stay |
| SwinburneProjects.AcademicProjectStore.Remove | teamawesome.fun_t4-main/backend/controllers/swinburneProjectController.js:526-532 | the DELETEs: the swinburne_projects row, its cascaded memberships, milestones and progress, then its base row (`Without`); the invariant holds |
| Search.PageNumber | teamawesome.fun_t4-main/backend/controllers/profile/searchController.js:16 | at least 1: the parsed page when it is 1 or more, otherwise 1 |
| Search.LimitNumber | teamawesome.fun_t4-main/backend/controllers/profile/searchController.js:17 | within 5..20: the parsed limit when in range, 10 when missing or 0, else clamped to the nearer bound |
| Search.Offset | teamawesome.fun_t4-main/backend/controllers/profile/searchController.js:18 | the matches on earlier pages; zero exactly on page 1 |
| Search.TotalPages | teamawesome.fun_t4-main/backend/controllers/profile/searchController.js:147 | `Math.ceil(total / limit)`: the fewest pages of `limit` rows that hold every match; 0 exactly when there are none |
| Search.PagesLeft | teamawesome.fun_t4-main/backend/controllers/profile/searchController.js:147-149 | page < totalPages if and only if the pages so far do not hold all matches |
| Search.SearchTerms | teamawesome.fun_t4-main/backend/controllers/profile/searchController.js:12 | the trimmed query, or "" without one |
| Search.Matched | teamawesome.fun_t4-main/backend/controllers/profile/searchController.js:24-121 | a user is listed if and only if they match the terms (or the terms are shorter than 2) and are not the caller |
| Search.MatchIgnoresCase | teamawesome.fun_t4-main/backend/controllers/profile/searchController.js:83-88 | a user whose first or last name contains the terms is found whatever the letter case |
| Search.ShortTermsListEveryone | teamawesome.fun_t4-main/backend/controllers/profile/searchController.js:24 | terms shorter than 2 characters list every user but the caller |
| Search.ShortBio | teamawesome.fun_t4-main/backend/controllers/profile/searchController.js:159-163 | a missing or empty bio is null. A bio of at most 100 characters is unchanged. A longer one becomes its first 100 characters plus "...", 103 in all |
| Search.CountersOf | teamawesome.fun_t4-main/backend/controllers/profile/searchController.js:165-166 | the user's counter row, or zeros without one |
| Search.RequestStatusOf | teamawesome.fun_t4-main/backend/controllers/profile/searchController.js:154-170 | the status of the caller's request to the user, present exactly when such a request exists |
| Search.SummaryOf | teamawesome.fun_t4-main/backend/controllers/profile/searchController.js:154-170 | a listed user: the truncated bio, the follow relation from the caller's side (none for an anonymous caller), and counters that equal the true edge counts under the counter invariant |
| Search.SearchUsers | teamawesome.fun_t4-main/backend/controllers/profile/searchController.js:9-185 | the page holds the matches from the offset on, at most `limit`, full when enough remain. totalUsers counts every match. hasNextPage holds if and only if page < totalPages, and hasPrevPage if and only if the offset is positive |
| Search.NeverSelf | teamawesome.fun_t4-main/backend/controllers/profile/searchController.js:36-102 | a signed-in caller never appears in their own results |
| Search.HasNextPageIffMoreMatches | teamawesome.fun_t4-main/backend/controllers/profile/searchController.js:147-149 | hasNextPage is set exactly when matches remain after this page |
| Search.ShownOnPage | teamawesome.fun_t4-main/backend/controllers/profile/searchController.js:171-178 | a match whose position falls in a page's window is shown on that page |
| Search.PageOfPosition | teamawesome.fun_t4-main/backend/controllers/profile/searchController.js:16-18 | position k lies in the window of page k / limit + 1 |
| Search.EveryMatchOnSomePage | teamawesome.fun_t4-main/backend/controllers/profile/searchController.js:16-178 | with a limit in range, every match is shown on some page |
| Search.FindByName | teamawesome.fun_t4-main/backend/controllers/profile/searchController.js:198-203 | the user with the handle, or none exactly when no user has it |
| Search.PendingOnly | teamawesome.fun_t4-main/backend/controllers/profile/searchController.js:213 | the profile reports a request status only when it is pending |
| Search.ProfileLinks | teamawesome.fun_t4-main/backend/controllers/profile/searchController.js:268-280 | exactly the user's links, newest first |
| Search.LinkViews | teamawesome.fun_t4-main/backend/controllers/profile/searchController.js:268-280 | each link as id, title and url, in the same order |
| Search.PublicProfile | teamawesome.fun_t4-main/backend/controllers/profile/searchController.js:188-329 | an unknown handle is a 404. The full profile, with links and projects, is shown if and only if the profile is public, the viewer follows it, or it is the viewer's own. Otherwise the links and projects are empty |
| Search.ProfileAgreesWithProjectsAccess | teamawesome.fun_t4-main/backend/controllers/profile/searchController.js:234 | the profile page opens exactly when the projects endpoint grants access |
| Search.FollowingOpensPrivateProfile | teamawesome.fun_t4-main/backend/controllers/profile/searchController.js:234-260 | a private profile shows a stranger nothing of its content, and following it opens it |
| Projects.ValidateCreate | teamawesome.fun_t4-main/backend/controllers/projectController.js:19-35 | passes if and only if the trimmed title has 3 or more characters, the title at most 100 and the description at most 500; each failure is the first check that refused |
| Projects.NewProject | teamawesome.fun_t4-main/backend/controllers/projectController.js:51-62 | the inserted row carries the trimmed title and the trimmed-or-null description |
| Projects.Toggled | teamawesome.fun_t4-main/backend/controllers/projectController.js:360-393 | the pair is liked afterwards if and only if it was not before; no other like changes |
| Projects.ToggleTwice | teamawesome.fun_t4-main/backend/controllers/projectController.js:360-393 | toggling twice restores the like set |
| Projects.ToggleCount | teamawesome.fun_t4-main/backend/controllers/projectController.js:360-393 | a toggle moves the project's like count by exactly one and leaves every other project's count alone |
| Projects.LikesOf | teamawesome.fun_t4-main/backend/controllers/projectController.js:105-117 | the likes of one project, and only those |
| Projects.ProjectsAccess | teamawesome.fun_t4-main/backend/controllers/projectController.js:241-258 | 404 exactly for an unknown user. Access is granted to a public profile, to its owner and to a follower. An anonymous viewer gets in exactly when the profile is public, and every denial is a stranger to a private profile |
| Projects.MoreEdgesMoreAccess | teamawesome.fun_t4-main/backend/controllers/projectController.js:248 | following more users never takes access away |
| Projects.ByAuthor | teamawesome.fun_t4-main/backend/controllers/projectController.js:261-276 | exactly one author's projects, newest first |
| Projects.Cards | teamawesome.fun_t4-main/backend/controllers/projectController.js:261-276 | each project with its like count, in the same order |
| Projects.OwnProjects | teamawesome.fun_t4-main/backend/controllers/projectController.js:261-276 | the author's projects, newest first, each with its like count |
| Projects.UserProjectsWithAccess | teamawesome.fun_t4-main/backend/controllers/projectController.js:222-289 | fails exactly as the access rule does; otherwise returns the user's projects with like counts |
| Projects.Listing | teamawesome.fun_t4-main/backend/controllers/projectController.js:105-166 | exactly the projects whose author exists (public authors only for the gallery), newest first |
| Projects.ListingPage | teamawesome.fun_t4-main/backend/controllers/projectController.js:91-185 | `page`/`limit` default to 1/10. A negative limit or offset is an error. The page is the listing's window at offset (page-1)·limit, and hasMore holds if and only if the page is full |
| Projects.PageItems | teamawesome.fun_t4-main/backend/controllers/projectController.js:98-129 | each item of a page is a listed project, with its own like count and the viewer's like |
| Projects.Feed | teamawesome.fun_t4-main/backend/controllers/projectController.js:91-136 | getProjects: every item is a stored project of an existing author, with its like count, and `is_liked` exactly when the viewer liked it |
| Projects.Gallery | teamawesome.fun_t4-main/backend/controllers/projectController.js:139-185 | getPublicProjectGallery: every item is a project of a public author, with its like count, and `is_liked` exactly when a signed-in viewer liked it (never for an anonymous one) |
| Projects.ShortPageIsLast | teamawesome.fun_t4-main/backend/controllers/projectController.js:129 | a page with hasMore false reaches the end of the listing |
| Projects.HasMoreIsAGuess | teamawesome.fun_t4-main/backend/controllers/projectController.js:129 | the converse fails: a full last page still says there is more |
| Projects.Find | teamawesome.fun_t4-main/backend/controllers/projectController.js:300-312 | the project with that id, or none exactly when no row has it |
| Projects.FindSnoc | teamawesome.fun_t4-main/backend/controllers/projectController.js:51-62 | after an INSERT, an id an earlier row had still finds that row; the new row is found only under a new id |
| Projects.Without | teamawesome.fun_t4-main/backend/controllers/projectController.js:339-340 | `DELETE FROM projects WHERE id = $1`: exactly the rows with another id |
| Projects.Retitled | teamawesome.fun_t4-main/backend/controllers/swinburneProjectController.js:410-423 | the base-row UPDATE of title and description applied to every row: same length, every id kept, only the row with that id changes |
| Projects.RetitleKeepsInvariant | teamawesome.fun_t4-main/backend/controllers/swinburneProjectController.js:410-423 | retitling keeps ids unique and below the next id |
| Projects.RetitledFind | teamawesome.fun_t4-main/backend/controllers/swinburneProjectController.js:410-423 | after retitling, the row with that id carries the new title and description, and every other row is found as before |
| Projects.ProjectTable.constructor | teamawesome.fun_t4-main/backend/controllers/projectController.js:51-62 | an empty table satisfies its invariant |
| Projects.ProjectTable.CreateProject | teamawesome.fun_t4-main/backend/controllers/projectController.js:10-88 | fails exactly when `ValidateCreate` refuses, and then neither the rows nor the id counter change; otherwise appends the `NewProject` row under an id no row had; the table is shared with the academic base rows, so that id is fresh for both |
| Projects.ProjectTable.Append | teamawesome.fun_t4-main/backend/controllers/projectController.js:51-62 | the INSERT under the next id, which no row had, portfolio or academic base row |
| Projects.ProjectTable.DeleteProject | teamawesome.fun_t4-main/backend/controllers/projectController.js:292-349 | 404 exactly for a missing project, 403 exactly for someone else's, and no change then; the owner's delete of an existing project always succeeds, and the table becomes `Without` that id: exactly that row is deleted |
| Projects.ProjectTable.Remove | teamawesome.fun_t4-main/backend/controllers/projectController.js:339-340 | the DELETE: the row with that id is gone, every other id finds what it found before, and the invariant holds |
| Projects.ProjectTable.SetText | teamawesome.fun_t4-main/backend/controllers/swinburneProjectController.js:410-423 | the base-row UPDATE: the table becomes `Retitled`, the row with that id carries the new title and description, and every other row is found as before |
| Projects.ProjectTable.ToggleLike | teamawesome.fun_t4-main/backend/controllers/projectController.js:352-398 | an existing like is removed with `liked` false; a new like is added with `liked` true only when a projects row has that id, an academic base row included, and otherwise the INSERT breaks the foreign key and nothing changes; after a success `liked` says whether the like is now there |
| Links.LinksOf | teamawesome.fun_t4-main/backend/controllers/profile/linkController.js:47-58 | one user's links, and only those |
| Links.FilterKeepsIdsUnique | teamawesome.fun_t4-main/backend/controllers/profile/linkController.js:110-114 | deleting rows keeps link ids unique |
| Links.Added | teamawesome.fun_t4-main/backend/controllers/profile/linkController.js:11-20 | one row appended, owned by the caller, with the other rows untouched and ids still unique |
| Links.EditRows | teamawesome.fun_t4-main/backend/controllers/profile/linkController.js:60-71 | the targeted row gets the new title and url; every other row is unchanged |
| Links.Edited | teamawesome.fun_t4-main/backend/controllers/profile/linkController.js:40-88 | LINK_NOT_FOUND exactly when the caller does not own the link |
| Links.Removed | teamawesome.fun_t4-main/backend/controllers/profile/linkController.js:91-124 | LINK_NOT_FOUND exactly when the caller does not own the link; otherwise exactly that row is gone |
| Links.EditKeepsOthers | teamawesome.fun_t4-main/backend/controllers/profile/linkController.js:60-71 | an edit leaves every other user's links as they were, in order |
| Links.OthersUntouched | teamawesome.fun_t4-main/backend/controllers/profile/linkController.js:6-124 | no add, edit or delete by one user changes another user's links |
| Links.AddThenDelete | teamawesome.fun_t4-main/backend/controllers/profile/linkController.js:11-114 | deleting a link just added under a fresh id restores the table |
| Links.DeleteRemovesOne | teamawesome.fun_t4-main/backend/controllers/profile/linkController.js:110-114 | with unique ids, a delete removes exactly one row |
| Links.LinkTable.constructor | teamawesome.fun_t4-main/backend/controllers/profile/linkController.js:11-20 | an empty table satisfies its invariant |
| Links.LinkTable.AddLink | teamawesome.fun_t4-main/backend/controllers/profile/linkController.js:6-37 | inserts a row owned by the caller under a fresh id and returns its id, title and url |
| Links.LinkTable.UpdateLink | teamawesome.fun_t4-main/backend/controllers/profile/linkController.js:40-88 | LINK_NOT_FOUND and no change unless the caller owns the link; otherwise exactly that row's title and url change |
| Links.LinkTable.DeleteLink | teamawesome.fun_t4-main/backend/controllers/profile/linkController.js:91-124 | LINK_NOT_FOUND and no change unless the caller owns the link; otherwise exactly one row is removed |
| ValidateProject.PushInOrder | teamawesome.fun_t4-main/backend/middleware/validateProject.js:3-28 | pushing a later check's message keeps the list in check order |
| ValidateProject.CheckTitle | teamawesome.fun_t4-main/backend/middleware/validateProject.js:6-12 | at most one title message: missing or not a string, trimmed shorter than 3, or longer than 100 |
| ValidateProject.CheckDescription | teamawesome.fun_t4-main/backend/middleware/validateProject.js:15-19 | adds at most one message: a truthy description that is not a string, or one longer than 500 |
| ValidateProject.CheckContent | teamawesome.fun_t4-main/backend/middleware/validateProject.js:22-28 | adds "no content" exactly when there are no files and the description is missing or blank |
| ValidateProject.Validate | teamawesome.fun_t4-main/backend/middleware/validateProject.js:1-40 | every check runs and each message appears exactly when its condition holds, in check order. The request passes if and only if none applies. A non-string description with no files makes `trim()` throw |
| ValidateProject.ImagesOrDescription | teamawesome.fun_t4-main/backend/middleware/validateProject.js:22-28 | a blank description passes only with at least one file, and then only with a proper title |
| ValidatePassword.Check | teamawesome.fun_t4-main/backend/middleware/validatePassword.js:3-19 | a failed check adds its issue after the earlier ones |
| ValidatePassword.LengthIssues | teamawesome.fun_t4-main/backend/middleware/validatePassword.js:6-7 | too long exactly above 128, too short exactly below 8 |
| ValidatePassword.ClassIssues | teamawesome.fun_t4-main/backend/middleware/validatePassword.js:9-19 | the four character-class refinements add their issues after the length ones; none at all exactly when there were none and every class is present |
| ValidatePassword.TrimmedIssues | teamawesome.fun_t4-main/backend/middleware/validatePassword.js:3-19 | no issue if and only if the trimmed password has 8 to 128 characters and a lower-case letter, an upper-case letter, a digit and a special character |
| ValidatePassword.ValidateBody | teamawesome.fun_t4-main/backend/middleware/validatePassword.js:22-43 | it passes if and only if the password is a string whose trimmed form is strong. The body then goes on with the password trimmed and every other field kept. Otherwise a non-empty list of issues in chain order, with the type failure alone for a non-string |
| ValidatePassword.StoredPasswordIsStrong | teamawesome.fun_t4-main/backend/middleware/validatePassword.js:41 | the password passed on is strong and has no white space at either end |
| ValidatePassword.Revalidate | teamawesome.fun_t4-main/backend/middleware/validatePassword.js:22-43 | a body that passed passes again, unchanged |
| ValidatePassword.PaddingIgnored | teamawesome.fun_t4-main/backend/middleware/validatePassword.js:5 | white space around the password changes nothing |
| ValidateName.FieldIssues | teamawesome.fun_t4-main/backend/middleware/validateName.js:5-19 | no issue if and only if the field is a string of 1 to 38 letters, white space or hyphens. A non-string raises only the type issue. A string raises each of required, too long and invalid characters exactly when it breaks that rule |
| ValidateName.Tag | teamawesome.fun_t4-main/backend/middleware/validateName.js:33-36 | each issue becomes a detail naming its field |
| ValidateName.Details | teamawesome.fun_t4-main/backend/middleware/validateName.js:23-40 | the details are exactly the issues of both fields |
| ValidateName.FirstNameFirst | teamawesome.fun_t4-main/backend/middleware/validateName.js:3-19 | the first name's details come before the last name's |
| ValidateName.ValidateBody | teamawesome.fun_t4-main/backend/middleware/validateName.js:23-40 | passes if and only if both names are proper; the body then goes on unchanged (nothing trimmed), otherwise the non-empty details |
| ValidateName.ReportedFields | teamawesome.fun_t4-main/backend/middleware/validateName.js:23-40 | a field appears in the details if and only if it breaks the rule |
| ValidateBio.BioSchema | teamawesome.fun_t4-main/backend/middleware/validateBio.js:3-7 | accepts a string exactly when its trimmed form has at most 1000 characters, and yields the trimmed form |
| ValidateBio.ValidateBody | teamawesome.fun_t4-main/backend/middleware/validateBio.js:9-40 | an absent bio passes untouched; a non-string is INVALID_TYPE; a string is refused exactly when trimmed it exceeds 1000, else replaced by its trimmed form with every other field kept |
| ValidateBio.StoredBioFits | teamawesome.fun_t4-main/backend/middleware/validateBio.js:35 | a kept bio has at most 1000 characters and no white space at either end |
| ValidateBio.BlankBioClears | teamawesome.fun_t4-main/backend/middleware/validateBio.js:3-7 | a blank bio is kept as the empty string |
| ValidateBio.Revalidate | teamawesome.fun_t4-main/backend/middleware/validateBio.js:22-35 | a body that passed passes again, unchanged |
| ValidateBio.PaddingIgnored | teamawesome.fun_t4-main/backend/middleware/validateBio.js:5 | white space around a bio changes nothing |
| Pagination.Clamp | teamawesome.fun_t4-main/frontend/src/components/Follow/Pagination.jsx:28-32 | the value moved into the range, unchanged when already inside |
| Pagination.Span | teamawesome.fun_t4-main/frontend/src/components/Follow/Pagination.jsx:34-36 | n consecutive page numbers from the start |
| Pagination.GetPageNumbers | teamawesome.fun_t4-main/frontend/src/components/Follow/Pagination.jsx:13-40 | 1..totalPages when there are at most five pages. Otherwise five consecutive pages, centred on the current one and slid to fit. The window lies within 1..totalPages and holds the current page whenever that page is in range |
| Pagination.StartItem | teamawesome.fun_t4-main/frontend/src/components/Follow/Pagination.jsx:43 | at least 1, and (page-1)·perPage+1 for positive arguments |
| Pagination.EndItem | teamawesome.fun_t4-main/frontend/src/components/Follow/Pagination.jsx:44 | never past the total, and min(page·perPage, total) for positive arguments |
| Pagination.ShowingMatchesPage | teamawesome.fun_t4-main/frontend/src/components/Follow/Pagination.jsx:43-73 | "Showing a-b" names exactly the positions of the page a backend `LIMIT/OFFSET` sends |
| Pagination.PastTheEnd | teamawesome.fun_t4-main/frontend/src/components/Follow/Pagination.jsx:43-44 | a page past the last item shows an empty range |
| Pagination.Buttons | teamawesome.fun_t4-main/frontend/src/components/Follow/Pagination.jsx:91-134 | a button for page 1 when the window leaves it out, the window's buttons, and one for the last page when the window stops short of it |
| Pagination.ButtonsSpanAllPages | teamawesome.fun_t4-main/frontend/src/components/Follow/Pagination.jsx:91-134 | the buttons start at page 1, end at the last page, strictly increase and include the whole window |
| Pagination.ButtonsSkipOnlyAtEnds | teamawesome.fun_t4-main/frontend/src/components/Follow/Pagination.jsx:91-134 | buttons skip pages only right after the first and right before the last |
| Pagination.LaidOut | teamawesome.fun_t4-main/frontend/src/components/Follow/Pagination.jsx:91-134 | the "..." marks appear exactly where pages are skipped, and the current page has a button |
| Pagination.Controls | teamawesome.fun_t4-main/frontend/src/components/Follow/Pagination.jsx:50-149 | the rendered range, well laid-out buttons, Previous disabled exactly on page 1 or while loading, Next exactly on the last page or while loading |
| Pagination.Render | teamawesome.fun_t4-main/frontend/src/components/Follow/Pagination.jsx:8-149 | nothing at all exactly when there is at most one page. Otherwise the range, the two arrows as in `Controls`, and the buttons `Buttons` draws around the `GetPageNumbers` window: 1..totalPages for at most five pages, else the five pages centred on the current one and slid to fit |

## Left out

- HTTP and Express plumbing, authentication (JWT, bcrypt), and uploads to blob storage are not modelled. That includes the image upload in createProject and the S3 deletions in deleteProject. The caller's id, handle and e-mail are trusted inputs.
- Database mechanics are not modelled: SQL text, `BEGIN`/`COMMIT`/`ROLLBACK` on the shared pool, and concurrent races. Each handler is one atomic step, and a rolled-back handler is modelled as "no change".
- Clocks are parameters. `CURRENT_TIMESTAMP` and `new Date()` become a `now` argument, and "today" is an integer day.
- Milestones.Progress computes `Math.round` of the float ratio exactly, as `(200·c + t) div (2·t)`. Float rounding error is not modelled.
- String lengths count Dafny characters, not UTF-16 code units. Case folding covers ASCII letters only; full Unicode `LOWER` is not modelled.
- Search.Matched does not treat `%` and `_` in the search terms as `LIKE` wildcards: terms are matched literally.
- Search.Matched lists matches in table order. The handler's `ORDER BY first_name, last_name` collation is not modelled, so the order of search results is not stated.
- Search.PublicProfile: the second PROFILE_NOT_FOUND branch (`searchController.js:224-229`) cannot be reached once the first lookup found the user, so it is not modelled.
- `validateLink.js` and `validateEmail.js` are format checks of the zod library and are not modelled.
- The exact zod version is unknown. The validators assume zod's usual behaviour: a failed type check reports only that issue, and otherwise every check and refinement runs on the trimmed value and every issue is kept in chain order.
- Pagination assumes numeric props; `undefined` or `NaN` pages are not modelled. The React handlers (`onPageChange`, `onItemsPerPageChange`) and the markup beyond the modelled controls are not modelled.
- FollowGraph.FollowersListing, FollowGraph.FollowingListing, FollowGraph.UserFollowers and FollowGraph.UserFollowing return sets: the follows table is kept as a set of pairs without followed_at, so their `ORDER BY f.followed_at DESC` is not modelled. They state which users are listed, not in what order.
- Milestones.MilestoneBoard.UpdateMilestone: a name, due_date or order_index present as `null`, or a due_date of `""`, is not modelled. The handler would send NULL or "" to the database, skipping the past-date test for a due_date, and the milestone row here holds no NULL in those columns. A description present as `null` is modelled.
- getPendingRequests (`followController.js:270-301`) is a plain listing and is not modelled.
- getUserProjects, getSwinburneProjects, getSwinburneProject, getUserSwinburneProjects and getSwinburneUnits are read-only listings outside the access rules modelled here.
- SwinburneProjects.ValidateCreation reads `academic_year` as a truthy body value. The `parseInt(academic_year)` at insert time is not modelled.
- SwinburneProjects.Updated treats the update's title and description as strings. A non-string value there would throw at `.trim()`, and that throw is not modelled.
- Projects.ProjectTable.DeleteProject removes the project row but not its likes. The source relies on the database's foreign keys for that, and they are not part of this model.
- Projects.ProjectTable.DeleteProject on the base row of an academic project is not related to the academic store's invariant: what the database does to the swinburne_projects row that references it depends on a foreign-key action of the schema, which is not part of this model.
- Projects.Project has no updated_at column, so the `updated_at = CURRENT_TIMESTAMP` of the base-row UPDATE in updateSwinburneProject (`swinburneProjectController.js:415`) is not modelled. The swinburne_projects row's updated_at is modelled.
- Milestones.MilestoneBoard.ReorderMilestones refuses an entry whose order_index is present as `null` (MalformedEntry, no change). The handler's test is `order_index === undefined` (`milestoneController.js:483`), so it would write NULL into order_index; the milestone row here holds no NULL order_index, and the schema is not known.
- FollowGraph.FollowStore.FollowUser returns Internal, not a 404, for an unknown handle. This follows the code: it reads `rows[0].id` before its empty check.
- Projects.ShortPageIsLast is the easy direction of the `hasMore` rule. It is stated for completeness; the interesting half is Projects.HasMoreIsAGuess.

## Findings

| source | as written | input that shows it | evidently intended | confidence | as-written member | corrected member |
|---|---|---|---|---|---|---|
| teamawesome.fun_t4-main/backend/controllers/collaborationController.js:78-97 | the duplicate-invitation guard reads only the first row the query returns for (project, user); the query has no `ORDER BY` | the member's rows are an Inactive row first, then an open invitation; a second invitation passes the guard and inserts another Invited row | a member with any Active or Invited row cannot be invited again | not executed | Collaboration.AsWrittenAdmitsDuplicateInvite | Collaboration.ExistingCheck |
| teamawesome.fun_t4-main/backend/controllers/collaborationController.js:161-182 | the last-leader guard counts Active Leader rows, not members | after two Leader invitations of the same user are both accepted, the count is 2 and that user may demote themselves; the project is left with no Active Leader | the guard protects the last leading member. The fix here is row 1's corrected invitation guard: it keeps one live row per member, and under that invariant the row count is a member count, so the guard as written is safe | not executed | Collaboration.DuplicateLeaderRowsLoseLastLeader | Collaboration.RoleChangeKeepsInvariant |
| teamawesome.fun_t4-main/backend/controllers/swinburneProjectController.js:601-616 | the team finder filters out Swinburne Only projects only when the caller's users row is found; a signed-in caller without one gets the unfiltered page | a signed-in caller whose users row is gone, and a listed Swinburne Only project; the finder shows it, and `checkProjectAccess` refuses it to the same caller | every viewer without a Swinburne address on file sees only Public projects, as an anonymous viewer does | not executed | SwinburneProjects.AsWrittenFinderLeaksSwinburneOnly | SwinburneProjects.FinderRespectsAccess |
