# Team management backend: the domain services in Dafny

This project models the service layer of a Spring Boot team-management
backend. Three services share one database of three tables.

- `TeamService` keeps teams.
- `TeamMemberService` keeps team members. Each member belongs to at most one
  team, through the nullable `team_id` column.
- `ProjectService` keeps projects. Each project owns a set of teams through the
  `project_team` join table.

The model is in three modules.

- `Entities` (`entities.dfy`) holds the rows: `Team`, `Member`, `Project`.
  - It holds the column constraints the `Team` and `TeamMember` entities
    declare: not-blank names and emails, and length bounds of 100, 500, 100,
    100 and 50.
  - It holds the `@PreUpdate` hook as `UpdatedTeam` / `UpdatedMember`. The hook
    stamps `updatedAt` only when a column actually changed.
- `Integrity` (`integrity.dfy`) holds the derived, `mappedBy` side of each
  relation.
  - `MembersOf` gives a team's members and `ProjectsOf` its projects.
  - It holds the database invariants: unique team names, unique emails, unique
    project names, referential integrity, and keys below the IDENTITY counter.
  - It holds the lemmas showing that each kind of row write preserves those
    invariants, and how each write moves a team's member or project count.
- `Services` (`store.dfy`) holds `class Store`.
  - The fields are the three tables, as maps from key to row, and the three
    IDENTITY counters.
  - Each operation of the three services that creates, reads one row of, or
    changes a table is a method of the class. The listings and searches are
    not modelled (see "## Left out").
  - Every method is transactional. It checks before it writes, in the order
    the Java code checks. On every error path the store is unchanged
    (`r.Err? ==> unchanged(this)`).
  - Every method preserves `Valid()`.
  - A response is built from the managed entity before the transaction's
    flush runs `@PreUpdate`. So an update reports the `updatedAt` the row had
    before the call, while the stored row carries the new one.

The services throw three exceptions: `ResourceNotFoundException`,
`DuplicateResourceException` and `InvalidOperationException`. They appear here
as the `Error` values `NotFound(kind)`, `Duplicate(kind)` and
`InvalidOperation`. A fourth value, `ConstraintViolation`, stands for the bean
validation that rejects a team or member row when it is flushed. It is raised
only after every check the service makes itself. The clock
(`LocalDateTime.now()`) is a `now: Time` parameter, read once per call. The
`@PrePersist` hooks read the clock twice, so in the running system a new row's
`createdAt` and `updatedAt` can differ slightly; here both are `now`.

## Model

| member | source | states |
|---|---|---|
| `Entities.UpdatedTeam` | backend/teammanagement/src/main/java/com/desh/teammanagement/entity/Team.java:47-62 | The flushed team row carries the new name and description and keeps createdAt. If no column changed, it is the same row (onUpdate does not fire). Otherwise updatedAt is the current time. |
| `Entities.UpdatedMember` | backend/teammanagement/src/main/java/com/desh/teammanagement/entity/TeamMember.java:45-60 | The same for a member row, over name, email, role and team. |
| `Entities.Reassigned` | backend/teammanagement/src/main/java/com/desh/teammanagement/service/TeamMemberService.java:137-139 | A member row whose only set column is the team: it is `UpdatedMember` with the other columns unchanged, and it differs from the old row only in its team and, when the team actually changed, in updatedAt := now. |
| `Entities.Blank` | backend/teammanagement/src/main/java/com/desh/teammanagement/entity/Team.java:26 | `@NotBlank`: a string is blank exactly when Java's `trim()` (dropping leading and trailing characters up to U+0020) leaves nothing of it. |
| `Entities.TeamColumnsOk` | backend/teammanagement/src/main/java/com/desh/teammanagement/entity/Team.java:26-33 | A team row is accepted exactly when its trimmed name is non-empty, the name has at most 100 characters, and a description has at most 500. An accepted name is non-empty. |
| `Entities.MemberColumnsOk` | backend/teammanagement/src/main/java/com/desh/teammanagement/entity/TeamMember.java:25-38 | A member row is accepted exactly when its trimmed name and trimmed email are non-empty, each has at most 100 characters, and a role has at most 50. |
| `Integrity.MembersOf` | backend/teammanagement/src/main/java/com/desh/teammanagement/entity/Team.java:35-42 | A team's member collection is the inverse of the member's team column, so it holds only stored members. |
| `Integrity.ProjectsOf` | backend/teammanagement/src/main/java/com/desh/teammanagement/entity/Team.java:44-45 | A team's project collection is the inverse of the project's team set, so it holds only stored projects. |
| `Integrity.TeamNameTaken` | backend/teammanagement/src/main/java/com/desh/teammanagement/repository/TeamRepository.java:17 | `existsByName` holds exactly when the name is among the values of the team name column. |
| `Integrity.EmailTaken` | backend/teammanagement/src/main/java/com/desh/teammanagement/service/TeamMemberService.java:29 | `existsByEmail` holds exactly when the email is among the values of the member email column. |
| `Integrity.ProjectNameTaken` | backend/teammanagement/src/main/java/com/desh/teammanagement/service/ProjectService.java:30 | `existsByName` on projects holds exactly when the name is among the values of the project name column. |
| `Integrity.Cascade` | backend/teammanagement/src/main/java/com/desh/teammanagement/entity/Team.java:35-42 | Removing a team with cascade ALL / orphanRemoval deletes exactly that team's members. Every other member is kept unchanged, and no kept member names the team. |
| `Integrity.CascadeCount` | backend/teammanagement/src/main/java/com/desh/teammanagement/entity/Team.java:35-42 | After the cascade, the member table shrinks by exactly the size of the team's member set. |
| `Integrity.DeleteTeamOk` | backend/teammanagement/src/main/java/com/desh/teammanagement/service/TeamService.java:103-110 | Deleting a team that no project holds, together with its members, leaves all three tables valid. |
| `Integrity.WriteTeamOk` | backend/teammanagement/src/main/java/com/desh/teammanagement/service/TeamService.java:26-37 | Writing a well-formed team row whose name no other team has keeps the team table valid, under a counter at least as large as before. |
| `Integrity.WriteMemberOk` | backend/teammanagement/src/main/java/com/desh/teammanagement/service/TeamMemberService.java:28-50 | Writing a well-formed member row whose email no other member has, and whose team exists, keeps the member table valid. |
| `Integrity.WriteProjectOk` | backend/teammanagement/src/main/java/com/desh/teammanagement/service/ProjectService.java:29-47 | Writing a project row whose name no other project has, and whose teams exist, keeps the project table valid. |
| `Integrity.DeleteMemberOk` | backend/teammanagement/src/main/java/com/desh/teammanagement/service/TeamMemberService.java:159-166 | Deleting any member keeps the member table valid. |
| `Integrity.DeleteProjectOk` | backend/teammanagement/src/main/java/com/desh/teammanagement/service/ProjectService.java:148-155 | Deleting any project keeps the project table valid. |
| `Integrity.MoreTeamsOk` | backend/teammanagement/src/main/java/com/desh/teammanagement/service/TeamService.java:32-37 | Adding a team never breaks the referential integrity of members or projects. |
| `Integrity.MembersAfterWrite` | backend/teammanagement/src/main/java/com/desh/teammanagement/entity/TeamMember.java:40-43 | After a member row is rewritten, a team's members are its old members without that member, plus that member exactly when the new row names the team. |
| `Integrity.WriteMemberCount` | backend/teammanagement/src/main/java/com/desh/teammanagement/service/TeamService.java:119-120 | The matching change in a team's reported memberCount: minus one if the member was in the team, plus one if it now is. |
| `Integrity.DeleteMemberCount` | backend/teammanagement/src/main/java/com/desh/teammanagement/service/TeamService.java:119-120 | Deleting a member lowers its team's memberCount by one and leaves every other team's memberCount unchanged. |
| `Integrity.ProjectsAfterWrite` | backend/teammanagement/src/main/java/com/desh/teammanagement/entity/Team.java:44-45 | After a project row is rewritten, a team's projects are its old projects without that project, plus that project exactly when the new row holds the team. |
| `Integrity.WriteProjectCount` | backend/teammanagement/src/main/java/com/desh/teammanagement/service/TeamService.java:119-120 | The matching change in a team's reported projectCount. |
| `Integrity.DeleteProjectCount` | backend/teammanagement/src/main/java/com/desh/teammanagement/service/TeamService.java:119-120 | Deleting a project lowers the projectCount of each of its teams by one and leaves other teams unchanged. |
| `Services.ClearTeams` | backend/teammanagement/src/main/java/com/desh/teammanagement/service/ProjectService.java:103-104 | Calling removeTeam for every team over a copy of the project's set leaves the project with no teams and every other column unchanged. |
| `Services.AddTeams` | backend/teammanagement/src/main/java/com/desh/teammanagement/service/ProjectService.java:106-109 | Calling addTeam for each validated team adds exactly those teams to the project. |
| `Services.Store.ValidTables` | backend/teammanagement/src/main/java/com/desh/teammanagement/entity/TeamMember.java:25-43 | What the store invariant `Valid` guarantees. Team names, member emails and project names are unique. A member's team and each of a project's teams exist. Every team and member row meets its column constraints. Every key is below its table's IDENTITY counter. |
| `Services.Store.ViewOf` | backend/teammanagement/src/main/java/com/desh/teammanagement/service/TeamService.java:112-122 | The team response carries the entity's id and columns. Its memberCount is the number of members whose team is this team, and its projectCount the number of projects holding it. |
| `Services.Store.CreateTeam` | backend/teammanagement/src/main/java/com/desh/teammanagement/service/TeamService.java:25-38 | A taken name gives Duplicate; otherwise a row failing its constraints gives ConstraintViolation. Success happens exactly when neither applies. It inserts a team under a fresh key, stamped with the current time, with no members and no projects. Nothing changes on failure. |
| `Services.Store.GetTeamById` | backend/teammanagement/src/main/java/com/desh/teammanagement/service/TeamService.java:57-63 | An unknown id gives NotFound(team). Otherwise it returns the team's columns, the number of members naming it, and the number of projects holding it. |
| `Services.Store.UpdateTeam` | backend/teammanagement/src/main/java/com/desh/teammanagement/service/TeamService.java:82-101 | Errors, in the source's order: NotFound, then Duplicate (only when the name changes to one that is taken), then ConstraintViolation. Success happens exactly when no other team has the name and the columns are valid. The row becomes `UpdatedTeam` of the old one. The response carries the new columns, the old createdAt and updatedAt (it is built before the flush), and the counts. |
| `Services.Store.DeleteTeam` | backend/teammanagement/src/main/java/com/desh/teammanagement/service/TeamService.java:103-110 | An unknown id gives NotFound with no change. Otherwise the team row goes, and exactly the members naming it go with it (the member table shrinks by their number). |
| `Services.Store.CreateMember` | backend/teammanagement/src/main/java/com/desh/teammanagement/service/TeamMemberService.java:28-50 | Errors, in order: Duplicate (email taken), NotFound(team) (a given team is unknown), ConstraintViolation. Success happens exactly when none applies. It inserts a member under a fresh key, and the team's member count grows by one. |
| `Services.Store.GetMemberById` | backend/teammanagement/src/main/java/com/desh/teammanagement/service/TeamMemberService.java:60-66 | An unknown id gives NotFound(member); otherwise it returns the stored row. |
| `Services.Store.GetMembersByTeamId` | backend/teammanagement/src/main/java/com/desh/teammanagement/service/TeamMemberService.java:68-78 | An unknown team gives NotFound(team). Otherwise it returns exactly the members whose team is the given one. |
| `Services.Store.UpdateMember` | backend/teammanagement/src/main/java/com/desh/teammanagement/service/TeamMemberService.java:94-124 | Errors, in order: NotFound(member), Duplicate (only for a changed email that is taken), NotFound(team), ConstraintViolation. Success happens exactly when no other member has the email, a given team exists and the columns are valid. The row becomes `UpdatedMember` of the old one, with team set or cleared. The response is the old row with the new columns, so it keeps the old updatedAt. |
| `Services.Store.AssignToTeam` | backend/teammanagement/src/main/java/com/desh/teammanagement/service/TeamMemberService.java:126-140 | An unknown member or team gives NotFound. Otherwise the row becomes `Reassigned` to the team, and the response is the old row with the new team. Assigning a member to the team it already has changes nothing. Otherwise the team's member count grows by one and updatedAt is stamped. |
| `Services.Store.RemoveFromTeam` | backend/teammanagement/src/main/java/com/desh/teammanagement/service/TeamMemberService.java:142-157 | An unknown member gives NotFound. A member without a team gives InvalidOperation. Otherwise the team is cleared and updatedAt is stamped. The response is the old row without a team, and the old team's count drops by one. |
| `Services.Store.DeleteMember` | backend/teammanagement/src/main/java/com/desh/teammanagement/service/TeamMemberService.java:159-166 | An unknown id gives NotFound with no change. Otherwise exactly that row goes, and its team's count drops by one. |
| `Services.Store.AddTeamMember` | backend/teammanagement/src/main/java/com/desh/teammanagement/entity/Team.java:64-67 | The member now names the team and is in its member set. It leaves every other team's member set. |
| `Services.Store.RemoveTeamMember` | backend/teammanagement/src/main/java/com/desh/teammanagement/entity/Team.java:69-72 | A member of this team is taken out of `teamMembers`, so orphan removal deletes its row. A member of another team, or of none, only has its team cleared. Either way the member leaves every team's member set. |
| `Services.Store.ValidateAndGetTeams` | backend/teammanagement/src/main/java/com/desh/teammanagement/service/ProjectService.java:157-167 | It succeeds exactly when every requested id is a stored team. It then returns exactly those ids; otherwise it returns NotFound(team). |
| `Services.Store.CreateProject` | backend/teammanagement/src/main/java/com/desh/teammanagement/service/ProjectService.java:29-47 | Duplicate when the name is taken; otherwise NotFound(team) when a requested team is unknown. Success happens exactly when neither applies. It inserts a project under a fresh key with exactly the requested teams (none when the request has none). |
| `Services.Store.GetProjectById` | backend/teammanagement/src/main/java/com/desh/teammanagement/service/ProjectService.java:58-64 | An unknown id gives NotFound(project); otherwise it returns the stored project. |
| `Services.Store.GetProjectsByTeamId` | backend/teammanagement/src/main/java/com/desh/teammanagement/service/ProjectService.java:67-76 | An unknown team gives NotFound(team). Otherwise it returns exactly the projects holding the team. |
| `Services.Store.UpdateProject` | backend/teammanagement/src/main/java/com/desh/teammanagement/service/ProjectService.java:86-114 | Errors, in order: NotFound(project), Duplicate (changed name taken), NotFound(team). The name and description are replaced. The team set is replaced by the requested one when one is given and kept when it is absent. Nothing changes on failure. |
| `Services.Store.AssignTeam` | backend/teammanagement/src/main/java/com/desh/teammanagement/service/ProjectService.java:116-130 | An unknown project or team gives NotFound. Otherwise the team joins the project's set and nothing else changes. Assigning a team that is already present changes nothing. |
| `Services.Store.RemoveTeam` | backend/teammanagement/src/main/java/com/desh/teammanagement/service/ProjectService.java:132-146 | An unknown project or team gives NotFound. Otherwise the team leaves the project's set. Removing a team that is not in the set is no error and changes nothing. |
| `Services.Store.DeleteProject` | backend/teammanagement/src/main/java/com/desh/teammanagement/service/ProjectService.java:148-155 | An unknown id gives NotFound with no change. Otherwise exactly that row goes, it leaves every team's project set, and each of its teams' project counts drops by one. |

## Left out

- Controllers, DTO mapping for members and projects, the global exception handler and the `TestController` are not part of this model.
  - HTTP status codes and error message texts (including the id in "not found with id") are not modelled.
  - For the same reason, the team summary embedded in member and project responses is not modelled.
- `getAllTeams`, `getAllTeamsWithMembers`, `getTeamByIdWithMembers`, `searchTeamsByName`, `getAllMembers`, `getMembersByRole`, `searchMembersByName`, `getAllProjects` and `searchProjects` are not modelled. They are read-only listings and keyword searches whose ordering and case-insensitive matching the database decides.
- `Project.java` and the DTO classes are not part of this model. Projects therefore carry no column constraints and no timestamps.
  - `Project.addTeam` and `Project.removeTeam` are taken to insert a team into, and delete it from, the project's team set, and to do nothing else.
- `TeamMemberRepository` and `ProjectRepository` declare no query methods of their own. The services' `existsByEmail`, `existsByName`, `findByTeamId` and `findByIdWithTeams` are taken to be the exact queries their names describe over the stored rows.
- Entity identity inside sets is the row's key. `Team` and `TeamMember` use Lombok `@Data`, whose generated `equals`/`hashCode` walk every field, including the team–member association in both directions. Hashing such an entity (for example adding a team with members to the `HashSet` in `validateAndGetTeams`) may not terminate. That recursive structural equality is not modelled.
- `Services.Store.DeleteTeam`: requires that no project holds the team. What the database does with `project_team` rows that still name a deleted team is not shown by the entities at hand.
- Email format (`@Email`) is not checked. Lengths count characters rather than UTF-16 code units. Name and email comparisons are exact, whatever the database collation does.
- A null name or email in a request is not modelled. Names and emails are always strings, and a missing value is a blank one.
- `Team.teamMembers` is modelled as derived from the members' `team` column, not as the in-memory collection. `addTeamMember` does not remove the member from its previous team's loaded collection, and that transient state is not captured.
- The order in which `validateAndGetTeams` visits a `HashSet` is left open. It is a choice in the loop, so only the set of teams returned is specified.
- Concurrency between transactions, and database-level unique-constraint races, are not modelled.
