/**
 * The consistency rules of the three tables and the two inverse views.
 *
 * Team.teamMembers is mapped by the member's team column and Team.projects
 * by Project.teams, so neither is stored: a team's members and projects are
 * read off the owning side, and the two sides of each association agree by
 * construction. The lemmas below say how the sizes of those views (the
 * memberCount and projectCount a team view reports) move when one row is
 * written or removed.
 */
module Integrity {
  import opened Entities

  /** Team.teamMembers: the members whose team column names `t`. */
  function MembersOf(members: map<MemberId, Member>, t: TeamId): (r: set<MemberId>)
    ensures r <= members.Keys
  {
    set m | m in members && members[m].team == Some(t)
  }

  /** Team.projects: the projects whose team set holds `t`. */
  function ProjectsOf(projects: map<ProjectId, Project>, t: TeamId): (r: set<ProjectId>)
    ensures r <= projects.Keys
  {
    set p | p in projects && t in projects[p].teams
  }

  /** TeamRepository.existsByName, as an exact comparison: the name is among the values of the name column. */
  function TeamNameTaken(teams: map<TeamId, Team>, name: string): (taken: bool)
    ensures taken <==> name in (set t | t in teams :: teams[t].name)
  {
    exists t :: t in teams && teams[t].name == name
  }

  /** TeamMemberRepository.existsByEmail, as an exact comparison: the email is among the values of the email column. */
  function EmailTaken(members: map<MemberId, Member>, email: string): (taken: bool)
    ensures taken <==> email in (set m | m in members :: members[m].email)
  {
    exists m :: m in members && members[m].email == email
  }

  /** ProjectRepository.existsByName, as an exact comparison: the name is among the values of the name column. */
  function ProjectNameTaken(projects: map<ProjectId, Project>, name: string): (taken: bool)
    ensures taken <==> name in (set p | p in projects :: projects[p].name)
  {
    exists p :: p in projects && projects[p].name == name
  }

  ghost predicate UniqueTeamNames(teams: map<TeamId, Team>)
  {
    forall a, b :: a in teams && b in teams && teams[a].name == teams[b].name ==> a == b
  }

  ghost predicate UniqueEmails(members: map<MemberId, Member>)
  {
    forall a, b :: a in members && b in members && members[a].email == members[b].email ==> a == b
  }

  ghost predicate UniqueProjectNames(projects: map<ProjectId, Project>)
  {
    forall a, b :: a in projects && b in projects && projects[a].name == projects[b].name ==> a == b
  }

  /** The team_id foreign key: a member's team, if set, exists. */
  ghost predicate MemberTeamsExist(members: map<MemberId, Member>, teamIds: set<TeamId>)
  {
    forall m :: m in members && members[m].team.Some? ==> members[m].team.value in teamIds
  }

  /** The project_team foreign key: a project's teams all exist. */
  ghost predicate ProjectTeamsExist(projects: map<ProjectId, Project>, teamIds: set<TeamId>)
  {
    forall p :: p in projects ==> projects[p].teams <= teamIds
  }

  /** The team table: every key below the next IDENTITY value, every row within its column constraints, names unique. */
  ghost predicate TeamsOk(teams: map<TeamId, Team>, next: TeamId)
  {
    && (forall t :: t in teams ==> t < next && WellFormedTeam(teams[t]))
    && UniqueTeamNames(teams)
  }

  /** The team_member table: as for teams, with unique emails and the team_id foreign key. */
  ghost predicate MembersOk(members: map<MemberId, Member>, next: MemberId, teamIds: set<TeamId>)
  {
    && (forall m :: m in members ==> m < next && WellFormedMember(members[m]))
    && UniqueEmails(members)
    && MemberTeamsExist(members, teamIds)
  }

  /** The project table and its join table: unique names and the project_team foreign key. */
  ghost predicate ProjectsOk(projects: map<ProjectId, Project>, next: ProjectId, teamIds: set<TeamId>)
  {
    && (forall p :: p in projects ==> p < next)
    && UniqueProjectNames(projects)
    && ProjectTeamsExist(projects, teamIds)
  }

  /** Writing team row `t` keeps the team table consistent when no other team has the new name. */
  lemma WriteTeamOk(teams: map<TeamId, Team>, before: TeamId, next: TeamId, t: TeamId, x: Team)
    requires TeamsOk(teams, before) && before <= next && t < next
    requires WellFormedTeam(x)
    requires forall u :: u in teams && u != t ==> teams[u].name != x.name
    ensures TeamsOk(teams[t := x], next)
  {
  }

  /** Writing member row `m` keeps the member table consistent when no other member has its email and its team exists. */
  lemma WriteMemberOk(
    members: map<MemberId, Member>, before: MemberId, next: MemberId, teamIds: set<TeamId>, m: MemberId, x: Member)
    requires MembersOk(members, before, teamIds) && before <= next && m < next
    requires WellFormedMember(x) && (x.team.Some? ==> x.team.value in teamIds)
    requires forall u :: u in members && u != m ==> members[u].email != x.email
    ensures MembersOk(members[m := x], next, teamIds)
  {
  }

  /** Writing project row `p` keeps the project table consistent when no other project has its name and its teams exist. */
  lemma WriteProjectOk(
    projects: map<ProjectId, Project>, before: ProjectId, next: ProjectId, teamIds: set<TeamId>, p: ProjectId, x: Project)
    requires ProjectsOk(projects, before, teamIds) && before <= next && p < next
    requires x.teams <= teamIds
    requires forall u :: u in projects && u != p ==> projects[u].name != x.name
    ensures ProjectsOk(projects[p := x], next, teamIds)
  {
  }

  /** Removing a member row keeps the member table consistent. */
  lemma DeleteMemberOk(members: map<MemberId, Member>, next: MemberId, teamIds: set<TeamId>, m: MemberId)
    requires MembersOk(members, next, teamIds)
    ensures MembersOk(members - {m}, next, teamIds)
  {
  }

  /** Removing a project row, with its join rows, keeps the project table consistent. */
  lemma DeleteProjectOk(projects: map<ProjectId, Project>, next: ProjectId, teamIds: set<TeamId>, p: ProjectId)
    requires ProjectsOk(projects, next, teamIds)
    ensures ProjectsOk(projects - {p}, next, teamIds)
  {
  }

  /** Foreign keys into the team table stay satisfied when the team table gains rows. */
  lemma MoreTeamsOk(
    members: map<MemberId, Member>, nextMember: MemberId,
    projects: map<ProjectId, Project>, nextProject: ProjectId,
    teamIds: set<TeamId>, more: set<TeamId>)
    requires MembersOk(members, nextMember, teamIds) && ProjectsOk(projects, nextProject, teamIds)
    requires teamIds <= more
    ensures MembersOk(members, nextMember, more) && ProjectsOk(projects, nextProject, more)
  {
  }

  /**
   * Removing a team cascades (CascadeType.ALL with orphan removal) to the
   * rows of its members; every other member is kept as it was.
   */
  function Cascade(members: map<MemberId, Member>, t: TeamId): (r: map<MemberId, Member>)
    ensures r.Keys == members.Keys - MembersOf(members, t)
    ensures forall m :: m in r ==> r[m] == members[m]
    ensures forall m :: m in r ==> r[m].team != Some(t)
  {
    map m | m in members && members[m].team != Some(t) :: members[m]
  }

  /**
   * Removing a team that no project names, together with its members, keeps
   * all three tables consistent.
   */
  lemma DeleteTeamOk(
    teams: map<TeamId, Team>, nextTeam: TeamId,
    members: map<MemberId, Member>, nextMember: MemberId,
    projects: map<ProjectId, Project>, nextProject: ProjectId,
    t: TeamId)
    requires TeamsOk(teams, nextTeam)
    requires MembersOk(members, nextMember, teams.Keys)
    requires ProjectsOk(projects, nextProject, teams.Keys)
    requires forall p :: p in projects ==> t !in projects[p].teams
    ensures TeamsOk(teams - {t}, nextTeam)
    ensures MembersOk(Cascade(members, t), nextMember, (teams - {t}).Keys)
    ensures ProjectsOk(projects, nextProject, (teams - {t}).Keys)
  {
  }

  /** The cascade removes exactly as many rows as the team had members. */
  lemma CascadeCount(members: map<MemberId, Member>, t: TeamId)
    ensures |Cascade(members, t)| == |members| - |MembersOf(members, t)|
  {
    var kept := Cascade(members, t);
    var gone := MembersOf(members, t);
    assert members.Keys == kept.Keys + gone;
    assert kept.Keys !! gone;
    assert |members.Keys| == |kept.Keys| + |gone|;
  }

  /** After member row `m` is written, the team's members are the others plus `m` if it now names the team. */
  lemma MembersAfterWrite(members: map<MemberId, Member>, m: MemberId, x: Member, t: TeamId)
    ensures MembersOf(members[m := x], t)
         == (MembersOf(members, t) - {m}) + (if x.team == Some(t) then {m} else {})
  {
    var after := members[m := x];
    forall k
      ensures k in MembersOf(after, t)
          <==> k in (MembersOf(members, t) - {m}) + (if x.team == Some(t) then {m} else {})
    {
      if k == m {
        assert k in after && after[k] == x;
      } else {
        assert k in after <==> k in members;
        assert k in after ==> after[k] == members[k];
      }
    }
  }

  /** Taking `x` out of a set and perhaps putting it back moves the size by the two indicators. */
  lemma SwapCount<T>(a: set<T>, b: set<T>, x: T, back: bool)
    requires b == (a - {x}) + (if back then {x} else {})
    ensures |b| == |a| - (if x in a then 1 else 0) + (if back then 1 else 0)
  {
    var rest := a - {x};
    if x in a {
      assert a == rest + {x};
    } else {
      assert a == rest;
    }
    if !back {
      assert b == rest;
    }
  }

  /**
   * Writing member row `m` (new or existing) changes the member count of any
   * team `t` by one for the row leaving `t` and by one for the row joining it.
   */
  lemma WriteMemberCount(members: map<MemberId, Member>, m: MemberId, x: Member, t: TeamId)
    ensures |MembersOf(members[m := x], t)|
         == |MembersOf(members, t)|
            - (if m in members && members[m].team == Some(t) then 1 else 0)
            + (if x.team == Some(t) then 1 else 0)
  {
    MembersAfterWrite(members, m, x, t);
    SwapCount(MembersOf(members, t), MembersOf(members[m := x], t), m, x.team == Some(t));
  }

  /** Deleting member row `m` lowers the count of its own team by one and no other. */
  lemma DeleteMemberCount(members: map<MemberId, Member>, m: MemberId, t: TeamId)
    ensures |MembersOf(members - {m}, t)|
         == |MembersOf(members, t)| - (if m in members && members[m].team == Some(t) then 1 else 0)
  {
    assert MembersOf(members - {m}, t) == (MembersOf(members, t) - {m}) + {};
    SwapCount(MembersOf(members, t), MembersOf(members - {m}, t), m, false);
  }

  /** After project row `p` is written, the team's projects are the others plus `p` if it now holds the team. */
  lemma ProjectsAfterWrite(projects: map<ProjectId, Project>, p: ProjectId, x: Project, t: TeamId)
    ensures ProjectsOf(projects[p := x], t)
         == (ProjectsOf(projects, t) - {p}) + (if t in x.teams then {p} else {})
  {
    var after := projects[p := x];
    forall k
      ensures k in ProjectsOf(after, t)
          <==> k in (ProjectsOf(projects, t) - {p}) + (if t in x.teams then {p} else {})
    {
      if k == p {
        assert k in after && after[k] == x;
      } else {
        assert k in after <==> k in projects;
        assert k in after ==> after[k] == projects[k];
      }
    }
  }

  /**
   * Writing project row `p` changes the project count of team `t` by one for
   * `p` leaving `t`'s projects and by one for `p` joining them.
   */
  lemma WriteProjectCount(projects: map<ProjectId, Project>, p: ProjectId, x: Project, t: TeamId)
    ensures |ProjectsOf(projects[p := x], t)|
         == |ProjectsOf(projects, t)|
            - (if p in projects && t in projects[p].teams then 1 else 0)
            + (if t in x.teams then 1 else 0)
  {
    ProjectsAfterWrite(projects, p, x, t);
    SwapCount(ProjectsOf(projects, t), ProjectsOf(projects[p := x], t), p, t in x.teams);
  }

  /** Deleting project row `p` lowers the project count of each of its teams by one and no other. */
  lemma DeleteProjectCount(projects: map<ProjectId, Project>, p: ProjectId, t: TeamId)
    ensures |ProjectsOf(projects - {p}, t)|
         == |ProjectsOf(projects, t)| - (if p in projects && t in projects[p].teams then 1 else 0)
  {
    assert ProjectsOf(projects - {p}, t) == (ProjectsOf(projects, t) - {p}) + {};
    SwapCount(ProjectsOf(projects, t), ProjectsOf(projects - {p}, t), p, false);
  }
}
