/**
 * The three domain services (TeamService, TeamMemberService, ProjectService)
 * over one in-memory store of the team, team_member and project tables.
 *
 * Every service is transactional: a method reads the rows it needs, works on
 * its own copies of them (the managed entities of the transaction), and
 * writes the store only when no check failed, so on any error the store is
 * as it was. Repository finders and existsBy queries are exact lookups in
 * the maps; IDENTITY keys come from one counter per table.
 */
module Services {
  import opened Entities
  import opened Integrity

  /** What TeamService reports for a team: its columns and the sizes of its two inverse views. */
  datatype TeamView = TeamView(
    id: TeamId,
    name: string,
    description: Option<string>,
    createdAt: Time,
    updatedAt: Time,
    memberCount: nat,
    projectCount: nat)

  /**
   * Project.removeTeam for each team the project holds, over a copy of its
   * team set, as updateProject does before it installs a new set.
   */
  method ClearTeams(p: Project) returns (q: Project)
    ensures q == p.(teams := {})
  {
    q := p;
    var visit := p.teams;
    while visit != {}
      invariant visit <= p.teams
      invariant q == p.(teams := visit)
      decreases visit
    {
      var t :| t in visit;
      q := q.(teams := q.teams - {t});
      visit := visit - {t};
    }
  }

  /** Project.addTeam for each validated team, as createProject and updateProject do. */
  method AddTeams(p: Project, ids: set<TeamId>) returns (q: Project)
    ensures q == p.(teams := p.teams + ids)
  {
    q := p;
    var visit := ids;
    while visit != {}
      invariant visit <= ids
      invariant q == p.(teams := p.teams + (ids - visit))
      decreases visit
    {
      var t :| t in visit;
      q := q.(teams := q.teams + {t});
      visit := visit - {t};
    }
  }

  class Store {
    var teams: map<TeamId, Team>
    var members: map<MemberId, Member>
    var projects: map<ProjectId, Project>
    // the next key each table's IDENTITY column hands out
    var nextTeamId: TeamId
    var nextMemberId: MemberId
    var nextProjectId: ProjectId

    /**
     * Team names, member emails and project names are unique; a member's
     * team and a project's teams exist; every team and member row meets its
     * column constraints; no key has been handed out twice.
     */
    ghost predicate Valid()
      reads this
    {
      && TeamsOk(teams, nextTeamId)
      && MembersOk(members, nextMemberId, teams.Keys)
      && ProjectsOk(projects, nextProjectId, teams.Keys)
    }

    /**
     * What Valid promises about the tables, in their own terms. It only
     * unfolds Valid and no method calls it; it is here as documentation of
     * the invariant every method keeps.
     */
    lemma ValidTables()
      requires Valid()
      ensures forall u, v :: u in teams && v in teams && teams[u].name == teams[v].name ==> u == v
      ensures forall u, v :: u in members && v in members && members[u].email == members[v].email ==> u == v
      ensures forall u, v :: u in projects && v in projects && projects[u].name == projects[v].name ==> u == v
      ensures forall m :: m in members && members[m].team.Some? ==> members[m].team.value in teams
      ensures forall p :: p in projects ==> projects[p].teams <= teams.Keys
      ensures forall t :: t in teams ==> t < nextTeamId && WellFormedTeam(teams[t])
      ensures forall m :: m in members ==> m < nextMemberId && WellFormedMember(members[m])
      ensures forall p :: p in projects ==> p < nextProjectId
    {
    }

    constructor ()
      ensures Valid()
      ensures teams == map[] && members == map[] && projects == map[]
    {
      teams, members, projects := map[], map[], map[];
      nextTeamId, nextMemberId, nextProjectId := 0, 0, 0;
    }

    /**
     * TeamService.convertToResponseDTO on the managed entity `t` of team
     * `id`: its columns as the entity holds them, and the sizes of its two
     * lazily loaded collections as the tables give them.
     */
    function ViewOf(id: TeamId, t: Team): (v: TeamView)
      reads this
      ensures v.id == id && v.name == t.name && v.description == t.description
      ensures v.createdAt == t.createdAt && v.updatedAt == t.updatedAt
      ensures v.memberCount == |set m | m in members && members[m].team == Some(id)|
      ensures v.projectCount == |set p | p in projects && id in projects[p].teams|
    {
      assert MembersOf(members, id) == set m | m in members && members[m].team == Some(id);
      assert ProjectsOf(projects, id) == set p | p in projects && id in projects[p].teams;
      TeamView(id, t.name, t.description, t.createdAt, t.updatedAt,
               |MembersOf(members, id)|, |ProjectsOf(projects, id)|)
    }

    // ---------------------------------------------------------------- TeamService

    method CreateTeam(name: string, description: Option<string>, now: Time) returns (r: Result<TeamView>)
      requires Valid()
      modifies this`teams, this`nextTeamId
      ensures Valid()
      ensures TeamNameTaken(old(teams), name) ==> r == Err(Duplicate(TeamKind))
      ensures !TeamNameTaken(old(teams), name) && !TeamColumnsOk(name, description) ==> r == Err(ConstraintViolation)
      ensures r.Ok? <==> !TeamNameTaken(old(teams), name) && TeamColumnsOk(name, description)
      ensures r.Err? ==> unchanged(this)
      ensures r.Ok? ==>
        && r.value.id !in old(teams)
        && teams == old(teams)[r.value.id := Team(name, description, now, now)]
        && r.value.name == name && r.value.description == description
        && r.value.createdAt == now && r.value.updatedAt == now
        && r.value.memberCount == 0 && r.value.projectCount == 0
    {
      if TeamNameTaken(teams, name) {
        return Err(Duplicate(TeamKind));
      }
      if !TeamColumnsOk(name, description) {
        return Err(ConstraintViolation);
      }
      var id := nextTeamId;
      WriteTeamOk(teams, nextTeamId, nextTeamId + 1, id, Team(name, description, now, now));
      MoreTeamsOk(members, nextMemberId, projects, nextProjectId, teams.Keys, teams.Keys + {id});
      teams := teams[id := Team(name, description, now, now)];
      nextTeamId := nextTeamId + 1;
      // no member or project can refer to a key that was never handed out
      assert MembersOf(members, id) == {};
      assert ProjectsOf(projects, id) == {};
      r := Ok(ViewOf(id, teams[id]));
    }

    method GetTeamById(id: TeamId) returns (r: Result<TeamView>)
      ensures id !in teams ==> r == Err(NotFound(TeamKind))
      ensures id in teams ==>
        && r.Ok? && r.value.id == id
        && r.value.name == teams[id].name && r.value.description == teams[id].description
        && r.value.createdAt == teams[id].createdAt && r.value.updatedAt == teams[id].updatedAt
        && r.value.memberCount == |set m | m in members && members[m].team == Some(id)|
        && r.value.projectCount == |set p | p in projects && id in projects[p].teams|
    {
      if id !in teams {
        return Err(NotFound(TeamKind));
      }
      r := Ok(ViewOf(id, teams[id]));
    }

    method UpdateTeam(id: TeamId, name: string, description: Option<string>, now: Time) returns (r: Result<TeamView>)
      requires Valid()
      modifies this`teams
      ensures Valid()
      ensures id !in old(teams) ==> r == Err(NotFound(TeamKind))
      ensures id in old(teams) && name != old(teams)[id].name && TeamNameTaken(old(teams), name) ==>
                r == Err(Duplicate(TeamKind))
      ensures id in old(teams) && name == old(teams)[id].name ==> r != Err(Duplicate(TeamKind))
      ensures (id in old(teams) && !(name != old(teams)[id].name && TeamNameTaken(old(teams), name))
               && !TeamColumnsOk(name, description)) ==> r == Err(ConstraintViolation)
      ensures r.Ok? <==>
                && id in old(teams)
                && !(exists u :: u in old(teams) && u != id && old(teams)[u].name == name)
                && TeamColumnsOk(name, description)
      ensures r.Err? ==> unchanged(this)
      ensures r.Ok? ==>
        && teams == old(teams)[id := UpdatedTeam(old(teams)[id], name, description, now)]
        && r.value.id == id && r.value.name == name && r.value.description == description
        // the response is built before the flush that runs onUpdate
        && r.value.createdAt == old(teams)[id].createdAt && r.value.updatedAt == old(teams)[id].updatedAt
        && r.value.memberCount == |MembersOf(members, id)|
        && r.value.projectCount == |ProjectsOf(projects, id)|
    {
      if id !in teams {
        return Err(NotFound(TeamKind));
      }
      var team := teams[id];
      if team.name != name {
        if TeamNameTaken(teams, name) {
          return Err(Duplicate(TeamKind));
        }
      }
      var updated := UpdatedTeam(team, name, description, now);
      if updated != team && !TeamColumnsOk(name, description) {
        return Err(ConstraintViolation);
      }
      WriteTeamOk(teams, nextTeamId, nextTeamId, id, updated);
      teams := teams[id := updated];
      r := Ok(ViewOf(id, team.(name := name, description := description)));
    }

    method DeleteTeam(id: TeamId) returns (r: Result<()>)
      requires Valid()
      // what happens to project_team rows naming the team is not modelled
      requires forall p :: p in projects ==> id !in projects[p].teams
      modifies this`teams, this`members
      ensures Valid()
      ensures id !in old(teams) ==> r == Err(NotFound(TeamKind)) && unchanged(this)
      ensures id in old(teams) ==>
        && r == Ok(())
        && teams == old(teams) - {id}
        && members == Cascade(old(members), id)
        && |members| == |old(members)| - |MembersOf(old(members), id)|
    {
      if id !in teams {
        return Err(NotFound(TeamKind));
      }
      CascadeCount(members, id);
      DeleteTeamOk(teams, nextTeamId, members, nextMemberId, projects, nextProjectId, id);
      members := Cascade(members, id);
      teams := teams - {id};
      r := Ok(());
    }

    // ---------------------------------------------------------------- TeamMemberService

    method CreateMember(name: string, email: string, role: Option<string>, teamId: Option<TeamId>, now: Time)
      returns (r: Result<MemberId>)
      requires Valid()
      modifies this`members, this`nextMemberId
      ensures Valid()
      ensures EmailTaken(old(members), email) ==> r == Err(Duplicate(MemberKind))
      ensures !EmailTaken(old(members), email) && teamId.Some? && teamId.value !in teams ==>
                r == Err(NotFound(TeamKind))
      ensures (!EmailTaken(old(members), email) && (teamId.Some? ==> teamId.value in teams)
               && !MemberColumnsOk(name, email, role)) ==> r == Err(ConstraintViolation)
      ensures r.Ok? <==>
                && !EmailTaken(old(members), email)
                && (teamId.Some? ==> teamId.value in teams)
                && MemberColumnsOk(name, email, role)
      ensures r.Err? ==> unchanged(this)
      ensures r.Ok? ==>
        && r.value !in old(members)
        && members == old(members)[r.value := Member(name, email, role, teamId, now, now)]
      ensures r.Ok? && teamId.Some? ==>
        |MembersOf(members, teamId.value)| == |MembersOf(old(members), teamId.value)| + 1
    {
      if EmailTaken(members, email) {
        return Err(Duplicate(MemberKind));
      }
      if teamId.Some? && teamId.value !in teams {
        return Err(NotFound(TeamKind));
      }
      if !MemberColumnsOk(name, email, role) {
        return Err(ConstraintViolation);
      }
      var id := nextMemberId;
      if teamId.Some? {
        WriteMemberCount(members, id, Member(name, email, role, teamId, now, now), teamId.value);
      }
      WriteMemberOk(members, nextMemberId, nextMemberId + 1, teams.Keys, id, Member(name, email, role, teamId, now, now));
      members := members[id := Member(name, email, role, teamId, now, now)];
      nextMemberId := nextMemberId + 1;
      r := Ok(id);
    }

    method GetMemberById(id: MemberId) returns (r: Result<Member>)
      ensures id !in members ==> r == Err(NotFound(MemberKind))
      ensures id in members ==> r == Ok(members[id])
    {
      if id !in members {
        return Err(NotFound(MemberKind));
      }
      r := Ok(members[id]);
    }

    method GetMembersByTeamId(teamId: TeamId) returns (r: Result<set<MemberId>>)
      ensures teamId !in teams ==> r == Err(NotFound(TeamKind))
      ensures teamId in teams ==>
        && r.Ok?
        && (forall m :: m in r.value <==> m in members && members[m].team == Some(teamId))
    {
      if teamId !in teams {
        return Err(NotFound(TeamKind));
      }
      r := Ok(MembersOf(members, teamId));
    }

    method UpdateMember(
      id: MemberId, name: string, email: string, role: Option<string>, teamId: Option<TeamId>, now: Time
    ) returns (r: Result<Member>)
      requires Valid()
      modifies this`members
      ensures Valid()
      ensures id !in old(members) ==> r == Err(NotFound(MemberKind))
      ensures id in old(members) && email != old(members)[id].email && EmailTaken(old(members), email) ==>
                r == Err(Duplicate(MemberKind))
      ensures (id in old(members) && !(email != old(members)[id].email && EmailTaken(old(members), email))
               && teamId.Some? && teamId.value !in teams) ==> r == Err(NotFound(TeamKind))
      ensures (id in old(members) && !(email != old(members)[id].email && EmailTaken(old(members), email))
               && (teamId.Some? ==> teamId.value in teams)
               && !MemberColumnsOk(name, email, role)) ==> r == Err(ConstraintViolation)
      ensures r.Ok? <==>
                && id in old(members)
                && !(exists u :: u in old(members) && u != id && old(members)[u].email == email)
                && (teamId.Some? ==> teamId.value in teams)
                && MemberColumnsOk(name, email, role)
      ensures r.Err? ==> unchanged(this)
      ensures r.Ok? ==>
        && members == old(members)[id := UpdatedMember(old(members)[id], name, email, role, teamId, now)]
        && members[id].team == teamId
        // the response is built before the flush that runs onUpdate
        && r.value == old(members)[id].(name := name, email := email, role := role, team := teamId)
    {
      if id !in members {
        return Err(NotFound(MemberKind));
      }
      var member := members[id];
      if member.email != email {
        if EmailTaken(members, email) {
          return Err(Duplicate(MemberKind));
        }
      }
      // a null team id unassigns the member
      if teamId.Some? && teamId.value !in teams {
        return Err(NotFound(TeamKind));
      }
      var updated := UpdatedMember(member, name, email, role, teamId, now);
      if updated != member && !MemberColumnsOk(name, email, role) {
        return Err(ConstraintViolation);
      }
      WriteMemberOk(members, nextMemberId, nextMemberId, teams.Keys, id, updated);
      members := members[id := updated];
      r := Ok(member.(name := name, email := email, role := role, team := teamId));
    }

    method AssignToTeam(memberId: MemberId, teamId: TeamId, now: Time) returns (r: Result<Member>)
      requires Valid()
      modifies this`members
      ensures Valid()
      ensures memberId !in old(members) ==> r == Err(NotFound(MemberKind))
      ensures memberId in old(members) && teamId !in teams ==> r == Err(NotFound(TeamKind))
      ensures r.Ok? <==> memberId in old(members) && teamId in teams
      ensures r.Err? ==> unchanged(this)
      ensures r.Ok? ==>
        && members == old(members)[memberId := Reassigned(old(members)[memberId], Some(teamId), now)]
        // the response is built before the flush that runs onUpdate
        && r.value == old(members)[memberId].(team := Some(teamId))
      ensures r.Ok? ==>
        && members[memberId].team == Some(teamId)
        && members[memberId].createdAt == old(members)[memberId].createdAt
      // repeating the call changes nothing
      ensures r.Ok? && old(members)[memberId].team == Some(teamId) ==> members == old(members)
      ensures r.Ok? && old(members)[memberId].team != Some(teamId) ==> members[memberId].updatedAt == now
      ensures r.Ok? ==>
        |MembersOf(members, teamId)|
          == |MembersOf(old(members), teamId)| + (if old(members)[memberId].team == Some(teamId) then 0 else 1)
    {
      if memberId !in members {
        return Err(NotFound(MemberKind));
      }
      if teamId !in teams {
        return Err(NotFound(TeamKind));
      }
      var member := members[memberId];
      var updated := Reassigned(member, Some(teamId), now);
      if member.team == Some(teamId) {
        assert members[memberId := updated] == members;
      }
      WriteMemberCount(members, memberId, updated, teamId);
      WriteMemberOk(members, nextMemberId, nextMemberId, teams.Keys, memberId, updated);
      members := members[memberId := updated];
      r := Ok(member.(team := Some(teamId)));
    }

    method RemoveFromTeam(memberId: MemberId, now: Time) returns (r: Result<Member>)
      requires Valid()
      modifies this`members
      ensures Valid()
      ensures memberId !in old(members) ==> r == Err(NotFound(MemberKind))
      ensures memberId in old(members) && old(members)[memberId].team.None? ==> r == Err(InvalidOperation)
      ensures r.Ok? <==> memberId in old(members) && old(members)[memberId].team.Some?
      ensures r.Err? ==> unchanged(this)
      ensures r.Ok? ==>
        && members == old(members)[memberId := old(members)[memberId].(team := None, updatedAt := now)]
        // the response is built before the flush that runs onUpdate
        && r.value == old(members)[memberId].(team := None)
      ensures r.Ok? ==>
        var t := old(members)[memberId].team.value;
        |MembersOf(members, t)| == |MembersOf(old(members), t)| - 1
    {
      if memberId !in members {
        return Err(NotFound(MemberKind));
      }
      var member := members[memberId];
      if member.team.None? {
        return Err(InvalidOperation);
      }
      var updated := Reassigned(member, None, now);
      WriteMemberCount(members, memberId, updated, member.team.value);
      WriteMemberOk(members, nextMemberId, nextMemberId, teams.Keys, memberId, updated);
      members := members[memberId := updated];
      r := Ok(member.(team := None));
    }

    method DeleteMember(id: MemberId) returns (r: Result<()>)
      requires Valid()
      modifies this`members
      ensures Valid()
      ensures id !in old(members) ==> r == Err(NotFound(MemberKind)) && unchanged(this)
      ensures id in old(members) ==> r == Ok(()) && members == old(members) - {id}
      ensures id in old(members) && old(members)[id].team.Some? ==>
        var t := old(members)[id].team.value;
        |MembersOf(members, t)| == |MembersOf(old(members), t)| - 1
    {
      if id !in members {
        return Err(NotFound(MemberKind));
      }
      if members[id].team.Some? {
        DeleteMemberCount(members, id, members[id].team.value);
      }
      DeleteMemberOk(members, nextMemberId, teams.Keys, id);
      members := members - {id};
      r := Ok(());
    }

    // ---------------------------------------------------------------- Team helpers

    /** Team.addTeamMember: the member's team column becomes this team, so the team's member set gains it. */
    method AddTeamMember(teamId: TeamId, memberId: MemberId, now: Time)
      requires Valid() && teamId in teams && memberId in members
      modifies this`members
      ensures Valid()
      ensures members == old(members)[memberId := Reassigned(old(members)[memberId], Some(teamId), now)]
      ensures memberId in MembersOf(members, teamId) && members[memberId].team == Some(teamId)
      ensures MembersOf(members, teamId) == MembersOf(old(members), teamId) + {memberId}
      ensures forall u :: u != teamId ==> MembersOf(members, u) == MembersOf(old(members), u) - {memberId}
    {
      var member := members[memberId];
      var updated := Reassigned(member, Some(teamId), now);
      forall u ensures MembersOf(members[memberId := updated], u)
                    == (MembersOf(members, u) - {memberId}) + (if u == teamId then {memberId} else {}) {
        MembersAfterWrite(members, memberId, updated, u);
      }
      WriteMemberOk(members, nextMemberId, nextMemberId, teams.Keys, memberId, updated);
      members := members[memberId := updated];
    }

    /**
     * Team.removeTeamMember: the member's team column is cleared. When the
     * member belonged to this team it is also taken out of teamMembers,
     * whose orphan removal deletes its row at the flush; a member of another
     * team, or of none, only loses its team.
     */
    method RemoveTeamMember(teamId: TeamId, memberId: MemberId, now: Time)
      requires Valid() && teamId in teams && memberId in members
      modifies this`members
      ensures Valid()
      ensures old(members)[memberId].team == Some(teamId) ==> members == old(members) - {memberId}
      ensures old(members)[memberId].team != Some(teamId) ==>
        members == old(members)[memberId := Reassigned(old(members)[memberId], None, now)]
      ensures memberId !in MembersOf(members, teamId)
      ensures forall u :: MembersOf(members, u) == MembersOf(old(members), u) - {memberId}
    {
      var member := members[memberId];
      if member.team == Some(teamId) {
        forall u ensures MembersOf(members - {memberId}, u) == MembersOf(members, u) - {memberId} {
          assert MembersOf(members - {memberId}, u) == MembersOf(members, u) - {memberId};
        }
        DeleteMemberOk(members, nextMemberId, teams.Keys, memberId);
        members := members - {memberId};
      } else {
        var updated := Reassigned(member, None, now);
        forall u ensures MembersOf(members[memberId := updated], u) == MembersOf(members, u) - {memberId} {
          MembersAfterWrite(members, memberId, updated, u);
        }
        WriteMemberOk(members, nextMemberId, nextMemberId, teams.Keys, memberId, updated);
        members := members[memberId := updated];
      }
    }

    // ---------------------------------------------------------------- ProjectService

    /** ProjectService.validateAndGetTeams: every id must name a team, in whatever order the set yields them. */
    method ValidateAndGetTeams(ids: set<TeamId>) returns (r: Result<set<TeamId>>)
      ensures r.Ok? <==> ids <= teams.Keys
      ensures r.Ok? ==> r.value == ids
      ensures r.Err? ==> r.error == NotFound(TeamKind)
    {
      var found: set<TeamId> := {};
      var visit := ids;
      while visit != {}
        invariant visit <= ids
        invariant found == ids - visit
        invariant found <= teams.Keys
        decreases visit
      {
        var t :| t in visit;
        if t !in teams {
          return Err(NotFound(TeamKind));
        }
        found := found + {t};
        visit := visit - {t};
      }
      r := Ok(found);
    }

    method CreateProject(name: string, description: Option<string>, teamIds: Option<set<TeamId>>)
      returns (r: Result<ProjectId>)
      requires Valid()
      modifies this`projects, this`nextProjectId
      ensures Valid()
      ensures ProjectNameTaken(old(projects), name) ==> r == Err(Duplicate(ProjectKind))
      ensures !ProjectNameTaken(old(projects), name) && teamIds.Some? && !(teamIds.value <= teams.Keys) ==>
                r == Err(NotFound(TeamKind))
      ensures r.Ok? <==> !ProjectNameTaken(old(projects), name) && (teamIds.Some? ==> teamIds.value <= teams.Keys)
      ensures r.Err? ==> unchanged(this)
      ensures r.Ok? ==>
        && r.value !in old(projects)
        && projects == old(projects)[r.value := Project(name, description,
                                                         if teamIds.Some? then teamIds.value else {})]
    {
      if ProjectNameTaken(projects, name) {
        return Err(Duplicate(ProjectKind));
      }
      var project := Project(name, description, {});
      if teamIds.Some? && teamIds.value != {} {
        var found := ValidateAndGetTeams(teamIds.value);
        if found.Err? {
          return Err(found.error);
        }
        project := AddTeams(project, found.value);
        assert {} + found.value == teamIds.value;
      }
      var id := nextProjectId;
      WriteProjectOk(projects, nextProjectId, nextProjectId + 1, teams.Keys, id, project);
      projects := projects[id := project];
      nextProjectId := nextProjectId + 1;
      r := Ok(id);
    }

    method GetProjectById(id: ProjectId) returns (r: Result<Project>)
      ensures id !in projects ==> r == Err(NotFound(ProjectKind))
      ensures id in projects ==> r == Ok(projects[id])
    {
      if id !in projects {
        return Err(NotFound(ProjectKind));
      }
      r := Ok(projects[id]);
    }

    method GetProjectsByTeamId(teamId: TeamId) returns (r: Result<set<ProjectId>>)
      ensures teamId !in teams ==> r == Err(NotFound(TeamKind))
      ensures teamId in teams ==>
        && r.Ok?
        && (forall p :: p in r.value <==> p in projects && teamId in projects[p].teams)
    {
      if teamId !in teams {
        return Err(NotFound(TeamKind));
      }
      r := Ok(ProjectsOf(projects, teamId));
    }

    method UpdateProject(id: ProjectId, name: string, description: Option<string>, teamIds: Option<set<TeamId>>)
      returns (r: Result<Project>)
      requires Valid()
      modifies this`projects
      ensures Valid()
      ensures id !in old(projects) ==> r == Err(NotFound(ProjectKind))
      ensures id in old(projects) && name != old(projects)[id].name && ProjectNameTaken(old(projects), name) ==>
                r == Err(Duplicate(ProjectKind))
      ensures (id in old(projects) && !(name != old(projects)[id].name && ProjectNameTaken(old(projects), name))
               && teamIds.Some? && !(teamIds.value <= teams.Keys)) ==> r == Err(NotFound(TeamKind))
      ensures r.Ok? <==>
                && id in old(projects)
                && !(exists u :: u in old(projects) && u != id && old(projects)[u].name == name)
                && (teamIds.Some? ==> teamIds.value <= teams.Keys)
      ensures r.Err? ==> unchanged(this)
      ensures r.Ok? ==>
        && projects == old(projects)[id := Project(name, description,
                                                    if teamIds.Some? then teamIds.value else old(projects)[id].teams)]
        && r.value == projects[id]
    {
      if id !in projects {
        return Err(NotFound(ProjectKind));
      }
      var project := projects[id];
      if project.name != name {
        if ProjectNameTaken(projects, name) {
          return Err(Duplicate(ProjectKind));
        }
      }
      project := project.(name := name, description := description);
      if teamIds.Some? {
        project := ClearTeams(project);
        if teamIds.value != {} {
          var found := ValidateAndGetTeams(teamIds.value);
          if found.Err? {
            // the cleared copy is dropped with the rolled-back transaction
            return Err(found.error);
          }
          project := AddTeams(project, found.value);
          assert {} + found.value == teamIds.value;
        }
      }
      WriteProjectOk(projects, nextProjectId, nextProjectId, teams.Keys, id, project);
      projects := projects[id := project];
      r := Ok(project);
    }

    method AssignTeam(projectId: ProjectId, teamId: TeamId) returns (r: Result<Project>)
      requires Valid()
      modifies this`projects
      ensures Valid()
      ensures projectId !in old(projects) ==> r == Err(NotFound(ProjectKind))
      ensures projectId in old(projects) && teamId !in teams ==> r == Err(NotFound(TeamKind))
      ensures r.Ok? <==> projectId in old(projects) && teamId in teams
      ensures r.Err? ==> unchanged(this)
      ensures r.Ok? ==>
        && projects == old(projects)[projectId := old(projects)[projectId].(teams := old(projects)[projectId].teams + {teamId})]
        && r.value == projects[projectId]
        && ProjectsOf(projects, teamId) == ProjectsOf(old(projects), teamId) + {projectId}
      // set semantics: assigning a team the project already has changes nothing
      ensures r.Ok? && teamId in old(projects)[projectId].teams ==> projects == old(projects)
      ensures r.Ok? ==>
        |ProjectsOf(projects, teamId)|
          == |ProjectsOf(old(projects), teamId)| + (if teamId in old(projects)[projectId].teams then 0 else 1)
    {
      if projectId !in projects {
        return Err(NotFound(ProjectKind));
      }
      if teamId !in teams {
        return Err(NotFound(TeamKind));
      }
      var project := projects[projectId];
      var updated := project.(teams := project.teams + {teamId});
      if teamId in project.teams {
        assert project.teams + {teamId} == project.teams;
      }
      WriteProjectCount(projects, projectId, updated, teamId);
      WriteProjectOk(projects, nextProjectId, nextProjectId, teams.Keys, projectId, updated);
      projects := projects[projectId := updated];
      r := Ok(updated);
    }

    method RemoveTeam(projectId: ProjectId, teamId: TeamId) returns (r: Result<Project>)
      requires Valid()
      modifies this`projects
      ensures Valid()
      ensures projectId !in old(projects) ==> r == Err(NotFound(ProjectKind))
      ensures projectId in old(projects) && teamId !in teams ==> r == Err(NotFound(TeamKind))
      ensures r.Ok? <==> projectId in old(projects) && teamId in teams
      ensures r.Err? ==> unchanged(this)
      ensures r.Ok? ==>
        && projects == old(projects)[projectId := old(projects)[projectId].(teams := old(projects)[projectId].teams - {teamId})]
        && r.value == projects[projectId]
        && ProjectsOf(projects, teamId) == ProjectsOf(old(projects), teamId) - {projectId}
      // removing a team the project does not have is not an error and changes nothing
      ensures r.Ok? && teamId !in old(projects)[projectId].teams ==> projects == old(projects)
    {
      if projectId !in projects {
        return Err(NotFound(ProjectKind));
      }
      if teamId !in teams {
        return Err(NotFound(TeamKind));
      }
      var project := projects[projectId];
      var updated := project.(teams := project.teams - {teamId});
      if teamId !in project.teams {
        assert project.teams - {teamId} == project.teams;
      }
      WriteProjectOk(projects, nextProjectId, nextProjectId, teams.Keys, projectId, updated);
      projects := projects[projectId := updated];
      r := Ok(updated);
    }

    method DeleteProject(id: ProjectId) returns (r: Result<()>)
      requires Valid()
      modifies this`projects
      ensures Valid()
      ensures id !in old(projects) ==> r == Err(NotFound(ProjectKind)) && unchanged(this)
      ensures id in old(projects) ==> r == Ok(()) && projects == old(projects) - {id}
      // only the association rows go: each of the project's teams loses it from its project set
      ensures forall t :: ProjectsOf(projects, t) == ProjectsOf(old(projects), t) - {id}
      ensures id in old(projects) ==> forall t :: t in old(projects)[id].teams ==>
        |ProjectsOf(projects, t)| == |ProjectsOf(old(projects), t)| - 1
    {
      if id !in projects {
        return Err(NotFound(ProjectKind));
      }
      forall t | t in projects[id].teams
        ensures |ProjectsOf(projects - {id}, t)| == |ProjectsOf(projects, t)| - 1
      {
        DeleteProjectCount(projects, id, t);
      }
      DeleteProjectOk(projects, nextProjectId, teams.Keys, id);
      projects := projects - {id};
      r := Ok(());
    }
  }
}
