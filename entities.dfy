/**
 * The three persisted records of the team-management backend (teams, team
 * members, projects), the column constraints the Team and TeamMember
 * entities declare, and the update hook that stamps a rewritten row.
 *
 * Identities are the IDENTITY keys the database issues; a clock reading is
 * an opaque value the caller supplies.
 */
module Entities {

  type TeamId = nat
  type MemberId = nat
  type ProjectId = nat

  /** A clock reading, as LocalDateTime.now() would return it. */
  type Time = int

  datatype Option<+T> = None | Some(value: T)

  /** The table a failure is about. */
  datatype Kind = TeamKind | MemberKind | ProjectKind

  datatype Error =
    | NotFound(kind: Kind)     // ResourceNotFoundException
    | Duplicate(kind: Kind)    // DuplicateResourceException
    | InvalidOperation         // InvalidOperationException
    | ConstraintViolation      // a column constraint rejected the row when it was written

  datatype Result<+T> = Ok(value: T) | Err(error: Error)

  /** A row of the team table. Its members and projects are not columns: they are read off the other tables. */
  datatype Team = Team(name: string, description: Option<string>, createdAt: Time, updatedAt: Time)

  /** A row of the team_member table; `team` is the nullable team_id column. */
  datatype Member = Member(
    name: string,
    email: string,
    role: Option<string>,
    team: Option<TeamId>,
    createdAt: Time,
    updatedAt: Time)

  /** A project with the teams it owns through the project_team join table. */
  datatype Project = Project(name: string, description: Option<string>, teams: set<TeamId>)

  const MaxTeamName: nat := 100
  const MaxDescription: nat := 500
  const MaxMemberName: nat := 100
  const MaxEmail: nat := 100
  const MaxRole: nat := 50

  /** String.trim without its trailing half: drops every leading character up to U+0020. */
  function TrimStart(s: string): string
  {
    if |s| > 0 && s[0] <= ' ' then TrimStart(s[1..]) else s
  }

  /** String.trim without its leading half: drops every trailing character up to U+0020. */
  function TrimEnd(s: string): string
  {
    if |s| > 0 && s[|s| - 1] <= ' ' then TrimEnd(s[..|s| - 1]) else s
  }

  /** String.trim, which the NotBlank validator applies before it tests for the empty string. */
  function Trim(s: string): string
  {
    TrimEnd(TrimStart(s))
  }

  lemma {:induction false} TrimStartOfBlank(s: string)
    ensures (forall i :: 0 <= i < |s| ==> s[i] <= ' ') ==> TrimStart(s) == []
    ensures (exists i :: 0 <= i < |s| && s[i] > ' ') ==> |TrimStart(s)| > 0 && TrimStart(s)[0] > ' '
    decreases |s|
  {
    if |s| > 0 && s[0] <= ' ' {
      TrimStartOfBlank(s[1..]);
      if exists i :: 0 <= i < |s| && s[i] > ' ' {
        var i :| 0 <= i < |s| && s[i] > ' ';
        assert s[1..][i - 1] > ' ';
      }
      if forall i :: 0 <= i < |s| ==> s[i] <= ' ' {
        assert forall i :: 0 <= i < |s[1..]| ==> s[1..][i] == s[i + 1];
      }
    }
  }

  lemma {:induction false} TrimEndKeepsHead(t: string)
    requires |t| > 0 && t[0] > ' '
    ensures |TrimEnd(t)| > 0
    decreases |t|
  {
    if t[|t| - 1] <= ' ' {
      TrimEndKeepsHead(t[..|t| - 1]);
    }
  }

  /**
   * NotBlank: a string is blank when nothing is left of it once trimmed,
   * that is when it has no character above U+0020.
   */
  function Blank(s: string): (blank: bool)
    ensures blank <==> Trim(s) == []
  {
    TrimStartOfBlank(s);
    if exists i :: 0 <= i < |s| && s[i] > ' ' then
      TrimEndKeepsHead(TrimStart(s));
      false
    else
      true
  }

  predicate FitsIn(s: Option<string>, max: nat)
  {
    s.Some? ==> |s.value| <= max
  }

  /** The constraints on the team table's columns: a non-blank name of at most 100 characters, a description of at most 500. */
  function TeamColumnsOk(name: string, description: Option<string>): (ok: bool)
    ensures ok <==> Trim(name) != [] && |name| <= MaxTeamName && FitsIn(description, MaxDescription)
    ensures ok ==> 0 < |name| <= MaxTeamName
  {
    !Blank(name) && |name| <= MaxTeamName && FitsIn(description, MaxDescription)
  }

  /** The constraints on the team_member table's columns; the email's shape is not checked here. */
  function MemberColumnsOk(name: string, email: string, role: Option<string>): (ok: bool)
    ensures ok <==>
      && Trim(name) != [] && |name| <= MaxMemberName
      && Trim(email) != [] && |email| <= MaxEmail
      && FitsIn(role, MaxRole)
    ensures ok ==> 0 < |name| <= MaxMemberName && 0 < |email| <= MaxEmail
  {
    && !Blank(name) && |name| <= MaxMemberName
    && !Blank(email) && |email| <= MaxEmail
    && FitsIn(role, MaxRole)
  }

  predicate WellFormedTeam(t: Team)
  {
    TeamColumnsOk(t.name, t.description)
  }

  predicate WellFormedMember(m: Member)
  {
    MemberColumnsOk(m.name, m.email, m.role)
  }

  /**
   * A team row after its setters ran and the transaction flushed it. The row
   * is written, and its onUpdate hook run, only when a column differs;
   * createdAt is not updatable.
   */
  function UpdatedTeam(before: Team, name: string, description: Option<string>, now: Time): (after: Team)
    ensures after.name == name && after.description == description
    ensures after.createdAt == before.createdAt
    ensures before.name == name && before.description == description ==> after == before
    ensures before.name != name || before.description != description ==> after.updatedAt == now
  {
    if before.name == name && before.description == description then before
    else before.(name := name, description := description, updatedAt := now)
  }

  /** A member row after its setters ran and the transaction flushed it; as for UpdatedTeam. */
  function UpdatedMember(
    before: Member, name: string, email: string, role: Option<string>, team: Option<TeamId>, now: Time
  ): (after: Member)
    ensures after.name == name && after.email == email && after.role == role && after.team == team
    ensures after.createdAt == before.createdAt
    ensures before == before.(name := name, email := email, role := role, team := team) ==> after == before
    ensures before != before.(name := name, email := email, role := role, team := team) ==> after.updatedAt == now
  {
    var written := before.(name := name, email := email, role := role, team := team);
    if written == before then before else written.(updatedAt := now)
  }

  /** A member row after only its team column was set and the transaction flushed it. */
  function Reassigned(before: Member, team: Option<TeamId>, now: Time): (after: Member)
    ensures after == UpdatedMember(before, before.name, before.email, before.role, team, now)
    ensures after == before.(team := team, updatedAt := if before.team == team then before.updatedAt else now)
  {
    var written := before.(team := team);
    assert written == before <==> before.team == team;
    UpdatedMember(before, before.name, before.email, before.role, team, now)
  }
}
