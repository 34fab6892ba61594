/**
 * The records of the scheduling board (members, teams, schedules) and the
 * MongoDB database that holds them, reduced to one in-memory sequence per
 * collection.
 */
module Model {
  import opened Seqs
  import opened Text

  datatype Option<+T> = None | Some(value: T)

  /** A JSON body field that is present and not the empty string: what the
      routes' `!field` tests reject the absence of. */
  predicate Truthy(field: Option<string>) {
    field.Some? && field.value != ""
  }

  /** `!name || !name.trim()`: the field is absent, empty or only
      whitespace. */
  predicate Blank(field: Option<string>) {
    field.None? || AllSpace(field.value)
  }

  /** A member; `createdAt` is the insertion time in milliseconds. */
  datatype Member = Member(name: string, createdAt: int)

  /** A team and its ordered column headings. */
  datatype Team = Team(id: string, name: string, positions: seq<string>)

  /** One `[position, member name]` entry of a schedule's assignments. */
  datatype Assignment = Assignment(position: string, member: string)

  /** One team's roster for one calendar day; `assignments` lists the
      entries of the record in `Object.entries` order. */
  datatype Schedule = Schedule(id: string, teamId: string, date: string, assignments: seq<Assignment>)

  /** What a route handler answers: the body on status 200, a 400 or 500
      error body, or no body of its own because the handler itself threw. */
  datatype Response<+T> = Ok(value: T) | BadRequest(error: string) | ServerError(error: string) | Unhandled

  /** `assignments[position]`: the member under the first entry for that key. */
  function Get(assignments: seq<Assignment>, position: string): (r: Option<string>)
    ensures r.None? <==> forall k :: 0 <= k < |assignments| ==> assignments[k].position != position
    ensures r.Some? ==> Assignment(position, r.value) in assignments
    decreases |assignments|
  {
    if assignments == [] then None
    else if assignments[0].position == position then Some(assignments[0].member)
    else Get(assignments[1..], position)
  }

  /** `{ teamId }` as a query: the schedules of one team. */
  function OfTeam(teamId: string): Schedule -> bool {
    (s: Schedule) => s.teamId == teamId
  }

  /** `{ teamId: { $ne: teamId } }`: the schedules of every other team. */
  function NotOfTeam(teamId: string): Schedule -> bool {
    (s: Schedule) => s.teamId != teamId
  }

  /** The number of schedules that belong to `teamId`. */
  function CountOfTeam(schedules: seq<Schedule>, teamId: string): nat {
    |Filter(schedules, OfTeam(teamId))|
  }

  /** The team with that id, the first one if several share it: `findOne({ id })`
      on the teams collection and `teams.find((t) => t.id === id)` on the page. */
  function FindTeam(teams: seq<Team>, id: string): (r: Option<Team>)
    ensures r.None? <==> forall t :: t in teams ==> t.id != id
    ensures r.Some? ==> r.value in teams && r.value.id == id
    ensures r.Some? ==> exists i :: 0 <= i < |teams| && teams[i] == r.value && forall j :: 0 <= j < i ==> teams[j].id != id
    decreases |teams|
  {
    if teams == [] then None
    else if teams[0].id == id then Some(teams[0])
    else
      var r := FindTeam(teams[1..], id);
      assert r.Some? ==> exists i :: 1 <= i < |teams| && teams[i] == r.value && forall j :: 0 <= j < i ==> teams[j].id != id by {
        if r.Some? {
          var i :| 0 <= i < |teams[1..]| && teams[1..][i] == r.value && forall j :: 0 <= j < i ==> teams[1..][j].id != id;
          assert teams[i + 1] == r.value;
          forall j | 0 <= j < i + 1 ensures teams[j].id != id {
            if j > 0 { assert teams[j] == teams[1..][j - 1]; }
          }
        }
      }
      r
  }

  /** The database: one sequence per collection, in natural (insertion)
      order. Route handlers read and replace these fields. */
  class Database {
    var members: seq<Member>
    var teams: seq<Team>
    var schedules: seq<Schedule>

    constructor (members: seq<Member>, teams: seq<Team>, schedules: seq<Schedule>)
      ensures this.members == members && this.teams == teams && this.schedules == schedules
    {
      this.members := members;
      this.teams := teams;
      this.schedules := schedules;
    }
  }
}
