/**
 * GET and POST /api/teams: list the teams, and add a team with a trimmed,
 * non-blank name and no positions.
 */
module TeamsRoute {
  import opened Model
  import opened Text

  const FetchFailed: string := "Failed to fetch teams"
  /** "The team name cannot be empty." */
  const NameRequired: string := "ชื่อทีมไม่สามารถเว้นว่างได้"
  const AddFailed: string := "Failed to add team"

  /** GET: every team, in collection order; nothing is written. */
  method Get(db: Database, up: bool) returns (r: Response<seq<Team>>)
    ensures up ==> r == Ok(db.teams)
    ensures !up ==> r == ServerError(FetchFailed)
  {
    if !up {
      return ServerError(FetchFailed);
    }
    r := Ok(db.teams);
  }

  /** POST: `freshId` stands for `Date.now().toString()` and `up` for
      whether the database calls succeed. Team names are not required to
      be unique: success depends on the name and the store alone. */
  method Post(db: Database, name: Option<string>, freshId: string, up: bool) returns (r: Response<Team>)
    modifies db
    ensures db.members == old(db.members) && db.schedules == old(db.schedules)
    ensures Blank(name) ==> r == BadRequest(NameRequired)
    ensures !Blank(name) && !up ==> r == ServerError(AddFailed)
    ensures r.Ok? <==> !Blank(name) && up
    ensures r.Ok? ==> r.value == Team(freshId, Trim(name.value), [])
    ensures r.Ok? ==> db.teams == old(db.teams) + [r.value]
    ensures !r.Ok? ==> db.teams == old(db.teams)
    ensures r.Ok? ==> r.value.name != [] && r.value.name == Trim(r.value.name)
  {
    if Blank(name) {
      return BadRequest(NameRequired);
    }
    if !up {
      return ServerError(AddFailed);
    }
    var team := Team(freshId, Trim(name.value), []);
    TrimIdempotent(name.value);
    db.teams := db.teams + [team];
    r := Ok(team);
  }
}
