/**
 * GET and POST /api/schedules: list every schedule, and add an empty
 * schedule for one team on one date unless that team already has one.
 */
module SchedulesRoute {
  import opened Model

  /** The POST body; a field absent from it is `None`. */
  datatype Request = Request(teamId: Option<string>, date: Option<string>)

  const FetchFailed: string := "Failed to fetch schedules"
  const MissingFields: string := "Missing required fields"
  /** "This date already exists." */
  const DateTaken: string := "วันที่นี้มีอยู่แล้ว"
  const AddFailed: string := "Failed to add schedule"

  /** `findOne({ teamId, date })`. */
  function FindSchedule(schedules: seq<Schedule>, teamId: string, date: string): (r: Option<Schedule>)
    ensures r.None? <==> forall s :: s in schedules ==> !(s.teamId == teamId && s.date == date)
    ensures r.Some? ==> r.value in schedules && r.value.teamId == teamId && r.value.date == date
    decreases |schedules|
  {
    if schedules == [] then None
    else if schedules[0].teamId == teamId && schedules[0].date == date then Some(schedules[0])
    else FindSchedule(schedules[1..], teamId, date)
  }

  /** At most one schedule per (team, date) pair. */
  predicate OnePerTeamAndDate(schedules: seq<Schedule>) {
    forall i, j :: 0 <= i < j < |schedules| ==>
      schedules[i].teamId != schedules[j].teamId || schedules[i].date != schedules[j].date
  }

  /** Adding a schedule whose (team, date) pair is not yet taken keeps the
      pairs unique. */
  lemma AddKeepsOnePerTeamAndDate(schedules: seq<Schedule>, s: Schedule)
    requires OnePerTeamAndDate(schedules)
    requires FindSchedule(schedules, s.teamId, s.date).None?
    ensures OnePerTeamAndDate(schedules + [s])
  {
    var all := schedules + [s];
    forall i, j | 0 <= i < j < |all|
      ensures all[i].teamId != all[j].teamId || all[i].date != all[j].date
    {
      if j == |schedules| {
        assert all[i] in schedules;
      }
    }
  }

  /** GET: every schedule, in collection order; nothing is written. */
  method Get(db: Database, up: bool) returns (r: Response<seq<Schedule>>)
    ensures up ==> r == Ok(db.schedules)
    ensures !up ==> r == ServerError(FetchFailed)
  {
    if !up {
      return ServerError(FetchFailed);
    }
    r := Ok(db.schedules);
  }

  /** POST: `freshId` stands for `Date.now().toString()` and `up` for whether
      the database calls succeed. The answer mirrors the inserted record. */
  method Post(db: Database, req: Request, freshId: string, up: bool) returns (r: Response<Schedule>)
    modifies db
    ensures db.members == old(db.members) && db.teams == old(db.teams)
    ensures !Truthy(req.teamId) || !Truthy(req.date) ==> r == BadRequest(MissingFields)
    ensures Truthy(req.teamId) && Truthy(req.date) && !up ==> r == ServerError(AddFailed)
    ensures Truthy(req.teamId) && Truthy(req.date) && up ==>
      r == if FindSchedule(old(db.schedules), req.teamId.value, req.date.value).Some?
           then BadRequest(DateTaken)
           else Ok(Schedule(freshId, req.teamId.value, req.date.value, []))
    ensures r.Ok? ==> db.schedules == old(db.schedules) + [r.value]
    ensures !r.Ok? ==> db.schedules == old(db.schedules)
    ensures OnePerTeamAndDate(old(db.schedules)) ==> OnePerTeamAndDate(db.schedules)
  {
    if !Truthy(req.teamId) || !Truthy(req.date) {
      return BadRequest(MissingFields);
    }
    if !up {
      return ServerError(AddFailed);
    }
    var teamId, date := req.teamId.value, req.date.value;
    var existing := FindSchedule(db.schedules, teamId, date);
    if existing.Some? {
      return BadRequest(DateTaken);
    }
    var schedule := Schedule(freshId, teamId, date, []);
    if OnePerTeamAndDate(db.schedules) {
      AddKeepsOnePerTeamAndDate(db.schedules, schedule);
    }
    db.schedules := db.schedules + [schedule];
    r := Ok(schedule);
  }
}
