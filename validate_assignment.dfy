/**
 * POST /api/validate-assignment: may this member be put on a schedule on
 * this date? The handler scans every other schedule of the same date, in
 * every team, for an assignment held by the same name (ignoring letter
 * case) and reports the first one it meets. It only reads the database,
 * and any failure answers "valid".
 */
module ValidateAssignmentRoute {
  import opened Model
  import opened Text
  import opened Seqs

  /** The JSON body; a field absent from it is `None`. `currentTeamId` is
      sent by the page but the handler never reads it. */
  datatype Request = Request(
    memberName: Option<string>,
    date: Option<string>,
    currentScheduleId: Option<string>,
    currentTeamId: Option<string>)

  /** `{ valid: true }` or `{ valid: false, error }`. */
  datatype Verdict = Valid | Invalid(error: string)

  /** The database as the handler sees it, or `Down` when reaching or
      querying it throws. */
  datatype Connection = Down | Up(teams: seq<Team>, schedules: seq<Schedule>)

  /** The team name shown when the conflicting schedule's team is missing
      or has an empty name ("other"). */
  const UnknownTeam: string := "อื่น"

  /** `{ date }` as a query. */
  function DateIs(date: string): Schedule -> bool {
    (s: Schedule) => s.date == date
  }

  /** `find({ date })`: the schedules of one day, in collection order. */
  function OnDate(schedules: seq<Schedule>, date: string): (r: seq<Schedule>)
    ensures forall s :: s in r <==> s in schedules && s.date == date
  {
    Filter(schedules, DateIs(date))
  }

  /** `{ id: { $ne: id } }`: every schedule but the one with that id. */
  function IdIsNot(id: string): Schedule -> bool {
    (s: Schedule) => s.id != id
  }

  /** The entry is held by the member whose lower-cased name is `key`. */
  predicate Holds(a: Assignment, key: string) {
    LowerStr(a.member) == key
  }

  /** The index of the first entry held by `key`, if any. */
  function FirstHeld(entries: seq<Assignment>, key: string): (r: Option<nat>)
    ensures r.Some? ==> r.value < |entries| && Holds(entries[r.value], key)
    ensures r.Some? ==> forall k :: 0 <= k < r.value ==> !Holds(entries[k], key)
    ensures r.None? <==> forall k :: 0 <= k < |entries| ==> !Holds(entries[k], key)
    decreases |entries|
  {
    if entries == [] then None
    else if Holds(entries[0], key) then Some(0)
    else
      var tail := entries[1..];
      assert forall k :: 0 <= k < |tail| ==> tail[k] == entries[k + 1];
      match FirstHeld(tail, key)
      case None => None
      case Some(k) => Some(k + 1)
  }

  /** The schedule is the one being edited, which the scan skips. */
  predicate Skipped(s: Schedule, current: Option<string>) {
    current == Some(s.id)
  }

  /** The schedule is scanned and one of its entries is held by `key`. */
  predicate ClashIn(s: Schedule, current: Option<string>, key: string) {
    && !Skipped(s, current)
    && exists k :: 0 <= k < |s.assignments| && Holds(s.assignments[k], key)
  }

  /** Where the scan stops: the schedule and the position already held. */
  datatype Clash = Clash(schedule: Schedule, position: string)

  /** The first clash in scan order: schedules in order, and within one
      schedule its entries in order. */
  function FirstClash(schedules: seq<Schedule>, current: Option<string>, key: string): (r: Option<Clash>)
    ensures r.None? <==> forall s :: s in schedules ==> !ClashIn(s, current, key)
    ensures r.Some? ==> r.value.schedule in schedules && ClashIn(r.value.schedule, current, key)
    decreases |schedules|
  {
    if schedules == [] then None
    else if Skipped(schedules[0], current) then FirstClash(schedules[1..], current, key)
    else
      match FirstHeld(schedules[0].assignments, key)
      case Some(k) =>
        assert 0 <= k < |schedules[0].assignments| && Holds(schedules[0].assignments[k], key);
        assert schedules[0] in schedules;
        Some(Clash(schedules[0], schedules[0].assignments[k].position))
      case None =>
        assert schedules == [schedules[0]] + schedules[1..];
        FirstClash(schedules[1..], current, key)
  }

  /** `team?.name || "อื่น"`: the owning team's name, or the placeholder. */
  function TeamLabel(teams: seq<Team>, teamId: string): (r: string)
    ensures r != ""
    ensures r != UnknownTeam ==> exists t :: t in teams && t.id == teamId && t.name == r
    ensures (forall t :: t in teams ==> t.id != teamId) ==> r == UnknownTeam
    ensures FindTeam(teams, teamId).Some? && FindTeam(teams, teamId).value.name != "" ==>
              r == FindTeam(teams, teamId).value.name
    ensures FindTeam(teams, teamId).Some? && FindTeam(teams, teamId).value.name == "" ==> r == UnknownTeam
  {
    match FindTeam(teams, teamId)
    case Some(t) => if t.name != "" then t.name else UnknownTeam
    case None => UnknownTeam
  }

  /** The text between the name and the team: " is already assigned in
      team "". */
  const InTeam: string := " ถูกกำหนดไว้แล้วในทีม \""
  /** The text between the team and the position: "" position "". */
  const AtPosition: string := "\" ตำแหน่ง \""

  /** "<name> is already assigned in team "<team>" position "<position>"":
      the message reads back as the name, the team and the position, each
      in its place. */
  function ConflictMessage(name: string, team: string, position: string): (r: string)
    ensures |r| == |name| + |InTeam| + |team| + |AtPosition| + |position| + 1
    ensures r[..|name|] == name
    ensures r[|name|..|name| + |InTeam|] == InTeam
    ensures r[|name| + |InTeam|..|name| + |InTeam| + |team|] == team
    ensures r[|name| + |InTeam| + |team|..|r| - |position| - 1] == AtPosition
    ensures r[|r| - |position| - 1..] == position + "\""
  {
    var a := name + InTeam;
    var b := a + team;
    var c := b + AtPosition;
    var r := c + (position + "\"");
    assert r[..|c|] == c && c[..|b|] == b && b[..|a|] == a;
    assert r[..|name|] == a[..|name|];
    assert r[|name|..|a|] == a[|name|..];
    assert r[|a|..|b|] == b[|a|..];
    assert r[|b|..|c|] == c[|b|..];
    r
  }

  /** What the handler answers once the scan has ended, at a clash or not. */
  function Answer(teams: seq<Team>, found: Option<Clash>, name: string): Verdict {
    match found
    case None => Valid
    case Some(c) => Invalid(ConflictMessage(name, TeamLabel(teams, c.schedule.teamId), c.position))
  }

  /** The handler's answer, as a function of the body and the database. */
  function Check(req: Request, conn: Connection): (r: Verdict)
    ensures !Truthy(req.memberName) || !Truthy(req.date) ==> r == Valid
    ensures req.memberName.Some? && AllSpace(req.memberName.value) ==> r == Valid
    ensures conn.Down? ==> r == Valid
  {
    if !Truthy(req.memberName) || !Truthy(req.date) then Valid
    else
      var name := Trim(req.memberName.value);
      if name == [] then Valid
      else
        match conn
        case Down => Valid
        case Up(teams, schedules) =>
          Answer(teams, FirstClash(OnDate(schedules, req.date.value), req.currentScheduleId, LowerStr(name)), name)
  }

  /** The handler itself. Every early `return { valid: true }` and the
      catch-all `{ valid: true }` are the `Valid` answers. */
  method Post(req: Request, conn: Connection) returns (r: Verdict)
    ensures r == Check(req, conn)
  {
    if !Truthy(req.memberName) || !Truthy(req.date) {
      return Valid;
    }
    var name := Trim(req.memberName.value);
    if name == [] {
      return Valid;
    }
    if conn.Down? {
      return Valid;
    }
    var onDate := OnDate(conn.schedules, req.date.value);
    r := ScanDay(conn.teams, onDate, req.currentScheduleId, name);
  }

  /** The nested scan: over the day's schedules and, inside each, over its
      entries, returning at the first entry held by the name. */
  method ScanDay(teams: seq<Team>, onDate: seq<Schedule>, current: Option<string>, name: string)
    returns (r: Verdict)
    ensures r == Answer(teams, FirstClash(onDate, current, LowerStr(name)), name)
  {
    var key := LowerStr(name);
    var i := 0;
    while i < |onDate|
      invariant 0 <= i <= |onDate|
      invariant FirstClash(onDate, current, key) == FirstClash(onDate[i..], current, key)
    {
      var schedule := onDate[i];
      assert onDate[i..][0] == schedule && onDate[i..][1..] == onDate[i + 1..];
      if !Skipped(schedule, current) {
        var held := ScanEntries(schedule.assignments, key);
        if held.Some? {
          return Invalid(ConflictMessage(name, TeamLabel(teams, schedule.teamId), schedule.assignments[held.value].position));
        }
      }
      i := i + 1;
    }
    return Valid;
  }

  /** The inner loop over one schedule's entries. */
  method ScanEntries(entries: seq<Assignment>, key: string) returns (r: Option<nat>)
    ensures r == FirstHeld(entries, key)
  {
    var k := 0;
    while k < |entries|
      invariant 0 <= k <= |entries|
      invariant forall j :: 0 <= j < k ==> !Holds(entries[j], key)
    {
      if LowerStr(entries[k].member) == key {
        assert FirstHeld(entries, key) == Some(k);
        return Some(k);
      }
      k := k + 1;
    }
    assert FirstHeld(entries, key) == None;
    return None;
  }

  /** A request that reaches the scan: a name that is not blank and a date. */
  predicate Proposes(req: Request) {
    Truthy(req.memberName) && Truthy(req.date) && !AllSpace(req.memberName.value)
  }

  /** Some other schedule of the same day, in any team, already has an entry
      whose lower-cased member name is the lower-cased trimmed name. */
  predicate TakenOnDate(req: Request, schedules: seq<Schedule>)
    requires Proposes(req)
  {
    exists s :: s in schedules && s.date == req.date.value
      && ClashIn(s, req.currentScheduleId, LowerStr(Trim(req.memberName.value)))
  }

  /** The proposal is refused exactly when the name is already taken that day
      by some schedule other than the one being edited. */
  lemma InvalidIffTaken(req: Request, teams: seq<Team>, schedules: seq<Schedule>)
    ensures Check(req, Up(teams, schedules)).Invalid? <==> Proposes(req) && TakenOnDate(req, schedules)
  {
    if Proposes(req) {
      var key := LowerStr(Trim(req.memberName.value));
      var onDate := OnDate(schedules, req.date.value);
      var found := FirstClash(onDate, req.currentScheduleId, key);
      if found.Some? {
        assert found.value.schedule in schedules;
      }
    }
  }

  /** Lexicographic scan order over (schedule, entry) positions. */
  predicate ClashAt(schedules: seq<Schedule>, current: Option<string>, key: string, i: int, k: int) {
    && 0 <= i < |schedules| && !Skipped(schedules[i], current)
    && 0 <= k < |schedules[i].assignments| && Holds(schedules[i].assignments[k], key)
  }

  lemma ClashAtShift(schedules: seq<Schedule>, current: Option<string>, key: string, i: int, k: int)
    requires 0 < i <= |schedules|
    ensures ClashAt(schedules, current, key, i, k) == ClashAt(schedules[1..], current, key, i - 1, k)
  {
    if i < |schedules| {
      assert schedules[i] == schedules[1..][i - 1];
    }
  }

  lemma {:induction false} FirstClashPosition(schedules: seq<Schedule>, current: Option<string>, key: string)
    returns (i: nat, k: nat)
    requires FirstClash(schedules, current, key).Some?
    ensures ClashAt(schedules, current, key, i, k)
    ensures FirstClash(schedules, current, key).value
         == Clash(schedules[i], schedules[i].assignments[k].position)
    ensures forall i', k' :: 0 <= i' < i ==> !ClashAt(schedules, current, key, i', k')
    ensures forall k' :: 0 <= k' < k ==> !ClashAt(schedules, current, key, i, k')
    decreases |schedules|
  {
    var s := schedules[0];
    var tail := schedules[1..];
    if Skipped(s, current) || FirstHeld(s.assignments, key).None? {
      assert FirstClash(schedules, current, key) == FirstClash(tail, current, key);
      var j, l := FirstClashPosition(tail, current, key);
      i, k := j + 1, l;
      ClashAtShift(schedules, current, key, i, k);
      assert schedules[i] == tail[j];
      forall i', k' | 0 <= i' < i
        ensures !ClashAt(schedules, current, key, i', k')
      {
        if i' > 0 {
          ClashAtShift(schedules, current, key, i', k');
        }
      }
      forall k' | 0 <= k' < k
        ensures !ClashAt(schedules, current, key, i, k')
      {
        ClashAtShift(schedules, current, key, i, k');
      }
    } else {
      i, k := 0, FirstHeld(s.assignments, key).value;
    }
  }

  /** On a conflict, the message is built from the first clash in scan order:
      it names the trimmed name, the owning team (or the placeholder) and the
      position of that entry. */
  lemma ReportsFirstClash(req: Request, teams: seq<Team>, schedules: seq<Schedule>)
    returns (i: nat, k: nat)
    requires Check(req, Up(teams, schedules)).Invalid?
    ensures Proposes(req)
    ensures var onDate := OnDate(schedules, req.date.value);
      var key := LowerStr(Trim(req.memberName.value));
      && ClashAt(onDate, req.currentScheduleId, key, i, k)
      && (forall i', k' :: 0 <= i' < i ==> !ClashAt(onDate, req.currentScheduleId, key, i', k'))
      && (forall k' :: 0 <= k' < k ==> !ClashAt(onDate, req.currentScheduleId, key, i, k'))
      && Check(req, Up(teams, schedules)).error
         == ConflictMessage(Trim(req.memberName.value), TeamLabel(teams, onDate[i].teamId),
                            onDate[i].assignments[k].position)
  {
    var onDate := OnDate(schedules, req.date.value);
    var key := LowerStr(Trim(req.memberName.value));
    i, k := FirstClashPosition(onDate, req.currentScheduleId, key);
  }

  /** The answer is valid exactly when the request does not reach the scan,
      the database fails, or the scan finds no clash for the lower-cased
      trimmed name. */
  lemma ValidIffNoClash(req: Request, conn: Connection)
    ensures Check(req, conn).Valid? <==>
      !Proposes(req) || conn.Down? ||
      FirstClash(OnDate(conn.schedules, req.date.value), req.currentScheduleId,
                 LowerStr(Trim(req.memberName.value))).None?
  {
  }

  /** Letter case of the proposed name does not change whether it is valid. */
  lemma CaseDoesNotMatter(req: Request, other: string, conn: Connection)
    requires req.memberName.Some? && EqualsIgnoringCase(req.memberName.value, other)
    ensures Check(req, conn).Valid? == Check(req.(memberName := Some(other)), conn).Valid?
  {
    var name := req.memberName.value;
    var req' := req.(memberName := Some(other));
    TrimKeepsCaseEquality(name, other);
    assert |name| == |LowerStr(name)| == |LowerStr(other)| == |other|;
    assert Proposes(req) == Proposes(req');
    ValidIffNoClash(req, conn);
    ValidIffNoClash(req', conn);
  }

  lemma {:induction false} FirstClashIgnoresCurrent(schedules: seq<Schedule>, id: string, key: string)
    ensures FirstClash(schedules, Some(id), key) == FirstClash(Filter(schedules, IdIsNot(id)), Some(id), key)
    decreases |schedules|
  {
    if schedules != [] {
      assert schedules == [schedules[0]] + schedules[1..];
      FilterAppend([schedules[0]], schedules[1..], IdIsNot(id));
      FirstClashIgnoresCurrent(schedules[1..], id, key);
    }
  }

  /** The schedule being edited never matters, whatever it holds: two
      databases that agree on every other schedule give the same answer. */
  lemma CurrentScheduleIgnored(req: Request, teams: seq<Team>, s1: seq<Schedule>, s2: seq<Schedule>)
    requires req.currentScheduleId.Some?
    requires Filter(s1, IdIsNot(req.currentScheduleId.value)) == Filter(s2, IdIsNot(req.currentScheduleId.value))
    ensures Check(req, Up(teams, s1)) == Check(req, Up(teams, s2))
  {
    if Proposes(req) {
      var id := req.currentScheduleId.value;
      var key := LowerStr(Trim(req.memberName.value));
      var date := req.date.value;
      FirstClashIgnoresCurrent(OnDate(s1, date), id, key);
      FirstClashIgnoresCurrent(OnDate(s2, date), id, key);
      FilterCommutes(s1, DateIs(date), IdIsNot(id));
      FilterCommutes(s2, DateIs(date), IdIsNot(id));
    }
  }

  lemma OnDateSkipsOtherDay(a: seq<Schedule>, x: Schedule, b: seq<Schedule>, date: string)
    requires x.date != date
    ensures OnDate(a + [x] + b, date) == OnDate(a + b, date)
  {
    FilterSkips(a, x, b, DateIs(date));
  }

  /** A schedule of another day, wherever it sits in the collection, never
      changes the answer. */
  lemma OtherDatesIgnored(req: Request, teams: seq<Team>, a: seq<Schedule>, x: Schedule, b: seq<Schedule>)
    requires req.date != Some(x.date)
    ensures Check(req, Up(teams, a + [x] + b)) == Check(req, Up(teams, a + b))
  {
    if Truthy(req.date) {
      OnDateSkipsOtherDay(a, x, b, req.date.value);
    }
  }
}
