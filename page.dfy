/**
 * The list derivations of the board page: the active team's schedules in
 * date order, the position list after adding or deleting a position, the
 * team selected after the active one is deleted, and the text of a cell.
 * Parsing a date string into a timestamp is a parameter.
 */
module Page {
  import opened Model
  import opened Text
  import opened Seqs
  import PdfExport

  /** The sort comparator: ascending by the timestamp of the date. */
  function ByDate(time: string -> int): (Schedule, Schedule) -> bool {
    (a: Schedule, b: Schedule) => time(a.date) <= time(b.date)
  }

  lemma ByDateIsTotalPreorder(time: string -> int)
    ensures TotalPreorder(ByDate(time))
  {
  }

  /** `teamSchedules`: the schedules of the active team, earliest first. */
  function TeamSchedules(schedules: seq<Schedule>, activeTeamId: string, time: string -> int): (r: seq<Schedule>)
    ensures SortedBy(r, ByDate(time))
    ensures multiset(r) == multiset(Filter(schedules, OfTeam(activeTeamId)))
  {
    ByDateIsTotalPreorder(time);
    SortBy(Filter(schedules, OfTeam(activeTeamId)), ByDate(time))
  }

  /** The board shows exactly the active team's schedules, each as often
      as it is stored. */
  lemma TeamSchedulesAreTheTeams(schedules: seq<Schedule>, activeTeamId: string, time: string -> int)
    ensures forall s ::
              s in TeamSchedules(schedules, activeTeamId, time) <==> s in schedules && s.teamId == activeTeamId
    ensures forall s ::
              multiset(TeamSchedules(schedules, activeTeamId, time))[s] ==
              if s.teamId == activeTeamId then multiset(schedules)[s] else 0
  {
    var r := TeamSchedules(schedules, activeTeamId, time);
    FilterCounts(schedules, OfTeam(activeTeamId));
    forall s
      ensures s in r <==> s in schedules && s.teamId == activeTeamId
    {
      assert s in r <==> s in multiset(r);
      assert s in Filter(schedules, OfTeam(activeTeamId)) <==> s in multiset(Filter(schedules, OfTeam(activeTeamId)));
    }
  }

  /** `handleAddPosition`: the list the team is updated to, or `None` when
      the name is blank or no team is active and nothing is sent. */
  function AddPosition(activeTeam: Option<Team>, newPosition: string): (r: Option<seq<string>>)
    ensures r.Some? <==> activeTeam.Some? && !AllSpace(newPosition)
    ensures r.Some? ==> |r.value| == |activeTeam.value.positions| + 1
    ensures r.Some? ==> r.value[..|activeTeam.value.positions|] == activeTeam.value.positions
    ensures r.Some? ==> r.value[|r.value| - 1] == Trim(newPosition)
    ensures r.Some? ==> var added := r.value[|r.value| - 1];
      added != "" && !IsSpace(added[0]) && !IsSpace(added[|added| - 1])
  {
    if AllSpace(newPosition) || activeTeam.None? then None
    else Some(activeTeam.value.positions + [Trim(newPosition)])
  }

  /** The positions other than `position`. */
  function IsNot(position: string): string -> bool {
    (p: string) => p != position
  }

  /** `handleDeletePosition`: every entry equal to `position` removed. */
  function DeletePosition(positions: seq<string>, position: string): (r: seq<string>)
    ensures position !in r
    ensures forall p :: p in r <==> p in positions && p != position
    ensures |r| == |positions| - multiset(positions)[position]
  {
    var r := Filter(positions, IsNot(position));
    FilterCounts(positions, IsNot(position));
    FilterSplits(positions, IsNot(position), (p: string) => p == position);
    CountEqual(positions, position);
    r
  }

  /** The number of entries equal to `x` is its multiplicity. */
  lemma {:induction false} CountEqual(s: seq<string>, x: string)
    ensures |Filter(s, (p: string) => p == x)| == multiset(s)[x]
    decreases |s|
  {
    if s != [] {
      CountEqual(s[1..], x);
      assert s == [s[0]] + s[1..];
    }
  }

  /** Deleting keeps every other position, as many times as it occurred,
      and in the same relative order. */
  lemma DeletePositionKeepsOthers(positions: seq<string>, position: string)
    returns (f: seq<nat>)
    ensures forall p :: p != position ==> multiset(DeletePosition(positions, position))[p] == multiset(positions)[p]
    ensures Embedding(f, DeletePosition(positions, position), positions)
  {
    FilterCounts(positions, IsNot(position));
    f := FilterKeepsOrder(positions, IsNot(position));
  }

  /** Deleting a position just added gives the list without it, as if it
      had never been added. */
  lemma DeleteUndoesAdd(team: Team, newPosition: string)
    requires !AllSpace(newPosition)
    ensures var added := AddPosition(Some(team), newPosition);
      added.Some? &&
      DeletePosition(added.value, Trim(newPosition)) == DeletePosition(team.positions, Trim(newPosition))
  {
    var p := Trim(newPosition);
    FilterAppend(team.positions, [p], IsNot(p));
    assert Filter([p], IsNot(p)) == [];
  }

  /** `teams.find((t) => t.id !== deleteTeamId)`. */
  function FirstOtherTeam(teams: seq<Team>, id: string): (r: Option<Team>)
    ensures r.None? <==> forall t :: t in teams ==> t.id == id
    ensures r.Some? ==> r.value in teams && r.value.id != id
    ensures r.Some? ==> exists i :: 0 <= i < |teams| && teams[i] == r.value && forall j :: 0 <= j < i ==> teams[j].id == id
    decreases |teams|
  {
    if teams == [] then None
    else if teams[0].id != id then Some(teams[0])
    else
      var r := FirstOtherTeam(teams[1..], id);
      assert r.Some? ==> exists i :: 0 <= i < |teams[1..]| && teams[1..][i] == r.value && forall j :: 0 <= j < i ==> teams[1..][j].id == id;
      assert r.Some? ==> exists i :: 1 <= i < |teams| && teams[i] == r.value && forall j :: 0 <= j < i ==> teams[j].id == id by {
        if r.Some? {
          var i :| 0 <= i < |teams[1..]| && teams[1..][i] == r.value && forall j :: 0 <= j < i ==> teams[1..][j].id == id;
          assert teams[i + 1] == r.value;
          assert forall j :: 0 <= j < i + 1 ==> teams[j].id == id by {
            forall j | 0 <= j < i + 1 ensures teams[j].id == id {
              if j > 0 { assert teams[j] == teams[1..][j - 1]; }
            }
          }
        }
      }
      r
  }

  /** `handleDeleteTeam`: the active team id afterwards. Nothing happens
      without a team to delete or when the request throws; otherwise
      deleting the active team selects the first other team, or `""` when
      there is none. */
  function ActiveAfterDelete(teams: seq<Team>, activeTeamId: string, deleteTeamId: Option<string>, up: bool): (r: string)
    ensures !Truthy(deleteTeamId) || !up || activeTeamId != deleteTeamId.value ==> r == activeTeamId
    ensures Truthy(deleteTeamId) && up && activeTeamId == deleteTeamId.value ==>
      && r != deleteTeamId.value
      && ((forall t :: t in teams ==> t.id == deleteTeamId.value) ==> r == "")
      && (FirstOtherTeam(teams, deleteTeamId.value).Some? ==> r == FirstOtherTeam(teams, deleteTeamId.value).value.id)
      && (r != "" ==>
            exists i :: 0 <= i < |teams| && teams[i].id == r &&
                        forall j :: 0 <= j < i ==> teams[j].id == deleteTeamId.value)
  {
    if !Truthy(deleteTeamId) || !up || activeTeamId != deleteTeamId.value then activeTeamId
    else
      match FirstOtherTeam(teams, deleteTeamId.value)
      case Some(t) => if t.id != "" then t.id else ""
      case None => ""
  }

  /** `schedule.assignments[position] || ""`: the text an unedited cell
      shows. */
  function CellValue(assignments: seq<Assignment>, position: string): (r: string)
    ensures r != "" ==> Assignment(position, r) in assignments
    ensures Get(assignments, position).None? ==> r == ""
    ensures Get(assignments, position).Some? ==> r == Get(assignments, position).value
  {
    match Get(assignments, position)
    case Some(name) => name
    case None => ""
  }

  /** The export shows what the board shows, with a dash for an empty
      cell. */
  lemma ExportShowsCellValue(assignments: seq<Assignment>, position: string)
    ensures PdfExport.Cell(assignments, position) ==
            if CellValue(assignments, position) == "" then "-" else CellValue(assignments, position)
  {
  }
}
