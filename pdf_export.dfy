/**
 * The table and file name of the PDF export of one team's board: a header
 * row of the date label and the team's positions, one row per schedule,
 * and a file name built from the team name and the export date. Date
 * formatting (`format` from date-fns) is a parameter.
 */
module PdfExport {
  import opened Model
  import opened Text
  import opened Seqs

  /** "Date": the heading of the first column. */
  const DateLabel: string := "วันที่"

  /** The header row: the date label, then the positions in order. */
  function Headers(team: Team): (r: seq<string>)
    ensures |r| == |team.positions| + 1
    ensures r[0] == DateLabel && r[1..] == team.positions
  {
    [DateLabel] + team.positions
  }

  /** `assignments[pos] || "-"`: the member, or a dash when the entry is
      absent or empty. */
  function Cell(assignments: seq<Assignment>, position: string): (r: string)
    ensures r != ""
    ensures r != "-" ==> Assignment(position, r) in assignments
    ensures Get(assignments, position).None? ==> r == "-"
    ensures Get(assignments, position).Some? && Get(assignments, position).value != "" ==>
              r == Get(assignments, position).value
  {
    match Get(assignments, position)
    case Some(name) => if name != "" then name else "-"
    case None => "-"
  }

  /** One body row: the formatted date, then one cell per position. */
  function Row(team: Team, schedule: Schedule, formatDate: string -> string): (r: seq<string>)
    ensures |r| == |team.positions| + 1
    ensures r[0] == formatDate(schedule.date)
    ensures forall k :: 0 <= k < |team.positions| ==> r[k + 1] == Cell(schedule.assignments, team.positions[k])
  {
    [formatDate(schedule.date)] + seq(|team.positions|, k requires 0 <= k < |team.positions| =>
      Cell(schedule.assignments, team.positions[k]))
  }

  /** The body: one row per schedule, in the order given. */
  function Rows(team: Team, schedules: seq<Schedule>, formatDate: string -> string): (r: seq<seq<string>>)
    ensures |r| == |schedules|
    ensures forall i :: 0 <= i < |schedules| ==> r[i] == Row(team, schedules[i], formatDate)
  {
    seq(|schedules|, i requires 0 <= i < |schedules| => Row(team, schedules[i], formatDate))
  }

  /** Every body row is as wide as the header row. */
  lemma TableIsRectangular(team: Team, schedules: seq<Schedule>, formatDate: string -> string)
    ensures forall row :: row in Rows(team, schedules, formatDate) ==> |row| == |Headers(team)|
  {
  }

  /** The entries filed under one of `positions`. */
  function KeyIn(positions: seq<string>): Assignment -> bool {
    (a: Assignment) => a.position in positions
  }

  /** Looking up a listed key ignores the entries under unlisted keys. */
  lemma {:induction false} GetIgnoresOtherKeys(assignments: seq<Assignment>, positions: seq<string>, p: string)
    requires p in positions
    ensures Get(Filter(assignments, KeyIn(positions)), p) == Get(assignments, p)
    decreases |assignments|
  {
    if assignments != [] {
      GetIgnoresOtherKeys(assignments[1..], positions, p);
    }
  }

  /** Entries under keys that are not among the team's positions never
      reach the export: dropping them leaves the row as it was. */
  lemma UnlistedKeysIgnored(team: Team, schedule: Schedule, formatDate: string -> string)
    ensures var listed := Filter(schedule.assignments, KeyIn(team.positions));
      Row(team, schedule.(assignments := listed), formatDate) == Row(team, schedule, formatDate)
  {
    var listed := Filter(schedule.assignments, KeyIn(team.positions));
    forall k | 0 <= k < |team.positions|
      ensures Cell(listed, team.positions[k]) == Cell(schedule.assignments, team.positions[k])
    {
      GetIgnoresOtherKeys(schedule.assignments, team.positions, team.positions[k]);
    }
  }

  /** The download name: `schedule-`, the team name with each whitespace run
      turned into one dash, a dash, the export date and `.pdf`. The date is
      that of the export itself, not of any schedule. */
  function FileName(teamName: string, exportDate: string): (r: string)
    ensures |r| == 14 + |DashSpaceRuns(teamName)| + |exportDate|
    ensures r[..9] == "schedule-" && r[|r| - 4..] == ".pdf"
    ensures var n := DashSpaceRuns(teamName);
      r[9..9 + |n|] == n && r[9 + |n|] == '-' && r[10 + |n|..|r| - 4] == exportDate
  {
    var n := DashSpaceRuns(teamName);
    FileNameParts(n, exportDate);
    "schedule-" + n + "-" + exportDate + ".pdf"
  }

  /** Where each part of the file name sits, for any dashed name `n`. */
  lemma FileNameParts(n: string, date: string)
    ensures var r := "schedule-" + n + "-" + date + ".pdf";
      && |r| == 14 + |n| + |date|
      && r[..9] == "schedule-" && r[|r| - 4..] == ".pdf"
      && r[9..9 + |n|] == n && r[9 + |n|] == '-' && r[10 + |n|..|r| - 4] == date
  {
    var a := "schedule-" + n;
    var b := a + "-";
    var c := b + date;
    var r := c + ".pdf";
    assert r[..|c|] == c && c[..|b|] == b && b[..|a|] == a;
    assert r[..9] == a[..9];
    assert r[9..|a|] == a[9..];
    assert r[|b|..|c|] == c[|b|..];
    assert r[|a|] == '-' && r[|c|..] == ".pdf";
  }

  /** The file name holds no whitespace as long as the formatted date holds
      none ("yyyy-MM-dd" never does). */
  lemma FileNameHasNoSpace(teamName: string, exportDate: string)
    requires NoSpace(exportDate)
    ensures NoSpace(FileName(teamName, exportDate))
  {
    var name := DashSpaceRuns(teamName);
    assert NoSpace("schedule-") && NoSpace("-") && NoSpace(".pdf");
    NoSpaceConcat("schedule-", name);
    NoSpaceConcat("schedule-" + name, "-");
    NoSpaceConcat("schedule-" + name + "-", exportDate);
    NoSpaceConcat("schedule-" + name + "-" + exportDate, ".pdf");
  }

  lemma NoSpaceConcat(a: string, b: string)
    requires NoSpace(a) && NoSpace(b)
    ensures NoSpace(a + b)
  {
    forall i | 0 <= i < |a + b|
      ensures !IsSpace((a + b)[i])
    {
      if i >= |a| {
        assert (a + b)[i] == b[i - |a|];
      }
    }
  }
}
