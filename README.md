# Team scheduling board — a Dafny model

The system is a small web application: a duty roster for several teams.
Each team has a list of positions (the columns of its board). It has one
schedule per calendar day (the rows), and each schedule maps positions to
member names. The pieces modelled here are these:

- the HTTP route handlers that create members, teams and schedules;
- the handler that clears a team's board;
- the handler that checks whether a member is already assigned elsewhere
  on the same day;
- the shaping of the PDF export table and its file name;
- the list derivations of the board page.

The MongoDB database is a `Model.Database` object with one sequence per
collection (`members`, `teams`, `schedules`), held in insertion order. The
handlers that write to it are methods that replace those sequences. A
database failure is an input to each handler: the boolean `up`, or
`Connection.Down` for the validator. A fresh id (`Date.now()`) and a
timestamp (`new Date()`) are also inputs. A handler's HTTP answer is a
`Response`: a body on 200, a 400 or 500 error body, or `Unhandled` when
the handler itself throws. A schedule's assignments record becomes a
sequence of `(position, member)` entries in `Object.entries` order.

JavaScript `trim` and `\s` are modelled with the exact set of ECMAScript
whitespace and line-terminator code points. `toLowerCase` is modelled on
ASCII letters only. Date formatting and date parsing are function
parameters.

Modules: `Text` (trim, lower case, whitespace runs, string order), `Seqs`
(filter and sort), `Model` (records and the database),
`ValidateAssignmentRoute`, `SchedulesRoute`, `ClearRoute`, `MembersRoute`,
`TeamsRoute`, `PdfExport` and `Page`.

## Model

| member | source | states |
|---|---|---|
| Model.Database.constructor | lib/types.ts:1-20 | The three collections hold exactly the given records. |
| Model.FindTeam | app/api/validate-assignment/route.ts:30 | Finds the first team, in collection order, with the given id; `None` exactly when no team has that id. |
| Model.Get | lib/pdf-export.ts:57 | `assignments[position]`: `None` exactly when no entry has that key; otherwise the member of an entry under that key. |
| Text.Trim | app/api/validate-assignment/route.ts:13 | Both ends cut: the result is no longer than the input and neither starts nor ends with whitespace. It is empty exactly when the input is all whitespace. It is the slice that `TrimStart` and `TrimEnd` leave. |
| Text.TrimStart | app/api/validate-assignment/route.ts:13 | The result is a suffix of the input that does not start with whitespace. |
| Text.TrimStartCutsSpace | app/api/validate-assignment/route.ts:13 | Everything `TrimStart` cuts is whitespace; it cuts everything exactly when the input is all whitespace. |
| Text.TrimEnd | app/api/validate-assignment/route.ts:13 | The result is a prefix of the input that does not end with whitespace. |
| Text.TrimEndCutsSpace | app/api/validate-assignment/route.ts:13 | Everything `TrimEnd` cuts is whitespace; it cuts everything exactly when the input is all whitespace. |
| Text.TrimIdempotent | app/api/teams/route.ts:30 | Trimming a trimmed name changes nothing. |
| Text.LowerStr | app/api/validate-assignment/route.ts:29 | Keeps the length and lower-cases each character in place. |
| Text.LowerTrimCommute | app/api/validate-assignment/route.ts:13-29 | Lower-casing and trimming commute. |
| Text.TrimKeepsCaseEquality | app/api/validate-assignment/route.ts:13-29 | Two names equal ignoring case stay equal ignoring case after trimming, and are blank together. |
| Text.DashSpaceRuns | lib/pdf-export.ts:115-117 | `replace(/\s+/g, "-")`: the result holds no whitespace and is empty only for empty input. Input without whitespace is returned unchanged. Together with DashSpaceRunsCollapses and DashSpaceRunsKeepsWord, this pins down the result for every input. |
| Text.DashSpaceRunsCollapses | lib/pdf-export.ts:115-117 | A whitespace run of any length becomes exactly one dash. |
| Text.DashSpaceRunsKeepsWord | lib/pdf-export.ts:115-117 | A word without whitespace is copied unchanged in front of the rest. With DashSpaceRunsCollapses this fixes the result for every input. |
| Text.LexLeqTotal | app/api/members/route.ts:8 | The name order is total. |
| Text.LexLeqTransitive | app/api/members/route.ts:8 | The name order is transitive. |
| Seqs.Filter | app/page.tsx:124 | Keeps exactly the elements that pass the test, and is never longer than its input. |
| Seqs.FilterCounts | app/page.tsx:260 | Every copy of an element that passes is kept, and no copy of one that fails. |
| Seqs.FilterKeepsOrder | app/page.tsx:260 | The elements kept appear in their original relative order. |
| Seqs.FilterSkips | app/api/validate-assignment/route.ts:21 | An element that fails the test leaves no trace wherever it stands. |
| Seqs.FilterCommutes | app/api/validate-assignment/route.ts:21-25 | Two filters give the same result in either order. |
| Seqs.FilterIdempotent | app/api/schedules/clear/route.ts:20 | Filtering twice by one test is filtering once. |
| Seqs.FilterSplits | app/api/schedules/clear/route.ts:20-24 | A test and its negation split the input into two parts whose sizes add up to its size. |
| Seqs.SortBy | app/page.tsx:125 | The result is sorted by a total preorder and is a permutation of the input. |
| ValidateAssignmentRoute.OnDate | app/api/validate-assignment/route.ts:21 | `find({ date })` holds exactly the schedules of that date. |
| ValidateAssignmentRoute.FirstHeld | app/api/validate-assignment/route.ts:28-29 | The index of the first entry whose lower-cased member is the key; `None` exactly when no entry has it. |
| ValidateAssignmentRoute.FirstClash | app/api/validate-assignment/route.ts:23-37 | `None` exactly when no schedule other than the current one holds the key. Otherwise it gives a schedule of the list that holds it. |
| ValidateAssignmentRoute.TeamLabel | app/api/validate-assignment/route.ts:30-33 | Never empty. Anything other than the placeholder "อื่น" is the name of a team with that id. When the first team with that id has a non-empty name, that name is the result; when its name is empty, the placeholder. With no such team the result is the placeholder. |
| ValidateAssignmentRoute.ConflictMessage | app/api/validate-assignment/route.ts:33 | The message is the name, the fixed text " ถูกกำหนดไว้แล้วในทีม \"", the team, the fixed text "\" ตำแหน่ง \"", then the position and a closing quote, each at its stated place. |
| ValidateAssignmentRoute.Check | app/api/validate-assignment/route.ts:5-44 | The answer is valid when the name or date is missing or empty, when the name is blank after trimming, or when the database fails (fail-open). |
| ValidateAssignmentRoute.Post | app/api/validate-assignment/route.ts:5-44 | The handler answers exactly `Check` and takes no database it could write to. |
| ValidateAssignmentRoute.ScanDay | app/api/validate-assignment/route.ts:23-39 | The outer loop with its skip and early return answers exactly the first clash of the day, or valid. |
| ValidateAssignmentRoute.ScanEntries | app/api/validate-assignment/route.ts:27-36 | The inner loop stops at exactly the first entry whose lower-cased member is the key, or finds none. |
| ValidateAssignmentRoute.ValidIffNoClash | app/api/validate-assignment/route.ts:9-39 | Valid exactly when the request does not reach the scan, the database fails, or no other schedule of the day holds the lower-cased trimmed name. |
| ValidateAssignmentRoute.InvalidIffTaken | app/api/validate-assignment/route.ts:21-39 | Invalid exactly when a request with a non-blank name and a date meets a schedule of that date, in any team, other than the current one. That schedule holds an entry whose lower-cased member equals the lower-cased trimmed name. |
| ValidateAssignmentRoute.FirstClashPosition | app/api/validate-assignment/route.ts:23-36 | The clash reported is at the first (schedule, entry) position in scan order. |
| ValidateAssignmentRoute.ReportsFirstClash | app/api/validate-assignment/route.ts:28-34 | An invalid answer's message is built from the trimmed name, the team label and the position of the first clash in scan order. |
| ValidateAssignmentRoute.CaseDoesNotMatter | app/api/validate-assignment/route.ts:29 | Changing the letter case of the proposed name does not change whether it is valid. |
| ValidateAssignmentRoute.FirstClashIgnoresCurrent | app/api/validate-assignment/route.ts:25 | Removing the current schedule from the list does not change the first clash. |
| ValidateAssignmentRoute.CurrentScheduleIgnored | app/api/validate-assignment/route.ts:25 | Two databases that differ only in the current schedule give the same answer, whatever that schedule holds. |
| ValidateAssignmentRoute.OnDateSkipsOtherDay | app/api/validate-assignment/route.ts:21 | A schedule of another date is not among the day's schedules, wherever it stands. |
| ValidateAssignmentRoute.OtherDatesIgnored | app/api/validate-assignment/route.ts:21 | Adding a schedule of another date anywhere does not change the answer. |
| SchedulesRoute.FindSchedule | app/api/schedules/route.ts:28 | Finds a schedule of that team and date; `None` exactly when there is none. |
| SchedulesRoute.AddKeepsOnePerTeamAndDate | app/api/schedules/route.ts:28-39 | Adding a schedule for an untaken (team, date) pair keeps at most one schedule per pair. |
| SchedulesRoute.Get | app/api/schedules/route.ts:5-14 | Answers all schedules in collection order, or the 500 error; nothing is written. |
| SchedulesRoute.Post | app/api/schedules/route.ts:17-52 | Missing team or date gives a 400; a taken (team, date) gives a 400; a store failure gives a 500. Each error leaves the store unchanged. On success exactly one schedule with the fresh id, the team, the date and no assignments is appended, and the answer equals it. Uniqueness of (team, date) is preserved. |
| ClearRoute.DeleteMany | app/api/schedules/clear/route.ts:18-20 | The pass keeps exactly the other teams' schedules in order. Its count is the number of the team's schedules. |
| ClearRoute.Delete | app/api/schedules/clear/route.ts:5-33 | A missing team id gives a 400 and deletes nothing. A store failure throws (`Unhandled`) and deletes nothing. Success removes the team's schedules and reports how many there were. |
| ClearRoute.KeptPlusDeleted | app/api/schedules/clear/route.ts:20-24 | The kept schedules and the deleted count add up to the collection's size. |
| ClearRoute.NoneOfTeamRemains | app/api/schedules/clear/route.ts:18-20 | After the clear no schedule of the team remains. |
| ClearRoute.OtherTeamsUntouched | app/api/schedules/clear/route.ts:20 | Every other team's schedules are exactly as before, in the same order. |
| ClearRoute.ClearIsIdempotent | app/api/schedules/clear/route.ts:18-25 | A second clear changes nothing and reports 0. |
| MembersRoute.ByNameIsTotalPreorder | app/api/members/route.ts:8 | Sorting by name is by a total preorder. |
| MembersRoute.FindByName | app/api/members/route.ts:29-31 | Finds a member whose name equals the given one ignoring case; `None` exactly when there is none. |
| MembersRoute.AddKeepsNamesDistinct | app/api/members/route.ts:28-40 | Adding a name that no member has, ignoring case, keeps the names distinct ignoring case. |
| MembersRoute.Get | app/api/members/route.ts:5-14 | Answers the members sorted by name, as a permutation of the collection, or the 500 error. |
| MembersRoute.Post | app/api/members/route.ts:17-51 | A blank name gives a 400; a case-insensitive duplicate gives a 400; a store failure gives a 500. Each error leaves the store unchanged. On success exactly one member with the trimmed, non-empty name is appended. Distinct names are preserved. |
| TeamsRoute.Get | app/api/teams/route.ts:5-14 | Answers all teams in collection order, or the 500 error; nothing is written. |
| TeamsRoute.Post | app/api/teams/route.ts:17-44 | A blank name gives a 400; a store failure gives a 500. Success depends only on those two, so names need not be unique. On success one team with the fresh id, the trimmed non-empty name and no positions is appended, and the answer equals it. |
| PdfExport.Headers | lib/pdf-export.ts:49 | The date label followed by the positions in order; one longer than the positions. |
| PdfExport.Cell | lib/pdf-export.ts:57 | Never empty. A dash when the entry is absent. A non-empty entry is shown as it is, and anything other than a dash is the member filed under that position. |
| PdfExport.Row | lib/pdf-export.ts:51-60 | One longer than the positions. The formatted date comes first, then the cell of each position in order. |
| PdfExport.Rows | lib/pdf-export.ts:51 | One row per schedule, in input order. |
| PdfExport.TableIsRectangular | lib/pdf-export.ts:49-60 | Every body row is as wide as the header row. |
| PdfExport.GetIgnoresOtherKeys | lib/pdf-export.ts:56-58 | Looking up a listed position ignores entries under unlisted keys. |
| PdfExport.UnlistedKeysIgnored | lib/pdf-export.ts:56-58 | Dropping the entries whose keys are not positions leaves every row unchanged. |
| PdfExport.FileName | lib/pdf-export.ts:115-118 | `schedule-`, then the team name with each whitespace run turned into one dash, then `-`, the export date and `.pdf`. Each part is stated at its position. |
| PdfExport.FileNameHasNoSpace | lib/pdf-export.ts:115-118 | The file name holds no whitespace when the formatted export date holds none. |
| Page.ByDateIsTotalPreorder | app/page.tsx:125 | The date comparator is a total preorder. |
| Page.TeamSchedules | app/page.tsx:123-125 | Sorted by date ascending, and a permutation of the active team's schedules. |
| Page.TeamSchedulesAreTheTeams | app/page.tsx:123-124 | Holds exactly the schedules of the active team, each as often as stored. |
| Page.AddPosition | app/page.tsx:238-241 | No update when no team is active or the name is blank. Otherwise the old positions are kept in order and the trimmed name is appended; it is non-empty and has no whitespace at either end. |
| Page.DeletePosition | app/page.tsx:260 | The position no longer occurs, every other one does, and the list shrinks by its number of occurrences. |
| Page.DeletePositionKeepsOthers | app/page.tsx:260 | Every other position keeps its multiplicity and its relative order. |
| Page.DeleteUndoesAdd | app/page.tsx:238-260 | Deleting a position just added gives what deleting it before the add gives. |
| Page.FirstOtherTeam | app/page.tsx:228 | The first team whose id differs; `None` exactly when every team has that id. |
| Page.ActiveAfterDelete | app/page.tsx:219-234 | Nothing changes without a team to delete, on a failed request, or when another team is deleted. Deleting the active team selects the id of the first team whose id differs from the deleted one, or "" when none remains. |
| Page.CellValue | app/page.tsx:736 | The member filed under the position, or "" when there is none. |
| Page.ExportShowsCellValue | app/page.tsx:736 | The exported cell is the board's cell, with a dash in place of an empty one. |

## Left out

- MongoDB itself is not modelled: connections, `_id`/`insertedId` values, and query operators beyond the equality filters used here. Each collection is a sequence in insertion order, and `find` returns it in that order.
- Request parsing and the response plumbing are not modelled: JSON bodies, `NextResponse`, status codes beyond the `Response` cases and `console.error`. A body field of another type than a string is not modelled.
- Two requests interleaving is not modelled. The validate-then-insert steps of the member and schedule routes can race; the model runs each handler atomically.
- `Date.now()` ids are taken as a fresh-id parameter. Two inserts in the same millisecond would share an id in the real system.
- A store failure is all-or-nothing in the model. `deleteMany` (app/api/schedules/clear/route.ts:18-20) can fail after deleting some of the team's schedules, but ClearRoute.Delete's failure path leaves the collection unchanged. A failure after a successful `insertOne` is not modelled either.
- Text.Lower: maps only the ASCII letters. `toLowerCase` maps all Unicode letters, so names differing in non-ASCII case are treated as different.
- MembersRoute.FindByName: compares the trimmed name literally, ignoring case. The handler builds an unescaped regular expression from the name (app/api/members/route.ts:30). So a name holding `.`, `*`, `+` and the like can match other names. It can also fail to match an identical stored name: "a+b" builds `/^a+b$/i`, which matches "ab" but not "a+b", so the handler inserts a case-insensitive duplicate and answers 200. "a?b", "[x]" and "$5" behave the same way. Any name the RegExp constructor rejects throws, which answers 500. Examples are an unbalanced `(` or `[`, "C++" and "*". The name distinctness proved by MembersRoute.Post and MembersRoute.AddKeepsNamesDistinct therefore holds for the intended literal comparison only, not for the handler as written. The regex `i` flag's Unicode case folding is not modelled either.
- ClearRoute.Delete: the error path's `catch` refers to a name that is not defined (app/api/schedules/clear/route.ts:29). That path therefore throws instead of answering 500, and is modelled as `Unhandled`.
- ValidateAssignmentRoute.Check: `currentTeamId` is part of the request but never read. The handler comment says "per team per day" while the code checks every team; the model follows the code. The schedule being edited is skipped entirely, so a duplicate inside that one schedule is not detected here.
- The PUT and DELETE routes under `app/api/schedules/[id]`, `app/api/teams/[id]` and `app/api/members/[id]` are not part of this model. These include the write path the page uses for cells, the team delete cascade and member deletion.
- Keys of an assignments record that look like array indices come first in `Object.entries` order, and inherited prototype keys are visible to `assignments[pos]`. Neither is modelled; an entry sequence is taken in its given order.
- Page.TeamSchedules: states sortedness and permutation but not stability among schedules of the same date. A date string that does not parse (NaN) is not modelled; the timestamp is an integer parameter.
- Page.DeletePosition: models the filter only. The handler's early return when no team is active (app/page.tsx:257) and the PUT request that stores the list are not part of this model.
- PdfExport.FileName: the date in the file name is the day of the export (`format(new Date(), "yyyy-MM-dd")`), a parameter here. The PDF document itself is not modelled: fonts, styles, title, subtitle, page footer and saving.
- The page's React state, hooks, data fetching, dialogs and error timers are not modelled. So are the confirmation dialog component and the page's calls to routes outside this model.
