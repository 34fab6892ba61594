/**
 * DELETE /api/schedules/clear: empty one team's board by deleting every
 * schedule of that team, and report how many were deleted.
 */
module ClearRoute {
  import opened Model
  import opened Seqs

  const TeamIdRequired: string := "Team id is required"

  /** `deleteMany({ teamId })`: one pass over the collection that keeps the
      schedules of other teams, in order, and counts the ones it drops. */
  method DeleteMany(schedules: seq<Schedule>, teamId: string) returns (kept: seq<Schedule>, deletedCount: nat)
    ensures kept == Filter(schedules, NotOfTeam(teamId))
    ensures deletedCount == CountOfTeam(schedules, teamId)
  {
    kept, deletedCount := [], 0;
    var i := 0;
    assert schedules[..i] == [];
    while i < |schedules|
      invariant 0 <= i <= |schedules|
      invariant kept == Filter(schedules[..i], NotOfTeam(teamId))
      invariant |kept| + deletedCount == i
    {
      DeleteStep(schedules, i, teamId);
      if schedules[i].teamId == teamId {
        deletedCount := deletedCount + 1;
      } else {
        kept := kept + [schedules[i]];
      }
      i := i + 1;
    }
    assert schedules[..i] == schedules;
    KeptPlusDeleted(schedules, teamId);
  }

  /** One step of the pass: the `i`-th schedule is kept exactly when it
      belongs to another team. */
  lemma DeleteStep(schedules: seq<Schedule>, i: nat, teamId: string)
    requires i < |schedules|
    ensures Filter(schedules[..i + 1], NotOfTeam(teamId)) ==
      Filter(schedules[..i], NotOfTeam(teamId)) + if schedules[i].teamId != teamId then [schedules[i]] else []
  {
    var s := schedules[i];
    FilterPrefixStep(schedules, i, NotOfTeam(teamId));
    assert NotOfTeam(teamId)(s) == (s.teamId != teamId);
  }

  /** DELETE. When the database fails, the handler's own `catch` throws (it
      names an undefined variable), so there is no answer body: `Unhandled`. */
  method Delete(db: Database, teamId: Option<string>, up: bool) returns (r: Response<nat>)
    modifies db
    ensures db.members == old(db.members) && db.teams == old(db.teams)
    ensures !Truthy(teamId) ==> r == BadRequest(TeamIdRequired) && db.schedules == old(db.schedules)
    ensures Truthy(teamId) && !up ==> r == Unhandled && db.schedules == old(db.schedules)
    ensures Truthy(teamId) && up ==>
      && r == Ok(CountOfTeam(old(db.schedules), teamId.value))
      && db.schedules == Filter(old(db.schedules), NotOfTeam(teamId.value))
  {
    if !Truthy(teamId) {
      return BadRequest(TeamIdRequired);
    }
    if !up {
      return Unhandled;
    }
    var kept, deletedCount := DeleteMany(db.schedules, teamId.value);
    db.schedules := kept;
    r := Ok(deletedCount);
  }

  /** Every schedule is either kept or counted as deleted. */
  lemma KeptPlusDeleted(schedules: seq<Schedule>, teamId: string)
    ensures |Filter(schedules, NotOfTeam(teamId))| + CountOfTeam(schedules, teamId) == |schedules|
  {
    FilterSplits(schedules, NotOfTeam(teamId), OfTeam(teamId));
  }

  /** After the clear no schedule of the team remains. */
  lemma NoneOfTeamRemains(schedules: seq<Schedule>, teamId: string)
    ensures CountOfTeam(Filter(schedules, NotOfTeam(teamId)), teamId) == 0
  {
    var kept := Filter(schedules, NotOfTeam(teamId));
    var left := Filter(kept, OfTeam(teamId));
    if left != [] {
      assert left[0] in kept;
    }
  }

  /** The schedules of every other team are exactly what they were, in the
      same order. */
  lemma {:induction false} OtherTeamsUntouched(schedules: seq<Schedule>, teamId: string, other: string)
    requires other != teamId
    ensures Filter(Filter(schedules, NotOfTeam(teamId)), OfTeam(other)) == Filter(schedules, OfTeam(other))
    decreases |schedules|
  {
    if schedules != [] {
      OtherTeamsUntouched(schedules[1..], teamId, other);
    }
  }

  /** Clearing twice changes nothing the second time and reports zero. */
  lemma ClearIsIdempotent(schedules: seq<Schedule>, teamId: string)
    ensures var kept := Filter(schedules, NotOfTeam(teamId));
      Filter(kept, NotOfTeam(teamId)) == kept && CountOfTeam(kept, teamId) == 0
  {
    FilterIdempotent(schedules, NotOfTeam(teamId));
    NoneOfTeamRemains(schedules, teamId);
  }
}
