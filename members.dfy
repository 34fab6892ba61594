/**
 * GET and POST /api/members: list the members sorted by name, and add a
 * member whose trimmed name is not yet taken, ignoring letter case.
 */
module MembersRoute {
  import opened Model
  import opened Text
  import opened Seqs

  const FetchFailed: string := "Failed to fetch members"
  /** "The name cannot be empty." */
  const NameRequired: string := "ชื่อไม่สามารถเว้นว่างได้"
  /** "This name already exists in the system." */
  const NameTaken: string := "ชื่อนี้มีอยู่ในระบบแล้ว"
  const AddFailed: string := "Failed to add member"

  /** The `find().sort({ name: 1 })` order: ascending binary order of names. */
  function ByName(): (Member, Member) -> bool {
    (a: Member, b: Member) => LexLeq(a.name, b.name)
  }

  lemma ByNameIsTotalPreorder()
    ensures TotalPreorder(ByName())
  {
    forall a: Member, b: Member
      ensures ByName()(a, b) || ByName()(b, a)
    {
      LexLeqTotal(a.name, b.name);
    }
    forall a: Member, b: Member, c: Member | ByName()(a, b) && ByName()(b, c)
      ensures ByName()(a, c)
    {
      LexLeqTransitive(a.name, b.name, c.name);
    }
  }

  /** The case-insensitive `findOne` on names, with the pattern's text read
      literally. */
  function FindByName(members: seq<Member>, name: string): (r: Option<Member>)
    ensures r.None? <==> forall m :: m in members ==> !EqualsIgnoringCase(m.name, name)
    ensures r.Some? ==> r.value in members && EqualsIgnoringCase(r.value.name, name)
    decreases |members|
  {
    if members == [] then None
    else if EqualsIgnoringCase(members[0].name, name) then Some(members[0])
    else FindByName(members[1..], name)
  }

  /** No two members' names differ only in letter case. */
  predicate DistinctNames(members: seq<Member>) {
    forall i, j :: 0 <= i < j < |members| ==> !EqualsIgnoringCase(members[i].name, members[j].name)
  }

  /** Adding a member whose name no one has, ignoring case, keeps the names
      distinct. */
  lemma AddKeepsNamesDistinct(members: seq<Member>, m: Member)
    requires DistinctNames(members)
    requires FindByName(members, m.name).None?
    ensures DistinctNames(members + [m])
  {
    var all := members + [m];
    forall i, j | 0 <= i < j < |all|
      ensures !EqualsIgnoringCase(all[i].name, all[j].name)
    {
      if j == |members| {
        assert all[i] in members;
      }
    }
  }

  /** GET: every member, sorted by name; nothing is written. */
  method Get(db: Database, up: bool) returns (r: Response<seq<Member>>)
    ensures up ==> r.Ok? && SortedBy(r.value, ByName()) && multiset(r.value) == multiset(db.members)
    ensures !up ==> r == ServerError(FetchFailed)
  {
    if !up {
      return ServerError(FetchFailed);
    }
    ByNameIsTotalPreorder();
    r := Ok(SortBy(db.members, ByName()));
  }

  /** POST: `insertedAt` and `respondedAt` stand for the two `new Date()`
      calls (the stored record and the answer each get their own), `up` for
      whether the database calls succeed. */
  method Post(db: Database, name: Option<string>, up: bool, insertedAt: int, respondedAt: int)
    returns (r: Response<Member>)
    modifies db
    ensures db.teams == old(db.teams) && db.schedules == old(db.schedules)
    ensures Blank(name) ==> r == BadRequest(NameRequired)
    ensures !Blank(name) && !up ==> r == ServerError(AddFailed)
    ensures !Blank(name) && up ==>
      r == if FindByName(old(db.members), Trim(name.value)).Some?
           then BadRequest(NameTaken)
           else Ok(Member(Trim(name.value), respondedAt))
    ensures r.Ok? ==> db.members == old(db.members) + [Member(Trim(name.value), insertedAt)]
    ensures !r.Ok? ==> db.members == old(db.members)
    ensures r.Ok? ==> r.value.name != [] && r.value.name == Trim(r.value.name)
    ensures DistinctNames(old(db.members)) ==> DistinctNames(db.members)
  {
    if Blank(name) {
      return BadRequest(NameRequired);
    }
    if !up {
      return ServerError(AddFailed);
    }
    var trimmed := Trim(name.value);
    var existing := FindByName(db.members, trimmed);
    if existing.Some? {
      return BadRequest(NameTaken);
    }
    var stored := Member(trimmed, insertedAt);
    if DistinctNames(db.members) {
      AddKeepsNamesDistinct(db.members, stored);
    }
    db.members := db.members + [stored];
    TrimIdempotent(name.value);
    r := Ok(Member(trimmed, respondedAt));
  }
}
