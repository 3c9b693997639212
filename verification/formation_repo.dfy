/** Data access for formations (app/repositories/formation_repo.py):
    creation, lookup, a filtered and page-capped listing, partial update and
    deletion over the `formations` table. */
module FormationRepo {
  import opened Wrappers
  import opened Errors
  import opened Tables
  import opened Text
  import opened Models
  import opened FormationSchema

  /** The row `Formation(**data.model_dump())` builds. */
  function FromCreate(data: FormationCreate): (f: Formation)
    ensures f.title == data.title && f.description == data.description
    ensures f.durationHours == data.durationHours && f.level == data.level
  {
    Formation(data.title, data.description, data.durationHours, data.level)
  }

  function Create(st: Store, data: FormationCreate): (r: Saved<Formation>)
    requires WellFormed(st)
    ensures WellFormed(r.store)
    ensures r.item.id !in st.formations.rows && r.item.row == FromCreate(data)
    ensures r.store.formations.rows == st.formations.rows[r.item.id := r.item.row]
    ensures r.store == st.(formations := r.store.formations)
  {
    var (t, e) := Insert(st.formations, FromCreate(data));
    Saved(st.(formations := t), e)
  }

  function GetById(st: Store, id: int): (r: Option<Formation>)
    ensures r.Some? <==> id in st.formations.rows
    ensures r.Some? ==> r.value == st.formations.rows[id]
  {
    Get(st.formations, id)
  }

  /** Some formation carries exactly that title. */
  ghost predicate TitleTaken(st: Store, title: string) {
    exists id :: id in st.formations.rows && st.formations.rows[id].title == title
  }

  /** The title finder the service relies on, read as an exact match:
      `None` iff no formation has that title. */
  function GetByTitle(st: Store, title: string): (r: Option<Entry<Formation>>)
    requires WellFormed(st)
    ensures r.None? <==> !TitleTaken(st, title)
    ensures r.Some? ==> r.value.id in st.formations.rows && st.formations.rows[r.value.id] == r.value.row
    ensures r.Some? ==> r.value.row.title == title
  {
    FindFirst(st.formations, (e: Entry<Formation>) => e.row.title == title)
  }

  /** The optional `level` filter. */
  predicate LevelMatches(f: Formation, level: Option<Level>) {
    level.None? || f.level == level.value
  }

  /** The optional `title_contains` filter: a missing or blank needle keeps
      every formation, otherwise the title must contain the stripped needle
      ignoring ASCII case. */
  predicate TitleMatches(f: Formation, titleContains: Option<string>) {
    titleContains.None? || Strip(titleContains.value) == "" || ContainsIgnoreCase(f.title, Strip(titleContains.value))
  }

  /** `list`: the filters apply before the page is cut; the page holds at
      most `min(limit, 100)` formations in key order, and a negative offset
      or limit is refused by the database. A first page leaves out a
      matching formation only when it is full. */
  function List(st: Store, offset: int, limit: int, level: Option<Level>, titleContains: Option<string>)
    : (r: Result<seq<Entry<Formation>>, AppError>)
    requires WellFormed(st)
    ensures r.Err? <==> offset < 0 || limit < 0
    ensures r.Err? ==> r.error == Database(NegativeLimit)
    ensures r.Ok? ==> |r.value| <= MaxPageSize && |r.value| <= limit
    ensures r.Ok? ==> Ascending(r.value)
    ensures r.Ok? ==>
              forall i :: 0 <= i < |r.value| ==>
                r.value[i].id in st.formations.rows && st.formations.rows[r.value[i].id] == r.value[i].row
                && (level.Some? ==> r.value[i].row.level == level.value)
                && (titleContains.Some? && Strip(titleContains.value) != "" ==>
                      Occurs(Lower(r.value[i].row.title), Lower(Strip(titleContains.value))))
    ensures r.Ok? && offset == 0 ==>
              forall id :: id in st.formations.rows
                && LevelMatches(st.formations.rows[id], level) && TitleMatches(st.formations.rows[id], titleContains)
                ==> Entry(id, st.formations.rows[id]) in r.value || |r.value| == Min(limit, MaxPageSize)
    ensures r.Ok? ==> forall i :: 0 <= i < |r.value| ==> |MatchingBelow(st, level, titleContains, r.value[i].id)| == offset + i
    ensures r.Ok? && offset + |r.value| < |Matching(st, level, titleContains)| ==> |r.value| == Min(limit, MaxPageSize)
  {
    var matching := Select(st.formations, (e: Entry<Formation>) => LevelMatches(e.row, level) && TitleMatches(e.row, titleContains));
    match Page(matching, offset, limit)
    case None => Err(Database(NegativeLimit))
    case Some(page) =>
      FilteredPage(st, matching, level, titleContains, offset, limit);
      FilteredRank(st, (e: Entry<Formation>) => LevelMatches(e.row, level) && TitleMatches(e.row, titleContains),
                   level, titleContains, offset, limit);
      Ok(page)
  }

  /** The keys of the formations that pass both filters. */
  ghost function Matching(st: Store, level: Option<Level>, titleContains: Option<string>): set<int> {
    set k | k in st.formations.rows
      && LevelMatches(st.formations.rows[k], level) && TitleMatches(st.formations.rows[k], titleContains)
  }

  /** The keys below `id` of the formations that pass both filters. */
  ghost function MatchingBelow(st: Store, level: Option<Level>, titleContains: Option<string>, id: int): set<int> {
    set k | k in st.formations.rows && k < id
      && LevelMatches(st.formations.rows[k], level) && TitleMatches(st.formations.rows[k], titleContains)
  }

  /** What a page cut from the filtered formations holds. */
  lemma FilteredPage(st: Store, matching: seq<Entry<Formation>>, level: Option<Level>, titleContains: Option<string>,
                     offset: int, limit: int)
    requires WellFormed(st)
    requires matching == Select(st.formations, (e: Entry<Formation>) => LevelMatches(e.row, level) && TitleMatches(e.row, titleContains))
    requires Page(matching, offset, limit).Some?
    ensures Ascending(Page(matching, offset, limit).value)
    ensures forall e :: e in Page(matching, offset, limit).value ==>
              e.id in st.formations.rows && st.formations.rows[e.id] == e.row
              && LevelMatches(e.row, level) && TitleMatches(e.row, titleContains)
    ensures offset == 0 ==>
              forall id :: id in st.formations.rows
                && LevelMatches(st.formations.rows[id], level) && TitleMatches(st.formations.rows[id], titleContains)
                ==> Entry(id, st.formations.rows[id]) in Page(matching, offset, limit).value
                    || |Page(matching, offset, limit).value| == Min(limit, MaxPageSize)
  {
    PageOfAscending(matching, offset, limit);
  }

  /** Where the rows of a filtered page stand among the matching rows. */
  lemma FilteredRank(st: Store, p: Entry<Formation> -> bool, level: Option<Level>, titleContains: Option<string>,
                     offset: int, limit: int)
    requires WellFormed(st)
    requires forall e :: p(e) == (LevelMatches(e.row, level) && TitleMatches(e.row, titleContains))
    requires Page(Select(st.formations, p), offset, limit).Some?
    ensures var page := Page(Select(st.formations, p), offset, limit).value;
            forall i :: 0 <= i < |page| ==> |MatchingBelow(st, level, titleContains, page[i].id)| == offset + i
    ensures var page := Page(Select(st.formations, p), offset, limit).value;
            offset + |page| < |Matching(st, level, titleContains)| ==> |page| == Min(limit, MaxPageSize)
  {
    PageRank(st.formations, p, offset, limit);
    var page := Page(Select(st.formations, p), offset, limit).value;
    assert MatchingIds(st.formations, p) == Matching(st, level, titleContains);
    forall i | 0 <= i < |page|
      ensures IdsBelow(st.formations.rows, p, page[i].id) == MatchingBelow(st, level, titleContains, page[i].id)
    {
    }
  }

  /** Two consecutive pages of `n` matching formations are the page of
      `2 * n` from the same offset. */
  lemma ListPagesJoin(st: Store, level: Option<Level>, titleContains: Option<string>, offset: int, n: int)
    requires WellFormed(st)
    requires 0 <= offset && 0 <= n && 2 * n <= MaxPageSize
    ensures List(st, offset, n, level, titleContains).Ok? && List(st, offset + n, n, level, titleContains).Ok?
            && List(st, offset, 2 * n, level, titleContains).Ok?
    ensures List(st, offset, n, level, titleContains).value + List(st, offset + n, n, level, titleContains).value
            == List(st, offset, 2 * n, level, titleContains).value
  {
    PagesJoin(Select(st.formations, (e: Entry<Formation>) => LevelMatches(e.row, level) && TitleMatches(e.row, titleContains)),
              offset, n);
  }

  /** Field-by-field partial merge of the supplied fields. */
  function Merge(f: Formation, data: FormationUpdate): (m: Formation)
    ensures data.title.None? ==> m.title == f.title
    ensures data.title.Some? ==> m.title == data.title.value
    ensures data.description.None? ==> m.description == f.description
    ensures data.description.Some? ==> m.description == data.description
    ensures data.durationHours.None? ==> m.durationHours == f.durationHours
    ensures data.durationHours.Some? ==> m.durationHours == data.durationHours.value
    ensures data.level.None? ==> m.level == f.level
    ensures data.level.Some? ==> m.level == data.level.value
  {
    Formation(
      data.title.GetOr(f.title),
      if data.description.Some? then data.description else f.description,
      data.durationHours.GetOr(f.durationHours),
      data.level.GetOr(f.level))
  }

  function Update(st: Store, id: int, data: FormationUpdate): (r: Option<Saved<Formation>>)
    ensures r.None? <==> id !in st.formations.rows
    ensures r.Some? ==> r.value.item.id == id && r.value.item.row == Merge(st.formations.rows[id], data)
    ensures r.Some? ==> r.value.store.formations.rows == st.formations.rows[id := r.value.item.row]
    ensures r.Some? ==> r.value.store == st.(formations := r.value.store.formations)
    ensures r.Some? && WellFormed(st) ==> WellFormed(r.value.store)
  {
    if id !in st.formations.rows then None
    else
      var row := Merge(st.formations.rows[id], data);
      Some(Saved(st.(formations := Replace(st.formations, id, row)), Entry(id, row)))
  }

  function Delete(st: Store, id: int): (r: (Store, bool))
    ensures r.1 <==> id in st.formations.rows
    ensures !r.1 ==> r.0 == st
    ensures r.0.formations.rows.Keys == st.formations.rows.Keys - {id}
    ensures forall k :: k in r.0.formations.rows ==> r.0.formations.rows[k] == st.formations.rows[k]
    ensures r.0 == st.(formations := r.0.formations)
    ensures WellFormed(st) ==> WellFormed(r.0)
  {
    var (t, found) := Tables.Delete(st.formations, id);
    (st.(formations := t), found)
  }
}
