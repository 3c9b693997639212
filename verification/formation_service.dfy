/** Formation rules (app/services/formation_service.py): a title names at
    most one formation. `find_by_title` is the repository's title finder,
    `FormationRepo.GetByTitle`, and `list` hands its arguments to
    `FormationRepo.List` unchanged. */
module FormationService {
  import opened Wrappers
  import opened Errors
  import opened Tables
  import opened Text
  import opened Models
  import opened FormationSchema
  import FormationRepo

  /** No two formations carry exactly the same title. */
  ghost predicate TitlesUnique(st: Store) {
    forall i, j ::
      i in st.formations.rows && j in st.formations.rows && st.formations.rows[i].title == st.formations.rows[j].title
      ==> i == j
  }

  /** `create`: refused iff some formation already has the stripped title. */
  function Create(st: Store, data: FormationCreate): (r: Result<Saved<Formation>, AppError>)
    requires WellFormed(st)
    ensures r.Err? <==> FormationRepo.TitleTaken(st, Strip(data.title))
    ensures r.Err? ==> r.error == FormationTitleAlreadyUsed
    ensures r.Ok? ==> WellFormed(r.value.store)
    ensures r.Ok? ==> r.value.item.id !in st.formations.rows && r.value.item.row == FormationRepo.FromCreate(data)
    ensures r.Ok? ==> r.value.store.formations.rows == st.formations.rows[r.value.item.id := r.value.item.row]
    ensures r.Ok? ==> r.value.store == st.(formations := r.value.store.formations)
  {
    if FormationRepo.GetByTitle(st, Strip(data.title)).Some? then Err(FormationTitleAlreadyUsed)
    else Ok(FormationRepo.Create(st, data))
  }

  function GetById(st: Store, id: int): (r: Result<Formation, AppError>)
    ensures r.Ok? <==> id in st.formations.rows
    ensures r.Ok? ==> r.value == st.formations.rows[id]
    ensures r.Err? ==> r.error == FormationNotFound
  {
    match FormationRepo.GetById(st, id)
    case None => Err(FormationNotFound)
    case Some(f) => Ok(f)
  }

  /** The title lookup of `update` as the source writes it runs only when a
      non-blank title is supplied that differs from the current title other
      than by case. */
  predicate LooksUpTitleAsWritten(current: Formation, data: FormationUpdate) {
    data.title.Some? && Strip(data.title.value) != "" && Lower(Strip(data.title.value)) != Lower(current.title)
  }

  /** `update` exactly as written: a new title that matches the current one
      ignoring case is never looked up, even when another formation holds
      that exact spelling. */
  function UpdateAsWritten(st: Store, id: int, data: FormationUpdate): (r: Result<Saved<Formation>, AppError>)
    requires WellFormed(st)
    ensures id !in st.formations.rows ==> r == Err(FormationNotFound)
    ensures id in st.formations.rows ==>
              (r.Err? <==> LooksUpTitleAsWritten(st.formations.rows[id], data)
                           && FormationRepo.TitleTaken(st, Strip(data.title.value)))
    ensures r.Err? && id in st.formations.rows ==> r.error == FormationTitleAlreadyUsed
    ensures r.Ok? ==> r.value.item == Entry(id, FormationRepo.Merge(st.formations.rows[id], data))
    ensures r.Ok? ==> r.value.store.formations.rows == st.formations.rows[id := r.value.item.row]
    ensures r.Ok? ==> r.value.store == st.(formations := r.value.store.formations)
  {
    match FormationRepo.GetById(st, id)
    case None => Err(FormationNotFound)
    case Some(current) =>
      if LooksUpTitleAsWritten(current, data) && FormationRepo.GetByTitle(st, Strip(data.title.value)).Some? then
        var existing := FormationRepo.GetByTitle(st, Strip(data.title.value)).value;
        assert existing.id != id;
        Err(FormationTitleAlreadyUsed)
      else
        Ok(FormationRepo.Update(st, id, data).value)
  }

  /** The store in which the as-written update goes wrong: one formation
      titled "Dafny" and another titled "DAFNY". */
  function TwoSpellings(): (st: Store)
    ensures WellFormed(st)
    ensures TitlesUnique(st)
  {
    var st := EmptyStore();
    st.(formations := Tables.Table(
      map[1 := Formation("Dafny", None, 10, Beginner), 2 := Formation("DAFNY", None, 10, Beginner)], 3))
  }

  /** Renaming "Dafny" to "DAFNY" passes the as-written update, and two
      formations then carry the title "DAFNY". */
  lemma UpdateAsWrittenDuplicatesTitle()
    ensures UpdateAsWritten(TwoSpellings(), 1, FormationUpdate(Some("DAFNY"), None, None, None)).Ok?
    ensures !TitlesUnique(UpdateAsWritten(TwoSpellings(), 1, FormationUpdate(Some("DAFNY"), None, None, None)).value.store)
  {
    var st := TwoSpellings();
    var data := FormationUpdate(Some("DAFNY"), None, None, None);
    SameTitleIgnoringCase();
    assert !LooksUpTitleAsWritten(st.formations.rows[1], data);
    var after := UpdateAsWritten(st, 1, data).value.store;
    assert after.formations.rows[1].title == "DAFNY" == after.formations.rows[2].title;
  }

  /** "DAFNY" is already stripped and differs from "Dafny" only by case. */
  lemma SameTitleIgnoringCase()
    ensures Strip("DAFNY") == "DAFNY"
    ensures Lower("DAFNY") == Lower("Dafny")
  {
    StripFixesStripped("DAFNY");
    assert Lower("DAFNY") == "dafny";
    assert Lower("Dafny") == "dafny";
  }

  /** The lookup the corrected `update` runs: whenever the stripped new title
      differs from the current title at all. */
  predicate LooksUpTitle(current: Formation, data: FormationUpdate) {
    data.title.Some? && Strip(data.title.value) != "" && Strip(data.title.value) != current.title
  }

  /** `update` with the title check it evidently intends: a new title is
      refused whenever another formation already holds it. */
  function Update(st: Store, id: int, data: FormationUpdate): (r: Result<Saved<Formation>, AppError>)
    requires WellFormed(st)
    ensures id !in st.formations.rows ==> r == Err(FormationNotFound)
    ensures id in st.formations.rows ==>
              (r.Err? <==> LooksUpTitle(st.formations.rows[id], data) && FormationRepo.TitleTaken(st, Strip(data.title.value)))
    ensures r.Err? && id in st.formations.rows ==> r.error == FormationTitleAlreadyUsed
    ensures r.Ok? ==> r.value.item == Entry(id, FormationRepo.Merge(st.formations.rows[id], data))
    ensures r.Ok? ==> r.value.store.formations.rows == st.formations.rows[id := r.value.item.row]
    ensures r.Ok? ==> r.value.store == st.(formations := r.value.store.formations)
    ensures r.Ok? ==> WellFormed(r.value.store)
  {
    match FormationRepo.GetById(st, id)
    case None => Err(FormationNotFound)
    case Some(current) =>
      if LooksUpTitle(current, data) && FormationRepo.GetByTitle(st, Strip(data.title.value)).Some? then
        Err(FormationTitleAlreadyUsed)
      else
        Ok(FormationRepo.Update(st, id, data).value)
  }

  /** The corrected update refuses the rename that breaks the as-written one. */
  lemma UpdateRefusesDuplicateSpelling()
    ensures Update(TwoSpellings(), 1, FormationUpdate(Some("DAFNY"), None, None, None)) == Err(FormationTitleAlreadyUsed)
  {
    var st := TwoSpellings();
    StripFixesStripped("DAFNY");
    assert st.formations.rows[2].title == "DAFNY";
  }

  /** Creating from a validated payload keeps titles unique. */
  lemma CreateKeepsTitlesUnique(st: Store, raw: FormationCreate)
    requires WellFormed(st) && TitlesUnique(st)
    requires ValidateCreate(raw).Ok?
    requires Create(st, ValidateCreate(raw).value).Ok?
    ensures TitlesUnique(Create(st, ValidateCreate(raw).value).value.store)
  {
    var data := ValidateCreate(raw).value;
    StripIdempotent(raw.title);
    assert Strip(data.title) == data.title;
    var saved := Create(st, data).value;
    assert !FormationRepo.TitleTaken(st, data.title);
  }

  /** Updating with a validated payload through the corrected update keeps
      titles unique. */
  lemma UpdateKeepsTitlesUnique(st: Store, id: int, raw: FormationUpdate)
    requires WellFormed(st) && TitlesUnique(st)
    requires ValidateUpdate(raw).Ok?
    requires Update(st, id, ValidateUpdate(raw).value).Ok?
    ensures TitlesUnique(Update(st, id, ValidateUpdate(raw).value).value.store)
  {
    var data := ValidateUpdate(raw).value;
    var saved := Update(st, id, data).value;
    var rows := saved.store.formations.rows;
    if data.title.Some? {
      StripIdempotent(raw.title.value);
      assert Strip(data.title.value) == data.title.value;
      assert |data.title.value| >= 2;
      if data.title.value != st.formations.rows[id].title {
        assert !FormationRepo.TitleTaken(st, data.title.value);
      }
    }
    forall i, j | i in rows && j in rows && rows[i].title == rows[j].title
      ensures i == j
    {
      if i != id && j != id {
        assert rows[i] == st.formations.rows[i] && rows[j] == st.formations.rows[j];
      }
    }
  }

  /** `delete`: `FormationNotFound` iff the id is absent. */
  function Delete(st: Store, id: int): (r: Result<Store, AppError>)
    ensures r.Err? <==> id !in st.formations.rows
    ensures r.Err? ==> r.error == FormationNotFound
    ensures r.Ok? ==> r.value.formations.rows.Keys == st.formations.rows.Keys - {id}
    ensures r.Ok? ==> forall k :: k in r.value.formations.rows ==> r.value.formations.rows[k] == st.formations.rows[k]
    ensures r.Ok? ==> r.value == st.(formations := r.value.formations)
  {
    var (after, found) := FormationRepo.Delete(st, id);
    if found then Ok(after) else Err(FormationNotFound)
  }
}
