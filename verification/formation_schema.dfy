/** Request payloads for formations and their validators
    (app/schemas/formation.py). String fields arrive already stripped of
    surrounding whitespace (`str_strip_whitespace`), which the validators
    then test and strip again. */
module FormationSchema {
  import opened Wrappers
  import opened Text
  import opened Models

  const MaxDurationHours: int := 10000

  /** The validators' `ValueError`s, reported as rejected requests. */
  datatype SchemaError = TitleTooShort | DurationOutOfRange

  datatype FormationCreate = FormationCreate(
    title: string,
    description: Option<string>,
    durationHours: int,
    level: Level)

  /** A partial update: `None` marks a field the request did not supply. */
  datatype FormationUpdate = FormationUpdate(
    title: Option<string>,
    description: Option<string>,
    durationHours: Option<int>,
    level: Option<Level>)

  predicate ValidTitle(title: string) {
    |Strip(title)| >= 2
  }

  predicate ValidDuration(hours: int) {
    1 <= hours <= MaxDurationHours
  }

  /** `FormationCreate` validation. The post-init hook runs inside the model
      schema, before the after-validator: it strips the title, drops a blank
      description and raises the duration to at least 1. The validator then
      tests the title first and the clamped duration second, so only a
      duration above the maximum is refused. */
  function ValidateCreate(raw: FormationCreate): (r: Result<FormationCreate, SchemaError>)
    ensures r.Err? <==> !ValidTitle(raw.title) || raw.durationHours > MaxDurationHours
    ensures !ValidTitle(raw.title) ==> r == Err(TitleTooShort)
    ensures ValidTitle(raw.title) && raw.durationHours > MaxDurationHours ==> r == Err(DurationOutOfRange)
    ensures r.Ok? ==> r.value.title == Strip(raw.title) && r.value.level == raw.level
    ensures r.Ok? ==> r.value.durationHours == (if raw.durationHours < 1 then 1 else raw.durationHours)
    ensures r.Ok? ==> (r.value.description.None? <==> (raw.description.None? || Strip(raw.description.value) == ""))
    ensures r.Ok? && r.value.description.Some? ==> r.value.description.value == Strip(raw.description.value)
  {
    var title := Strip(raw.title);
    var hours := ClampDuration(raw.durationHours);
    StripIdempotent(raw.title);
    if |Strip(title)| < 2 then
      Err(TitleTooShort)
    else if !(1 <= hours <= MaxDurationHours) then
      Err(DurationOutOfRange)
    else
      Ok(FormationCreate(title, CleanDescription(raw.description), hours, raw.level))
  }

  /** An accepted creation payload meets the validator's own rules, and
      validating it again accepts it unchanged. */
  lemma ValidatedCreateIsFixed(raw: FormationCreate)
    requires ValidateCreate(raw).Ok?
    ensures ValidTitle(ValidateCreate(raw).value.title) && ValidDuration(ValidateCreate(raw).value.durationHours)
    ensures ValidateCreate(ValidateCreate(raw).value) == ValidateCreate(raw)
  {
    var v := ValidateCreate(raw).value;
    StripIdempotent(raw.title);
    if raw.description.Some? && Strip(raw.description.value) != "" {
      StripIdempotent(raw.description.value);
    }
    assert ValidateCreate(v).value == v;
  }

  /** The creation payload's description: stripped, and dropped when nothing
      but whitespace was given. */
  function CleanDescription(d: Option<string>): (r: Option<string>)
    ensures r.None? <==> (d.None? || Strip(d.value) == "")
    ensures r.Some? ==> r.value == Strip(d.value)
  {
    match d
    case None => None
    case Some(v) =>
      var t := Strip(v);
      StripIdempotent(v);
      if t == "" then None else Some(Strip(t))
  }

  /** `str_strip_whitespace` applied to an optional string field. */
  function StripOpt(s: Option<string>): (r: Option<string>)
    ensures r.Some? <==> s.Some?
    ensures r.Some? ==> r.value == Strip(s.value)
  {
    match s
    case None => None
    case Some(v) => Some(Strip(v))
  }

  /** Stripping an optional field twice is stripping it once. */
  lemma StripOptIdempotent(s: Option<string>)
    ensures StripOpt(StripOpt(s)) == StripOpt(s)
  {
    if s.Some? {
      StripIdempotent(s.value);
    }
  }

  /** `max(1, hours)`. */
  function ClampDuration(hours: int): (h: int)
    ensures h >= 1 && h >= hours
    ensures hours >= 1 ==> h == hours
  {
    if hours < 1 then 1 else hours
  }

  /** `ClampDuration` applied to a supplied duration. */
  function ClampOpt(hours: Option<int>): (r: Option<int>)
    ensures r.Some? <==> hours.Some?
    ensures r.Some? ==> r.value == ClampDuration(hours.value)
  {
    match hours
    case None => None
    case Some(h) => Some(ClampDuration(h))
  }

  /** `FormationUpdate` validation: the post-init hook strips the supplied
      strings and raises a supplied duration to at least 1 before the
      after-validator checks the title and duration, each only when
      supplied (a blank description stays an empty string rather than
      becoming absent). */
  function ValidateUpdate(raw: FormationUpdate): (r: Result<FormationUpdate, SchemaError>)
    ensures r.Err? <==> (raw.title.Some? && !ValidTitle(raw.title.value))
                        || (raw.durationHours.Some? && raw.durationHours.value > MaxDurationHours)
    ensures raw.title.Some? && !ValidTitle(raw.title.value) ==> r == Err(TitleTooShort)
    ensures r.Ok? ==> r.value.title == StripOpt(raw.title)
    ensures r.Ok? ==> r.value.description == StripOpt(raw.description)
    ensures r.Ok? ==> r.value.level == raw.level
    ensures r.Ok? ==> (r.value.durationHours.Some? <==> raw.durationHours.Some?)
    ensures r.Ok? && raw.durationHours.Some? ==>
              r.value.durationHours.value == (if raw.durationHours.value < 1 then 1 else raw.durationHours.value)
  {
    var pre := raw.(title := StripOpt(raw.title), description := StripOpt(raw.description),
                    durationHours := ClampOpt(raw.durationHours));
    StripOptIdempotent(raw.title);
    StripOptIdempotent(raw.description);
    if pre.title.Some? && |Strip(pre.title.value)| < 2 then
      Err(TitleTooShort)
    else if pre.durationHours.Some? && !(1 <= pre.durationHours.value <= MaxDurationHours) then
      Err(DurationOutOfRange)
    else
      Ok(pre.(title := StripOpt(pre.title), description := StripOpt(pre.description)))
  }

  /** An accepted update payload meets the validator's rules for every
      supplied field, and validating it again accepts it unchanged. */
  lemma ValidatedUpdateIsFixed(raw: FormationUpdate)
    requires ValidateUpdate(raw).Ok?
    ensures var v := ValidateUpdate(raw).value;
            (v.title.Some? ==> ValidTitle(v.title.value)) && (v.durationHours.Some? ==> ValidDuration(v.durationHours.value))
    ensures ValidateUpdate(ValidateUpdate(raw).value) == ValidateUpdate(raw)
  {
    var v := ValidateUpdate(raw).value;
    StripOptIdempotent(raw.title);
    StripOptIdempotent(raw.description);
    if raw.title.Some? {
      StripIdempotent(raw.title.value);
    }
    assert ValidateUpdate(v).value == v;
  }
}
