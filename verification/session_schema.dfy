/** Request payloads for sessions and the checks the payload validators run
    before a service sees them (app/schemas/session.py). */
module SessionSchema {
  import opened Wrappers
  import opened Models

  /** The validator's `ValueError`, reported to the caller as a rejected
      request. */
  datatype SchemaError = StartNotBeforeEnd

  datatype SessionCreate = SessionCreate(
    formationId: int,
    teacherId: int,
    startDate: int,
    endDate: int,
    capacityMax: int,
    status: SessionStatus)

  /** A partial update: `None` marks a field the request did not supply. */
  datatype SessionUpdate = SessionUpdate(
    formationId: Option<int>,
    teacherId: Option<int>,
    startDate: Option<int>,
    endDate: Option<int>,
    capacityMax: Option<int>,
    status: Option<SessionStatus>)

  /** `max(1, n)`: a capacity below one is raised to one. */
  function ClampCapacity(n: int): (c: int)
    ensures c >= 1 && c >= n
    ensures c == n || c == 1
  {
    if n < 1 then 1 else n
  }

  /** `SessionCreate` validation: rejects a start that is not strictly before
      the end, and clamps the capacity to at least one. */
  function ValidateCreate(raw: SessionCreate): (r: Result<SessionCreate, SchemaError>)
    ensures r.Err? <==> raw.startDate >= raw.endDate
    ensures r.Ok? ==> r.value.startDate < r.value.endDate
    ensures r.Ok? ==> r.value.capacityMax >= 1
    ensures r.Ok? ==> r.value.capacityMax == ClampCapacity(raw.capacityMax)
    ensures r.Ok? ==> r.value == raw.(capacityMax := r.value.capacityMax)
  {
    if raw.startDate >= raw.endDate then Err(StartNotBeforeEnd)
    else Ok(raw.(capacityMax := ClampCapacity(raw.capacityMax)))
  }

  /** `SessionUpdate` validation: the date order is checked only when both
      dates are supplied; a supplied capacity is clamped to at least one and
      every absent field stays absent. */
  function ValidateUpdate(raw: SessionUpdate): (r: Result<SessionUpdate, SchemaError>)
    ensures r.Err? <==> raw.startDate.Some? && raw.endDate.Some? && raw.startDate.value >= raw.endDate.value
    ensures r.Ok? ==> (r.value.capacityMax.Some? <==> raw.capacityMax.Some?)
    ensures r.Ok? && raw.capacityMax.Some? ==> r.value.capacityMax.value == ClampCapacity(raw.capacityMax.value)
    ensures r.Ok? ==> r.value == raw.(capacityMax := r.value.capacityMax)
  {
    if raw.startDate.Some? && raw.endDate.Some? && raw.startDate.value >= raw.endDate.value then
      Err(StartNotBeforeEnd)
    else
      match raw.capacityMax
      case None => Ok(raw)
      case Some(c) => Ok(raw.(capacityMax := Some(ClampCapacity(c))))
  }
}
