/** The read-only location store: the Locations table of the database context,
    which may be missing (the context was not initialised). */
module LocationRepository {
  import opened Outcomes
  import opened Models

  /** The Locations table in table order; `initialised` is false when the context's
      Locations set is null. */
  datatype LocationTable = LocationTable(initialised: bool, rows: seq<Location>)

  /** All locations, unchanged and in table order; an empty table is a NullResult
      and a missing one a Database error. */
  function GetAll(t: LocationTable): (r: Result<seq<Location>>)
    ensures r.Ok? <==> t.initialised && |t.rows| > 0
    ensures r.Ok? ==> r.value == t.rows
    ensures !t.initialised ==> r == Err(Database(ContextNotInitialized))
    ensures t.initialised && t.rows == [] ==> r == Err(NullResult)
  {
    if !t.initialised then Err(Database(ContextNotInitialized))
    else if |t.rows| > 0 then Ok(t.rows)
    else Err(NullResult)
  }
}
