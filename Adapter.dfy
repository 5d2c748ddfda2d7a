/** The translator between the storage shape of a position (location id) and its
    wire shape (location name). Every lookup fetches the whole location table afresh,
    so a failure of the location store reaches the caller unchanged. */
module Adapter {
  import opened Outcomes
  import opened Models
  import opened LocationRepository

  // ---------------------------------------------------------------------------
  // Case folding

  /** ASCII lower-casing of one character. */
  function LowerChar(c: char): char {
    if 'A' <= c <= 'Z' then (c as int + 32) as char else c
  }

  /** ASCII lower-casing of a string, character by character. */
  function Lower(s: string): (r: string)
    ensures |r| == |s|
    ensures forall i :: 0 <= i < |s| ==> r[i] == LowerChar(s[i])
  {
    if s == [] then [] else [LowerChar(s[0])] + Lower(s[1..])
  }

  /** Folding twice is folding once. */
  lemma {:induction false} LowerIdempotent(s: string)
    ensures Lower(Lower(s)) == Lower(s)
  {
    if s != [] {
      LowerIdempotent(s[1..]);
      assert Lower(s)[1..] == Lower(s[1..]);
    }
  }

  // ---------------------------------------------------------------------------
  // First-match scans over the location rows

  /** The row's name is present and equals `key` once lower-cased. */
  predicate NameMatches(loc: Location, key: string) {
    loc.locationName.Some? && Lower(loc.locationName.value) == key
  }

  /** Index of the first row whose lower-cased name is `key`. The scan dereferences
      every name it passes, so a null name before the first match is a NullReference;
      a table with no match fails with InvalidLocation. */
  function FirstNameMatch(rows: seq<Location>, key: string): (r: Result<nat>)
    ensures r.Ok? ==> r.value < |rows| && NameMatches(rows[r.value], key)
    ensures r.Ok? ==> forall j :: 0 <= j < r.value ==> rows[j].locationName.Some? && !NameMatches(rows[j], key)
    ensures r == Err(InvalidLocation) <==>
              forall j :: 0 <= j < |rows| ==> rows[j].locationName.Some? && !NameMatches(rows[j], key)
    ensures r == Err(NullReference) ==>
              exists j :: 0 <= j < |rows| && rows[j].locationName.None? &&
                          forall k :: 0 <= k < j ==> !NameMatches(rows[k], key)
    ensures r.Err? ==> r.error == InvalidLocation || r.error == NullReference
  {
    if rows == [] then Err(InvalidLocation)
    else if rows[0].locationName.None? then Err(NullReference)
    else if Lower(rows[0].locationName.value) == key then Ok(0)
    else
      match FirstNameMatch(rows[1..], key)
      case Ok(i) => Ok(i + 1)
      case Err(e) =>
        if e == NullReference then
          NullNameShifts(rows, key);
          Err(e)
        else
          Err(e)
  }

  /** A null name before any match in the tail is one in the whole table, when the
      head is a present name that does not match. */
  lemma NullNameShifts(rows: seq<Location>, key: string)
    requires rows != [] && rows[0].locationName.Some? && !NameMatches(rows[0], key)
    requires exists j :: 0 <= j < |rows[1..]| && rows[1..][j].locationName.None? &&
                         forall k :: 0 <= k < j ==> !NameMatches(rows[1..][k], key)
    ensures exists j :: 0 <= j < |rows| && rows[j].locationName.None? &&
                        forall k :: 0 <= k < j ==> !NameMatches(rows[k], key)
  {
    var j :| 0 <= j < |rows[1..]| && rows[1..][j].locationName.None? &&
             forall k :: 0 <= k < j ==> !NameMatches(rows[1..][k], key);
    assert rows[j + 1].locationName.None?;
    forall k | 0 <= k < j + 1 ensures !NameMatches(rows[k], key) {
      if k > 0 { assert rows[k] == rows[1..][k - 1]; }
    }
  }

  /** Index of the first row whose id is `id`, if there is one. */
  function FirstIdMatch(rows: seq<Location>, id: int): (r: Option<nat>)
    ensures r.Some? ==> r.value < |rows| && rows[r.value].locationId == id
    ensures r.Some? ==> forall j :: 0 <= j < r.value ==> rows[j].locationId != id
    ensures r.None? <==> forall j :: 0 <= j < |rows| ==> rows[j].locationId != id
  {
    if rows == [] then None
    else if rows[0].locationId == id then Some(0)
    else
      match FirstIdMatch(rows[1..], id)
      case Some(i) => Some(i + 1)
      case None => None
  }

  // ---------------------------------------------------------------------------
  // The four conversions

  /** Name to id: the id of the first location whose name equals `name` ignoring case. */
  function LocationIdByName(t: LocationTable, name: string): (r: Result<int>)
    ensures r.Ok? ==> exists i :: 0 <= i < |t.rows| && NameMatches(t.rows[i], Lower(name)) && t.rows[i].locationId == r.value
    ensures r.Ok? ==> FirstNameMatch(t.rows, Lower(name)).Ok? && r.value == t.rows[FirstNameMatch(t.rows, Lower(name)).value].locationId
    ensures LocationRepository.GetAll(t).Ok? ==>
              (r == Err(InvalidLocation) <==>
               forall j :: 0 <= j < |t.rows| ==> t.rows[j].locationName.Some? && !NameMatches(t.rows[j], Lower(name)))
    ensures LocationRepository.GetAll(t).Ok? ==> (r == Err(NullReference) <==> FirstNameMatch(t.rows, Lower(name)) == Err(NullReference))
    ensures LocationRepository.GetAll(t).Ok? && r.Err? ==> r.error == InvalidLocation || r.error == NullReference
    ensures LocationRepository.GetAll(t).Err? ==> r == Err(LocationRepository.GetAll(t).error)
  {
    var rows :- LocationRepository.GetAll(t);
    var i :- FirstNameMatch(rows, Lower(name));
    Ok(rows[i].locationId)
  }

  /** Id to name: the name (possibly null) of the first location whose id is `id`. */
  function LocationNameById(t: LocationTable, id: int): (r: Result<Option<string>>)
    ensures r.Ok? ==> exists i :: 0 <= i < |t.rows| && t.rows[i].locationId == id && t.rows[i].locationName == r.value
    ensures r.Ok? ==> FirstIdMatch(t.rows, id).Some? && r.value == t.rows[FirstIdMatch(t.rows, id).value].locationName
    ensures LocationRepository.GetAll(t).Ok? ==> (r.Ok? <==> exists j :: 0 <= j < |t.rows| && t.rows[j].locationId == id)
    ensures LocationRepository.GetAll(t).Ok? ==>
              (r == Err(InvalidLocation) <==> forall j :: 0 <= j < |t.rows| ==> t.rows[j].locationId != id)
    ensures LocationRepository.GetAll(t).Err? ==> r == Err(LocationRepository.GetAll(t).error)
  {
    var rows :- LocationRepository.GetAll(t);
    match FirstIdMatch(rows, id)
    case None => Err(InvalidLocation)
    case Some(i) => Ok(rows[i].locationName)
  }

  /** Storage shape to wire shape: every field is copied except the location id,
      which is replaced by the location's name. */
  function PositionToDto(t: LocationTable, p: OpenPosition): (r: Result<OpenPositionDto>)
    ensures r.Ok? <==> LocationNameById(t, p.locationId).Ok?
    ensures r.Err? ==> r.error == LocationNameById(t, p.locationId).error
    ensures r.Ok? ==> r.value.location == LocationNameById(t, p.locationId).value
    ensures r.Ok? ==> && r.value.positionId == p.positionId && r.value.roleName == p.roleName
                      && r.value.domain == p.domain && r.value.jobDescription == p.jobDescription
                      && r.value.reqSkills == p.reqSkills && r.value.educationalQual == p.educationalQual
                      && r.value.experience == p.experience
  {
    var name :- LocationNameById(t, p.locationId);
    Ok(OpenPositionDto(p.positionId, p.roleName, p.domain, p.jobDescription, name,
                       p.reqSkills, p.educationalQual, p.experience))
  }

  /** Wire shape to storage shape: the location name, when present, is resolved to an
      id; an absent name leaves the id at its default 0 without any lookup. */
  function DtoToPosition(t: LocationTable, d: OpenPositionDto): (r: Result<OpenPosition>)
    ensures d.location.None? ==> r.Ok? && r.value.locationId == 0
    ensures d.location.Some? ==> (r.Ok? <==> LocationIdByName(t, d.location.value).Ok?)
    ensures d.location.Some? && r.Ok? ==> r.value.locationId == LocationIdByName(t, d.location.value).value
    ensures d.location.Some? && r.Err? ==> r.error == LocationIdByName(t, d.location.value).error
    ensures r.Ok? ==> && r.value.positionId == d.positionId && r.value.roleName == d.roleName
                      && r.value.domain == d.domain && r.value.jobDescription == d.jobDescription
                      && r.value.reqSkills == d.reqSkills && r.value.educationalQual == d.educationalQual
                      && r.value.experience == d.experience
  {
    var locationId :- if d.location.Some? then LocationIdByName(t, d.location.value) else Ok(0);
    Ok(OpenPosition(d.positionId, d.roleName, d.domain, d.jobDescription, locationId,
                    d.reqSkills, d.educationalQual, d.experience))
  }

  // ---------------------------------------------------------------------------
  // Properties

  /** No two rows share an id. */
  predicate DistinctIds(rows: seq<Location>) {
    forall i, j :: 0 <= i < j < |rows| ==> rows[i].locationId != rows[j].locationId
  }

  /** An empty or missing location table is reported as the store reports it
      (NullResult or Database), never as InvalidLocation, by both lookups. */
  lemma LookupsPropagateStoreFailure(t: LocationTable, name: string, id: int)
    requires !t.initialised || t.rows == []
    ensures LocationIdByName(t, name).Err? && LocationNameById(t, id).Err?
    ensures LocationIdByName(t, name).error == LocationNameById(t, id).error
    ensures t.initialised ==> LocationIdByName(t, name) == Err(NullResult)
    ensures !t.initialised ==> LocationIdByName(t, name) == Err(Database(ContextNotInitialized))
  {
  }

  /** Name resolution ignores case: a name and its lower-cased form resolve alike. */
  lemma LocationIdByNameIgnoresCase(t: LocationTable, a: string, b: string)
    requires Lower(a) == Lower(b)
    ensures LocationIdByName(t, a) == LocationIdByName(t, b)
    ensures LocationIdByName(t, a) == LocationIdByName(t, Lower(a))
  {
    LowerIdempotent(a);
  }

  /** On a readable table, a DTO is refused with InvalidLocation exactly when it names
      a location and every row has a present name that differs from it ignoring case. */
  lemma DtoToPositionRejectsUnknownLocation(t: LocationTable, d: OpenPositionDto)
    requires LocationRepository.GetAll(t).Ok?
    ensures DtoToPosition(t, d) == Err(InvalidLocation) <==>
              d.location.Some? &&
              forall j :: 0 <= j < |t.rows| ==> t.rows[j].locationName.Some? && !NameMatches(t.rows[j], Lower(d.location.value))
  {
  }

  /** A name present in the table, with no null name before it, resolves to the id
      of the first row that carries it. */
  lemma LocationIdByNameFindsPresentName(t: LocationTable, name: string, i: nat)
    requires t.initialised && i < |t.rows| && NameMatches(t.rows[i], Lower(name))
    requires forall j :: 0 <= j < i ==> t.rows[j].locationName.Some?
    ensures LocationIdByName(t, name).Ok?
    ensures exists k :: 0 <= k <= i && NameMatches(t.rows[k], Lower(name)) && LocationIdByName(t, name).value == t.rows[k].locationId
  {
    var r := FirstNameMatch(t.rows, Lower(name));
    assert r.Ok?;
  }

  /** Round trip: with distinct location ids, the id a name resolves to resolves
      back to the stored name, which equals the given name ignoring case. */
  lemma NameIdRoundTrip(t: LocationTable, name: string)
    requires DistinctIds(t.rows)
    requires LocationIdByName(t, name).Ok?
    ensures LocationNameById(t, LocationIdByName(t, name).value).Ok?
    ensures var stored := LocationNameById(t, LocationIdByName(t, name).value).value;
            stored.Some? && Lower(stored.value) == Lower(name)
  {
    var i := FirstNameMatch(t.rows, Lower(name)).value;
    var id := t.rows[i].locationId;
    var j := FirstIdMatch(t.rows, id);
    assert j.Some?;
    assert j.value == i;
  }

  /** Round trip on records: translating a DTO to storage and back preserves the
      key and the six other non-location fields, and, with distinct location ids,
      brings back a location name equal to the given one ignoring case. */
  lemma DtoRoundTrip(t: LocationTable, d: OpenPositionDto)
    requires DistinctIds(t.rows)
    requires d.location.Some? && DtoToPosition(t, d).Ok?
    ensures PositionToDto(t, DtoToPosition(t, d).value).Ok?
    ensures var back := PositionToDto(t, DtoToPosition(t, d).value).value;
            && back.(location := d.location) == d
            && back.location.Some? && Lower(back.location.value) == Lower(d.location.value)
  {
    NameIdRoundTrip(t, d.location.value);
  }

  /** A location table that names every location, with distinct ids and names that
      differ even ignoring case. */
  predicate WellFormed(t: LocationTable) {
    && t.initialised
    && DistinctIds(t.rows)
    && (forall i :: 0 <= i < |t.rows| ==> t.rows[i].locationName.Some?)
    && (forall i, j :: 0 <= i < j < |t.rows| ==>
          Lower(t.rows[i].locationName.value) != Lower(t.rows[j].locationName.value))
  }

  /** The other round trip: on a well-formed table, a record whose location id
      resolves comes back unchanged from wire shape. */
  lemma PositionRoundTrip(t: LocationTable, p: OpenPosition)
    requires WellFormed(t)
    requires PositionToDto(t, p).Ok?
    ensures DtoToPosition(t, PositionToDto(t, p).value) == Ok(p)
  {
    var i := FirstIdMatch(t.rows, p.locationId).value;
    var name := t.rows[i].locationName.value;
    LowerIdempotent(name);
    assert NameMatches(t.rows[i], Lower(name));
    LocationIdByNameFindsPresentName(t, name, i);
    var k :| 0 <= k <= i && NameMatches(t.rows[k], Lower(name)) && LocationIdByName(t, name).value == t.rows[k].locationId;
    assert k == i;
  }
}
