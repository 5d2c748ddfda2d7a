/** The position service: composes the adapter with the two stores. It adds two
    policies of its own: a DTO without a location is refused with NullResult before
    anything else happens on Add and Update, and an empty list is a NullResult on
    GetAll and GetAllLocations. Every other failure passes through unchanged. */
module Services {
  import opened Outcomes
  import opened Models
  import opened LocationRepository
  import opened Adapter
  import opened PositionRepository

  // ---------------------------------------------------------------------------
  // Specification of the read paths

  /** A store result translated to wire shape; a store failure passes through. */
  function Translated(t: LocationTable, res: Result<OpenPosition>): Result<OpenPositionDto> {
    var p :- res;
    PositionToDto(t, p)
  }

  /** Every record translated in order; the first record whose translation fails
      decides the failure. */
  function TranslateAll(t: LocationTable, ps: seq<OpenPosition>): (r: Result<seq<OpenPositionDto>>)
    ensures r.Ok? <==> forall i :: 0 <= i < |ps| ==> PositionToDto(t, ps[i]).Ok?
    ensures r.Ok? ==> |r.value| == |ps| && forall i :: 0 <= i < |ps| ==> PositionToDto(t, ps[i]) == Ok(r.value[i])
  {
    if ps == [] then Ok([])
    else
      assert forall i :: 1 <= i < |ps| ==> ps[i] == ps[1..][i - 1];
      match PositionToDto(t, ps[0])
      case Err(e) => Err(e)
      case Ok(d) =>
        match TranslateAll(t, ps[1..])
        case Err(e) => Err(e)
        case Ok(rest) => Ok([d] + rest)
  }

  /** A failed translation of a list fails with the error of some record, and every
      record before that one translates. */
  lemma {:induction false} TranslateAllFirstFailure(t: LocationTable, ps: seq<OpenPosition>)
    requires TranslateAll(t, ps).Err?
    ensures exists i :: 0 <= i < |ps| && PositionToDto(t, ps[i]) == Err(TranslateAll(t, ps).error) &&
                        forall j :: 0 <= j < i ==> PositionToDto(t, ps[j]).Ok?
  {
    if PositionToDto(t, ps[0]).Err? {
      assert PositionToDto(t, ps[0]) == Err(TranslateAll(t, ps).error);
    } else {
      var rest := ps[1..];
      TranslateAllFirstFailure(t, rest);
      var i :| 0 <= i < |rest| && PositionToDto(t, rest[i]) == Err(TranslateAll(t, rest).error) &&
               forall j :: 0 <= j < i ==> PositionToDto(t, rest[j]).Ok?;
      assert rest[i] == ps[i + 1];
      assert forall j :: 1 <= j < i + 1 ==> ps[j] == rest[j - 1];
    }
  }

  /** The failure of a translated list is that of the first record that fails. */
  lemma TranslateAllFailsAt(t: LocationTable, ps: seq<OpenPosition>, i: nat)
    requires i < |ps| && PositionToDto(t, ps[i]).Err?
    requires forall j :: 0 <= j < i ==> PositionToDto(t, ps[j]).Ok?
    ensures TranslateAll(t, ps) == Err(PositionToDto(t, ps[i]).error)
  {
    var r := TranslateAll(t, ps);
    TranslateAllFirstFailure(t, ps);
    var k :| 0 <= k < |ps| && PositionToDto(t, ps[k]) == Err(r.error) &&
             forall j :: 0 <= j < k ==> PositionToDto(t, ps[j]).Ok?;
    assert !(k < i) && !(i < k);
  }

  /** What the service's GetAll returns: every stored record translated, in table
      order; an empty or missing table, or a record whose location does not
      translate, is a failure. */
  function AllPositionDtos(t: LocationTable, initialised: bool, ps: seq<OpenPosition>): (r: Result<seq<OpenPositionDto>>)
    ensures !initialised ==> r == Err(Database(DefaultDatabaseMessage))
    ensures initialised && ps == [] ==> r == Err(NullResult)
    ensures r.Ok? <==> initialised && |ps| > 0 && forall i :: 0 <= i < |ps| ==> PositionToDto(t, ps[i]).Ok?
    ensures r.Ok? ==> |r.value| == |ps| && forall i :: 0 <= i < |ps| ==> PositionToDto(t, ps[i]) == Ok(r.value[i])
    ensures initialised && r.Err? && |ps| > 0 ==>
              exists i :: 0 <= i < |ps| && PositionToDto(t, ps[i]) == Err(r.error)
  {
    var rows :- ListAll(initialised, ps);
    if TranslateAll(t, rows).Err? then
      TranslateAllFirstFailure(t, rows);
      Err(TranslateAll(t, rows).error)
    else
      var list := TranslateAll(t, rows).value;
      if |list| > 0 then Ok(list) else Err(NullResult)
  }

  /** The names of the locations, in table order, with null names left out. */
  function NonNullNames(rows: seq<Location>): (r: seq<string>)
    ensures |r| <= |rows|
    ensures forall s :: s in r <==> exists i :: 0 <= i < |rows| && rows[i].locationName == Some(s)
    ensures r == [] <==> forall i :: 0 <= i < |rows| ==> rows[i].locationName.None?
  {
    if rows == [] then []
    else
      assert forall i :: 1 <= i < |rows| ==> rows[i] == rows[1..][i - 1];
      match rows[0].locationName
      case Some(name) => [name] + NonNullNames(rows[1..])
      case None => NonNullNames(rows[1..])
  }

  /** The filter keeps table order: it distributes over concatenation. */
  lemma {:induction false} NonNullNamesAppend(a: seq<Location>, b: seq<Location>)
    ensures NonNullNames(a + b) == NonNullNames(a) + NonNullNames(b)
  {
    if a != [] {
      assert (a + b)[1..] == a[1..] + b;
      NonNullNamesAppend(a[1..], b);
    } else {
      assert a + b == b;
    }
  }

  /** With no null name, the list is exactly the names, row by row. */
  lemma {:induction false} NonNullNamesWhenAllPresent(rows: seq<Location>)
    requires forall i :: 0 <= i < |rows| ==> rows[i].locationName.Some?
    ensures |NonNullNames(rows)| == |rows|
    ensures forall i :: 0 <= i < |rows| ==> NonNullNames(rows)[i] == rows[i].locationName.value
  {
    if rows != [] {
      NonNullNamesWhenAllPresent(rows[1..]);
      assert forall i :: 1 <= i < |rows| ==> rows[i] == rows[1..][i - 1];
    }
  }

  /** GetAllLocations: the non-null names in table order; a store failure passes
      through, and a table whose names are all null (or that is empty) is a NullResult. */
  function GetAllLocations(t: LocationTable): (r: Result<seq<string>>)
    ensures LocationRepository.GetAll(t).Err? ==> r == Err(LocationRepository.GetAll(t).error)
    ensures r.Ok? ==> r.value == NonNullNames(t.rows) && r.value != []
    ensures t.initialised ==> (r == Err(NullResult) <==> forall i :: 0 <= i < |t.rows| ==> t.rows[i].locationName.None?)
    ensures LocationRepository.GetAll(t).Ok? ==> (r.Ok? <==> exists i :: 0 <= i < |t.rows| && t.rows[i].locationName.Some?)
  {
    var rows :- LocationRepository.GetAll(t);
    var names := NonNullNames(rows);
    if |names| > 0 then Ok(names) else Err(NullResult)
  }

  /** Two rows with null names give NullResult; one null and one named row give the
      one name. */
  lemma GetAllLocationsWithNullNames()
    ensures GetAllLocations(LocationTable(true, [Location(1, None), Location(2, None)])) == Err(NullResult)
    ensures GetAllLocations(LocationTable(true, [Location(1, Some("chennai")), Location(2, None)])) == Ok(["chennai"])
  {
    var rows := [Location(1, Some("chennai")), Location(2, None)];
    assert rows[1..] == [Location(2, None)];
    assert NonNullNames(rows[1..]) == [];
    assert NonNullNames(rows) == ["chennai"];
  }

  // ---------------------------------------------------------------------------
  // Properties of the write paths

  /** A record stored by Add always translates back: its location id was just
      resolved from the same table, so Add never fails after it has stored. */
  lemma AddedRecordTranslates(t: LocationTable, d: OpenPositionDto, assignedId: int)
    requires d.location.Some? && DtoToPosition(t, d).Ok?
    ensures PositionToDto(t, DtoToPosition(t, d).value.(positionId := assignedId)).Ok?
  {
    var id := LocationIdByName(t, d.location.value).value;
    var i :| 0 <= i < |t.rows| && NameMatches(t.rows[i], Lower(d.location.value)) && t.rows[i].locationId == id;
    assert FirstIdMatch(t.rows, id).Some?;
  }

  /** Add followed by Get of the key the database assigned gives back the DTO: the
      same key, the six other non-location fields as given, and the location
      name as given up to case. */
  lemma GetAfterAdd(t: LocationTable, ps: seq<OpenPosition>, d: OpenPositionDto, assignedId: int)
    requires DistinctIds(t.rows) && KeysUnique(ps)
    requires forall j :: 0 <= j < |ps| ==> ps[j].positionId != assignedId
    requires d.location.Some? && DtoToPosition(t, d).Ok?
    ensures var stored := DtoToPosition(t, d).value.(positionId := assignedId);
            var got := Translated(t, Lookup(true, ps + [stored], assignedId));
            && got == PositionToDto(t, stored)
            && got.Ok?
            && got.value.(location := d.location) == d.(positionId := assignedId)
            && got.value.location.Some? && Lower(got.value.location.value) == Lower(d.location.value)
  {
    var stored := DtoToPosition(t, d).value.(positionId := assignedId);
    LookupAfterAppend(ps, stored, assignedId);
    DtoRoundTrip(t, d);
    assert PositionToDto(t, stored).value.location == PositionToDto(t, DtoToPosition(t, d).value).value.location;
  }

  /** After Update, Get of the same key gives the DTO of the incoming record. */
  lemma GetAfterUpdate(t: LocationTable, ps: seq<OpenPosition>, e: OpenPosition)
    requires KeysUnique(ps) && IndexOfId(ps, e.positionId).Some?
    ensures var i := IndexOfId(ps, e.positionId).value;
            Translated(t, Lookup(true, ps[i := e], e.positionId)) == PositionToDto(t, e)
  {
    LookupAfterOverwrite(ps, e, e.positionId);
  }

  /** The end-to-end case with Chennai seeded as location 1: the DTO resolves to
      location id 1 under either spelling of the name, and the record stored under
      key 1 comes back as the same DTO with key 1 and location "Chennai". */
  lemma AddChennaiScenario()
    ensures var t := LocationTable(true, [Location(1, Some("Chennai"))]);
            var d := OpenPositionDto(0, Some("Developer"), Some("Engineering"), Some("Job description"),
                                     Some("Chennai"), Some("Skills"), Some("Education"), Some(2));
            var e := OpenPosition(0, Some("Developer"), Some("Engineering"), Some("Job description"),
                                  1, Some("Skills"), Some("Education"), Some(2));
            && LocationIdByName(t, "chennai") == LocationIdByName(t, "Chennai") == Ok(1)
            && DtoToPosition(t, d) == Ok(e)
            && PositionToDto(t, e.(positionId := 1)) == Ok(d.(positionId := 1))
  {
    var t := LocationTable(true, [Location(1, Some("Chennai"))]);
    assert Lower("Chennai") == "chennai" by {
      assert LowerChar('C') == 'c';
      assert "Chennai"[1..] == "hennai";
    }
    LowerIdempotent("Chennai");
    assert FirstNameMatch(t.rows, "chennai") == Ok(0);
    assert FirstIdMatch(t.rows, 1) == Some(0);
  }

  // ---------------------------------------------------------------------------
  // The service

  class PositionService {
    const repo: PositionRepo
    /** The location table, which the adapter re-reads on every lookup. */
    const locations: LocationTable

    constructor (repo: PositionRepo, locations: LocationTable)
      ensures this.repo == repo && this.locations == locations
    {
      this.repo := repo;
      this.locations := locations;
    }

    /** Adds a position given in wire shape under the key the database assigns. */
    method Add(item: OpenPositionDto, assignedId: int) returns (r: Result<OpenPositionDto>)
      requires repo.Valid()
      requires forall j :: 0 <= j < |repo.positions| ==> repo.positions[j].positionId != assignedId
      modifies repo
      ensures repo.Valid() && repo.initialised == old(repo.initialised)
      ensures item.location.None? ==> r == Err(NullResult) && repo.positions == old(repo.positions)
      ensures item.location.Some? && DtoToPosition(locations, item).Err? ==>
                r == Err(DtoToPosition(locations, item).error) && repo.positions == old(repo.positions)
      ensures item.location.Some? && DtoToPosition(locations, item).Ok? && !old(repo.initialised) ==>
                r == Err(Database(DefaultDatabaseMessage)) && repo.positions == old(repo.positions)
      ensures item.location.Some? && DtoToPosition(locations, item).Ok? && old(repo.initialised) ==>
                var stored := DtoToPosition(locations, item).value.(positionId := assignedId);
                && repo.positions == old(repo.positions) + [stored]
                && r == PositionToDto(locations, stored)
                && r.Ok?
    {
      if item.location.None? {
        return Err(NullResult);
      }
      var position :- DtoToPosition(locations, item);
      var added :- repo.Add(position, assignedId);
      AddedRecordTranslates(locations, item, assignedId);
      r := PositionToDto(locations, added);
    }

    /** Removes the position with key `key` and returns it in wire shape. */
    method Delete(key: int) returns (r: Result<OpenPositionDto>)
      requires repo.Valid()
      modifies repo
      ensures repo.Valid() && repo.initialised == old(repo.initialised)
      ensures r == Translated(locations, old(Lookup(repo.initialised, repo.positions, key)))
      ensures old(Lookup(repo.initialised, repo.positions, key)).Ok? ==>
                var i := IndexOfId(old(repo.positions), key).value;
                repo.positions == old(repo.positions)[..i] + old(repo.positions)[i + 1..]
      ensures old(Lookup(repo.initialised, repo.positions, key)).Err? ==> repo.positions == old(repo.positions)
    {
      var removed :- repo.Delete(key);
      r := PositionToDto(locations, removed);
    }

    /** The position with key `key`, in wire shape. */
    method Get(key: int) returns (r: Result<OpenPositionDto>)
      ensures r == Translated(locations, Lookup(repo.initialised, repo.positions, key))
    {
      var found :- repo.Get(key);
      r := PositionToDto(locations, found);
    }

    /** Every position in wire shape, in table order. */
    method GetAll() returns (r: Result<seq<OpenPositionDto>>)
      ensures r == AllPositionDtos(locations, repo.initialised, repo.positions)
    {
      var ps :- repo.GetAll();
      var list: seq<OpenPositionDto> := [];
      var i := 0;
      while i < |ps|
        invariant 0 <= i <= |ps|
        invariant |list| == i
        invariant forall k :: 0 <= k < i ==> PositionToDto(locations, ps[k]) == Ok(list[k])
      {
        var d := PositionToDto(locations, ps[i]);
        if d.Err? {
          TranslateAllFailsAt(locations, ps, i);
          return Err(d.error);
        }
        list := list + [d.value];
        i := i + 1;
      }
      var all := TranslateAll(locations, ps);
      assert all.Ok? && |all.value| == |list|;
      assert forall k :: 0 <= k < |list| ==> all.value[k] == list[k];
      assert all.value == list;
      r := if |list| > 0 then Ok(list) else Err(NullResult);
    }

    /** Overwrites the stored position whose key is `item.positionId` with the
        incoming one and returns the stored record in wire shape. */
    method Update(item: OpenPositionDto) returns (r: Result<OpenPositionDto>)
      requires repo.Valid()
      modifies repo
      ensures repo.Valid() && repo.initialised == old(repo.initialised)
      ensures item.location.None? ==> r == Err(NullResult) && repo.positions == old(repo.positions)
      ensures item.location.Some? && DtoToPosition(locations, item).Err? ==>
                r == Err(DtoToPosition(locations, item).error) && repo.positions == old(repo.positions)
      ensures item.location.Some? && DtoToPosition(locations, item).Ok? ==>
                var found := old(Lookup(repo.initialised, repo.positions, item.positionId));
                && (found.Err? ==> r == Err(found.error) && repo.positions == old(repo.positions))
                && (found.Ok? ==>
                      var i := IndexOfId(old(repo.positions), item.positionId).value;
                      && repo.positions == old(repo.positions)[i := DtoToPosition(locations, item).value]
                      && r == PositionToDto(locations, DtoToPosition(locations, item).value))
    {
      if item.location.None? {
        return Err(NullResult);
      }
      var position :- DtoToPosition(locations, item);
      if repo.initialised && IndexOfId(repo.positions, position.positionId).Some? {
        LookupAfterOverwrite(repo.positions, position, position.positionId);
      }
      var updated :- repo.Update(position);
      r := PositionToDto(locations, updated);
    }
  }
}
