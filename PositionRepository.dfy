/** The position store: the OpenPositions table of the database context, kept as a
    sequence in table order, and a flag that is false when the context's table is
    null. Add, Update and Delete change the table in place. */
module PositionRepository {
  import opened Outcomes
  import opened Models

  // ---------------------------------------------------------------------------
  // Specification of the queries

  /** Index of the first row whose key is `key`, if there is one. */
  function IndexOfId(ps: seq<OpenPosition>, key: int): (r: Option<nat>)
    ensures r.Some? ==> r.value < |ps| && ps[r.value].positionId == key
    ensures r.Some? ==> forall j :: 0 <= j < r.value ==> ps[j].positionId != key
    ensures r.None? <==> forall j :: 0 <= j < |ps| ==> ps[j].positionId != key
  {
    if ps == [] then None
    else if ps[0].positionId == key then Some(0)
    else
      match IndexOfId(ps[1..], key)
      case Some(i) => Some(i + 1)
      case None => None
  }

  /** What Get(key) returns: the first row with that key; NullResult when there is
      none; a Database error when the table is missing. */
  function Lookup(initialised: bool, ps: seq<OpenPosition>, key: int): (r: Result<OpenPosition>)
    ensures !initialised ==> r == Err(Database(DefaultDatabaseMessage))
    ensures initialised ==> (r.Ok? <==> exists j :: 0 <= j < |ps| && ps[j].positionId == key)
    ensures initialised && r.Err? ==> r.error == NullResult
    ensures r.Ok? ==> r.value in ps && r.value.positionId == key
  {
    if !initialised then Err(Database(DefaultDatabaseMessage))
    else
      match IndexOfId(ps, key)
      case None => Err(NullResult)
      case Some(i) => Ok(ps[i])
  }

  /** What GetAll() returns: every row in table order; NullResult for an empty table;
      a Database error when the table is missing. */
  function ListAll(initialised: bool, ps: seq<OpenPosition>): (r: Result<seq<OpenPosition>>)
    ensures r.Ok? <==> initialised && |ps| > 0
    ensures r.Ok? ==> r.value == ps
    ensures !initialised ==> r == Err(Database(DefaultDatabaseMessage))
    ensures initialised && ps == [] ==> r == Err(NullResult)
  {
    if !initialised then Err(Database(DefaultDatabaseMessage))
    else if |ps| > 0 then Ok(ps)
    else Err(NullResult)
  }

  /** The stored record after Update has copied the incoming record's fields onto it:
      every field but the key comes from `incoming`. */
  function Overwrite(existing: OpenPosition, incoming: OpenPosition): (r: OpenPosition)
    ensures r == incoming.(positionId := existing.positionId)
  {
    existing.(roleName := incoming.roleName,
              domain := incoming.domain,
              jobDescription := incoming.jobDescription,
              locationId := incoming.locationId,
              reqSkills := incoming.reqSkills,
              educationalQual := incoming.educationalQual,
              experience := incoming.experience)
  }

  // ---------------------------------------------------------------------------
  // How each change of the table affects later lookups

  /** Appending a record under an unused key keeps keys unique; that key then finds
      the new record and every other key finds what it found before. */
  lemma {:induction false} LookupAfterAppend(ps: seq<OpenPosition>, rec: OpenPosition, key: int)
    requires KeysUnique(ps)
    requires forall j :: 0 <= j < |ps| ==> ps[j].positionId != rec.positionId
    ensures KeysUnique(ps + [rec])
    ensures Lookup(true, ps + [rec], key) == if key == rec.positionId then Ok(rec) else Lookup(true, ps, key)
  {
    var qs := ps + [rec];
    if key == rec.positionId {
      assert qs[|ps|].positionId == key;
      assert IndexOfId(qs, key).Some?;
    } else {
      match IndexOfId(ps, key)
      case None =>
        assert forall j :: 0 <= j < |qs| ==> qs[j].positionId != key by {
          forall j | 0 <= j < |qs| ensures qs[j].positionId != key {
            if j < |ps| { assert qs[j] == ps[j]; }
          }
        }
      case Some(i) =>
        assert qs[i] == ps[i];
        assert IndexOfId(qs, key).Some?;
        var k := IndexOfId(qs, key).value;
        assert k <= i;
        assert qs[k] == ps[k];
    }
  }

  /** Overwriting the row that a key finds: the row then equals the incoming record,
      keys stay unique, that key finds the incoming record and every other key finds
      what it found before. */
  lemma LookupAfterOverwrite(ps: seq<OpenPosition>, item: OpenPosition, key: int)
    requires KeysUnique(ps)
    requires IndexOfId(ps, item.positionId).Some?
    ensures var i := IndexOfId(ps, item.positionId).value;
            && Overwrite(ps[i], item) == item
            && KeysUnique(ps[i := item])
            && Lookup(true, ps[i := item], key) == if key == item.positionId then Ok(item) else Lookup(true, ps, key)
  {
    var i := IndexOfId(ps, item.positionId).value;
    var qs := ps[i := item];
    if key != item.positionId {
      match IndexOfId(ps, key)
      case None =>
        assert forall j :: 0 <= j < |qs| ==> qs[j].positionId != key;
      case Some(m) =>
        assert m != i && qs[m] == ps[m];
        assert IndexOfId(qs, key).Some?;
        var k := IndexOfId(qs, key).value;
        assert k <= m && qs[k] == ps[k];
    } else {
      assert qs[i].positionId == key;
    }
  }

  /** The rows left after removing row `i`, in their order. */
  lemma RemoveAtShifts(ps: seq<OpenPosition>, i: nat)
    requires i < |ps|
    ensures var qs := ps[..i] + ps[i + 1..];
            && |qs| == |ps| - 1
            && (forall j :: 0 <= j < i ==> qs[j] == ps[j])
            && (forall j :: i <= j < |qs| ==> qs[j] == ps[j + 1])
  {
  }

  /** Removing any row keeps keys unique. */
  lemma RemoveKeepsKeysUnique(ps: seq<OpenPosition>, i: nat)
    requires KeysUnique(ps) && i < |ps|
    ensures KeysUnique(ps[..i] + ps[i + 1..])
  {
    var qs := ps[..i] + ps[i + 1..];
    RemoveAtShifts(ps, i);
    forall a, b | 0 <= a < b < |qs| ensures qs[a].positionId != qs[b].positionId {
      var a' := if a < i then a else a + 1;
      var b' := if b < i then b else b + 1;
      assert qs[a] == ps[a'] && qs[b] == ps[b'] && a' < b';
    }
  }

  /** After removing row `i`, a key found by no other row is found nowhere. */
  lemma RemoveHidesKey(ps: seq<OpenPosition>, i: nat, key: int)
    requires i < |ps|
    requires forall j :: 0 <= j < |ps| && j != i ==> ps[j].positionId != key
    ensures IndexOfId(ps[..i] + ps[i + 1..], key).None?
  {
    var qs := ps[..i] + ps[i + 1..];
    RemoveAtShifts(ps, i);
    forall j | 0 <= j < |qs| ensures qs[j].positionId != key {
      var j' := if j < i then j else j + 1;
      assert qs[j] == ps[j'];
    }
  }

  /** The first row with a key is determined by the rows alone. */
  lemma IndexOfIdAt(ps: seq<OpenPosition>, key: int, k: nat)
    requires k < |ps| && ps[k].positionId == key
    requires forall j :: 0 <= j < k ==> ps[j].positionId != key
    ensures IndexOfId(ps, key) == Some(k)
  {
    var r := IndexOfId(ps, key);
    assert r.Some?;
    assert !(r.value < k) && !(k < r.value);
  }

  /** After removing row `i`, a key whose first row is `m != i` finds the same
      record at its shifted position. */
  lemma RemoveKeepsOtherMatch(ps: seq<OpenPosition>, qs: seq<OpenPosition>, i: nat, key: int)
    requires i < |ps| && |qs| == |ps| - 1
    requires forall j :: 0 <= j < i ==> qs[j] == ps[j]
    requires forall j :: i <= j < |qs| ==> qs[j] == ps[j + 1]
    requires IndexOfId(ps, key).Some? && IndexOfId(ps, key).value != i
    ensures IndexOfId(qs, key).Some?
    ensures qs[IndexOfId(qs, key).value] == ps[IndexOfId(ps, key).value]
  {
    var m := IndexOfId(ps, key).value;
    var m' := if m < i then m else m - 1;
    assert qs[m'] == ps[m];
    forall j | 0 <= j < m' ensures qs[j].positionId != key {
      var j' := if j < i then j else j + 1;
      assert qs[j] == ps[j'] && j' < m;
    }
    IndexOfIdAt(qs, key, m');
  }

  /** Removing the row that a key finds: keys stay unique, the key no longer finds
      anything, and every other key finds what it found before. */
  lemma LookupAfterRemove(ps: seq<OpenPosition>, removed: int, key: int)
    requires KeysUnique(ps)
    requires IndexOfId(ps, removed).Some?
    ensures var i := IndexOfId(ps, removed).value;
            var qs := ps[..i] + ps[i + 1..];
            && KeysUnique(qs)
            && Lookup(true, qs, key) == if key == removed then Err(NullResult) else Lookup(true, ps, key)
  {
    var i := IndexOfId(ps, removed).value;
    RemoveKeepsKeysUnique(ps, i);
    if key == removed {
      RemoveHidesKey(ps, i, key);
    } else if IndexOfId(ps, key).None? {
      RemoveHidesKey(ps, i, key);
    } else {
      RemoveAtShifts(ps, i);
      RemoveKeepsOtherMatch(ps, ps[..i] + ps[i + 1..], i, key);
    }
  }

  // ---------------------------------------------------------------------------
  // The store

  class PositionRepo {
    /** False when the context or its OpenPositions table is null. */
    var initialised: bool
    /** The OpenPositions table in table order. */
    var positions: seq<OpenPosition>

    /** The key of the table is unique. */
    ghost predicate Valid()
      reads this
    {
      KeysUnique(positions)
    }

    constructor (initialised: bool, positions: seq<OpenPosition>)
      requires KeysUnique(positions)
      ensures Valid()
      ensures this.initialised == initialised && this.positions == positions
    {
      this.initialised := initialised;
      this.positions := positions;
    }

    /** Inserts `item` under the key the database assigns, `assignedId`, and returns the
        stored record; a missing table is a Database error and changes nothing. */
    method Add(item: OpenPosition, assignedId: int) returns (r: Result<OpenPosition>)
      requires Valid()
      requires forall j :: 0 <= j < |positions| ==> positions[j].positionId != assignedId
      modifies this
      ensures Valid() && initialised == old(initialised)
      ensures old(initialised) ==> r == Ok(item.(positionId := assignedId))
      ensures old(initialised) ==> positions == old(positions) + [r.value]
      ensures !old(initialised) ==> r == Err(Database(DefaultDatabaseMessage)) && positions == old(positions)
    {
      if initialised {
        var stored := item.(positionId := assignedId);
        LookupAfterAppend(positions, stored, assignedId);
        positions := positions + [stored];
        r := Ok(stored);
      } else {
        r := Err(Database(DefaultDatabaseMessage));
      }
    }

    /** The first record whose key is `key`. */
    method Get(key: int) returns (r: Result<OpenPosition>)
      ensures r == Lookup(initialised, positions, key)
    {
      if initialised {
        var i := IndexOfId(positions, key);
        if i.Some? {
          r := Ok(positions[i.value]);
        } else {
          r := Err(NullResult);
        }
      } else {
        r := Err(Database(DefaultDatabaseMessage));
      }
    }

    /** Every record, in table order. */
    method GetAll() returns (r: Result<seq<OpenPosition>>)
      ensures r == ListAll(initialised, positions)
    {
      if initialised {
        if |positions| > 0 {
          r := Ok(positions);
        } else {
          r := Err(NullResult);
        }
      } else {
        r := Err(Database(DefaultDatabaseMessage));
      }
    }

    /** Overwrites, in place, every field but the key of the record whose key is
        `item.positionId`, and returns it; fails as Get does and then changes nothing. */
    method Update(item: OpenPosition) returns (r: Result<OpenPosition>)
      requires Valid()
      modifies this
      ensures Valid() && initialised == old(initialised)
      ensures r.Ok? <==> old(Lookup(initialised, positions, item.positionId)).Ok?
      ensures r.Err? ==> r == old(Lookup(initialised, positions, item.positionId)) && positions == old(positions)
      ensures r.Ok? ==> var i := IndexOfId(old(positions), item.positionId).value;
                        && r.value == Overwrite(old(positions)[i], item)
                        && positions == old(positions)[i := r.value]
    {
      if initialised {
        var found := Get(item.positionId);
        if found.Ok? {
          var i := IndexOfId(positions, item.positionId).value;
          var updated := Overwrite(positions[i], item);
          LookupAfterOverwrite(positions, item, item.positionId);
          positions := positions[i := updated];
          r := Ok(updated);
        } else {
          r := Err(found.error);
        }
      } else {
        r := Err(Database(DefaultDatabaseMessage));
      }
    }

    /** Removes the record whose key is `key` and returns it; fails as Get does and
        then changes nothing. */
    method Delete(key: int) returns (r: Result<OpenPosition>)
      requires Valid()
      modifies this
      ensures Valid() && initialised == old(initialised)
      ensures r == old(Lookup(initialised, positions, key))
      ensures r.Ok? ==> var i := IndexOfId(old(positions), key).value;
                        positions == old(positions)[..i] + old(positions)[i + 1..]
      ensures r.Err? ==> positions == old(positions)
    {
      if initialised {
        var found := Get(key);
        if found.Ok? {
          var i := IndexOfId(positions, key).value;
          LookupAfterRemove(positions, key, key);
          positions := positions[..i] + positions[i + 1..];
          r := found;
        } else {
          r := found;
        }
      } else {
        r := Err(Database(DefaultDatabaseMessage));
      }
    }
  }
}
