/**
 * Controllers/BikePartController.cs: the five actions of `api/BikePart` over the
 * injected `IRepository<BikePart>`. The repository's rows are the map `table`
 * from id to bike part; `nextId` is the store's identity counter, the id the next
 * `Add` hands out. The controller never runs `BikePartValidator`: every DTO
 * that reaches `AddBikePart` or `UpdateBikePart` is stored as it is.
 */
module BikePartApi {
  import opened Models
  import opened MappingProfile
  import opened Responses

  class BikePartController {
    var table: map<int, BikePart>
    var nextId: int

    /** Every row is stored under its own id, and no id at or past `nextId` is taken. */
    ghost predicate Valid()
      reads this
    {
      forall k | k in table :: table[k].id == k && k < nextId
    }

    /** A controller over a repository already holding `rows`. */
    constructor (rows: map<int, BikePart>, identitySeed: int)
      requires forall k | k in rows :: rows[k].id == k && k < identitySeed
      ensures Valid()
      ensures table == rows && nextId == identitySeed
    {
      table := rows;
      nextId := identitySeed;
    }

    /**
     * `GET api/BikePart`: one summary per stored bike part, in the repository's
     * (unspecified) order; the store is only read.
     */
    method GetAllBikeParts() returns (result: ActionResult<seq<BikePartSummary>>)
      requires Valid()
      ensures result.Ok?
      ensures |result.value| == |table|
      ensures exists keys: seq<int> ::
        && Enumerates(keys, table.Keys)
        && |keys| == |result.value|
        && (forall i | 0 <= i < |keys| :: result.value[i] == ToBikePartSummary(table[keys[i]]))
    {
      var remaining := table.Keys;
      var summaries: seq<BikePartSummary> := [];
      ghost var keys: seq<int> := [];
      while remaining != {}
        invariant remaining <= table.Keys
        invariant forall i, j | 0 <= i < j < |keys| :: keys[i] != keys[j]
        invariant forall i | 0 <= i < |keys| :: keys[i] in table && keys[i] !in remaining
        invariant forall k | k in table :: k in remaining || k in keys
        invariant |summaries| == |keys|
        invariant forall i | 0 <= i < |keys| :: summaries[i] == ToBikePartSummary(table[keys[i]])
        decreases remaining
      {
        NonEmptyHasElement(remaining);
        var k :| k in remaining;
        summaries := summaries + [ToBikePartSummary(table[k])];
        keys := keys + [k];
        remaining := remaining - {k};
      }
      assert Enumerates(keys, table.Keys);
      EnumerationHasSetSize(keys, table.Keys);
      result := Ok(summaries);
    }

    /** `GET api/BikePart/{id}`: the stored bike part, or NotFound when there is none. */
    method GetBikePartById(id: int) returns (result: ActionResult<BikePart>)
      requires Valid()
      ensures id !in table <==> result == NotFound
      ensures id in table ==> result == Ok(table[id]) && result.value.id == id
    {
      if id !in table {
        return NotFound;
      }
      return Ok(table[id]);
    }

    /**
     * `POST api/BikePart`: maps the DTO to a new bike part, stores it under a
     * fresh id and answers Created with that id and the DTO as received.
     */
    method AddBikePart(dto: BikePartDto) returns (result: ActionResult<BikePartDto>)
      requires Valid()
      modifies this
      ensures Valid()
      ensures result.Created? && result.body == dto
      ensures result.id !in old(table)
      ensures table == old(table)[result.id := ToBikePart(dto).(id := result.id)]
      ensures BikePartFields(table[result.id]) == dto
    {
      var part := ToBikePart(dto);
      part := part.(id := nextId);
      table := table[part.id := part];
      nextId := nextId + 1;
      return Created(part.id, dto);
    }

    /**
     * `PUT api/BikePart/{id}`: NotFound when the id is absent; otherwise the
     * DTO is merged into the stored bike part, which is written back under the
     * same id and returned with Ok (200), although the action's
     * documentation announces 204.
     */
    method UpdateBikePart(id: int, dto: BikePartDto) returns (result: ActionResult<BikePart>)
      requires Valid()
      modifies this`table
      ensures Valid()
      ensures table.Keys == old(table).Keys
      ensures id !in old(table) ==> result == NotFound && table == old(table)
      ensures id in old(table) ==>
        && result == Ok(MergeBikePart(dto, old(table)[id]))
        && table == old(table)[id := MergeBikePart(dto, old(table)[id])]
    {
      if id !in table {
        return NotFound;
      }
      var part := MergeBikePart(dto, table[id]);
      table := table[id := part];
      return Ok(part);
    }

    /** `DELETE api/BikePart/{id}`: NotFound when absent; otherwise that row alone is removed. */
    method DeleteBikePart(id: int) returns (result: ActionResult<()>)
      requires Valid()
      modifies this`table
      ensures Valid()
      ensures id !in old(table) ==> result == NotFound && table == old(table)
      ensures id in old(table) ==>
        && result == NoContent
        && table == old(table) - {id}
        && |table| == |old(table)| - 1
    {
      if id !in table {
        return NotFound;
      }
      table := table - {id};
      assert table.Keys == old(table).Keys - {id};
      return NoContent;
    }
  }

  /** Adding a bike part and reading it back by the returned id gives the DTO's fields. */
  method AddThenGet(c: BikePartController, dto: BikePartDto) returns (added: ActionResult<BikePartDto>, fetched: ActionResult<BikePart>)
    requires c.Valid()
    modifies c
    ensures added.Created? && fetched.Ok?
    ensures fetched.value.id == added.id && BikePartFields(fetched.value) == dto
  {
    added := c.AddBikePart(dto);
    fetched := c.GetBikePartById(added.id);
  }

  /** After deleting a stored bike part, reading that id gives NotFound. */
  method DeleteThenGet(c: BikePartController, id: int) returns (deleted: ActionResult<()>, fetched: ActionResult<BikePart>)
    requires c.Valid() && id in c.table
    modifies c
    ensures deleted == NoContent && fetched == NotFound
  {
    deleted := c.DeleteBikePart(id);
    fetched := c.GetBikePartById(id);
  }
}
