/**
 * Controllers/BicycleController.cs: the five actions of `api/Bicycle` over the
 * injected `IRepository<Bicycle>`. The repository's rows are the map `table`
 * from id to bicycle; `nextId` is the store's identity counter, the id the next
 * `Add` hands out. The controller never runs `BicycleValidator`: every DTO
 * that reaches `AddBicycle` or `UpdateBicycle` is stored as it is.
 */
module BicycleApi {
  import opened Models
  import opened MappingProfile
  import opened Responses

  class BicycleController {
    var table: map<int, Bicycle>
    var nextId: int

    /** Every row is stored under its own id, and no id at or past `nextId` is taken. */
    ghost predicate Valid()
      reads this
    {
      forall k | k in table :: table[k].id == k && k < nextId
    }

    /** A controller over a repository already holding `rows`. */
    constructor (rows: map<int, Bicycle>, identitySeed: int)
      requires forall k | k in rows :: rows[k].id == k && k < identitySeed
      ensures Valid()
      ensures table == rows && nextId == identitySeed
    {
      table := rows;
      nextId := identitySeed;
    }

    /**
     * `GET api/Bicycle`: one summary per stored bicycle, in the repository's
     * (unspecified) order; the store is only read.
     */
    method GetAllBicycles() returns (result: ActionResult<seq<BicycleSummary>>)
      requires Valid()
      ensures result.Ok?
      ensures |result.value| == |table|
      ensures exists keys: seq<int> ::
        && Enumerates(keys, table.Keys)
        && |keys| == |result.value|
        && (forall i | 0 <= i < |keys| :: result.value[i] == ToBicycleSummary(table[keys[i]]))
    {
      var remaining := table.Keys;
      var summaries: seq<BicycleSummary> := [];
      ghost var keys: seq<int> := [];
      while remaining != {}
        invariant remaining <= table.Keys
        invariant forall i, j | 0 <= i < j < |keys| :: keys[i] != keys[j]
        invariant forall i | 0 <= i < |keys| :: keys[i] in table && keys[i] !in remaining
        invariant forall k | k in table :: k in remaining || k in keys
        invariant |summaries| == |keys|
        invariant forall i | 0 <= i < |keys| :: summaries[i] == ToBicycleSummary(table[keys[i]])
        decreases remaining
      {
        NonEmptyHasElement(remaining);
        var k :| k in remaining;
        summaries := summaries + [ToBicycleSummary(table[k])];
        keys := keys + [k];
        remaining := remaining - {k};
      }
      assert Enumerates(keys, table.Keys);
      EnumerationHasSetSize(keys, table.Keys);
      result := Ok(summaries);
    }

    /** `GET api/Bicycle/{id}`: the stored bicycle, or NotFound when there is none. */
    method GetBicycleById(id: int) returns (result: ActionResult<Bicycle>)
      requires Valid()
      ensures id !in table <==> result == NotFound
      ensures id in table ==> result == Ok(table[id]) && result.value.id == id
    {
      if id !in table {
        return NotFound;
      }
      return Ok(table[id]);
    }

    /**
     * `POST api/Bicycle`: maps the DTO to a new bicycle, stores it under a
     * fresh id and answers Created with that id and the DTO as received.
     */
    method AddBicycle(dto: BicycleDto) returns (result: ActionResult<BicycleDto>)
      requires Valid()
      modifies this
      ensures Valid()
      ensures result.Created? && result.body == dto
      ensures result.id !in old(table)
      ensures table == old(table)[result.id := ToBicycle(dto).(id := result.id)]
      ensures BicycleFields(table[result.id]) == dto
    {
      var bicycle := ToBicycle(dto);
      bicycle := bicycle.(id := nextId);
      table := table[bicycle.id := bicycle];
      nextId := nextId + 1;
      return Created(bicycle.id, dto);
    }

    /**
     * `PUT api/Bicycle/{id}`: NotFound when the id is absent; otherwise the
     * DTO is merged into the stored bicycle, which is written back under the
     * same id and returned with Ok (200), although the action's
     * documentation announces 204.
     */
    method UpdateBicycle(id: int, dto: BicycleDto) returns (result: ActionResult<Bicycle>)
      requires Valid()
      modifies this`table
      ensures Valid()
      ensures table.Keys == old(table).Keys
      ensures id !in old(table) ==> result == NotFound && table == old(table)
      ensures id in old(table) ==>
        && result == Ok(MergeBicycle(dto, old(table)[id]))
        && table == old(table)[id := MergeBicycle(dto, old(table)[id])]
    {
      if id !in table {
        return NotFound;
      }
      var bicycle := MergeBicycle(dto, table[id]);
      table := table[id := bicycle];
      return Ok(bicycle);
    }

    /** `DELETE api/Bicycle/{id}`: NotFound when absent; otherwise that row alone is removed. */
    method DeleteBicycle(id: int) returns (result: ActionResult<()>)
      requires Valid()
      modifies this`table
      ensures Valid()
      ensures id !in old(table) ==> result == NotFound && table == old(table)
      ensures id in old(table) ==>
        && result == NoContent
        && table == old(table) - {id}
        && |table| == |old(table)| - 1
    {
      if id !in table {
        return NotFound;
      }
      table := table - {id};
      assert table.Keys == old(table).Keys - {id};
      return NoContent;
    }
  }

  /** Adding a bicycle and reading it back by the returned id gives the DTO's fields. */
  method AddThenGet(c: BicycleController, dto: BicycleDto) returns (added: ActionResult<BicycleDto>, fetched: ActionResult<Bicycle>)
    requires c.Valid()
    modifies c
    ensures added.Created? && fetched.Ok?
    ensures fetched.value.id == added.id && BicycleFields(fetched.value) == dto
  {
    added := c.AddBicycle(dto);
    fetched := c.GetBicycleById(added.id);
  }

  /** After deleting a stored bicycle, reading that id gives NotFound. */
  method DeleteThenGet(c: BicycleController, id: int) returns (deleted: ActionResult<()>, fetched: ActionResult<Bicycle>)
    requires c.Valid() && id in c.table
    modifies c
    ensures deleted == NoContent && fetched == NotFound
  {
    deleted := c.DeleteBicycle(id);
    fetched := c.GetBicycleById(id);
  }
}
