/**
 * What a controller action hands back to ASP.NET, without the HTTP details:
 * `Ok(...)` (200), `CreatedAtAction(...)` (201, with the new id for the
 * location), `NotFound()` (404) and `NoContent()` (204).
 */
module Responses {
  datatype ActionResult<T> = Ok(value: T) | Created(id: int, body: T) | NotFound | NoContent

  /** `keys` lists every element of `s`, each exactly once, in some order. */
  ghost predicate Enumerates(keys: seq<int>, s: set<int>) {
    && (forall i, j | 0 <= i < j < |keys| :: keys[i] != keys[j])
    && (forall i | 0 <= i < |keys| :: keys[i] in s)
    && (forall k | k in s :: k in keys)
  }

  /** An enumeration has exactly as many entries as the set has elements. */
  lemma {:induction false} EnumerationHasSetSize(keys: seq<int>, s: set<int>)
    requires Enumerates(keys, s)
    ensures |keys| == |s|
  {
    if keys == [] {
      assert forall x | x in s :: x in keys;
      assert s == {};
    } else {
      var rest := keys[1..];
      var k := keys[0];
      assert Enumerates(rest, s - {k}) by {
        forall i | 0 <= i < |rest| ensures rest[i] in s - {k} {
          assert rest[i] == keys[i + 1];
        }
        forall x | x in s - {k} ensures x in rest {
          var i :| 0 <= i < |keys| && keys[i] == x;
          assert i != 0;
          assert rest[i - 1] == x;
        }
      }
      EnumerationHasSetSize(rest, s - {k});
    }
  }

  /** A non-empty key set has an element to pick. */
  lemma NonEmptyHasElement(s: set<int>)
    requires s != {}
    ensures exists k :: k in s
  {
    if !exists k :: k in s {
      assert false;
    }
  }
}
