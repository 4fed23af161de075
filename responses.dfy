/** What the REST endpoints answer, as outcomes rather than HTTP: the entity
    with 200 or 201, 204, or an error status with the names of the fields the
    error map reports. */
module Responses {
  import opened Common
  import opened Store

  datatype Response<+T> =
    | Ok(entity: T)                   // 200
    | Created(entity: T)              // 201
    | NoContent                       // 204
    | BadRequest(fields: set<string>) // 400
    | NotFound(fields: set<string>)   // 404
    | Conflict(fields: set<string>)   // 409
    | ServerError                     // 500

  /** An endpoint call: the store it leaves and its answer. */
  datatype Exchange<+T> = Exchange(state: Tables, response: Response<T>)

  /** The keys of the error map built from bean violations: their property paths. */
  function Fields(vs: set<Violation>): (r: set<string>)
    ensures forall v | v in vs :: v.property in r
    ensures forall p | p in r :: exists v | v in vs :: v.property == p
  {
    set v | v in vs :: v.property
  }
}
