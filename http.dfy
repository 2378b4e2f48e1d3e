/** The HTTP outcomes the admin, master and auth handlers answer with. */
module Http {
  datatype Reply =
    | Created(id: nat)    // 201 with the new row's id
    | Registered          // 201 with a message only
    | Added(count: nat)   // 201 "Successfully added N questions."
    | Ok                  // 200
    | BadRequest          // 400
    | NotFound            // 404
    | ServerError         // 500, after a rollback
}
