/** ResponseEntity: a status, the Location header and a body. */
module Responses {
  import opened Common
  import opened Http
  import opened Entities

  datatype Body =
    | NoBody
    | LinkBody(link: Link)
    | CountBody(count: Count)
    | ErrorsBody(errors: Errors)
    | ViolationsBody(violations: Violations)

  datatype Response = Response(status: HttpStatus, location: Option<string>, body: Body)

  /** An error body's code is the status of the response that carries it. */
  predicate CodeMatchesStatus(r: Response) {
    match r.body
    case ErrorsBody(e) => e.code == r.status.Code()
    case ViolationsBody(v) => v.code == r.status.Code()
    case _ => true
  }

}
