/**
 * The application's exception handler
 * (exceptions/handlers/ApplicationExceptionHandler.java): each failure kind
 * becomes a response whose body's code is the response status.
 */
module ExceptionHandler {
  import opened Common
  import opened Http
  import opened Entities
  import opened Responses
  import opened Validation
  import opened Service

  /** EntityNotFoundException: 404, one Error with the exception's message. */
  function HandleNotFound(message: string): (r: Response)
    ensures r.status == HttpStatus.NotFound && r.location == None && r.body.ErrorsBody?
    ensures r.body.errors.code == r.status.Code() && r.body.errors.errors == [Error(message)]
  {
    Response(HttpStatus.NotFound, None, ErrorsBody(NewErrors(HttpStatus.NotFound, [Error(message)])))
  }

  /** ServerErrorException: 500, one Error with the exception's message. */
  function HandleServerError(message: string): (r: Response)
    ensures r.status == HttpStatus.InternalServerError && r.location == None && r.body.ErrorsBody?
    ensures r.body.errors.code == r.status.Code() && r.body.errors.errors == [Error(message)]
  {
    Response(HttpStatus.InternalServerError, None, ErrorsBody(NewErrors(HttpStatus.InternalServerError, [Error(message)])))
  }

  /** The name of the last node of a path, or null for an empty path. */
  function LastNodeName(path: seq<PathNode>): Option<string> {
    if path == [] then None else path[|path| - 1].name
  }

  /** getNameFieldFromPath: walks the path, keeping each node's name in turn. */
  method NameFieldFromPath(path: seq<PathNode>) returns (nameField: Option<string>)
    ensures path == [] ==> nameField == None
    ensures path != [] ==> nameField == path[|path| - 1].name
    ensures nameField == LastNodeName(path)
  {
    nameField := None;
    for i := 0 to |path|
      invariant i == 0 ==> nameField == None
      invariant i > 0 ==> nameField == path[i - 1].name
    {
      nameField := path[i].name;
    }
  }

  /**
   * ConstraintViolationException: 400, one Violation per constraint
   * violation, in the same order, naming the field at the end of its path.
   */
  function HandleConstraintViolation(violations: seq<ConstraintViolation>): (r: Response)
    ensures r.status == HttpStatus.BadRequest && r.location == None && r.body.ViolationsBody?
    ensures r.body.violations.code == r.status.Code()
    ensures |r.body.violations.violations| == |violations|
    ensures forall i :: 0 <= i < |violations| ==>
              r.body.violations.violations[i] == Violation(LastNodeName(violations[i].path), violations[i].message)
  {
    var entries := seq(|violations|, i requires 0 <= i < |violations| =>
                       Violation(LastNodeName(violations[i].path), violations[i].message));
    Response(HttpStatus.BadRequest, None, ViolationsBody(NewViolations(HttpStatus.BadRequest, entries)))
  }

  /** The field error of a rejected request body: the field and its default message. */
  datatype FieldError = FieldError(field: string, defaultMessage: string)

  /** MethodArgumentNotValidException: 400, exactly one Violation built from the field error. */
  function HandleMethodArgumentNotValid(fieldError: FieldError): (r: Response)
    ensures r.status == HttpStatus.BadRequest && r.location == None && r.body.ViolationsBody?
    ensures r.body.violations.code == r.status.Code()
    ensures r.body.violations.violations == [Violation(Some(fieldError.field), fieldError.defaultMessage)]
  {
    Response(HttpStatus.BadRequest, None,
             ViolationsBody(NewViolations(HttpStatus.BadRequest, [Violation(Some(fieldError.field), fieldError.defaultMessage)])))
  }

  /**
   * The response the client sees: the controller's own when the call
   * succeeded, otherwise the handler registered for the exception's kind.
   */
  function Resolve(outcome: Outcome<Response>): (r: Response)
    ensures outcome.Success? ==> r == outcome.value
    ensures outcome.LinkNotFound? ==> r == HandleNotFound(outcome.message)
    ensures outcome.ServerError? ==> r == HandleServerError(outcome.message)
    ensures outcome.ConstraintViolations? ==> r == HandleConstraintViolation(outcome.violations)
  {
    match outcome
    case Success(response) => response
    case LinkNotFound(message) => HandleNotFound(message)
    case ServerError(message) => HandleServerError(message)
    case ConstraintViolations(violations) => HandleConstraintViolation(violations)
  }

  /** In every handler's response, the body's code equals the response status. */
  lemma HandlersMatchCodeToStatus(message: string, violations: seq<ConstraintViolation>, fieldError: FieldError)
    ensures CodeMatchesStatus(HandleNotFound(message))
    ensures CodeMatchesStatus(HandleServerError(message))
    ensures CodeMatchesStatus(HandleConstraintViolation(violations))
    ensures CodeMatchesStatus(HandleMethodArgumentNotValid(fieldError))
  {
  }

}
