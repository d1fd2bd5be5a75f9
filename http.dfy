/** The HTTP statuses the link API answers with (Spring's HttpStatus). */
module Http {

  datatype HttpStatus = Ok | Created | Found | NoContent | BadRequest | NotFound | InternalServerError {

    /** HttpStatus.value(): the numeric status code. */
    function Code(): int {
      match this
      case Ok => 200
      case Created => 201
      case Found => 302
      case NoContent => 204
      case BadRequest => 400
      case NotFound => 404
      case InternalServerError => 500
    }
  }

}
