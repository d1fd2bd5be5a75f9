/**
 * The link controller (controllers/LinkController.java). Each handler makes
 * one service call and builds one response from its value; a failed call
 * propagates unchanged (to the exception handler). Each function here takes
 * the outcome of that one service call.
 */
module Controller {
  import opened Common
  import opened Http
  import opened Entities
  import opened Responses
  import opened Service

  /** GET /count: 200 with the Count as body. */
  function Count(count: Outcome<Entities.Count>): (r: Outcome<Response>)
    ensures r.Success? <==> count.Success?
    ensures r.Success? ==> r.value.status == HttpStatus.Ok && r.value.location == None && r.value.body == CountBody(count.value)
    ensures !count.Success? ==> r == count.Cast()
  {
    if count.Success? then Success(Response(HttpStatus.Ok, None, CountBody(count.value))) else count.Cast()
  }

  /** GET /{linkId}: 302 with Location set to the url and no body. */
  function Redirect(url: Outcome<string>): (r: Outcome<Response>)
    ensures r.Success? <==> url.Success?
    ensures r.Success? ==> r.value.status == HttpStatus.Found && r.value.location == Some(url.value) && r.value.body == NoBody
    ensures !url.Success? ==> r == url.Cast()
  {
    if url.Success? then Success(Response(HttpStatus.Found, Some(url.value), NoBody)) else url.Cast()
  }

  /** GET /{linkId}/info: 200 with the link as body. */
  function Info(link: Outcome<Link>): (r: Outcome<Response>)
    ensures r.Success? <==> link.Success?
    ensures r.Success? ==> r.value.status == HttpStatus.Ok && r.value.location == None && r.value.body == LinkBody(link.value)
    ensures !link.Success? ==> r == link.Cast()
  {
    if link.Success? then Success(Response(HttpStatus.Ok, None, LinkBody(link.value))) else link.Cast()
  }

  /** POST /: 201 with the saved link as body. */
  function Add(saved: Outcome<Link>): (r: Outcome<Response>)
    ensures r.Success? <==> saved.Success?
    ensures r.Success? ==> r.value.status == HttpStatus.Created && r.value.location == None && r.value.body == LinkBody(saved.value)
    ensures !saved.Success? ==> r == saved.Cast()
  {
    if saved.Success? then Success(Response(HttpStatus.Created, None, LinkBody(saved.value))) else saved.Cast()
  }

  /** DELETE /{linkId}: 204 with no body, only once the delete completed. */
  function Delete(done: Outcome<()>): (r: Outcome<Response>)
    ensures r.Success? <==> done.Success?
    ensures r.Success? ==> r.value == Response(HttpStatus.NoContent, None, NoBody)
    ensures !done.Success? ==> r == done.Cast()
  {
    if done.Success? then Success(Response(HttpStatus.NoContent, None, NoBody)) else done.Cast()
  }

}
