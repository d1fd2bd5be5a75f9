/**
 * One request through the whole application: the validated service boundary
 * (services/LinkServices.java) checks the parameters, the controller calls the
 * service, and the exception handler turns a failure into a response. The
 * environment decides the clock and where storage faults happen.
 */
module Application {
  import opened Common
  import opened Http
  import opened Entities
  import opened Responses
  import opened Repository
  import opened Validation
  import opened Service
  import opened ExceptionHandler
  import Controller

  /** The five endpoints of the link API. */
  datatype Request =
    | CountRequest
    | RedirectRequest(linkId: int)
    | InfoRequest(linkId: int)
    | AddRequest(link: Link)
    | DeleteRequest(linkId: int)

  /** The environment of one request: storage faults and the clock. */
  datatype Env = Env(fault: bool, countRowProduced: bool, save: SaveEnv, now: Timestamp)

  /** A constraint failure answers before the service, and so the store, is reached. */
  function Guarded(violations: seq<ConstraintViolation>, call: Outcome<Response>): Outcome<Response> {
    if violations != [] then ConstraintViolations(violations) else call
  }

  /** The store after a request and the response the client receives. */
  function Serve(s: StoreState, request: Request, env: Env, isUrl: string -> bool): (StoreState, Response) {
    match request
    case CountRequest =>
      (s, Resolve(Controller.Count(FromSize(SizeSpec(s, env.fault, env.countRowProduced)))))
    case RedirectRequest(linkId) =>
      (s, Resolve(Guarded(CheckLinkId("getUrl", linkId),
                          Controller.Redirect(UrlOf(FromFound(GetByIdSpec(s, linkId, env.fault)))))))
    case InfoRequest(linkId) =>
      (s, Resolve(Guarded(CheckLinkId("get", linkId),
                          Controller.Info(FromFound(GetByIdSpec(s, linkId, env.fault))))))
    case AddRequest(link) =>
      var violations := CheckLink(link, isUrl);
      (if violations != [] then s else SaveState(s, link, env.now, env.save),
       Resolve(Guarded(violations, Controller.Add(FromSaved(SaveResult(s, link, env.now, env.save))))))
    case DeleteRequest(linkId) =>
      var violations := CheckLinkId("delete", linkId);
      (if violations != [] then s else DeleteState(s, linkId, env.fault),
       Resolve(Guarded(violations, Controller.Delete(FromDeleted(DeleteResult(s, linkId, env.fault))))))
  }

  /** The repository calls a request makes: one, or none when validation rejects it. */
  function Calls(request: Request, isUrl: string -> bool): seq<Call> {
    match request
    case CountRequest => [SizeCall]
    case RedirectRequest(linkId) => if linkId > 0 then [GetByIdCall(linkId)] else []
    case InfoRequest(linkId) => if linkId > 0 then [GetByIdCall(linkId)] else []
    case AddRequest(link) => if ValidLink(link, isUrl) then [SaveCall(link)] else []
    case DeleteRequest(linkId) => if linkId > 0 then [DeleteByIdCall(linkId)] else []
  }

  /** The API: validation, then one call of the controller's service, then the handler. */
  class Api {
    const service: LinkService

    constructor (service: LinkService)
      ensures this.service == service
    {
      this.service := service;
    }

    method Handle(request: Request, env: Env, isUrl: string -> bool) returns (response: Response)
      requires service.repository.Valid()
      modifies service.repository
      ensures service.repository.Valid()
      ensures (service.repository.State(), response) == Serve(old(service.repository.State()), request, env, isUrl)
      ensures service.repository.log == old(service.repository.log) + Calls(request, isUrl)
    {
      match request {
        case CountRequest =>
          var count := service.Count(env.fault, env.countRowProduced);
          response := Resolve(Controller.Count(count));
        case RedirectRequest(linkId) =>
          var violations := CheckLinkId("getUrl", linkId);
          if violations != [] {
            response := Resolve(ConstraintViolations(violations));
          } else {
            var url := service.GetUrl(linkId, env.fault);
            response := Resolve(Controller.Redirect(url));
          }
        case InfoRequest(linkId) =>
          var violations := CheckLinkId("get", linkId);
          if violations != [] {
            response := Resolve(ConstraintViolations(violations));
          } else {
            var link := service.Get(linkId, env.fault);
            response := Resolve(Controller.Info(link));
          }
        case AddRequest(link) =>
          var violations := CheckLink(link, isUrl);
          if violations != [] {
            response := Resolve(ConstraintViolations(violations));
          } else {
            var saved := service.Add(link, env.now, env.save);
            response := Resolve(Controller.Add(saved));
          }
        case DeleteRequest(linkId) =>
          var violations := CheckLinkId("delete", linkId);
          if violations != [] {
            response := Resolve(ConstraintViolations(violations));
          } else {
            var done := service.Delete(linkId, env.fault);
            response := Resolve(Controller.Delete(done));
          }
      }
    }
  }

}
