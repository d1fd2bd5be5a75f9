/**
 * The link service (services/LinkService.java): it calls the repository once
 * per operation and translates the result. An empty result becomes
 * LinkNotFound, a storage fault becomes ServerError, anything else passes
 * through. Exceptions are returned as an Outcome instead of being thrown.
 */
module Service {
  import opened Common
  import opened Entities
  import opened Repository
  import opened Validation

  const LinkNotFoundMessage: string := "Ссылка не найдена."
  const ServerErrorMessage: string := "Ошибка при работе с базой данных."

  /**
   * The result of a service call: a value, or the exception it ends with
   * (LinkNotFoundException, ServerErrorException, or the
   * ConstraintViolationException raised by the validated boundary).
   */
  datatype Outcome<+T> =
    | Success(value: T)
    | LinkNotFound(message: string)
    | ServerError(message: string)
    | ConstraintViolations(violations: seq<ConstraintViolation>)
  {
    /** The same failure, at another value type: an exception passing through. */
    function Cast<U>(): Outcome<U>
      requires !Success?
    {
      match this
      case LinkNotFound(m) => LinkNotFound(m)
      case ServerError(m) => ServerError(m)
      case ConstraintViolations(vs) => ConstraintViolations(vs)
    }
  }

  /** get: the link found, LinkNotFound when there is none, ServerError on a fault. */
  function FromFound(r: RepoResult<Option<Link>>): (o: Outcome<Link>)
    ensures o.Success? <==> r.Value? && r.value.Some?
    ensures o.Success? ==> o.value == r.value.value
    ensures o == LinkNotFound(LinkNotFoundMessage) <==> r == Value(None)
    ensures o == ServerError(ServerErrorMessage) <==> r.Fault?
  {
    match r
    case Fault => ServerError(ServerErrorMessage)
    case Value(None) => LinkNotFound(LinkNotFoundMessage)
    case Value(Some(link)) => Success(link)
  }

  /** getUrl: the url of what get returns, with get's failures. */
  function UrlOf(o: Outcome<Link>): (u: Outcome<string>)
    ensures u.Success? <==> o.Success?
    ensures u.Success? ==> u.value == o.value.url
    ensures !o.Success? ==> u == o.Cast()
  {
    if o.Success? then Success(o.value.url) else o.Cast()
  }

  /** add: exactly what save returned, ServerError on a fault. */
  function FromSaved(r: RepoResult<Link>): (o: Outcome<Link>)
    ensures o.Success? <==> r.Value?
    ensures o.Success? ==> o.value == r.value
    ensures !o.Success? ==> o == ServerError(ServerErrorMessage)
  {
    match r
    case Fault => ServerError(ServerErrorMessage)
    case Value(link) => Success(link)
  }

  /** count: a Count holding the size, ServerError on a fault. */
  function FromSize(r: RepoResult<int>): (o: Outcome<Entities.Count>)
    ensures o.Success? <==> r.Value?
    ensures o.Success? ==> o.value.count == r.value
    ensures !o.Success? ==> o == ServerError(ServerErrorMessage)
  {
    match r
    case Fault => ServerError(ServerErrorMessage)
    case Value(size) => Success(Entities.Count(size))
  }

  /** delete: completes when a row was deleted, LinkNotFound when none, ServerError on a fault. */
  function FromDeleted(r: RepoResult<bool>): (o: Outcome<()>)
    ensures o.Success? <==> r == Value(true)
    ensures o == LinkNotFound(LinkNotFoundMessage) <==> r == Value(false)
    ensures o == ServerError(ServerErrorMessage) <==> r.Fault?
  {
    match r
    case Fault => ServerError(ServerErrorMessage)
    case Value(deleted) => if deleted then Success(()) else LinkNotFound(LinkNotFoundMessage)
  }

  /** A storage fault is never swallowed: every operation turns it into ServerError. */
  lemma FaultAlwaysBecomesServerError()
    ensures FromFound(Fault) == ServerError(ServerErrorMessage)
    ensures UrlOf(FromFound(Fault)) == ServerError(ServerErrorMessage)
    ensures FromSaved(Fault) == ServerError(ServerErrorMessage)
    ensures FromSize(Fault) == ServerError(ServerErrorMessage)
    ensures FromDeleted(Fault) == ServerError(ServerErrorMessage)
  {
  }

  /** The service over one repository. */
  class LinkService {
    const repository: LinkRepository

    constructor (repository: LinkRepository)
      ensures this.repository == repository
    {
      this.repository := repository;
    }

    method Get(linkId: int, fault: bool) returns (link: Outcome<Link>)
      requires repository.Valid()
      modifies repository`log
      ensures repository.Valid() && repository.State() == old(repository.State())
      ensures link == FromFound(GetByIdSpec(repository.State(), linkId, fault))
      ensures repository.log == old(repository.log) + [GetByIdCall(linkId)]
    {
      var found := repository.GetById(linkId, fault);
      match found {
        case Fault => link := ServerError(ServerErrorMessage);
        case Value(None) => link := LinkNotFound(LinkNotFoundMessage);
        case Value(Some(l)) => link := Success(l);
      }
    }

    method GetUrl(linkId: int, fault: bool) returns (url: Outcome<string>)
      requires repository.Valid()
      modifies repository`log
      ensures repository.Valid() && repository.State() == old(repository.State())
      ensures url == UrlOf(FromFound(GetByIdSpec(repository.State(), linkId, fault)))
      ensures repository.log == old(repository.log) + [GetByIdCall(linkId)]
    {
      var link := Get(linkId, fault);
      if link.Success? {
        url := Success(link.value.url);
      } else {
        url := link.Cast();
      }
    }

    method Add(link: Link, now: Timestamp, env: SaveEnv) returns (saved: Outcome<Link>)
      requires repository.Valid()
      modifies repository
      ensures repository.Valid()
      ensures repository.State() == SaveState(old(repository.State()), link, now, env)
      ensures saved == FromSaved(SaveResult(old(repository.State()), link, now, env))
      ensures repository.log == old(repository.log) + [SaveCall(link)]
    {
      var r := repository.Save(link, now, env);
      match r {
        case Fault => saved := ServerError(ServerErrorMessage);
        case Value(l) => saved := Success(l);
      }
    }

    method Count(fault: bool, rowProduced: bool) returns (count: Outcome<Entities.Count>)
      requires repository.Valid()
      modifies repository`log
      ensures repository.Valid() && repository.State() == old(repository.State())
      ensures count == FromSize(SizeSpec(repository.State(), fault, rowProduced))
      ensures repository.log == old(repository.log) + [SizeCall]
    {
      var size := repository.Size(fault, rowProduced);
      match size {
        case Fault => count := ServerError(ServerErrorMessage);
        case Value(n) => count := Success(Entities.Count(n));
      }
    }

    method Delete(linkId: int, fault: bool) returns (done: Outcome<()>)
      requires repository.Valid()
      modifies repository
      ensures repository.Valid()
      ensures repository.State() == DeleteState(old(repository.State()), linkId, fault)
      ensures done == FromDeleted(DeleteResult(old(repository.State()), linkId, fault))
      ensures repository.log == old(repository.log) + [DeleteByIdCall(linkId)]
    {
      var deleted := repository.DeleteById(linkId, fault);
      match deleted {
        case Fault => done := ServerError(ServerErrorMessage);
        case Value(d) =>
          if !d {
            done := LinkNotFound(LinkNotFoundMessage);
          } else {
            done := Success(());
          }
      }
    }
  }

}
