/**
 * The constraints on the service's parameters (services/LinkServices.java,
 * entities/Link.java), checked at the validated service boundary before the
 * service runs. A broken constraint is reported as a ConstraintViolation
 * whose property path ends with the offending parameter or field.
 */
module Validation {
  import opened Common
  import opened Entities

  /** A node of a property path: a method, a parameter or a field; its name may be null. */
  datatype PathNode = PathNode(name: Option<string>)

  /** jakarta.validation.ConstraintViolation: where the constraint broke and its message. */
  datatype ConstraintViolation = ConstraintViolation(path: seq<PathNode>, message: string)

  /** The message of @Positive on an id, in the source's own words. */
  const PositiveIdMessage: string := "Идентификатор должен быть больше 0"

  /** The message of @URL on Link.url, in the source's own words. */
  const UrlMessage: string := "URl-адрес должен быть корректным"

  function Named(name: string): PathNode {
    PathNode(Some(name))
  }

  /** @Positive long linkId on get, getUrl and delete. */
  function CheckLinkId(operation: string, linkId: int): (violations: seq<ConstraintViolation>)
    ensures violations == [] <==> linkId > 0
    ensures violations != [] ==>
              violations == [ConstraintViolation([Named(operation), Named("linkId")], PositiveIdMessage)]
  {
    if linkId > 0 then [] else [ConstraintViolation([Named(operation), Named("linkId")], PositiveIdMessage)]
  }

  /** A Link meets its own constraints: a positive id when one is given, and a url. */
  predicate ValidLink(link: Link, isUrl: string -> bool) {
    (link.linkId.None? || link.linkId.value > 0) && isUrl(link.url)
  }

  /**
   * @Valid Link link on add: one violation per broken field constraint of
   * the link, each at path add.link.<field>. Whether a string is a URL is
   * decided by the validator library, given here as `isUrl`.
   */
  function CheckLink(link: Link, isUrl: string -> bool): (violations: seq<ConstraintViolation>)
    ensures violations == [] <==> ValidLink(link, isUrl)
    ensures |violations| == (if link.linkId.Some? && link.linkId.value <= 0 then 1 else 0) + (if isUrl(link.url) then 0 else 1)
    ensures forall v :: v in violations ==>
              |v.path| == 3 && v.path[..2] == [Named("add"), Named("link")] &&
              (v.path[2] == Named("linkId") <==> v.message == PositiveIdMessage) &&
              (v.path[2] == Named("url") <==> v.message == UrlMessage)
    ensures link.linkId.Some? && link.linkId.value <= 0 ==>
              ConstraintViolation([Named("add"), Named("link"), Named("linkId")], PositiveIdMessage) in violations
    ensures !isUrl(link.url) ==> ConstraintViolation([Named("add"), Named("link"), Named("url")], UrlMessage) in violations
  {
    var idViolations :=
      if link.linkId.Some? && link.linkId.value <= 0
      then [ConstraintViolation([Named("add"), Named("link"), Named("linkId")], PositiveIdMessage)]
      else [];
    var urlViolations :=
      if isUrl(link.url) then [] else [ConstraintViolation([Named("add"), Named("link"), Named("url")], UrlMessage)];
    idViolations + urlViolations
  }

}
