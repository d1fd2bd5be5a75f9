/**
 * The value classes of the link service: Link (entities/Link.java) and the
 * response shapes Count, Error, Errors, Violation and Violations.
 */
module Entities {
  import opened Common
  import opened Numerals
  import opened Http

  /** java.sql.Timestamp, kept opaque: the model never reasons about time. */
  datatype Timestamp = Timestamp(epochMillis: int)

  /**
   * A link. Every field is nullable in the source (the no-argument
   * constructor leaves them null); the url is modelled as always present.
   * Links are never changed after construction: there are no setters.
   */
  datatype Link = Link(linkId: Option<int>, url: string, dateCreate: Option<Timestamp>)

  /** Link.equals: the same object, or the same linkId (null equals null). */
  function LinkEquals(a: Link, b: Link): (r: bool)
    ensures r <==> a.linkId == b.linkId
  {
    a == b || a.linkId == b.linkId
  }

  lemma LinkEqualsIsEquivalence(a: Link, b: Link, c: Link)
    ensures LinkEquals(a, a)
    ensures LinkEquals(a, b) ==> LinkEquals(b, a)
    ensures LinkEquals(a, b) && LinkEquals(b, c) ==> LinkEquals(a, c)
  {
  }

  const TwoTo32: int := 0x1_0000_0000
  const TwoTo64: int := 0x1_0000_0000_0000_0000

  /** Long.hashCode(v) = (int)(v ^ (v >>> 32)) on the 64-bit image of v. */
  function LongHashCode(v: int): (h: int)
    ensures -0x8000_0000 <= h < 0x8000_0000
  {
    var bits := (v % TwoTo64) as bv64;
    var low := ((bits ^ (bits >> 32)) as int) % TwoTo32;
    if low < 0x8000_0000 then low else low - TwoTo32
  }

  /** What Link.hashCode does: it unboxes linkId, so a null id throws. */
  datatype HashOutcome = Hash(value: int) | NullPointerException

  function HashCodeAsWritten(l: Link): (r: HashOutcome)
    ensures r.NullPointerException? <==> l.linkId.None?
  {
    match l.linkId
    case None => NullPointerException
    case Some(id) => Hash(LongHashCode(id))
  }

  /** The hash code equals() calls for: Objects.hashCode(linkId), 0 for null. */
  function HashCode(l: Link): int {
    match l.linkId
    case None => 0
    case Some(id) => LongHashCode(id)
  }

  lemma HashCodeConsistentWithEquals(a: Link, b: Link)
    requires LinkEquals(a, b)
    ensures HashCode(a) == HashCode(b)
  {
  }

  /** Where the source's hashCode returns, the corrected one agrees with it. */
  lemma HashCodeAgreesWhereDefined(l: Link)
    ensures HashCodeAsWritten(l).Hash? ==> HashCodeAsWritten(l).value == HashCode(l)
  {
  }

  /** A link without an id equals itself, yet the source's hashCode throws on it. */
  lemma HashCodeAsWrittenThrowsOnEqualLinks()
    ensures var l := Link(None, "https://kalenchukov.dev/shortlinks", None);
            LinkEquals(l, l) && HashCodeAsWritten(l) == NullPointerException
  {
  }

  const LinkIdPrefix: string := "Link{linkId="

  /** A nullable Long in string concatenation: "null" or its digits. */
  function IdText(id: Option<int>): string {
    match id
    case None => "null"
    case Some(n) => DecimalString(n)
  }

  function DateText(date: Option<Timestamp>, showTimestamp: Timestamp -> string): string {
    match date
    case None => "null"
    case Some(t) => showTimestamp(t)
  }

  /**
   * Link.toString: Link{linkId=<id>, url='<url>', dateCreate=<date>}. How a
   * timestamp prints is library code, so it is a parameter.
   */
  function LinkToString(l: Link, showTimestamp: Timestamp -> string): (s: string)
    ensures |s| > |LinkIdPrefix| && s[..|LinkIdPrefix|] == LinkIdPrefix
    ensures var tail := DateField(l.dateCreate, showTimestamp);
            |s| >= |tail| && s[|s| - |tail|..] == tail
  {
    LinkIdPrefix + IdText(l.linkId) + UrlFieldOpen + l.url + DateField(l.dateCreate, showTimestamp)
  }

  /** What separates the id from the url: the url is quoted. */
  const UrlFieldOpen: string := ", url='"

  /** The end of the rendering: the url's closing quote, the date and the closing brace. */
  function DateField(date: Option<Timestamp>, showTimestamp: Timestamp -> string): string {
    "', dateCreate=" + DateText(date, showTimestamp) + "}"
  }

  /** The longest prefix of `s` without the character `stop`. */
  function UpTo(s: string, stop: char): (r: string)
    ensures |r| <= |s| && r == s[..|r|]
  {
    if s == [] || s[0] == stop then [] else [s[0]] + UpTo(s[1..], stop)
  }

  /** Reads the linkId field back out of a Link.toString rendering. */
  function ReadLinkId(s: string): Option<Option<int>> {
    if |s| >= |LinkIdPrefix| && s[..|LinkIdPrefix|] == LinkIdPrefix then
      var text := UpTo(s[|LinkIdPrefix|..], ',');
      Some(if text == "null" then None else Some(ParseDecimal(text)))
    else
      None
  }

  /** Reads the url field back out of a Link.toString rendering: the text between the quotes after the id. */
  function ReadUrl(s: string): Option<string> {
    if |s| >= |LinkIdPrefix| && s[..|LinkIdPrefix|] == LinkIdPrefix then
      var afterPrefix := s[|LinkIdPrefix|..];
      var afterId := afterPrefix[|UpTo(afterPrefix, ',')|..];
      if |afterId| >= |UrlFieldOpen| && afterId[..|UrlFieldOpen|] == UrlFieldOpen then
        Some(UpTo(afterId[|UrlFieldOpen|..], '\''))
      else
        None
    else
      None
  }

  lemma {:induction false} UpToStops(a: string, b: string, stop: char)
    requires forall i :: 0 <= i < |a| ==> a[i] != stop
    requires |b| > 0 && b[0] == stop
    ensures UpTo(a + b, stop) == a
  {
    if a != [] {
      assert (a + b)[1..] == a[1..] + b;
      UpToStops(a[1..], b, stop);
    }
  }

  lemma ReadLinkIdOfFields(id: string, rest: string)
    requires forall i :: 0 <= i < |id| ==> id[i] != ','
    requires |rest| > 0 && rest[0] == ','
    ensures ReadLinkId(LinkIdPrefix + id + rest) == Some(if id == "null" then None else Some(ParseDecimal(id)))
  {
    var s := LinkIdPrefix + id + rest;
    assert s[..|LinkIdPrefix|] == LinkIdPrefix;
    assert s[|LinkIdPrefix|..] == id + rest;
    UpToStops(id, rest, ',');
  }

  /** The rendering identifies the link it came from: its id reads back unchanged. */
  lemma LinkToStringRecoversLinkId(l: Link, showTimestamp: Timestamp -> string)
    ensures ReadLinkId(LinkToString(l, showTimestamp)) == Some(l.linkId)
  {
    var id := IdText(l.linkId);
    var rest := UrlFieldOpen + l.url + DateField(l.dateCreate, showTimestamp);
    assert LinkToString(l, showTimestamp) == LinkIdPrefix + id + rest;
    ReadLinkIdOfFields(id, rest);
    match l.linkId
    case None =>
    case Some(n) =>
      assert id[0] != 'n';
      DecimalRoundTrip(n);
  }

  lemma ReadUrlOfFields(id: string, url: string, tail: string)
    requires forall i :: 0 <= i < |id| ==> id[i] != ','
    requires forall i :: 0 <= i < |url| ==> url[i] != '\''
    requires |tail| > 0 && tail[0] == '\''
    ensures ReadUrl(LinkIdPrefix + id + UrlFieldOpen + url + tail) == Some(url)
  {
    var rest := UrlFieldOpen + url + tail;
    var s := LinkIdPrefix + id + UrlFieldOpen + url + tail;
    assert s == LinkIdPrefix + (id + rest);
    var afterPrefix := s[|LinkIdPrefix|..];
    assert afterPrefix == id + rest;
    UpToStops(id, rest, ',');
    assert afterPrefix[|id|..] == rest;
    assert rest[..|UrlFieldOpen|] == UrlFieldOpen;
    assert rest[|UrlFieldOpen|..] == url + tail;
    UpToStops(url, tail, '\'');
  }

  /** The url reads back unchanged too, when it holds no quote of its own. */
  lemma LinkToStringRecoversUrl(l: Link, showTimestamp: Timestamp -> string)
    requires '\'' !in l.url
    ensures ReadUrl(LinkToString(l, showTimestamp)) == Some(l.url)
  {
    var id := IdText(l.linkId);
    assert forall i :: 0 <= i < |id| ==> id[i] != ',';
    ReadUrlOfFields(id, l.url, DateField(l.dateCreate, showTimestamp));
  }

  /** Count: the number of links. */
  datatype Count = Count(count: int)

  /** Error: one human-readable message. */
  datatype Error = Error(message: string)

  /** Errors: a status code and the errors behind it. */
  datatype Errors = Errors(code: int, errors: seq<Error>)

  /** Violation: a field name (nullable) and the constraint's message. */
  datatype Violation = Violation(field: Option<string>, message: string)

  /** Violations: a status code and one entry per broken constraint. */
  datatype Violations = Violations(code: int, violations: seq<Violation>)

  /** new Errors(httpStatus, errors): the code is the status's value. */
  function NewErrors(status: HttpStatus, errors: seq<Error>): (e: Errors)
    ensures e.code == status.Code()
  {
    Errors(status.Code(), errors)
  }

  /** new Violations(httpStatus, violations): the code is the status's value. */
  function NewViolations(status: HttpStatus, violations: seq<Violation>): (v: Violations)
    ensures v.code == status.Code()
  {
    Violations(status.Code(), violations)
  }

}
