/**
 * Properties of the link lifecycle across several requests: what add, get,
 * redirect, delete and count promise of each other.
 */
module Lifecycle {
  import opened Common
  import opened Http
  import opened Entities
  import opened Responses
  import opened Repository
  import opened Validation
  import opened Service
  import opened ExceptionHandler
  import opened Application

  /** No storage fault anywhere, and the store answers every query. */
  predicate FaultFree(env: Env) {
    !env.fault && env.countRowProduced && env.save == NormalSave
  }

  /** A created link is found again by its id: info answers 200 with the same link. */
  lemma AddThenInfo(s: StoreState, link: Link, addEnv: Env, infoEnv: Env, isUrl: string -> bool)
    requires WellFormed(s)
    requires Serve(s, AddRequest(link), addEnv, isUrl).1.status == HttpStatus.Created
    requires !infoEnv.fault
    ensures var (s1, created) := Serve(s, AddRequest(link), addEnv, isUrl);
            && created.body == LinkBody(Link(Some(s.nextId), link.url, Some(addEnv.now)))
            && Serve(s1, InfoRequest(s.nextId), infoEnv, isUrl) == (s1, Response(HttpStatus.Ok, None, created.body))
  {
    SaveReturnsInsertedRow(s, link, addEnv.now, addEnv.save);
  }

  /** A created link redirects to the url it was created with. */
  lemma AddThenRedirect(s: StoreState, link: Link, addEnv: Env, redirectEnv: Env, isUrl: string -> bool)
    requires WellFormed(s)
    requires Serve(s, AddRequest(link), addEnv, isUrl).1.status == HttpStatus.Created
    requires !redirectEnv.fault
    ensures var s1 := Serve(s, AddRequest(link), addEnv, isUrl).0;
            Serve(s1, RedirectRequest(s.nextId), redirectEnv, isUrl) == (s1, Response(HttpStatus.Found, Some(link.url), NoBody))
  {
    SaveReturnsInsertedRow(s, link, addEnv.now, addEnv.save);
  }

  /** A positive id that is not in the store is not found by info, redirect or delete. */
  lemma MissingIdIsNotFound(s: StoreState, linkId: int, env: Env, isUrl: string -> bool)
    requires linkId > 0 && linkId !in s.rows && !env.fault
    ensures Serve(s, InfoRequest(linkId), env, isUrl) == (s, HandleNotFound(LinkNotFoundMessage))
    ensures Serve(s, RedirectRequest(linkId), env, isUrl) == (s, HandleNotFound(LinkNotFoundMessage))
    ensures Serve(s, DeleteRequest(linkId), env, isUrl) == (s, HandleNotFound(LinkNotFoundMessage))
  {
    assert s.rows - {linkId} == s.rows;
  }

  /** Once a delete has answered 204 or 404, deleting the same id again answers 404. */
  lemma DeleteTwiceIsNotFound(s: StoreState, linkId: int, first: Env, second: Env, isUrl: string -> bool)
    requires Serve(s, DeleteRequest(linkId), first, isUrl).1.status in {HttpStatus.NoContent, HttpStatus.NotFound}
    requires !second.fault
    ensures var s1 := Serve(s, DeleteRequest(linkId), first, isUrl).0;
            Serve(s1, DeleteRequest(linkId), second, isUrl) == (s1, HandleNotFound(LinkNotFoundMessage))
  {
    var s1 := Serve(s, DeleteRequest(linkId), first, isUrl).0;
    assert linkId > 0 && !first.fault;
    assert linkId !in s1.rows;
    MissingIdIsNotFound(s1, linkId, second, isUrl);
  }

  /** The 400 response for a non-positive id: one violation, naming linkId. */
  function IdRejected(): Response {
    Response(HttpStatus.BadRequest, None, ViolationsBody(Violations(400, [Violation(Some("linkId"), PositiveIdMessage)])))
  }

  lemma IdViolationResponse(operation: string, linkId: int)
    requires linkId <= 0
    ensures HandleConstraintViolation(CheckLinkId(operation, linkId)) == IdRejected()
  {
    var entries := HandleConstraintViolation(CheckLinkId(operation, linkId)).body.violations.violations;
    assert |entries| == 1 && entries[0] == Violation(Some("linkId"), PositiveIdMessage);
    assert entries == [Violation(Some("linkId"), PositiveIdMessage)];
  }

  /** A non-positive id is rejected with 400 naming linkId, and the store is not touched. */
  lemma NonPositiveIdIsRejected(s: StoreState, linkId: int, env: Env, isUrl: string -> bool)
    requires linkId <= 0
    ensures Serve(s, InfoRequest(linkId), env, isUrl) == (s, IdRejected())
    ensures Serve(s, RedirectRequest(linkId), env, isUrl) == (s, IdRejected())
    ensures Serve(s, DeleteRequest(linkId), env, isUrl) == (s, IdRejected())
  {
    IdViolationResponse("get", linkId);
    IdViolationResponse("getUrl", linkId);
    IdViolationResponse("delete", linkId);
  }

  /** A link whose url is malformed is rejected with a 400 naming url, and nothing is stored. */
  lemma MalformedUrlIsRejected(s: StoreState, link: Link, env: Env, isUrl: string -> bool)
    requires !isUrl(link.url)
    ensures Serve(s, AddRequest(link), env, isUrl).0 == s
    ensures var r := Serve(s, AddRequest(link), env, isUrl).1;
            && r.status == HttpStatus.BadRequest && r.body.ViolationsBody?
            && Violation(Some("url"), UrlMessage) in r.body.violations.violations
  {
    var violations := CheckLink(link, isUrl);
    var urlViolation := ConstraintViolation([Named("add"), Named("link"), Named("url")], UrlMessage);
    var i :| 0 <= i < |violations| && violations[i] == urlViolation;
    assert HandleConstraintViolation(violations).body.violations.violations[i] == Violation(Some("url"), UrlMessage);
  }

  /** One request and its environment. */
  datatype Step = Step(request: Request, env: Env)

  /** The store after a sequence of requests and the responses, in order. */
  function Run(s: StoreState, steps: seq<Step>, isUrl: string -> bool): (StoreState, seq<Response>)
    decreases |steps|
  {
    if steps == [] then (s, [])
    else
      var (s1, r) := Serve(s, steps[0].request, steps[0].env, isUrl);
      var (s2, rs) := Run(s1, steps[1..], isUrl);
      (s2, [r] + rs)
  }

  /** An add that passes validation and whose INSERT runs, whatever happens after it. */
  predicate Inserting(step: Step, isUrl: string -> bool) {
    step.request.AddRequest? && ValidLink(step.request.link, isUrl) && !step.env.save.insertFault
  }

  function CountInserting(steps: seq<Step>, isUrl: string -> bool): nat {
    if steps == [] then 0 else (if Inserting(steps[0], isUrl) then 1 else 0) + CountInserting(steps[1..], isUrl)
  }

  function CountStatus(responses: seq<Response>, status: HttpStatus): nat {
    if responses == [] then 0
    else (if responses[0].status == status then 1 else 0) + CountStatus(responses[1..], status)
  }

  /** The ids of the links that 201 responses returned, in order. */
  function CreatedIds(responses: seq<Response>): seq<int> {
    if responses == [] then []
    else
      var r := responses[0];
      (if r.status == HttpStatus.Created && r.body.LinkBody? && r.body.link.linkId.Some?
       then [r.body.link.linkId.value] else [])
      + CreatedIds(responses[1..])
  }

  /**
   * One request changes the row count by its insert and by a successful
   * delete, never lowers the id counter, and a 201 carries the id the
   * counter held, which it then passes.
   */
  lemma ServeStep(s: StoreState, step: Step, isUrl: string -> bool)
    requires WellFormed(s)
    ensures var (s1, r) := Serve(s, step.request, step.env, isUrl);
            && WellFormed(s1)
            && |s1.rows| == |s.rows| + (if Inserting(step, isUrl) then 1 else 0)
                                    - (if r.status == HttpStatus.NoContent then 1 else 0)
            && s1.nextId >= s.nextId
            && CreatedIds([r]) == (if r.status == HttpStatus.Created then [s.nextId] else [])
            && (r.status == HttpStatus.Created ==> s1.nextId == s.nextId + 1)
            && (FaultFree(step.env) ==> (r.status == HttpStatus.Created <==> Inserting(step, isUrl)))
  {
    var env := step.env;
    match step.request
    case AddRequest(link) =>
      SavePreservesWellFormed(s, link, env.now, env.save);
      SaveReturnsInsertedRow(s, link, env.now, env.save);
    case DeleteRequest(linkId) =>
      DeleteRemovesOnlyThatRow(s, linkId, env.fault, linkId + 1);
    case _ =>
  }

  /**
   * Over any sequence of requests, the number of rows is the starting number
   * plus the adds whose INSERT ran minus the deletes that answered 204. An add
   * that faults after its INSERT still counts: its row stays in the table.
   */
  lemma {:induction false} RowCountTracksInsertsAndDeletes(s: StoreState, steps: seq<Step>, isUrl: string -> bool)
    requires WellFormed(s)
    decreases |steps|
    ensures WellFormed(Run(s, steps, isUrl).0)
    ensures |Run(s, steps, isUrl).0.rows|
            == |s.rows| + CountInserting(steps, isUrl) - CountStatus(Run(s, steps, isUrl).1, HttpStatus.NoContent)
  {
    if steps != [] {
      var (s1, r) := Serve(s, steps[0].request, steps[0].env, isUrl);
      ServeStep(s, steps[0], isUrl);
      RowCountTracksInsertsAndDeletes(s1, steps[1..], isUrl);
      var rs := Run(s1, steps[1..], isUrl).1;
      assert Run(s, steps, isUrl).1 == [r] + rs;
      assert ([r] + rs)[1..] == rs;
    }
  }

  /** Without faults, an add inserts exactly when it answers 201. */
  lemma {:induction false} FaultFreeInsertsAreCreated(s: StoreState, steps: seq<Step>, isUrl: string -> bool)
    requires WellFormed(s)
    requires forall i :: 0 <= i < |steps| ==> FaultFree(steps[i].env)
    decreases |steps|
    ensures CountInserting(steps, isUrl) == CountStatus(Run(s, steps, isUrl).1, HttpStatus.Created)
  {
    if steps != [] {
      var (s1, r) := Serve(s, steps[0].request, steps[0].env, isUrl);
      ServeStep(s, steps[0], isUrl);
      assert FaultFree(steps[0].env);
      FaultFreeInsertsAreCreated(s1, steps[1..], isUrl);
      var rs := Run(s1, steps[1..], isUrl).1;
      assert Run(s, steps, isUrl).1 == [r] + rs;
      assert ([r] + rs)[1..] == rs;
    }
  }

  /**
   * Starting from an empty store and without faults, count answers the
   * number of 201 responses minus the number of 204 responses.
   */
  lemma CountIsAddsMinusDeletes(steps: seq<Step>, countEnv: Env, isUrl: string -> bool)
    requires forall i :: 0 <= i < |steps| ==> FaultFree(steps[i].env)
    requires FaultFree(countEnv)
    ensures var (s, responses) := Run(EmptyStore, steps, isUrl);
            Serve(s, CountRequest, countEnv, isUrl).1
            == Response(HttpStatus.Ok, None, CountBody(Entities.Count(
                 CountStatus(responses, HttpStatus.Created) - CountStatus(responses, HttpStatus.NoContent))))
  {
    RowCountTracksInsertsAndDeletes(EmptyStore, steps, isUrl);
    FaultFreeInsertsAreCreated(EmptyStore, steps, isUrl);
  }

  /**
   * Ids are never reused: the links created over any sequence of requests
   * get strictly increasing ids, all at or above the counter at the start
   * (so above every id the store had already handed out).
   */
  lemma {:induction false} FreshIdsNeverReused(s: StoreState, steps: seq<Step>, isUrl: string -> bool)
    requires WellFormed(s)
    decreases |steps|
    ensures var (s2, responses) := Run(s, steps, isUrl);
            var ids := CreatedIds(responses);
            && s2.nextId >= s.nextId
            && (forall i :: 0 <= i < |ids| ==> s.nextId <= ids[i] < s2.nextId)
            && (forall i, j :: 0 <= i < j < |ids| ==> ids[i] < ids[j])
  {
    if steps != [] {
      var (s1, r) := Serve(s, steps[0].request, steps[0].env, isUrl);
      ServeStep(s, steps[0], isUrl);
      FreshIdsNeverReused(s1, steps[1..], isUrl);
      var rs := Run(s1, steps[1..], isUrl).1;
      assert Run(s, steps, isUrl).1 == [r] + rs;
      assert ([r] + rs)[1..] == rs;
      assert CreatedIds([r] + rs) == CreatedIds([r]) + CreatedIds(rs);
    }
  }

  /**
   * The walk-through of the API on an empty store: create, redirect, info,
   * delete, and info again.
   */
  lemma ExampleWalkThrough(now: Timestamp, isUrl: string -> bool)
    requires isUrl("https://example.com/a")
    ensures var env := Env(false, true, NormalSave, now);
            var url := "https://example.com/a";
            var created := Link(Some(1), url, Some(now));
            var (s1, r1) := Serve(EmptyStore, AddRequest(Link(None, url, None)), env, isUrl);
            var (s2, r2) := Serve(s1, RedirectRequest(1), env, isUrl);
            var (s3, r3) := Serve(s2, InfoRequest(1), env, isUrl);
            var (s4, r4) := Serve(s3, DeleteRequest(1), env, isUrl);
            var (s5, r5) := Serve(s4, InfoRequest(1), env, isUrl);
            && r1 == Response(HttpStatus.Created, None, LinkBody(created))
            && r2 == Response(HttpStatus.Found, Some(url), NoBody)
            && r3 == Response(HttpStatus.Ok, None, LinkBody(created))
            && r4 == Response(HttpStatus.NoContent, None, NoBody)
            && r5.status == HttpStatus.NotFound
  {
    var env := Env(false, true, NormalSave, now);
    var url := "https://example.com/a";
    var s1 := Serve(EmptyStore, AddRequest(Link(None, url, None)), env, isUrl).0;
    assert s1.rows == map[1 := Row(url, now)];
    var s4 := Serve(s1, DeleteRequest(1), env, isUrl).0;
    assert s4.rows == map[];
  }

}
