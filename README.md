# ShortLinks link lifecycle, modelled in Dafny

ShortLinks is a short-link service. A client posts a URL and gets back a
numeric link id. The id can then be used to be redirected to the URL, to read
the link's metadata, to count all links, or to delete the link. This project
models the lifecycle layer of that service and proves properties of it:

- **Repository** (`repository.dfy`). The `links` table is a map from
  `link_id` to a row `(url, dateCreate)`, plus the next id the store will
  assign. The class `LinkRepository` holds both as fields. Its methods
  `GetById`, `Save`, `Size` and `DeleteById` update them in place. Each method
  is proved against a pure function of the old state (`GetByIdSpec`,
  `SaveState`/`SaveResult`, `SizeSpec`, `DeleteState`/`DeleteResult`). An
  `SQLException` is the result `Fault`. The environment chooses where it
  happens, through a `fault` flag or a `SaveEnv`.
- **Validation** (`validation.dfy`). These are the parameter constraints of
  `LinkServices`: a positive id for `get`, `getUrl` and `delete`, and a valid
  `Link` for `add`. A broken constraint becomes a `ConstraintViolation` with
  the source's property path and message.
- **Service** (`service.dfy`). `get`, `getUrl`, `count`, `add` and `delete`
  translate repository results into an `Outcome`. An empty result becomes
  `LinkNotFound`, a fault becomes `ServerError`, and anything else passes
  through. The service is a class over one repository. Its methods are proved
  equal to the pure translations `FromFound`, `UrlOf`, `FromSaved`,
  `FromSize` and `FromDeleted`.
- **Controller** (`controller.dfy`). Each handler is a function from its one
  service outcome to a response (200, 302 with Location, 201, 204). A failure
  passes through unchanged.
- **Exception handler** (`handler.dfy`). A not-found failure becomes a 404
  `Errors` body, a server error a 500 `Errors` body, and constraint
  violations a 400 `Violations` body. `getNameFieldFromPath` is a loop.
- **Application** (`application.dfy`). One request goes through validation,
  the service, the controller and the handler. The pure function `Serve`
  gives the new store and the response. `Api.Handle` does the same on the
  objects and is proved equal to `Serve`. A ghost call log shows that each
  request makes exactly one repository call, or none when validation rejects
  it.
- **Lifecycle** (`lifecycle.dfy`). These lemmas are about sequences of
  requests. After add, get and redirect return the same url. A second delete
  answers 404. Count equals adds minus deletes. Ids are never reused.
- **Entities** (`entities.dfy`, `numerals.dfy`, `http.dfy`,
  `responses.dfy`). `Link` is an immutable datatype. Its `equals`,
  `hashCode` and `toString` are modelled. `Count`, `Error`, `Errors`,
  `Violation`, `Violations`, the HTTP statuses and `ResponseEntity` are
  datatypes.

The model follows the code in two places:

- A save that faults after its `INSERT` keeps the new row. This happens when
  no generated key comes back or the read-back faults. The count lemma
  (`RowCountTracksInsertsAndDeletes`) therefore counts inserts, not 201
  responses. Only the fault-free corollary (`CountIsAddsMinusDeletes`) equates
  the two.
- `size` answers 0 when the count query returns no row.

## Model

| member | source | states |
|---|---|---|
| Numerals.DecimalRoundTrip | src/main/java/dev/kalenchukov/shortlinks/entities/Link.java:117 | The decimal rendering of a Long id in `toString` reads back to the same number. |
| Entities.LinkEquals | src/main/java/dev/kalenchukov/shortlinks/entities/Link.java:130-144 | Two links are equal exactly when their linkIds are equal (null equals null). Url and date do not matter. |
| Entities.LinkEqualsIsEquivalence | src/main/java/dev/kalenchukov/shortlinks/entities/Link.java:130-144 | Link equality is reflexive, symmetric and transitive. |
| Entities.LongHashCode | src/main/java/dev/kalenchukov/shortlinks/entities/Link.java:153 | `Long.hashCode` folds the 64-bit id into a value in the 32-bit int range. |
| Entities.HashCodeAsWritten | src/main/java/dev/kalenchukov/shortlinks/entities/Link.java:152-154 | As written, `hashCode` throws exactly when linkId is null, because it unboxes the id. |
| Entities.HashCodeAsWrittenThrowsOnEqualLinks | src/main/java/dev/kalenchukov/shortlinks/entities/Link.java:130-154 | A link without an id equals itself, yet the written `hashCode` throws on it. |
| Entities.HashCodeConsistentWithEquals | src/main/java/dev/kalenchukov/shortlinks/entities/Link.java:130-154 | The corrected hash code depends on linkId alone, so equal links hash alike. |
| Entities.HashCodeAgreesWhereDefined | src/main/java/dev/kalenchukov/shortlinks/entities/Link.java:152-154 | Wherever the written `hashCode` returns, the corrected one returns the same value. |
| Entities.LinkToString | src/main/java/dev/kalenchukov/shortlinks/entities/Link.java:115-121 | `toString` starts with `Link{linkId=` and ends with the url's closing quote, `, dateCreate=`, the rendered date ("null" when absent) and `}`. |
| Entities.LinkToStringRecoversUrl | src/main/java/dev/kalenchukov/shortlinks/entities/Link.java:115-121 | The url can be read back from between the quotes after the id, for any url without a quote character. |
| Entities.LinkToStringRecoversLinkId | src/main/java/dev/kalenchukov/shortlinks/entities/Link.java:115-121 | The linkId can be read back out of the rendering, "null" included. So the rendering identifies the link as `equals` does. |
| Entities.NewErrors | src/main/java/dev/kalenchukov/shortlinks/entities/Errors.java:63-66 | An `Errors` body's code is the value of the status it was built from. |
| Entities.NewViolations | src/main/java/dev/kalenchukov/shortlinks/entities/Violations.java:63-66 | A `Violations` body's code is the value of the status it was built from. |
| Repository.GetByIdSpec | src/main/java/dev/kalenchukov/shortlinks/repositories/LinkRepositories.java:38-45 | getById faults exactly when the store faults. Otherwise it returns a link exactly when a row has that id, carrying that id, url and date. An absent row is an empty result, not a fault. |
| Repository.SizeSpec | src/main/java/dev/kalenchukov/shortlinks/repositories/LinkRepository.java:145-167 | size is the number of rows, 0 when no count row comes back, or a fault. |
| Repository.SaveReturnsInsertedRow | src/main/java/dev/kalenchukov/shortlinks/repositories/LinkRepository.java:111-137 | save succeeds exactly when nothing faults and the key comes back. It then returns the inserted row (fresh id, given url, stamped date), and getById finds that row. |
| Repository.MissingKeyIsFault | src/main/java/dev/kalenchukov/shortlinks/repositories/LinkRepository.java:112-136 | Without a generated key the id stays 0. No row has id 0, so save faults rather than returning empty. |
| Repository.SaveIgnoresIdAndDate | src/main/java/dev/kalenchukov/shortlinks/repositories/LinkRepository.java:113-119 | save reads only the url. Links with equal urls give the same new table and the same result. |
| Repository.SavePreservesWellFormed | src/main/java/dev/kalenchukov/shortlinks/repositories/LinkRepository.java:117-130 | save keeps ids positive and below the counter. The row count grows by one exactly when the insert ran. The counter never decreases. |
| Repository.SaveTwiceIntoEmpty | src/test/java/dev/kalenchukov/shortlinks/repositories/LinkRepositoryTest.java:131-158 | The same url saved twice into an empty table gives ids 1 then 2 and two rows. Urls need not be unique. |
| Repository.DeleteRemovesOnlyThatRow | src/main/java/dev/kalenchukov/shortlinks/repositories/LinkRepository.java:176-197 | deleteById is true exactly when the row existed. It removes that row only, leaves every other id's lookup unchanged, lowers the count by one exactly when it reports true, and keeps the counter. |
| Repository.LinkRepository.constructor | src/main/java/dev/kalenchukov/shortlinks/repositories/LinkRepository.java:60-62 | A new repository works over whatever table its data source holds, empty or filled with rows, and has made no calls yet. |
| Repository.LinkRepository.Select | src/main/java/dev/kalenchukov/shortlinks/repositories/LinkRepository.java:73-96 | The SELECT by id returns what `GetByIdSpec` gives on the current table. |
| Repository.LinkRepository.GetById | src/main/java/dev/kalenchukov/shortlinks/repositories/LinkRepository.java:71-102 | getById leaves the table unchanged, returns `GetByIdSpec` of it, and logs one getById call. |
| Repository.LinkRepository.Save | src/main/java/dev/kalenchukov/shortlinks/repositories/LinkRepository.java:111-137 | save updates the table to `SaveState` and returns `SaveResult`. The row stays even when the read-back faults. It keeps the invariant. |
| Repository.LinkRepository.Size | src/main/java/dev/kalenchukov/shortlinks/repositories/LinkRepository.java:145-167 | size leaves the table unchanged and returns `SizeSpec` of it. |
| Repository.LinkRepository.DeleteById | src/main/java/dev/kalenchukov/shortlinks/repositories/LinkRepository.java:176-197 | deleteById updates the table to `DeleteState` and returns `DeleteResult`. |
| Validation.CheckLinkId | src/main/java/dev/kalenchukov/shortlinks/services/LinkServices.java:46-76 | An id parameter is rejected exactly when it is not positive. The one violation is at path `<operation>.linkId` with the @Positive message. |
| Validation.CheckLink | src/main/java/dev/kalenchukov/shortlinks/entities/Link.java:46-55 | A link passes exactly when its id is absent or positive and its url is a URL. There is one violation per broken field, at `add.link.<field>`, each with its own message. |
| Service.FromFound | src/main/java/dev/kalenchukov/shortlinks/services/LinkService.java:75-86 | get returns exactly the link found. An empty result gives LinkNotFound, and a fault gives ServerError. Each holds both ways. |
| Service.UrlOf | src/main/java/dev/kalenchukov/shortlinks/services/LinkService.java:97-101 | getUrl is the url of get, with get's failures unchanged. |
| Service.FromSaved | src/main/java/dev/kalenchukov/shortlinks/services/LinkService.java:111-120 | add returns exactly what save returned. A fault gives ServerError. |
| Service.FromSize | src/main/java/dev/kalenchukov/shortlinks/services/LinkService.java:129-138 | count is a Count whose value is the repository size. A fault gives ServerError. |
| Service.FromDeleted | src/main/java/dev/kalenchukov/shortlinks/services/LinkService.java:148-159 | delete succeeds exactly when deleteById is true, gives LinkNotFound exactly when it is false, and gives ServerError exactly on a fault. |
| Service.FaultAlwaysBecomesServerError | src/main/java/dev/kalenchukov/shortlinks/services/LinkService.java:78-158 | A storage fault in get, getUrl, add, count or delete always becomes ServerError and is never swallowed. |
| Service.LinkService.constructor | src/main/java/dev/kalenchukov/shortlinks/services/LinkService.java:62-64 | The service keeps the repository it is given. |
| Service.LinkService.Get | src/main/java/dev/kalenchukov/shortlinks/services/LinkService.java:75-86 | get calls getById exactly once, changes no row, and returns `FromFound` of its result. |
| Service.LinkService.GetUrl | src/main/java/dev/kalenchukov/shortlinks/services/LinkService.java:97-101 | getUrl calls getById exactly once and returns the url of get. |
| Service.LinkService.Add | src/main/java/dev/kalenchukov/shortlinks/services/LinkService.java:111-120 | add calls save exactly once and returns `FromSaved` of its result. |
| Service.LinkService.Count | src/main/java/dev/kalenchukov/shortlinks/services/LinkService.java:129-138 | count calls size exactly once and returns `FromSize` of its result. |
| Service.LinkService.Delete | src/main/java/dev/kalenchukov/shortlinks/services/LinkService.java:148-159 | delete calls deleteById exactly once and returns `FromDeleted` of its result. |
| Controller.Count | src/main/java/dev/kalenchukov/shortlinks/controllers/LinkController.java:84-90 | count answers 200 with the service's Count as body. A failure passes through unchanged. |
| Controller.Redirect | src/main/java/dev/kalenchukov/shortlinks/controllers/LinkController.java:104-112 | redirect answers 302 with Location set to getUrl's result and no body. A failure passes through unchanged. |
| Controller.Info | src/main/java/dev/kalenchukov/shortlinks/controllers/LinkController.java:126-134 | info answers 200 with get's link as body. A failure passes through unchanged. |
| Controller.Add | src/main/java/dev/kalenchukov/shortlinks/controllers/LinkController.java:148-156 | add answers 201 with the service's returned link as body. A failure passes through unchanged. |
| Controller.Delete | src/main/java/dev/kalenchukov/shortlinks/controllers/LinkController.java:170-179 | delete answers 204 with no body, and only when the service delete completed. |
| ExceptionHandler.HandleNotFound | src/main/java/dev/kalenchukov/shortlinks/exceptions/handlers/ApplicationExceptionHandler.java:75-86 | Not found answers 404 with an Errors body of code 404 and exactly one Error carrying the message. |
| ExceptionHandler.HandleServerError | src/main/java/dev/kalenchukov/shortlinks/exceptions/handlers/ApplicationExceptionHandler.java:94-105 | Server error answers 500 with an Errors body of code 500 and exactly one Error carrying the message. |
| ExceptionHandler.NameFieldFromPath | src/main/java/dev/kalenchukov/shortlinks/exceptions/handlers/ApplicationExceptionHandler.java:164-172 | The loop returns the name of the last path node, or null for an empty path. |
| ExceptionHandler.HandleConstraintViolation | src/main/java/dev/kalenchukov/shortlinks/exceptions/handlers/ApplicationExceptionHandler.java:113-127 | Constraint violations answer 400 with a Violations body of code 400. It has exactly one entry per violation, in order, each with the last path node's name and the violation's message. |
| ExceptionHandler.HandleMethodArgumentNotValid | src/main/java/dev/kalenchukov/shortlinks/exceptions/handlers/ApplicationExceptionHandler.java:138-156 | An invalid request body answers 400 with exactly one Violation built from the field error. |
| ExceptionHandler.Resolve | src/main/java/dev/kalenchukov/shortlinks/exceptions/handlers/ApplicationExceptionHandler.java:75-114 | A successful call gets the controller's own response. Each failure kind goes to the handler registered for it. |
| ExceptionHandler.HandlersMatchCodeToStatus | src/main/java/dev/kalenchukov/shortlinks/exceptions/handlers/ApplicationExceptionHandler.java:78-155 | In every handler's response, the body's code equals the response status. |
| Application.Api.constructor | src/main/java/dev/kalenchukov/shortlinks/controllers/LinkController.java:69-71 | The controller keeps the service it is given. |
| Application.Api.Handle | src/main/java/dev/kalenchukov/shortlinks/controllers/LinkController.java:84-179 | Handling a request gives the store and response of `Serve`. It makes exactly one repository call, or none when validation rejects the request. |
| Lifecycle.AddThenInfo | src/main/java/dev/kalenchukov/shortlinks/controllers/LinkController.java:126-156 | After an add answers 201, the body is the new link (fresh id, same url). Info on that id answers 200 with the same link. |
| Lifecycle.AddThenRedirect | src/main/java/dev/kalenchukov/shortlinks/controllers/LinkController.java:104-156 | After an add answers 201, redirecting by the new id answers 302 to the url that was added. |
| Lifecycle.MissingIdIsNotFound | src/main/java/dev/kalenchukov/shortlinks/services/LinkService.java:75-159 | For a positive id that is not stored, info, redirect and delete answer 404 and change nothing. |
| Lifecycle.DeleteTwiceIsNotFound | src/main/java/dev/kalenchukov/shortlinks/services/LinkService.java:148-159 | Once a delete answered 204 or 404, a second delete of the same id answers 404. |
| Lifecycle.IdViolationResponse | src/main/java/dev/kalenchukov/shortlinks/exceptions/handlers/ApplicationExceptionHandler.java:113-127 | A rejected id gives a 400 with exactly one violation, on field `linkId`, with the @Positive message. |
| Lifecycle.NonPositiveIdIsRejected | src/main/java/dev/kalenchukov/shortlinks/services/LinkServices.java:38-76 | A non-positive id makes info, redirect and delete answer that 400, and the store is not reached. |
| Lifecycle.MalformedUrlIsRejected | src/main/java/dev/kalenchukov/shortlinks/entities/Link.java:54-55 | An add with a malformed url answers 400 with a violation naming `url`, and stores nothing. |
| Lifecycle.ServeStep | src/main/java/dev/kalenchukov/shortlinks/repositories/LinkRepository.java:111-197 | One request changes the row count by its insert and by a 204 delete. It never lowers the id counter. A 201 carries the counter's id, and without faults an add answers 201 exactly when it inserted. |
| Lifecycle.RowCountTracksInsertsAndDeletes | src/main/java/dev/kalenchukov/shortlinks/repositories/LinkRepository.java:111-197 | Over any request sequence, rows = start + adds whose INSERT ran − deletes that answered 204. |
| Lifecycle.FaultFreeInsertsAreCreated | src/main/java/dev/kalenchukov/shortlinks/controllers/LinkController.java:148-156 | Without faults, the inserting adds are exactly the 201 responses. |
| Lifecycle.CountIsAddsMinusDeletes | src/main/java/dev/kalenchukov/shortlinks/services/LinkService.java:129-138 | From an empty store without faults, count answers 200 with the number of 201s minus the number of 204s. |
| Lifecycle.FreshIdsNeverReused | src/main/java/dev/kalenchukov/shortlinks/repositories/LinkRepository.java:111-137 | Ids returned by 201 responses strictly increase and are all at or above the counter at the start, so they are never reused. |
| Lifecycle.ExampleWalkThrough | src/main/java/dev/kalenchukov/shortlinks/controllers/LinkController.java:84-179 | On an empty store: add answers 201 with id 1, redirect 302, info 200 with the same link, delete 204, then info 404. |

## Left out

- JDBC is not modelled: the DataSource, connections, prepared statements, result sets and their release. The table is a map plus an id counter.
- A fault happens either before the statement takes effect or, for save, after the INSERT. A fault while releasing a resource after a DELETE has taken effect is not modelled separately.
- Logging is not modelled. It has no effect on results.
- Spring wiring, annotations, content types and JSON serialisation are not modelled. Swagger metadata (SwaggerConfig.java) and the test configuration are also out.
- Other exceptions that the Spring base handler maps are not modelled, such as a non-numeric id in the path.
- The Hibernate `@URL` check is library code, so it is the parameter `isUrl`. The Location header is the url string itself, with no `URI.create` parsing or its failure.
- How a timestamp prints is library code, so it is the parameter of `LinkToString`. Time is never reasoned about, including "dateCreate is not earlier than the request".
- Link ids are unbounded integers. The 64-bit range of `long` and an exhausted identity counter are not modelled; `LongHashCode` takes the id's 64-bit two's-complement image.
- `Link.url` is never null here. A JSON body without `url` is not modelled.
- Entities.LinkToStringRecoversUrl: a url that itself contains `'` is not read back. Java's `toString` does not escape it, so the rendering is ambiguous for such urls.
- Entities.HashCodeAsWritten: nothing in the core calls `hashCode`, so the corrected `HashCode` is used by no other member.
- ExceptionHandler.HandleMethodArgumentNotValid: the field error is never null here. The `requireNonNull` failure is not modelled, and no endpoint of the core raises this exception.
- ExceptionHandler.HandleConstraintViolation: the source gets violations from an unordered set. The model keeps the order of the given sequence.
- Requests run one at a time. Thread-per-request concurrency and the database's own consistency guarantees are not modelled.
- The ghost call log records repository calls only. Mock verification that a service call happens exactly once is shown through that log, one level down.

## Findings

| source | as written | input that shows it | evidently intended | confidence | as-written member | corrected member |
|---|---|---|---|---|---|---|
| src/main/java/dev/kalenchukov/shortlinks/entities/Link.java:152-154 | `Long.hashCode(this.getLinkId())` unboxes the nullable linkId | `new Link()` or a posted body without linkId: `equals` treats two such links as equal, but `hashCode` throws NullPointerException | a hash that agrees with `equals`, such as `Objects.hashCode(linkId)` (0 for null) | medium, not executed; no caller in the core hashes an id-less link | Entities.HashCodeAsWrittenThrowsOnEqualLinks | Entities.HashCodeConsistentWithEquals |
