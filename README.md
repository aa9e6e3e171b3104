# testserver — a verified model of the expectation engine

`testserver` is a programmable HTTP stub server for Go tests. A test
describes each request it expects with a fluent `ExpectationBuilder`
(method, path pattern, headers, exact or contained body, path and query
parameters, how many calls) and the canned response to send back. It
registers the builders with `Add` and calls `Start`. The server then
dispatches every inbound request to the next unused handler slot of its
route pattern. Each slot runs six independent checks against its builder
and records every discrepancy. `Stop` reports, for each pattern, a
call-count mismatch and then every recorded discrepancy.

This project models that engine in Dafny:

- `http.dfy` (module `Http`): the values exchanged with the HTTP layer. These
  are byte bodies, multi-valued header maps, a request as the engine sees it
  after routing and form parsing, and a response.
- `matcher.dfy` (module `Matcher`): the six request checks as pure functions,
  and the linear `Contains` search.
  - Path parameters, query parameters and headers walk a Go map in
    unspecified order, so what they append is specified as a multiset. It is
    built by summing per-key contributions over the expected keys, and it is
    proved independent of the visiting order.
  - Each check is related to an independent reference: the set of failing
    "sites", and the `Satisfies` predicate.
- `expectations.dfy` (module `Expectations`): the builder as a class whose
  setters update one field in place and return the same builder.
- `cases.dfy` (module `Cases`): a route pattern's case as a class. It holds
  handler slots (references to builders), the two call counters and the
  recorded discrepancies. It has the check methods, the slot handler and the
  per-pattern dispatch.
- `server.dfy` (module `Server`): the server as a class.
  - It holds the cases, the routing table frozen by `Start`, and the
    append-only list of failures handed to the test (`reports`).
  - It has `Add`, `Start`, routed and unrouted `Serve`, and `Stop`.
  - The teardown specification `Teardown` carries lemmas: its count, when it
    is clean, and that it does not depend on the order.
- `scenarios.dfy` (module `Scenarios`): whole runs (create, add, start, one
  request, stop), including the "Simple one request" case of the package's
  example test and the two halves of the finding below.

## Model

| member | source | states |
|---|---|---|
| Expectations.ExpectationBuilder.Expect | testserver.go:33-35 | a new builder expects exactly one call and has every criterion unset and nothing declared for the response |
| Expectations.ExpectationBuilder.Times | testserver.go:40-43 | sets the expected call count and returns the same builder; no other field changes |
| Expectations.ExpectationBuilder.Method | testserver.go:46-49 | sets the expected method and returns the same builder; no other field changes |
| Expectations.ExpectationBuilder.Path | testserver.go:53-56 | sets the route pattern and returns the same builder; no other field changes |
| Expectations.ExpectationBuilder.RespWithStatus | testserver.go:59-62 | sets the response status and returns the same builder; no other field changes |
| Expectations.ExpectationBuilder.RespWithHeader | testserver.go:72-78 | appends the value after the values already declared under that name, leaves every other name as it was, and returns the same builder |
| Expectations.ExpectationBuilder.RespWithBody | testserver.go:83-94 | raw bytes become the response body verbatim and a structured value becomes its encoding; nothing else changes |
| Expectations.ExpectationBuilder.ReqBody | testserver.go:100-111 | as written: raw bytes replace the response body and leave the exact-body criterion unchanged; a structured value's encoding becomes the exact-body criterion and the response body is unchanged |
| Expectations.ExpectationBuilder.ReqBodyIntended | testserver.go:96-99 | the documented behaviour: either form of argument becomes the exact request body criterion, and nothing else changes |
| Expectations.ExpectationBuilder.ReqBodyContains | testserver.go:114-117 | the string's bytes become the contained-body criterion; nothing else changes |
| Expectations.ExpectationBuilder.ReqPathParam | testserver.go:131-137 | sets the expected value of one path parameter, replacing an earlier value for that name; other names are kept |
| Expectations.ExpectationBuilder.ReqQueryParam | testserver.go:142-148 | sets the expected value of one query or form parameter, replacing an earlier value for that name; other names are kept |
| Expectations.ExpectationBuilder.ReqHeader | testserver.go:152-158 | appends a wanted value after those already wanted under that header name; other names are kept |
| Cases.Case.CheckMethod | testserver.go:207-213 | appends one wrong-method discrepancy exactly when the methods differ, and nothing otherwise |
| Cases.Case.CheckBody | testserver.go:215-223 | when an exact body was declared and the request body differs, appends one body-mismatch discrepancy; otherwise appends nothing |
| Cases.Case.CheckBodyContains | testserver.go:225-233 | when a contained body was declared and the request body does not contain it as a contiguous run, appends one discrepancy; otherwise appends nothing |
| Cases.Case.CheckPathParams | testserver.go:235-248 | visits the expected parameters in some order; keeps what was recorded before and appends, as a multiset, exactly the per-parameter discrepancies |
| Cases.Case.CheckQueryParams | testserver.go:250-260 | the same for expected query parameters, compared with the merged form value of each name |
| Cases.Case.CheckHeaders | testserver.go:262-279 | the same for expected headers: a missing name, or each wanted value absent from the request's values |
| Cases.Case.CheckHeaderValues | testserver.go:269-275 | appends, in wanted order, one discrepancy per wanted value that is not among the request's values for that name |
| Matcher.Contains | testserver.go:281-288 | returns true exactly when the value occurs in the list |
| Matcher.FailuresRemove | testserver.go:237 | the discrepancies of a map walk do not depend on the visiting order: any expected key can be visited first |
| Matcher.FailuresAt | testserver.go:235-279 | a discrepancy is appended only for the expected key it names, so request entries the expectation does not mention are never reported |
| Matcher.PathParamVerdicts | testserver.go:235-248 | a missing-parameter discrepancy is appended iff an expected name is absent; a mismatch is appended iff the name is present with a different value; there is one discrepancy per failing expected parameter |
| Matcher.QueryParamVerdicts | testserver.go:250-260 | a mismatch is appended iff an expected name's merged form value differs, where an absent name reads as ""; there is one per failing name |
| Matcher.HeaderVerdicts | testserver.go:262-279 | a missing-header discrepancy is appended iff an expected name is absent; a wanted value is reported as many times as it is wanted, and only when the request lacks it; there is one discrepancy per failing header site |
| Matcher.RequestFailureCount | testserver.go:313-318 | the number of discrepancies one request adds is the number of failing scalar checks, plus failing parameters, plus failing header sites |
| Matcher.NoFailuresIffSatisfied | testserver.go:313-318 | a request adds no discrepancy exactly when it satisfies every declared criterion |
| Matcher.SatisfiesBySites | testserver.go:207-279 | a request satisfies every declared criterion exactly when the method agrees, the exact and contained bodies agree when declared, and no parameter or header site fails |
| Cases.Case.ScalarChecks | testserver.go:313-315 | the method, exact-body and contained-body checks run in that order and append exactly their discrepancies in that order |
| Cases.Case.KeyedChecks | testserver.go:316-318 | the path, query and header walks keep what was recorded before and append, as a multiset, exactly the per-key discrepancies of the three walks |
| Cases.Case.RunChecks | testserver.go:313-318 | the six checks keep earlier discrepancies and append exactly the request's discrepancies against the builder |
| Cases.Respond | testserver.go:320-328 | the answer carries exactly the builder's non-empty header lists apart from Date, which is blanked, and the builder's status and body |
| Cases.Case.Extend | testserver.go:306-330 | appends max(times, 0) slots bound to the builder after the existing ones, and the wanted count follows the number of slots |
| Cases.EmitHeaders | testserver.go:320-324 | the written header map carries every declared non-empty value list verbatim, and no other name |
| Cases.Case.Handle | testserver.go:307-328 | the slot handler keeps earlier discrepancies, appends exactly the request's discrepancies against its builder, and answers with the builder's headers, with Date blanked, and its status and body |
| Cases.Case.Serve | testserver.go:341-350 | when a slot is left: runs it, counts the call and answers as that slot's builder declares. Otherwise: appends one unexpected-call discrepancy numbering the call actualCalls+1, leaves the counter, and writes nothing |
| Cases.Repeat | testserver.go:306-330 | Add creates max(times, 0) slots, all bound to the same builder |
| Server.TestServer.New | testserver.go:291-296 | a new server has no cases, no routes and no reports |
| Server.TestServer.Add | testserver.go:299-332 | creates the pattern's case when missing, even for zero or negative times; appends the new slots after the existing ones; leaves counters, discrepancies and every other case unchanged |
| Server.TestServer.Start | testserver.go:335-353 | the router serves exactly the patterns registered so far, each routed to its own case |
| Server.TestServer.Serve | testserver.go:341-359 | a routed request is dispatched to its case with the case's guarantees; any other request adds one not-found report and changes no case |
| Server.ReportCase | testserver.go:363-369 | reports one case: the count mismatch when the counters differ, then each recorded discrepancy in order |
| Server.TestServer.Stop | testserver.go:362-371 | visits every pattern exactly once, in some order, and appends exactly the teardown reports for that order |
| Server.RecordAll | testserver.go:367-369 | one report per recorded discrepancy, in recorded order |
| Server.TeardownCount | testserver.go:362-371 | teardown reports one failure per case whose counters disagree, plus one per recorded discrepancy |
| Server.TeardownClean | testserver.go:362-371 | teardown reports nothing iff every case got exactly its wanted calls and recorded no discrepancy |
| Server.TeardownMismatchOnce | testserver.go:364-366 | a case's count mismatch is reported exactly once when its counters disagree and never otherwise |
| Server.TeardownOrderFree | testserver.go:363 | any two visiting orders of the same patterns report the same multiset of failures |
| Server.EnumeratesSize | testserver.go:363 | a visiting order of the cases has one entry per registered pattern |
| Scenarios.RunOnce | testserver.go:291-371 | a whole run with one single-call expectation and one routed request: the response is the declared one, and Stop reports exactly the request's discrepancies |
| Scenarios.SimpleOneRequest | example_test.go:55-76 | a GET of /sample against one expected GET of /sample answers 200 with an empty body, and Stop reports nothing |
| Scenarios.RawReqBodyAsWritten | testserver.go:100-111 | with ReqBody given raw bytes "1", a request whose body is "2" is accepted and Stop reports nothing |
| Scenarios.RawReqBodyIntended | testserver.go:96-99 | with the raw bytes taken as the exact body, the same request makes Stop report exactly one body mismatch |

## Left out

- The listener, the HTTP transport, `httptest.Server` and `Close` are not modelled. The route a request matches is an input to `Serve`, in place of gorilla/mux pattern matching, and so are the path variables it extracts.
- `ParseForm`, `FormValue` and reading the body are inputs. The merged form map and the body bytes are parts of `Request`, and parse and read errors are ignored, as in the source.
- The body the checks see is not derived from the raw request. The handler parses the form before it reads the body (testserver.go:308-309). For a url-encoded POST, PUT or PATCH the parser has already consumed the body, so the exact-body and contained-body checks see an empty body. `Request.body` stands for those post-parse bytes: a url-encoded form request is described with an empty body, and the model does not compute that from the method and content type.
- Text values (methods, paths, parameter and header names and values) are Dafny strings of characters, while Go strings are byte strings. The engine only compares them for equality, so nothing is lost for valid UTF-8. `ReqBodyContains` takes bytes because its argument is converted to a byte slice and searched for inside the body bytes (testserver.go:115).
- JSON encoding of structured bodies is not modelled: a structured argument carries its encoding already. The panic on an encoding failure is left out.
- Failure message text from `fmt.Sprintf` and `t.Errorf` is not modelled. Discrepancies and reports are structured values carrying the same fields.
- Several `net/http` behaviours are not modelled:
  - header-name canonicalisation;
  - the Content-Length and Content-Type headers added on write;
  - the panic `WriteHeader` raises for a status below 100 or above 999, which would abort the handler before the call counter increments. The model writes any status and always counts the call.
- An unexpected call writes nothing in the source, so `net/http` answers it with an empty 200. The model returns `None`.
- Concurrency is not modelled. The source serves requests concurrently with unsynchronised counters; the model serves one request at a time.
- Go's distinction between a nil map or slice and an empty one is not modelled. An unset criterion is an empty map or `None`, which every check treats the same way as the source does.
- Cases.Case.Handle: the discrepancies are specified as a multiset, not a sequence. The order in which Go visits map entries is unspecified. The scalar checks are specified in sequence by `CheckMethod`, `CheckBody` and `CheckBodyContains`.
- Server.TestServer.Stop: the order in which patterns are visited is returned as a ghost value, not fixed. Go map order is unspecified, and `TeardownOrderFree` shows the multiset of reports does not depend on it.
- `ReqPathParam` and `ReqQueryParam` keep one value per name, and a repeated name replaces the earlier value (testserver.go:135, 146).
- Where the builder's documentation and the code disagree, the code is followed: `ReqBody` with raw bytes sets the response body (see Findings).

## Findings

| source | as written | input that shows it | evidently intended | confidence | as-written member | corrected member |
|---|---|---|---|---|---|---|
| testserver.go:100-111 | `ReqBody` given a byte slice stores it as the response body and returns without setting the exact request body criterion | `ReqBody([]byte("1"))` on an expected POST of /1, then a POST of /1 with body "2": no body mismatch is reported | the function's name and first doc sentence say the raw bytes are the exact request body to match; only its copied item 1 mentions the response body | medium, not executed | Scenarios.RawReqBodyAsWritten | Scenarios.RawReqBodyIntended |
