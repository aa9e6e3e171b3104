/** Whole test runs against the server: create it, register one expectation,
    start it, send one request, stop it, and read what was reported. */
module Scenarios {
  import opened Http
  import opened Matcher
  import opened Expectations
  import opened Cases
  import opened Server

  lemma SingleEnumeration(order: seq<string>, p: string)
    requires Enumerates(order, {p})
    ensures order == [p]
  {
    EnumeratesSize(order, {p});
    assert order[0] in order;
  }

  /** With no parameter, header or body-content criterion and the right method,
      the only discrepancy a request can add is an exact-body mismatch. */
  lemma BodyOnlyFailures(cr: Criteria, req: Request, fails: seq<Discrepancy>)
    requires cr.pathParams == map[] && cr.queryParams == map[] && cr.headers == map[]
    requires cr.containBody == None && cr.httpMethod == req.httpMethod
    requires multiset(fails) == RequestFailures(cr, req)
    ensures fails == BodyFailures(req.httpMethod, req.path, cr.exactBody, req.body)
  {
    var m, p := req.httpMethod, req.path;
    assert WantedKeys(PathParams(m, p, cr.pathParams, req.pathParams)) == {};
    assert WantedKeys(QueryParams(m, p, cr.queryParams, req.form)) == {};
    assert WantedKeys(Headers(m, p, cr.headers, req.header)) == {};
    var b := BodyFailures(m, p, cr.exactBody, req.body);
    assert multiset(fails) == multiset(b);
    if b != [] {
      assert |fails| == 1;
      assert fails[0] in multiset(b);
    }
  }

  /** Teardown of a single case whose call counts agree reports exactly its recorded discrepancies. */
  lemma TeardownSingle(p: string, states: map<string, CaseState>)
    requires p in states && states[p].wantedCalls == states[p].actualCalls
    ensures Teardown([p], states) == RecordAll(states[p].fails)
  {
    assert Teardown([p], states) == Teardown([], states) + ReportsOf(p, states);
  }

  /** A started server holding one case for the builder's pattern, with one slot bound to the builder. */
  method StartedWith(eb: ExpectationBuilder) returns (ts: TestServer, c: Case)
    requires eb.times == 1
    ensures fresh(ts) && fresh(c) && ts.Valid()
    ensures ts.cases == map[eb.urlPattern := c] && ts.routes == ts.cases && ts.reports == []
    ensures c.slots == [eb] && c.wantedCalls == 1 && c.actualCalls == 0 && c.fails == []
  {
    ts := new TestServer.New();
    ts.Add(eb);
    ts.Start();
    c := ts.cases[eb.urlPattern];
    assert ts.cases.Keys == {eb.urlPattern};
  }

  /** Stopping a server with one case whose call counts agree reports exactly its recorded discrepancies. */
  method StopSingle(ts: TestServer, p: string, c: Case)
    requires ts.Valid() && ts.cases == map[p := c] && ts.reports == []
    requires c.wantedCalls == c.actualCalls
    modifies ts`reports
    ensures ts.reports == RecordAll(c.fails)
  {
    ghost var before := ts.reports;
    ghost var order := ts.Stop();
    ghost var states := ts.States();
    assert states.Keys == {p} && states[p] == c.State();
    StopSingleReports(order, p, states, before, ts.reports);
  }

  lemma StopSingleReports(order: seq<string>, p: string, states: map<string, CaseState>, before: seq<Report>, after: seq<Report>)
    requires states.Keys == {p} && Enumerates(order, states.Keys)
    requires states[p].wantedCalls == states[p].actualCalls
    requires before == [] && after == before + Teardown(order, states)
    ensures after == RecordAll(states[p].fails)
  {
    SingleEnumeration(order, p);
    TeardownSingle(p, states);
    assert after == Teardown([p], states);
  }

  /** One test run with a single expectation registered for one call and one
      routed request: the handler answers as declared and Stop reports every
      discrepancy of the request and nothing else. */
  method RunOnce(eb: ExpectationBuilder, req: Request)
    returns (resp: Option<Response>, reports: seq<Report>, ghost fails: seq<Discrepancy>)
    requires eb.times == 1
    ensures resp.Some? && Responds(eb, resp.value)
    ensures multiset(fails) == RequestFailures(eb.RequestCriteria(), req)
    ensures reports == RecordAll(fails)
  {
    ghost var cr := eb.RequestCriteria();
    var ts, c := StartedWith(eb);
    assert ts.routes[eb.urlPattern] == c;
    resp := ts.Serve(Some(eb.urlPattern), req);
    assert c.actualCalls == 1 && c.slots[0] == eb;
    fails := c.fails;
    StopSingle(ts, eb.urlPattern, c);
    reports := ts.reports;
    assert eb.RequestCriteria() == cr;
  }

  /** "Simple one request": a GET of /sample against an expectation of one GET
      of /sample answers 200 with no body, and Stop reports nothing. */
  method SimpleOneRequest(req: Request) returns (resp: Option<Response>, reports: seq<Report>)
    requires req.httpMethod == "GET" && req.path == "/sample"
    ensures resp.Some? && resp.value.status == 200 && resp.value.body == []
    ensures reports == []
  {
    var eb := new ExpectationBuilder.Expect();
    var _ := eb.Method("GET");
    var _ := eb.Path("/sample");
    var _ := eb.RespWithStatus(200);
    ghost var cr := eb.RequestCriteria();
    assert cr == Criteria("GET", map[], None, None, map[], map[]);
    ghost var fails;
    resp, reports, fails := RunOnce(eb, req);
    assert eb.RequestCriteria() == cr;
    BodyOnlyFailures(cr, req, fails);
  }

  /** ReqBody as written: an expectation whose request body was declared as raw
      bytes "1" accepts a request whose body is "2", and Stop reports nothing. */
  method RawReqBodyAsWritten(req: Request) returns (reports: seq<Report>)
    requires req.httpMethod == "POST" && req.path == "/1" && req.body == [50]
    ensures reports == []
  {
    var eb := new ExpectationBuilder.Expect();
    var _ := eb.Method("POST");
    var _ := eb.Path("/1");
    var _ := eb.ReqBody(Raw([49]));
    var _ := eb.RespWithStatus(200);
    ghost var cr := eb.RequestCriteria();
    assert cr == Criteria("POST", map[], None, None, map[], map[]);
    var resp;
    ghost var fails;
    resp, reports, fails := RunOnce(eb, req);
    assert eb.RequestCriteria() == cr;
    BodyOnlyFailures(cr, req, fails);
  }

  /** ReqBody as intended: the same expectation and request, with the raw bytes
      taken as the exact request body, make Stop report exactly one body mismatch. */
  method RawReqBodyIntended(req: Request) returns (reports: seq<Report>)
    requires req.httpMethod == "POST" && req.path == "/1" && req.body == [50]
    ensures reports == [Recorded(BodyMismatch("POST", "/1", [50], [49]))]
  {
    var eb := new ExpectationBuilder.Expect();
    var _ := eb.Method("POST");
    var _ := eb.Path("/1");
    var _ := eb.ReqBodyIntended(Raw([49]));
    var _ := eb.RespWithStatus(200);
    ghost var cr := eb.RequestCriteria();
    assert cr == Criteria("POST", map[], Some([49]), None, map[], map[]);
    var resp;
    ghost var fails;
    resp, reports, fails := RunOnce(eb, req);
    assert eb.RequestCriteria() == cr;
    BodyOnlyFailures(cr, req, fails);
  }
}
