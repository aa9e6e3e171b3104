/** The per-pattern call sequencer. A case holds one handler slot per expected
    call (slot i serves the i-th call), the expected and actual call counters,
    and the discrepancies recorded for the pattern so far. A slot refers to the
    builder it was registered from, so the handler reads the builder's fields
    when it runs. */
module Cases {
  import opened Http
  import opened Matcher
  import opened Expectations

  /** The counters and the recorded discrepancies of one case. */
  datatype CaseState = CaseState(wantedCalls: nat, actualCalls: nat, fails: seq<Discrepancy>)

  /** `written` carries every non-empty declared header list verbatim and no other name. */
  ghost predicate CarriesExactly(declared: Header, written: Header)
  {
    && (forall k | k in written :: k in declared && declared[k] != [] && written[k] == declared[k])
    && (forall k | k in declared && declared[k] != [] :: k in written)
  }

  /** `resp` is what the handler of `eb` writes: the declared headers (with any
      declared Date values blanked), the declared status and the declared body. */
  ghost predicate Responds(eb: ExpectationBuilder, resp: Response)
    reads eb
  {
    && CarriesExactly(eb.respHeaders - {"Date"}, resp.header - {"Date"})
    && "Date" in resp.header && resp.header["Date"] == []
    && resp.status == eb.respStatus
    && resp.body == eb.respBody
  }

  /** The header loop of the handler: every value declared under every name is
      added to the (initially empty) response header map. */
  method EmitHeaders(declared: Header) returns (written: Header)
    ensures CarriesExactly(declared, written)
  {
    written := map[];
    var remaining := declared.Keys;
    while remaining != {}
      invariant remaining <= declared.Keys
      invariant CarriesExactly(map k | k in declared && k !in remaining :: declared[k], written)
      decreases remaining
    {
      var k :| k in remaining;
      var vs := declared[k];
      var j := 0;
      while j < |vs|
        invariant 0 <= j <= |vs|
        invariant k !in written ==> j == 0
        invariant k in written ==> written[k] == vs[..j] && j > 0
        invariant forall n | n in written && n != k :: n in declared && declared[n] != [] && n !in remaining && written[n] == declared[n]
        invariant forall n | n in declared && declared[n] != [] && n !in remaining :: n in written
      {
        written := written[k := Values(written, k) + [vs[j]]];
        j := j + 1;
      }
      assert j == |vs| && (k in written ==> written[k] == vs);
      remaining := remaining - {k};
    }
  }

  /** The response the handler writes for `eb`: its declared headers with Date
      blanked, its status and its body. */
  method Respond(eb: ExpectationBuilder) returns (resp: Response)
    ensures Responds(eb, resp)
  {
    var written := EmitHeaders(eb.respHeaders);
    resp := Response(written["Date" := []], eb.respStatus, eb.respBody);
  }

  /** The scalar checks followed by the keyed walks append exactly the request's discrepancies. */
  lemma SplitRequestFailures(cr: Criteria, req: Request, start: seq<Discrepancy>, mid: seq<Discrepancy>, end: seq<Discrepancy>)
    requires mid == start
      + MethodFailures(req.path, cr.httpMethod, req.httpMethod)
      + BodyFailures(req.httpMethod, req.path, cr.exactBody, req.body)
      + ContainFailures(req.httpMethod, req.path, cr.containBody, req.body)
    requires mid <= end
    requires multiset(end) == multiset(mid)
      + AllFailures(PathParams(req.httpMethod, req.path, cr.pathParams, req.pathParams))
      + AllFailures(QueryParams(req.httpMethod, req.path, cr.queryParams, req.form))
      + AllFailures(Headers(req.httpMethod, req.path, cr.headers, req.header))
    ensures start <= end
    ensures multiset(end) == multiset(start) + RequestFailures(cr, req)
  {
  }

  /** The handler slots `Add` creates for one builder: as many as `times` says, none when it is not positive. */
  function Repeat(eb: ExpectationBuilder, times: int): (r: seq<ExpectationBuilder>)
    ensures |r| == if times < 0 then 0 else times
    ensures forall i | 0 <= i < |r| :: r[i] == eb
    decreases times
  {
    if times <= 0 then [] else Repeat(eb, times - 1) + [eb]
  }

  /** One iteration of a map walk: visiting `k` appends exactly its discrepancies,
      which keeps the walk's invariant for the keys visited so far. */
  lemma VisitKey(c: KeyedCheck, keys: set<string>, remaining: set<string>, k: string,
                 start: seq<Discrepancy>, before: seq<Discrepancy>, after: seq<Discrepancy>)
    requires remaining <= keys && k in remaining
    requires start <= before && multiset(before) == multiset(start) + Failures(c, keys - remaining)
    requires after == before + KeyFailures(c, k)
    ensures start <= after
    ensures multiset(after) == multiset(start) + Failures(c, keys - (remaining - {k}))
  {
    var done, next := keys - remaining, keys - (remaining - {k});
    assert next == done + {k};
    FailuresInsert(c, done, k);
    var f := KeyFailures(c, k);
    assert multiset(after) == multiset(before) + multiset(f);
  }

  class Case {
    var slots: seq<ExpectationBuilder>
    var wantedCalls: nat
    var actualCalls: nat
    var fails: seq<Discrepancy>

    /** Slots are exactly 0 .. wantedCalls-1 and the calls served never outnumber them. */
    ghost predicate Valid()
      reads this
    {
      |slots| == wantedCalls && actualCalls <= wantedCalls
    }

    function State(): CaseState
      reads this
    {
      CaseState(wantedCalls, actualCalls, fails)
    }

    constructor ()
      ensures Valid()
      ensures slots == [] && wantedCalls == 0 && actualCalls == 0 && fails == []
    {
      slots, wantedCalls, actualCalls, fails := [], 0, 0, [];
    }

    /** The slot loop of Add: `times` new slots bound to `eb` follow the
        existing ones, and the wanted-call counter counts them. */
    method Extend(eb: ExpectationBuilder, times: int)
      requires Valid()
      modifies this`slots, this`wantedCalls
      ensures Valid()
      ensures slots == old(slots) + Repeat(eb, times)
    {
      var i := 0;
      while i < times
        invariant 0 <= i && (i <= times || i == 0)
        invariant slots == old(slots) + Repeat(eb, i)
        invariant wantedCalls == |slots|
      {
        slots := slots + [eb];
        wantedCalls := wantedCalls + 1;
        i := i + 1;
      }
    }

    method CheckMethod(path: string, want: string, got: string)
      modifies this`fails
      ensures fails == old(fails) + MethodFailures(path, want, got)
    {
      if got != want {
        fails := fails + [WrongMethod(path, want, got)];
      }
    }

    method CheckBody(m: string, path: string, want: Option<Bytes>, got: Bytes)
      modifies this`fails
      ensures fails == old(fails) + BodyFailures(m, path, want, got)
    {
      if want.Some? {
        if got != want.value {
          fails := fails + [BodyMismatch(m, path, got, want.value)];
        }
      }
    }

    method CheckBodyContains(m: string, path: string, want: Option<Bytes>, got: Bytes)
      modifies this`fails
      ensures fails == old(fails) + ContainFailures(m, path, want, got)
    {
      if want.Some? {
        if !HasInfix(got, want.value) {
          fails := fails + [BodyLacksContent(m, path, got, want.value)];
        }
      }
    }

    method CheckPathParams(m: string, path: string, want: map<string, string>, got: map<string, string>)
      modifies this`fails
      ensures old(fails) <= fails
      ensures multiset(fails) == multiset(old(fails)) + AllFailures(PathParams(m, path, want, got))
    {
      ghost var c := PathParams(m, path, want, got);
      var remaining := want.Keys;
      while remaining != {}
        invariant remaining <= want.Keys
        invariant old(fails) <= fails
        invariant multiset(fails) == multiset(old(fails)) + Failures(c, want.Keys - remaining)
        decreases remaining
      {
        var k :| k in remaining;
        ghost var before := fails;
        if k !in got {
          fails := fails + [NoPathParam(m, path, k)];
        } else if got[k] != want[k] {
          fails := fails + [PathParamMismatch(m, path, k, got[k], want[k])];
        }
        VisitKey(c, want.Keys, remaining, k, old(fails), before, fails);
        remaining := remaining - {k};
      }
      assert want.Keys - remaining == WantedKeys(c);
    }

    method CheckQueryParams(m: string, path: string, want: map<string, string>, form: map<string, string>)
      modifies this`fails
      ensures old(fails) <= fails
      ensures multiset(fails) == multiset(old(fails)) + AllFailures(QueryParams(m, path, want, form))
    {
      ghost var c := QueryParams(m, path, want, form);
      var remaining := want.Keys;
      while remaining != {}
        invariant remaining <= want.Keys
        invariant old(fails) <= fails
        invariant multiset(fails) == multiset(old(fails)) + Failures(c, want.Keys - remaining)
        decreases remaining
      {
        var k :| k in remaining;
        ghost var before := fails;
        var got := FormValue(form, k);
        if got != want[k] {
          fails := fails + [QueryParamMismatch(m, path, k, got, want[k])];
        }
        VisitKey(c, want.Keys, remaining, k, old(fails), before, fails);
        remaining := remaining - {k};
      }
      assert want.Keys - remaining == WantedKeys(c);
    }

    method CheckHeaders(m: string, path: string, want: Header, got: Header)
      modifies this`fails
      ensures old(fails) <= fails
      ensures multiset(fails) == multiset(old(fails)) + AllFailures(Headers(m, path, want, got))
    {
      ghost var c := Headers(m, path, want, got);
      var remaining := want.Keys;
      while remaining != {}
        invariant remaining <= want.Keys
        invariant old(fails) <= fails
        invariant multiset(fails) == multiset(old(fails)) + Failures(c, want.Keys - remaining)
        decreases remaining
      {
        var k :| k in remaining;
        ghost var before := fails;
        if k !in got {
          fails := fails + [NoHeader(m, path, k)];
        } else {
          CheckHeaderValues(m, path, k, got[k], want[k]);
        }
        VisitKey(c, want.Keys, remaining, k, old(fails), before, fails);
        remaining := remaining - {k};
      }
      assert want.Keys - remaining == WantedKeys(c);
    }

    /** The inner header loop: each wanted value absent from the request's values is recorded. */
    method CheckHeaderValues(m: string, path: string, k: string, gotValues: seq<string>, wantValues: seq<string>)
      modifies this`fails
      ensures fails == old(fails) + ValueFailures(m, path, k, gotValues, wantValues)
    {
      var j := 0;
      while j < |wantValues|
        invariant 0 <= j <= |wantValues|
        invariant fails == old(fails) + ValueFailures(m, path, k, gotValues, wantValues[..j])
      {
        var found := Contains(gotValues, wantValues[j]);
        if !found {
          fails := fails + [HeaderMismatch(m, path, k, gotValues, wantValues[j])];
        }
        assert wantValues[..j + 1][..j] == wantValues[..j];
        j := j + 1;
      }
      assert wantValues[..j] == wantValues;
    }

    /** The handler bound to a slot: run every check against `eb`, then write its response. */
    method Handle(eb: ExpectationBuilder, req: Request) returns (resp: Response)
      modifies this`fails
      ensures old(fails) <= fails
      ensures multiset(fails) == multiset(old(fails)) + RequestFailures(eb.RequestCriteria(), req)
      ensures Responds(eb, resp)
    {
      RunChecks(eb, req);
      resp := Respond(eb);
    }

    /** The six checks of the handler, in source order; none stops the others. */
    method RunChecks(eb: ExpectationBuilder, req: Request)
      modifies this`fails
      ensures old(fails) <= fails
      ensures multiset(fails) == multiset(old(fails)) + RequestFailures(eb.RequestCriteria(), req)
    {
      ghost var cr := eb.RequestCriteria();
      ScalarChecks(req, eb.httpMethod, eb.reqExactBody, eb.reqContainBody);
      ghost var mid := fails;
      KeyedChecks(req, eb.reqPathParams, eb.reqQueryParams, eb.reqHeaders);
      SplitRequestFailures(cr, req, old(fails), mid, fails);
    }

    /** The method, exact-body and contained-body checks, appended in that order. */
    method ScalarChecks(req: Request, wantMethod: string, exactBody: Option<Bytes>, containBody: Option<Bytes>)
      modifies this`fails
      ensures fails == old(fails)
        + MethodFailures(req.path, wantMethod, req.httpMethod)
        + BodyFailures(req.httpMethod, req.path, exactBody, req.body)
        + ContainFailures(req.httpMethod, req.path, containBody, req.body)
    {
      var m, p := req.httpMethod, req.path;
      CheckMethod(p, wantMethod, m);
      CheckBody(m, p, exactBody, req.body);
      CheckBodyContains(m, p, containBody, req.body);
    }

    /** The path-parameter, query-parameter and header walks. */
    method KeyedChecks(req: Request, pathParams: map<string, string>, queryParams: map<string, string>, headers: Header)
      modifies this`fails
      ensures old(fails) <= fails
      ensures multiset(fails) == multiset(old(fails))
        + AllFailures(PathParams(req.httpMethod, req.path, pathParams, req.pathParams))
        + AllFailures(QueryParams(req.httpMethod, req.path, queryParams, req.form))
        + AllFailures(Headers(req.httpMethod, req.path, headers, req.header))
    {
      var m, p := req.httpMethod, req.path;
      CheckPathParams(m, p, pathParams, req.pathParams);
      CheckQueryParams(m, p, queryParams, req.form);
      CheckHeaders(m, p, headers, req.header);
    }

    /** Dispatch of a routed request: serve slot `actualCalls` when it exists and
        count the call; otherwise record one unexpected call and leave the counter. */
    method Serve(pattern: string, req: Request) returns (resp: Option<Response>)
      requires Valid()
      modifies this`actualCalls, this`fails
      ensures Valid()
      ensures old(fails) <= fails
      ensures old(actualCalls) < wantedCalls ==>
        && actualCalls == old(actualCalls) + 1
        && multiset(fails) == multiset(old(fails)) + RequestFailures(slots[old(actualCalls)].RequestCriteria(), req)
        && resp.Some? && Responds(slots[old(actualCalls)], resp.value)
      ensures old(actualCalls) == wantedCalls ==>
        && actualCalls == old(actualCalls)
        && fails == old(fails) + [UnexpectedCall(req.httpMethod, pattern, wantedCalls, actualCalls + 1)]
        && resp == None
    {
      if actualCalls < |slots| {
        var r := Handle(slots[actualCalls], req);
        resp := Some(r);
        actualCalls := actualCalls + 1;
      } else {
        fails := fails + [UnexpectedCall(req.httpMethod, pattern, wantedCalls, actualCalls + 1)];
        resp := None;
      }
    }
  }
}
