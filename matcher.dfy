/** The request matcher: how one inbound request is compared with the criteria
    of one expectation. Every check is evaluated; none stops the others, and
    each failing check contributes discrepancies of its own. The checks that
    walk a Go map (path parameters, query parameters, headers) visit its keys
    in an unspecified order, so what they produce is specified as a multiset. */
module Matcher {
  import opened Http

  /** One recorded mismatch, with the context the failure message carries. */
  datatype Discrepancy =
    | WrongMethod(path: string, want: string, got: string)
    | BodyMismatch(httpMethod: string, path: string, gotBody: Bytes, wantBody: Bytes)
    | BodyLacksContent(httpMethod: string, path: string, gotBody: Bytes, wantBody: Bytes)
    | NoPathParam(httpMethod: string, path: string, key: string)
    | PathParamMismatch(httpMethod: string, path: string, key: string, got: string, want: string)
    | QueryParamMismatch(httpMethod: string, path: string, key: string, got: string, want: string)
    | NoHeader(httpMethod: string, path: string, key: string)
    | HeaderMismatch(httpMethod: string, path: string, key: string, gotValues: seq<string>, want: string)
    | UnexpectedCall(httpMethod: string, pattern: string, wantedCalls: nat, gotCalls: nat)

  /** The map key a discrepancy is about; "" for the kinds that are not about a key. */
  function KeyOf(d: Discrepancy): string
  {
    if d.NoPathParam? || d.PathParamMismatch? || d.QueryParamMismatch? || d.NoHeader? || d.HeaderMismatch?
    then d.key
    else ""
  }

  /** The request criteria of one expectation; an unset body criterion is None. */
  datatype Criteria = Criteria(
    httpMethod: string,
    headers: Header,
    exactBody: Option<Bytes>,
    containBody: Option<Bytes>,
    pathParams: map<string, string>,
    queryParams: map<string, string>)

  /** `part` occurs as a contiguous run inside `s` (bytes.Contains). */
  predicate HasInfix(s: Bytes, part: Bytes)
  {
    exists i :: 0 <= i <= |s| - |part| && InfixAt(s, part, i)
  }

  predicate InfixAt(s: Bytes, part: Bytes, i: int)
    requires 0 <= i <= |s| - |part|
  {
    s[i..i + |part|] == part
  }

  /** The method check: one discrepancy when the methods differ (case-sensitive). */
  function MethodFailures(path: string, want: string, got: string): seq<Discrepancy>
  {
    if got != want then [WrongMethod(path, want, got)] else []
  }

  /** The exact-body check, made only when an exact body was declared. */
  function BodyFailures(m: string, path: string, want: Option<Bytes>, got: Bytes): seq<Discrepancy>
  {
    if want.Some? && got != want.value then [BodyMismatch(m, path, got, want.value)] else []
  }

  /** The contained-body check, made only when a contained body was declared. */
  function ContainFailures(m: string, path: string, want: Option<Bytes>, got: Bytes): seq<Discrepancy>
  {
    if want.Some? && !HasInfix(got, want.value) then [BodyLacksContent(m, path, got, want.value)] else []
  }

  /** The three checks that walk a map of expected entries, with what each compares. */
  datatype KeyedCheck =
    | PathParams(httpMethod: string, path: string, want: map<string, string>, got: map<string, string>)
    | QueryParams(httpMethod: string, path: string, want: map<string, string>, form: map<string, string>)
    | Headers(httpMethod: string, path: string, wantHeaders: Header, gotHeaders: Header)

  /** The keys the check iterates over: those of the expected map. */
  function WantedKeys(c: KeyedCheck): set<string>
  {
    match c
    case PathParams(_, _, want, _) => want.Keys
    case QueryParams(_, _, want, _) => want.Keys
    case Headers(_, _, want, _) => want.Keys
  }

  /** What visiting one expected key appends, in order. */
  function KeyFailures(c: KeyedCheck, k: string): seq<Discrepancy>
  {
    match c
    case PathParams(m, p, want, got) =>
      if k !in want then []
      else if k !in got then [NoPathParam(m, p, k)]
      else if got[k] != want[k] then [PathParamMismatch(m, p, k, got[k], want[k])]
      else []
    case QueryParams(m, p, want, form) =>
      if k in want && FormValue(form, k) != want[k]
      then [QueryParamMismatch(m, p, k, FormValue(form, k), want[k])]
      else []
    case Headers(m, p, want, got) =>
      if k !in want then []
      else if k !in got then [NoHeader(m, p, k)]
      else ValueFailures(m, p, k, got[k], want[k])
  }

  /** The inner header loop: one discrepancy per wanted value, in list order,
      that is not among the values the request carries under that name. */
  function ValueFailures(m: string, p: string, k: string, gotValues: seq<string>, wantValues: seq<string>): seq<Discrepancy>
    decreases |wantValues|
  {
    if wantValues == [] then []
    else
      var last := wantValues[|wantValues| - 1];
      ValueFailures(m, p, k, gotValues, wantValues[..|wantValues| - 1])
      + (if last in gotValues then [] else [HeaderMismatch(m, p, k, gotValues, last)])
  }

  /** Some element of a non-empty set: the next key a map iteration visits. */
  ghost function Pick(s: set<string>): (k: string)
    requires s != {}
    ensures k in s
  {
    var k :| k in s; k
  }

  /** Everything a check appends after visiting the keys `keys`, in any order. */
  ghost function Failures(c: KeyedCheck, keys: set<string>): multiset<Discrepancy>
    decreases keys
  {
    if keys == {} then multiset{}
    else
      var k := Pick(keys);
      multiset(KeyFailures(c, k)) + Failures(c, keys - {k})
  }

  /** Everything one keyed check appends for one request. */
  ghost function AllFailures(c: KeyedCheck): multiset<Discrepancy>
  {
    Failures(c, WantedKeys(c))
  }

  /** Everything the six checks append for one request against one set of criteria. */
  ghost function RequestFailures(cr: Criteria, req: Request): multiset<Discrepancy>
  {
    var m, p := req.httpMethod, req.path;
    multiset(MethodFailures(p, cr.httpMethod, m))
    + multiset(BodyFailures(m, p, cr.exactBody, req.body))
    + multiset(ContainFailures(m, p, cr.containBody, req.body))
    + AllFailures(PathParams(m, p, cr.pathParams, req.pathParams))
    + AllFailures(QueryParams(m, p, cr.queryParams, req.form))
    + AllFailures(Headers(m, p, cr.headers, req.header))
  }

  /** The expected path parameters that are absent from the request or differ. */
  function BadPathParams(want: map<string, string>, got: map<string, string>): set<string>
  {
    set k | k in want && (k !in got || got[k] != want[k])
  }

  /** The expected query parameters whose merged form value differs. */
  function BadQueryParams(want: map<string, string>, form: map<string, string>): set<string>
  {
    set k | k in want && FormValue(form, k) != want[k]
  }

  /** The header sites that fail: (k, -1) for an expected name the request lacks,
      (k, i) for the i-th wanted value of a present name that is not among its values. */
  function HeaderSites(want: Header, got: Header): set<(string, int)>
  {
    (set k | k in want && k !in got :: (k, -1))
    + (set k, i | k in want && k in got && 0 <= i < |want[k]| && want[k][i] !in got[k] :: (k, i))
  }

  /** Independent reference: the places where a keyed check fails, one per
      discrepancy it should append. A failing parameter `k` is the site (k, 0). */
  function Sites(c: KeyedCheck): set<(string, int)>
  {
    match c
    case PathParams(_, _, want, got) => set k | k in BadPathParams(want, got) :: (k, 0)
    case QueryParams(_, _, want, form) => set k | k in BadQueryParams(want, form) :: (k, 0)
    case Headers(_, _, want, got) => HeaderSites(want, got)
  }

  /** The sites whose key lies in `keys`. */
  function SitesIn(c: KeyedCheck, keys: set<string>): set<(string, int)>
  {
    set s | s in Sites(c) && s.0 in keys
  }

  /** The sites of the wanted values of one header that the request lacks. */
  function ValueSites(k: string, gotValues: seq<string>, wantValues: seq<string>): set<(string, int)>
  {
    set i | 0 <= i < |wantValues| && wantValues[i] !in gotValues :: (k, i)
  }

  /** Independent reference: the request satisfies every criterion. */
  predicate Satisfies(cr: Criteria, req: Request)
  {
    && req.httpMethod == cr.httpMethod
    && (cr.exactBody.Some? ==> req.body == cr.exactBody.value)
    && (cr.containBody.Some? ==> HasInfix(req.body, cr.containBody.value))
    && (forall k | k in cr.pathParams :: k in req.pathParams && req.pathParams[k] == cr.pathParams[k])
    && (forall k | k in cr.queryParams :: FormValue(req.form, k) == cr.queryParams[k])
    && (forall k | k in cr.headers :: k in req.header && forall v | v in cr.headers[k] :: v in req.header[k])
  }

  /** Linear search of a header value list (the source's `contains`). */
  method Contains(s: seq<string>, e: string) returns (found: bool)
    ensures found <==> e in s
  {
    var i := 0;
    while i < |s|
      invariant 0 <= i <= |s|
      invariant e !in s[..i]
    {
      if s[i] == e {
        return true;
      }
      i := i + 1;
    }
    return false;
  }

  // ---------------------------------------------------------------------------
  // Order independence of the map walks

  /** Visiting the keys in any order yields the same multiset: any key can be
      taken out first. */
  lemma {:induction false} FailuresRemove(c: KeyedCheck, keys: set<string>, k: string)
    requires k in keys
    ensures Failures(c, keys) == multiset(KeyFailures(c, k)) + Failures(c, keys - {k})
    decreases |keys|
  {
    var j := Pick(keys);
    if j != k {
      var rest := keys - {j} - {k};
      assert keys - {k} - {j} == rest;
      assert Failures(c, keys) == multiset(KeyFailures(c, j)) + Failures(c, keys - {j});
      FailuresRemove(c, keys - {j}, k);
      FailuresRemove(c, keys - {k}, j);
      SwapUnion(multiset(KeyFailures(c, j)), multiset(KeyFailures(c, k)), Failures(c, rest));
    }
  }

  lemma SwapUnion(x: multiset<Discrepancy>, y: multiset<Discrepancy>, z: multiset<Discrepancy>)
    ensures x + (y + z) == y + (x + z)
  {
  }

  /** One more visited key adds exactly that key's discrepancies. */
  lemma FailuresInsert(c: KeyedCheck, keys: set<string>, k: string)
    requires k !in keys
    ensures Failures(c, keys + {k}) == Failures(c, keys) + multiset(KeyFailures(c, k))
  {
    FailuresRemove(c, keys + {k}, k);
    assert keys + {k} - {k} == keys;
  }

  // ---------------------------------------------------------------------------
  // Every discrepancy of a keyed check is about the key that produced it

  lemma {:induction false} ValueFailuresKeyed(m: string, p: string, k: string, gotValues: seq<string>, wantValues: seq<string>)
    ensures forall d | d in ValueFailures(m, p, k, gotValues, wantValues) ::
      d.HeaderMismatch? && d.httpMethod == m && d.path == p && d.key == k && d.gotValues == gotValues
      && d.want in wantValues && d.want !in gotValues
    decreases |wantValues|
  {
    if wantValues != [] {
      var n := |wantValues| - 1;
      ValueFailuresKeyed(m, p, k, gotValues, wantValues[..n]);
      assert forall v | v in wantValues[..n] :: v in wantValues;
    }
  }

  lemma KeyFailuresKeyed(c: KeyedCheck, k: string)
    ensures forall d | d in KeyFailures(c, k) :: KeyOf(d) == k
  {
    if c.Headers? && k in c.wantHeaders && k in c.gotHeaders {
      ValueFailuresKeyed(c.httpMethod, c.path, k, c.gotHeaders[k], c.wantHeaders[k]);
    }
  }

  /** How often a discrepancy occurs in what a keyed check appends: only the key it
      names contributes, so extra entries of the request are never flagged. */
  lemma {:induction false} FailuresAt(c: KeyedCheck, keys: set<string>, d: Discrepancy)
    ensures Failures(c, keys)[d] == if KeyOf(d) in keys then multiset(KeyFailures(c, KeyOf(d)))[d] else 0
    decreases keys
  {
    if keys != {} {
      var k := Pick(keys);
      FailuresAt(c, keys - {k}, d);
      KeyFailuresKeyed(c, k);
      if KeyOf(d) != k {
        assert d !in KeyFailures(c, k);
      }
    }
  }

  // ---------------------------------------------------------------------------
  // Counting: one discrepancy per failing site

  lemma {:induction false} ValueFailuresCount(m: string, p: string, k: string, gotValues: seq<string>, wantValues: seq<string>)
    ensures |ValueFailures(m, p, k, gotValues, wantValues)| == |ValueSites(k, gotValues, wantValues)|
    decreases |wantValues|
  {
    if wantValues == [] {
      assert ValueSites(k, gotValues, wantValues) == {};
    } else {
      var n := |wantValues| - 1;
      var front := wantValues[..n];
      ValueFailuresCount(m, p, k, gotValues, front);
      var last := if wantValues[n] in gotValues then {} else {(k, n)};
      assert ValueSites(k, gotValues, wantValues) == ValueSites(k, gotValues, front) + last;
      assert (k, n) !in ValueSites(k, gotValues, front);
    }
  }

  lemma KeyFailuresCount(c: KeyedCheck, k: string)
    ensures |KeyFailures(c, k)| == |SitesIn(c, {k})|
  {
    match c
    case PathParams(_, _, want, got) =>
      if k in want && (k !in got || got[k] != want[k]) {
        assert SitesIn(c, {k}) == {(k, 0)};
      } else {
        assert SitesIn(c, {k}) == {};
      }
    case QueryParams(_, _, want, form) =>
      if k in want && FormValue(form, k) != want[k] {
        assert SitesIn(c, {k}) == {(k, 0)};
      } else {
        assert SitesIn(c, {k}) == {};
      }
    case Headers(m, p, want, got) =>
      if k !in want {
        assert SitesIn(c, {k}) == {};
      } else if k !in got {
        assert SitesIn(c, {k}) == {(k, -1)};
      } else {
        assert SitesIn(c, {k}) == ValueSites(k, got[k], want[k]);
        ValueFailuresCount(m, p, k, got[k], want[k]);
      }
  }

  lemma {:induction false} FailuresCount(c: KeyedCheck, keys: set<string>)
    ensures |Failures(c, keys)| == |SitesIn(c, keys)|
    decreases keys
  {
    if keys == {} {
      assert SitesIn(c, keys) == {};
    } else {
      var k := Pick(keys);
      FailuresCount(c, keys - {k});
      KeyFailuresCount(c, k);
      SitesSplit(c, keys, k);
    }
  }

  lemma SitesSplit(c: KeyedCheck, keys: set<string>, k: string)
    requires k in keys
    ensures |SitesIn(c, keys)| == |SitesIn(c, keys - {k})| + |SitesIn(c, {k})|
  {
    var a, b := SitesIn(c, keys - {k}), SitesIn(c, {k});
    assert SitesIn(c, keys) == a + b;
    assert a * b == {};
  }

  /** A keyed check appends exactly one discrepancy per failing site. */
  lemma AllFailuresCount(c: KeyedCheck)
    ensures |AllFailures(c)| == |Sites(c)|
  {
    FailuresCount(c, WantedKeys(c));
    assert SitesIn(c, WantedKeys(c)) == Sites(c);
  }

  /** Tagging every key with the same index does not change the count. */
  lemma {:induction false} TaggedCount(keys: set<string>, t: int)
    ensures |set k | k in keys :: (k, t)| == |keys|
    decreases keys
  {
    if keys != {} {
      var k := Pick(keys);
      TaggedCount(keys - {k}, t);
      assert (set j | j in keys :: (j, t)) == (set j | j in keys - {k} :: (j, t)) + {(k, t)};
    }
  }

  // ---------------------------------------------------------------------------
  // What each keyed check reports

  /** Path parameters: a missing parameter and a differing one give different
      kinds of discrepancy, a parameter the expectation does not name is never
      reported, and there is one discrepancy per failing expected parameter. */
  lemma PathParamVerdicts(m: string, p: string, want: map<string, string>, got: map<string, string>,
                          k: string, g: string, w: string)
    ensures NoPathParam(m, p, k) in AllFailures(PathParams(m, p, want, got)) <==> k in want && k !in got
    ensures PathParamMismatch(m, p, k, g, w) in AllFailures(PathParams(m, p, want, got))
        <==> k in want && k in got && g == got[k] && w == want[k] && g != w
    ensures |AllFailures(PathParams(m, p, want, got))| == |BadPathParams(want, got)|
  {
    var c := PathParams(m, p, want, got);
    FailuresAt(c, want.Keys, NoPathParam(m, p, k));
    FailuresAt(c, want.Keys, PathParamMismatch(m, p, k, g, w));
    AllFailuresCount(c);
    TaggedCount(BadPathParams(want, got), 0);
  }

  /** Query parameters: one discrepancy per expected name whose merged form value
      differs (an absent name reads as ""); other names are never reported. */
  lemma QueryParamVerdicts(m: string, p: string, want: map<string, string>, form: map<string, string>,
                           k: string, g: string, w: string)
    ensures QueryParamMismatch(m, p, k, g, w) in AllFailures(QueryParams(m, p, want, form))
        <==> k in want && w == want[k] && g == FormValue(form, k) && g != w
    ensures |AllFailures(QueryParams(m, p, want, form))| == |BadQueryParams(want, form)|
  {
    var c := QueryParams(m, p, want, form);
    FailuresAt(c, want.Keys, QueryParamMismatch(m, p, k, g, w));
    AllFailuresCount(c);
    TaggedCount(BadQueryParams(want, form), 0);
  }

  lemma {:induction false} ValueFailuresAt(m: string, p: string, k: string, gotValues: seq<string>,
                                           wantValues: seq<string>, v: string)
    ensures multiset(ValueFailures(m, p, k, gotValues, wantValues))[HeaderMismatch(m, p, k, gotValues, v)]
        == if v in gotValues then 0 else multiset(wantValues)[v]
    decreases |wantValues|
  {
    if wantValues != [] {
      var n := |wantValues| - 1;
      ValueFailuresAt(m, p, k, gotValues, wantValues[..n], v);
      assert wantValues == wantValues[..n] + [wantValues[n]];
    }
  }

  /** Headers: an expected name the request lacks gives one NoHeader; otherwise
      each wanted value is looked up among the request's values, so a value is
      reported once per time it was wanted and only when it is absent; extra
      values and extra names in the request are never reported. */
  lemma HeaderVerdicts(m: string, p: string, want: Header, got: Header, k: string, gv: seq<string>, v: string)
    ensures NoHeader(m, p, k) in AllFailures(Headers(m, p, want, got)) <==> k in want && k !in got
    ensures AllFailures(Headers(m, p, want, got))[HeaderMismatch(m, p, k, gv, v)]
        == if k in want && k in got && gv == got[k] && v !in gv then multiset(want[k])[v] else 0
    ensures |AllFailures(Headers(m, p, want, got))| == |HeaderSites(want, got)|
  {
    var c := Headers(m, p, want, got);
    FailuresAt(c, want.Keys, NoHeader(m, p, k));
    FailuresAt(c, want.Keys, HeaderMismatch(m, p, k, gv, v));
    if k in want && k in got {
      ValueFailuresKeyed(m, p, k, got[k], want[k]);
      if gv == got[k] {
        ValueFailuresAt(m, p, k, got[k], want[k], v);
      } else {
        assert HeaderMismatch(m, p, k, gv, v) !in ValueFailures(m, p, k, got[k], want[k]);
      }
    }
    AllFailuresCount(c);
  }

  // ---------------------------------------------------------------------------
  // One request against one expectation

  /** The number of discrepancies one request adds: one per failing scalar
      check, one per failing expected parameter, one per failing header site. */
  lemma RequestFailureCount(cr: Criteria, req: Request)
    ensures |RequestFailures(cr, req)|
      == (if req.httpMethod != cr.httpMethod then 1 else 0)
       + (if cr.exactBody.Some? && req.body != cr.exactBody.value then 1 else 0)
       + (if cr.containBody.Some? && !HasInfix(req.body, cr.containBody.value) then 1 else 0)
       + |BadPathParams(cr.pathParams, req.pathParams)|
       + |BadQueryParams(cr.queryParams, req.form)|
       + |HeaderSites(cr.headers, req.header)|
  {
    var m, p := req.httpMethod, req.path;
    PathParamVerdicts(m, p, cr.pathParams, req.pathParams, "", "", "");
    QueryParamVerdicts(m, p, cr.queryParams, req.form, "", "", "");
    HeaderVerdicts(m, p, cr.headers, req.header, "", [], "");
  }

  lemma HeaderSitesEmpty(want: Header, got: Header)
    ensures HeaderSites(want, got) == {}
        <==> forall k | k in want :: k in got && forall v | v in want[k] :: v in got[k]
  {
    var hs := HeaderSites(want, got);
    if forall k | k in want :: k in got && forall v | v in want[k] :: v in got[k] {
      assert hs == {};
    } else {
      var k :| k in want && !(k in got && forall v | v in want[k] :: v in got[k]);
      if k !in got {
        assert (k, -1) in hs;
      } else {
        var v :| v in want[k] && v !in got[k];
        var i :| 0 <= i < |want[k]| && want[k][i] == v;
        assert (k, i) in hs;
      }
    }
  }

  lemma BadParamsEmpty(want: map<string, string>, got: map<string, string>, form: map<string, string>)
    ensures BadPathParams(want, got) == {} <==> forall k | k in want :: k in got && got[k] == want[k]
    ensures BadQueryParams(want, form) == {} <==> forall k | k in want :: FormValue(form, k) == want[k]
  {
    var bp, bq := BadPathParams(want, got), BadQueryParams(want, form);
    if !forall k | k in want :: k in got && got[k] == want[k] {
      var k :| k in want && !(k in got && got[k] == want[k]);
      assert k in bp;
    }
    if !forall k | k in want :: FormValue(form, k) == want[k] {
      var k :| k in want && FormValue(form, k) != want[k];
      assert k in bq;
    }
  }

  /** Satisfying every criterion means that no scalar check fails and that no site fails. */
  lemma SatisfiesBySites(cr: Criteria, req: Request)
    ensures Satisfies(cr, req) <==>
      && req.httpMethod == cr.httpMethod
      && !(cr.exactBody.Some? && req.body != cr.exactBody.value)
      && !(cr.containBody.Some? && !HasInfix(req.body, cr.containBody.value))
      && BadPathParams(cr.pathParams, req.pathParams) == {}
      && BadQueryParams(cr.queryParams, req.form) == {}
      && HeaderSites(cr.headers, req.header) == {}
  {
    HeaderSitesEmpty(cr.headers, req.header);
    BadParamsEmpty(cr.pathParams, req.pathParams, req.form);
    BadParamsEmpty(cr.queryParams, req.pathParams, req.form);
  }

  /** A request adds no discrepancy exactly when it satisfies every criterion. */
  lemma NoFailuresIffSatisfied(cr: Criteria, req: Request)
    ensures RequestFailures(cr, req) == multiset{} <==> Satisfies(cr, req)
  {
    RequestFailureCount(cr, req);
    SatisfiesBySites(cr, req);
    assert RequestFailures(cr, req) == multiset{} <==> |RequestFailures(cr, req)| == 0;
  }
}
