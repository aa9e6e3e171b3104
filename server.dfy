/** The stub server: one case per route pattern, the routing table frozen at
    Start, routed dispatch, and the verification pass run at Stop. The test's
    failure sink is the append-only list `reports`. */
module Server {
  import opened Http
  import opened Matcher
  import opened Expectations
  import opened Cases

  /** One failure handed to the test's failure sink. */
  datatype Report =
    | RouteNotFound(httpMethod: string, url: string)
    | CallCountMismatch(pattern: string, actualCalls: nat, wantedCalls: nat)
    | Recorded(d: Discrepancy)

  /** Each recorded discrepancy, reported in list order. */
  function RecordAll(fails: seq<Discrepancy>): (r: seq<Report>)
    ensures |r| == |fails|
    ensures forall i | 0 <= i < |r| :: r[i] == Recorded(fails[i])
    decreases |fails|
  {
    if fails == [] then [] else RecordAll(fails[..|fails| - 1]) + [Recorded(fails[|fails| - 1])]
  }

  /** What Stop reports for one case: a count mismatch first, then every recorded discrepancy. */
  function CaseReports(p: string, s: CaseState): seq<Report>
  {
    (if s.wantedCalls != s.actualCalls then [CallCountMismatch(p, s.actualCalls, s.wantedCalls)] else [])
    + RecordAll(s.fails)
  }

  /** What Stop reports for pattern `p` given the states of all cases; nothing for an unknown pattern. */
  function ReportsOf(p: string, states: map<string, CaseState>): seq<Report>
  {
    if p in states then CaseReports(p, states[p]) else []
  }

  /** What Stop reports when it visits the patterns in `order`. */
  function Teardown(order: seq<string>, states: map<string, CaseState>): seq<Report>
    decreases |order|
  {
    if order == [] then []
    else Teardown(order[..|order| - 1], states) + ReportsOf(order[|order| - 1], states)
  }

  predicate Distinct(order: seq<string>)
  {
    forall i, j | 0 <= i < j < |order| :: order[i] != order[j]
  }

  /** `order` lists every element of `keys` exactly once: one iteration order of a map. */
  predicate Enumerates(order: seq<string>, keys: set<string>)
  {
    && Distinct(order)
    && (forall p | p in order :: p in keys)
    && (forall p | p in keys :: p in order)
  }

  class TestServer {
    var cases: map<string, Case>
    var routes: map<string, Case>
    var reports: seq<Report>

    /** Every case is valid, distinct patterns own distinct cases, and every
        route leads to the case of its pattern. */
    ghost predicate Valid()
      reads this`cases, this`routes, set p | p in cases :: cases[p]
    {
      && (forall p | p in cases :: cases[p].Valid())
      && (forall p, q | p in cases && q in cases && p != q :: cases[p] != cases[q])
      && (forall p | p in routes :: p in cases && routes[p] == cases[p])
    }

    ghost function States(): map<string, CaseState>
      reads this`cases, set p | p in cases :: cases[p]
    {
      map p | p in cases :: cases[p].State()
    }

    constructor New()
      ensures Valid()
      ensures cases == map[] && routes == map[] && reports == []
    {
      cases, routes, reports := map[], map[], [];
    }

    /** Registers `eb` under its pattern: the case is created when missing (even
        for zero calls), and `times` new slots, all bound to `eb`, follow the
        slots registered before. */
    method Add(eb: ExpectationBuilder)
      requires Valid()
      modifies this`cases, if eb.urlPattern in cases then {cases[eb.urlPattern]} else {}
      ensures Valid()
      ensures cases.Keys == old(cases.Keys) + {eb.urlPattern}
      ensures forall p | p in old(cases) :: cases[p] == old(cases[p])
      ensures routes == old(routes) && reports == old(reports)
      ensures eb.urlPattern in old(cases) ==>
        var c := cases[eb.urlPattern];
        && c.slots == old(c.slots) + Repeat(eb, eb.times)
        && c.actualCalls == old(c.actualCalls) && c.fails == old(c.fails)
      ensures eb.urlPattern !in old(cases) ==>
        var c := cases[eb.urlPattern];
        && fresh(c)
        && c.slots == Repeat(eb, eb.times)
        && c.actualCalls == 0 && c.fails == []
    {
      var tc: Case;
      if eb.urlPattern in cases {
        tc := cases[eb.urlPattern];
      } else {
        tc := new Case();
        cases := cases[eb.urlPattern := tc];
      }
      tc.Extend(eb, eb.times);
    }

    /** Freezes registration: the router serves exactly the patterns registered so far. */
    method Start()
      requires Valid()
      modifies this`routes
      ensures Valid() && routes == cases
    {
      routes := cases;
    }

    /** One inbound request. `route` is the pattern the router matched, None
        when it matched none. A routed request goes to its case; any other is
        reported at once and changes no case. */
    method Serve(route: Option<string>, req: Request) returns (resp: Option<Response>)
      requires Valid()
      modifies this`reports, if route.Some? && route.value in routes then {routes[route.value]} else {}
      ensures Valid()
      ensures !(route.Some? && route.value in routes) ==>
        reports == old(reports) + [RouteNotFound(req.httpMethod, req.url)] && resp == None
      ensures route.Some? && route.value in routes ==>
        var c := routes[route.value];
        && reports == old(reports)
        && c.slots == old(c.slots) && c.wantedCalls == old(c.wantedCalls)
        && old(c.fails) <= c.fails
        && (old(c.actualCalls) < c.wantedCalls ==>
             && c.actualCalls == old(c.actualCalls) + 1
             && multiset(c.fails) == multiset(old(c.fails)) + RequestFailures(c.slots[old(c.actualCalls)].RequestCriteria(), req)
             && resp.Some? && Responds(c.slots[old(c.actualCalls)], resp.value))
        && (old(c.actualCalls) == c.wantedCalls ==>
             && c.actualCalls == old(c.actualCalls)
             && c.fails == old(c.fails) + [UnexpectedCall(req.httpMethod, route.value, c.wantedCalls, c.actualCalls + 1)]
             && resp == None)
    {
      if route.Some? && route.value in routes {
        var c := routes[route.value];
        resp := c.Serve(route.value, req);
      } else {
        reports := reports + [RouteNotFound(req.httpMethod, req.url)];
        resp := None;
      }
    }

    /** The verification pass: visits every case once, in some order, and
        reports its count mismatch and its recorded discrepancies. */
    method Stop() returns (ghost order: seq<string>)
      requires Valid()
      modifies this`reports
      ensures Valid()
      ensures Enumerates(order, cases.Keys)
      ensures reports == old(reports) + Teardown(order, States())
    {
      order := [];
      ghost var states := States();
      var remaining := cases.Keys;
      while remaining != {}
        invariant remaining <= cases.Keys
        invariant Enumerates(order, cases.Keys - remaining)
        invariant reports == old(reports) + Teardown(order, states)
        invariant States() == states
        decreases remaining
      {
        var p :| p in remaining;
        var out := ReportCase(p, cases[p]);
        assert out == ReportsOf(p, states);
        StopStep(old(reports), order, p, states, out);
        reports := reports + out;
        EnumeratesSnoc(order, cases.Keys, remaining, p);
        order := order + [p];
        remaining := remaining - {p};
      }
      assert cases.Keys - remaining == cases.Keys;
    }
  }

  /** The reports of one case: its count mismatch, if any, then each recorded discrepancy in order. */
  method ReportCase(p: string, c: Case) returns (out: seq<Report>)
    ensures out == CaseReports(p, c.State())
  {
    out := [];
    if c.wantedCalls != c.actualCalls {
      out := [CallCountMismatch(p, c.actualCalls, c.wantedCalls)];
    }
    ghost var mid := out;
    var j := 0;
    while j < |c.fails|
      invariant 0 <= j <= |c.fails|
      invariant out == mid + RecordAll(c.fails[..j])
    {
      out := out + [Recorded(c.fails[j])];
      assert c.fails[..j + 1][..j] == c.fails[..j];
      j := j + 1;
    }
    assert c.fails[..j] == c.fails;
  }

  /** Appending one case's reports extends the teardown of the cases visited so far. */
  lemma StopStep(prior: seq<Report>, order: seq<string>, p: string, states: map<string, CaseState>, out: seq<Report>)
    requires out == ReportsOf(p, states)
    ensures prior + Teardown(order, states) + out == prior + Teardown(order + [p], states)
  {
    TeardownSnoc(order, p, states);
    AppendAssoc(prior, Teardown(order, states), out);
  }

  lemma EnumeratesSnoc(order: seq<string>, keys: set<string>, remaining: set<string>, p: string)
    requires remaining <= keys && p in remaining
    requires Enumerates(order, keys - remaining)
    ensures Enumerates(order + [p], keys - (remaining - {p}))
  {
  }

  lemma TeardownSnoc(order: seq<string>, p: string, states: map<string, CaseState>)
    ensures Teardown(order + [p], states) == Teardown(order, states) + ReportsOf(p, states)
  {
    assert (order + [p])[..|order|] == order;
  }

  // ---------------------------------------------------------------------------
  // Properties of the verification pass

  lemma {:induction false} IndexedCount(p: string, n: nat)
    ensures |set i | 0 <= i < n :: (p, i)| == n
  {
    if n > 0 {
      IndexedCount(p, n - 1);
      assert (set i | 0 <= i < n :: (p, i)) == (set i | 0 <= i < n - 1 :: (p, i)) + {(p, n - 1)};
    }
  }

  /** The patterns among `order` whose counters disagree. */
  function Mismatched(order: seq<string>, states: map<string, CaseState>): set<string>
  {
    set p | p in order && p in states && states[p].wantedCalls != states[p].actualCalls
  }

  /** One site per discrepancy recorded by a case among `order`: (pattern, index). */
  function RecordedSites(order: seq<string>, states: map<string, CaseState>): set<(string, int)>
  {
    set p, i | p in order && p in states && 0 <= i < |states[p].fails| :: (p, i)
  }

  /** The number of reports is one per case whose counters disagree plus one per
      recorded discrepancy of every case. */
  lemma {:induction false} TeardownCount(order: seq<string>, states: map<string, CaseState>)
    requires Distinct(order)
    ensures |Teardown(order, states)| == |Mismatched(order, states)| + |RecordedSites(order, states)|
    decreases |order|
  {
    if order == [] {
      assert Mismatched(order, states) == {};
      assert RecordedSites(order, states) == {};
    } else {
      var n := |order| - 1;
      var front, q := order[..n], order[n];
      assert order == front + [q];
      assert Distinct(front) && q !in front by {
        forall i | 0 <= i < n ensures order[i] == front[i] {}
      }
      TeardownCount(front, states);
      MismatchedSnoc(front, q, states);
      RecordedSitesSnoc(front, q, states);
    }
  }

  lemma MismatchedSnoc(front: seq<string>, q: string, states: map<string, CaseState>)
    requires q !in front
    ensures |Mismatched(front + [q], states)|
        == |Mismatched(front, states)| + if q in states && states[q].wantedCalls != states[q].actualCalls then 1 else 0
  {
    var mine := if q in states && states[q].wantedCalls != states[q].actualCalls then {q} else {};
    assert Mismatched(front + [q], states) == Mismatched(front, states) + mine;
  }

  lemma RecordedSitesSnoc(front: seq<string>, q: string, states: map<string, CaseState>)
    requires q !in front
    ensures |RecordedSites(front + [q], states)| == |RecordedSites(front, states)| + if q in states then |states[q].fails| else 0
  {
    var n := if q in states then |states[q].fails| else 0;
    var own := set i | 0 <= i < n :: (q, i);
    IndexedCount(q, n);
    assert RecordedSites(front + [q], states) == RecordedSites(front, states) + own;
    assert RecordedSites(front, states) * own == {};
  }

  /** Teardown reports nothing exactly when every case got exactly its wanted
      calls and recorded no discrepancy. */
  lemma TeardownClean(order: seq<string>, states: map<string, CaseState>)
    requires Enumerates(order, states.Keys)
    ensures Teardown(order, states) == []
        <==> forall p | p in states :: states[p].wantedCalls == states[p].actualCalls && states[p].fails == []
  {
    TeardownCount(order, states);
    if !forall p | p in states :: states[p].wantedCalls == states[p].actualCalls && states[p].fails == [] {
      var p :| p in states && !(states[p].wantedCalls == states[p].actualCalls && states[p].fails == []);
      if states[p].wantedCalls != states[p].actualCalls {
        assert p in Mismatched(order, states);
      } else {
        assert (p, 0) in RecordedSites(order, states);
      }
    } else {
      assert Mismatched(order, states) == {};
      assert RecordedSites(order, states) == {};
    }
  }

  /** A case's count mismatch is reported exactly once when its counters disagree, and never otherwise. */
  lemma {:induction false} TeardownMismatchOnce(order: seq<string>, states: map<string, CaseState>, p: string, a: nat, w: nat)
    requires Distinct(order)
    ensures multiset(Teardown(order, states))[CallCountMismatch(p, a, w)]
        == if p in order && p in states && states[p].actualCalls == a && states[p].wantedCalls == w && a != w then 1 else 0
    decreases |order|
  {
    if order != [] {
      var n := |order| - 1;
      var front, q := order[..n], order[n];
      assert order == front + [q];
      assert Distinct(front) && q !in front by {
        forall i | 0 <= i < n ensures order[i] == front[i] {}
      }
      TeardownMismatchOnce(front, states, p, a, w);
      ReportsOfMismatch(q, states, p, a, w);
      var t, r := Teardown(front, states), ReportsOf(q, states);
      assert multiset(t + r) == multiset(t) + multiset(r);
      assert p in order <==> p in front || p == q;
    }
  }

  /** One case's reports hold its count mismatch once when its counters disagree, and never another's. */
  lemma ReportsOfMismatch(q: string, states: map<string, CaseState>, p: string, a: nat, w: nat)
    ensures multiset(ReportsOf(q, states))[CallCountMismatch(p, a, w)]
        == if q == p && q in states && states[q].actualCalls == a && states[q].wantedCalls == w && a != w then 1 else 0
  {
    if q in states {
      var recs := RecordAll(states[q].fails);
      assert forall i | 0 <= i < |recs| :: recs[i] != CallCountMismatch(p, a, w);
      assert CallCountMismatch(p, a, w) !in recs;
      var s := states[q];
      var head := if s.wantedCalls != s.actualCalls then [CallCountMismatch(q, s.actualCalls, s.wantedCalls)] else [];
      assert ReportsOf(q, states) == head + recs;
      assert multiset(head + recs) == multiset(head) + multiset(recs);
    }
  }

  lemma {:induction false} TeardownAppend(a: seq<string>, b: seq<string>, states: map<string, CaseState>)
    ensures Teardown(a + b, states) == Teardown(a, states) + Teardown(b, states)
    decreases |b|
  {
    if b == [] {
      assert a + b == a;
    } else {
      var n := |b| - 1;
      var front, last, ab := b[..n], b[n], a + b;
      assert ab[..|ab| - 1] == a + front && ab[|ab| - 1] == last;
      TeardownLast(ab, states);
      TeardownLast(b, states);
      TeardownAppend(a, front, states);
      AppendAssoc(Teardown(a, states), Teardown(front, states), ReportsOf(last, states));
    }
  }

  lemma AppendAssoc(x: seq<Report>, y: seq<Report>, z: seq<Report>)
    ensures x + y + z == x + (y + z)
  {
  }

  lemma TeardownLast(o: seq<string>, states: map<string, CaseState>)
    requires o != []
    ensures Teardown(o, states) == Teardown(o[..|o| - 1], states) + ReportsOf(o[|o| - 1], states)
  {
  }

  lemma RemoveAt(o: seq<string>, i: nat, keys: set<string>)
    requires Enumerates(o, keys) && i < |o|
    ensures Enumerates(o[..i] + o[i + 1..], keys - {o[i]})
  {
    var rest := o[..i] + o[i + 1..];
    forall x, y | 0 <= x < y < |rest|
      ensures rest[x] != rest[y]
    {
      var x', y' := if x < i then x else x + 1, if y < i then y else y + 1;
      assert rest[x] == o[x'] && rest[y] == o[y'];
    }
    forall r | r in rest
      ensures r in keys - {o[i]}
    {
      var x :| 0 <= x < |rest| && rest[x] == r;
      var x' := if x < i then x else x + 1;
      assert o[x'] == r;
    }
    forall r | r in keys - {o[i]}
      ensures r in rest
    {
      var x :| 0 <= x < |o| && o[x] == r;
      if x < i {
        assert rest[x] == r;
      } else {
        assert rest[x - 1] == r;
      }
    }
  }

  /** An enumeration of a set of patterns has as many entries as the set. */
  lemma {:induction false} EnumeratesSize(order: seq<string>, keys: set<string>)
    requires Enumerates(order, keys)
    ensures |order| == |keys|
    decreases |order|
  {
    if order == [] {
      assert keys == {};
    } else {
      var n := |order| - 1;
      assert order[n] in keys;
      RemoveAt(order, n, keys);
      assert order[..n] + order[n + 1..] == order[..n];
      EnumeratesSize(order[..n], keys - {order[n]});
    }
  }

  lemma TeardownSplit(o: seq<string>, i: nat, states: map<string, CaseState>)
    requires i < |o|
    ensures multiset(Teardown(o, states))
        == multiset(Teardown(o[..i] + o[i + 1..], states)) + multiset(ReportsOf(o[i], states))
  {
    var a, q, b := o[..i], o[i], o[i + 1..];
    assert o == (a + [q]) + b;
    TeardownAppend(a + [q], b, states);
    TeardownSnoc(a, q, states);
    TeardownAppend(a, b, states);
    var ta, tq, tb := Teardown(a, states), ReportsOf(q, states), Teardown(b, states);
    assert multiset(ta + tq + tb) == multiset(ta + tb) + multiset(tq);
  }

  /** The reports of a teardown do not depend on the order the cases are visited
      in: any two enumerations of the same patterns report the same multiset. */
  lemma {:induction false} TeardownOrderFree(o1: seq<string>, o2: seq<string>, keys: set<string>, states: map<string, CaseState>)
    requires Enumerates(o1, keys) && Enumerates(o2, keys)
    ensures multiset(Teardown(o1, states)) == multiset(Teardown(o2, states))
    decreases |o1|
  {
    if o1 == [] {
      assert keys == {};
      EnumeratesSize(o2, keys);
    } else {
      var n := |o1| - 1;
      var q := o1[n];
      assert q in keys;
      assert q in o2;
      var i :| 0 <= i < |o2| && o2[i] == q;
      RemoveAt(o1, n, keys);
      assert o1[..n] + o1[n + 1..] == o1[..n];
      RemoveAt(o2, i, keys);
      TeardownOrderFree(o1[..n], o2[..i] + o2[i + 1..], keys - {q}, states);
      TeardownSplit(o2, i, states);
    }
  }
}
