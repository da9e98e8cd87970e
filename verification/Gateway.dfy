/** Compilation of the observed cluster state into a route table. */
module Gateway {
  import opened Text
  import opened RouteTable
  import opened RouteScan
  import Selection

  type Key = (string, string)

  datatype ParentRef = ParentRef(name: string, namespace: Option<string>)
  datatype HttpPathMatch = HttpPathMatch(matchType: Option<string>, value: Option<PlainPath>)
  datatype BackendRef = BackendRef(name: string, namespace: Option<string>, port: Option<int>, weight: Option<int>)
  datatype RewritePath = RewritePath(pathType: string, replacePrefixMatch: Option<string>, replaceFullPath: Option<string>)
  datatype RouteFilter = RouteFilter(filterType: string, rewritePath: Option<RewritePath>)
  datatype Rule = Rule(matches: seq<Option<HttpPathMatch>>, backendRefs: seq<BackendRef>, filters: seq<RouteFilter>)
  datatype StoredRoute = StoredRoute(namespace: string, name: string,
                                     parentRefs: seq<ParentRef>, hostnames: seq<string>, rules: seq<Rule>)
  datatype ReadyEndpoint = ReadyEndpoint(address: string, port: int)

  datatype ClusterState = ClusterState(routes: map<Key, StoredRoute>, endpoints: map<Key, seq<ReadyEndpoint>>)
  datatype Config = Config(gatewayName: Option<string>, namespace: Option<string>)

  function UnwrapOr<T>(o: Option<T>, default: T): T {
    if o.Some? then o.value else default
  }

  function Clamp(n: int, lo: int, hi: int): int {
    if n < lo then lo else if n > hi then hi else n
  }

  // ----- per-route translation ---------------------------------------------

  function OnPort(eps: seq<ReadyEndpoint>, port: int, weight: nat): seq<Selection.Endpoint> {
    if eps == [] then []
    else (if eps[0].port == port
          then [Selection.Endpoint(eps[0].address + ":" + Decimal(port), weight)] else [])
         + OnPort(eps[1..], port, weight)
  }

  /** Ready endpoints on the wanted port, or the Service DNS name when there is none. */
  function Resolve(st: ClusterState, routeNs: string, b: BackendRef): seq<Selection.Endpoint> {
    var ns := UnwrapOr(b.namespace, routeNs);
    var port := UnwrapOr(b.port, 80);
    var weight := Clamp(UnwrapOr(b.weight, 1), 0, 1_000_000);
    var known := if (ns, b.name) in st.endpoints then OnPort(st.endpoints[(ns, b.name)], port, weight) else [];
    if known != [] then known
    else [Selection.Endpoint(b.name + "." + ns + ".svc.cluster.local:" + Decimal(port), weight)]
  }

  function ResolveAll(st: ClusterState, routeNs: string, bs: seq<BackendRef>): seq<Selection.Endpoint> {
    if bs == [] then [] else Resolve(st, routeNs, bs[0]) + ResolveAll(st, routeNs, bs[1..])
  }

  /** The last URLRewrite filter that carries a path decides. */
  function CompileRewrite(filters: seq<RouteFilter>, matchedPrefix: string): Option<UrlRewrite> {
    if filters == [] then None
    else
      var f := filters[|filters| - 1];
      var before := CompileRewrite(filters[..|filters| - 1], matchedPrefix);
      if f.filterType != "URLRewrite" || f.rewritePath.None? then before
      else
        var rp := f.rewritePath.value;
        if rp.pathType == "ReplacePrefixMatch" then
          (if rp.replacePrefixMatch.Some?
           then Some(ReplacePrefix(TrimEnd(matchedPrefix, '/'), rp.replacePrefixMatch.value)) else None)
        else if rp.pathType == "ReplaceFullPath" then
          (if rp.replaceFullPath.Some? then Some(ReplaceFull(rp.replaceFullPath.value)) else None)
        else None
  }

  function MatchOf(m: Option<HttpPathMatch>): (PlainPath, PathMatch) {
    var value: PlainPath := if m.Some? then UnwrapOr(m.value.value, "/") else "/";
    (value, if m.Some? && m.value.matchType == Some("Exact") then Exact else Prefix)
  }

  /** No matches means everything. */
  function MatchesOf(rule: Rule): seq<(PlainPath, PathMatch)> {
    if rule.matches == [] then [("/", Prefix)]
    else seq(|rule.matches|, i requires 0 <= i < |rule.matches| => MatchOf(rule.matches[i]))
  }

  /** No hostnames means any host. */
  function HostnamesOf(r: StoredRoute): seq<Option<string>> {
    if r.hostnames == [] then [None]
    else seq(|r.hostnames|, i requires 0 <= i < |r.hostnames| => Some(r.hostnames[i]))
  }

  function RouteName(r: StoredRoute, ruleIdx: nat): string {
    r.namespace + "/" + r.name + "#" + Decimal(ruleIdx)
  }

  function SpecFor(st: ClusterState, r: StoredRoute, ruleIdx: nat, host: Option<string>, m: (PlainPath, PathMatch)): RouteSpec
    requires ruleIdx < |r.rules|
  {
    var rule := r.rules[ruleIdx];
    RouteSpec(host, m.0, m.1,
              Target(ResolveAll(st, r.namespace, rule.backendRefs), CompileRewrite(rule.filters, m.0), RouteName(r, ruleIdx)))
  }

  /** The specs of the first `i` hostnames in full, plus `j` matches of the next hostname. */
  function HostSpecs(st: ClusterState, r: StoredRoute, ruleIdx: nat, i: nat, j: nat): seq<RouteSpec>
    requires ruleIdx < |r.rules|
    requires i <= |HostnamesOf(r)| && j <= |MatchesOf(r.rules[ruleIdx])| && (i == |HostnamesOf(r)| ==> j == 0)
    decreases i, j
  {
    if j > 0 then HostSpecs(st, r, ruleIdx, i, j - 1) + [SpecFor(st, r, ruleIdx, HostnamesOf(r)[i], MatchesOf(r.rules[ruleIdx])[j - 1])]
    else if i > 0 then HostSpecs(st, r, ruleIdx, i - 1, |MatchesOf(r.rules[ruleIdx])|)
    else []
  }

  function RuleSpecs(st: ClusterState, r: StoredRoute, ruleIdx: nat): seq<RouteSpec>
    requires ruleIdx < |r.rules|
  {
    if ResolveAll(st, r.namespace, r.rules[ruleIdx].backendRefs) == [] then []
    else HostSpecs(st, r, ruleIdx, |HostnamesOf(r)|, 0)
  }

  function RulesSpecs(st: ClusterState, r: StoredRoute, n: nat): seq<RouteSpec>
    requires n <= |r.rules|
  {
    if n == 0 then [] else RulesSpecs(st, r, n - 1) + RuleSpecs(st, r, n - 1)
  }

  /** Whether a route attaches to the Gateway being served. */
  predicate RouteIsOurs(cfg: Config, r: StoredRoute) {
    cfg.gatewayName.None? || r.parentRefs == [] ||
    exists i :: 0 <= i < |r.parentRefs| && r.parentRefs[i].name == cfg.gatewayName.value &&
      (cfg.namespace.None? || UnwrapOr(r.parentRefs[i].namespace, r.namespace) == cfg.namespace.value)
  }

  function RouteSpecs(cfg: Config, st: ClusterState, r: StoredRoute): seq<RouteSpec> {
    if RouteIsOurs(cfg, r) then RulesSpecs(st, r, |r.rules|) else []
  }

  /** The spec list when the route map is iterated in the given key order. */
  function SpecsOf(cfg: Config, st: ClusterState, order: seq<Key>): seq<RouteSpec>
    requires forall k :: k in order ==> k in st.routes
  {
    if order == [] then []
    else SpecsOf(cfg, st, order[..|order| - 1]) + RouteSpecs(cfg, st, st.routes[order[|order| - 1]])
  }

  ghost predicate Distinct(order: seq<Key>) {
    forall i, j :: 0 <= i < j < |order| ==> order[i] != order[j]
  }

  /** An order in which a hash map with these keys may be iterated. */
  ghost predicate Enumerates(order: seq<Key>, st: ClusterState) {
    Distinct(order) && forall k :: k in order <==> k in st.routes
  }

  // ----- the compile loop --------------------------------------------------

  lemma MatchNext(st: ClusterState, r: StoredRoute, ruleIdx: nat, i: nat, j: nat)
    requires ruleIdx < |r.rules| && i < |HostnamesOf(r)| && j < |MatchesOf(r.rules[ruleIdx])|
    ensures HostSpecs(st, r, ruleIdx, i, j + 1)
         == HostSpecs(st, r, ruleIdx, i, j) + [SpecFor(st, r, ruleIdx, HostnamesOf(r)[i], MatchesOf(r.rules[ruleIdx])[j])]
  {
  }

  lemma HostNext(st: ClusterState, r: StoredRoute, ruleIdx: nat, i: nat)
    requires ruleIdx < |r.rules| && i < |HostnamesOf(r)|
    ensures HostSpecs(st, r, ruleIdx, i + 1, 0) == HostSpecs(st, r, ruleIdx, i, |MatchesOf(r.rules[ruleIdx])|)
  {
  }

  method AddRule(builder: RouteTableBuilder, st: ClusterState, r: StoredRoute, ruleIdx: nat)
    requires builder.Valid() && ruleIdx < |r.rules|
    modifies builder
    ensures builder.Valid() && builder.added == old(builder.added) + RuleSpecs(st, r, ruleIdx)
  {
    var rule := r.rules[ruleIdx];
    var endpoints := ResolveAll(st, r.namespace, rule.backendRefs);
    if endpoints == [] {
      return;
    }
    for i := 0 to |HostnamesOf(r)|
      invariant builder.Valid() && builder.added == old(builder.added) + HostSpecs(st, r, ruleIdx, i, 0)
    {
      AddMatches(builder, st, r, ruleIdx, i, endpoints, old(builder.added));
    }
  }

  /** The inner loop: one spec for each match of the rule under one hostname. */
  method AddMatches(builder: RouteTableBuilder, st: ClusterState, r: StoredRoute, ruleIdx: nat, i: nat,
                    endpoints: seq<Selection.Endpoint>, ghost base: seq<RouteSpec>)
    requires ruleIdx < |r.rules| && i < |HostnamesOf(r)|
    requires endpoints == ResolveAll(st, r.namespace, r.rules[ruleIdx].backendRefs)
    requires builder.Valid() && builder.added == base + HostSpecs(st, r, ruleIdx, i, 0)
    modifies builder
    ensures builder.Valid() && builder.added == base + HostSpecs(st, r, ruleIdx, i + 1, 0)
  {
    var rule := r.rules[ruleIdx];
    var matches := MatchesOf(rule);
    for j := 0 to |matches|
      invariant builder.Valid() && builder.added == base + HostSpecs(st, r, ruleIdx, i, j)
    {
      var (path, pathMatch) := matches[j];
      MatchNext(st, r, ruleIdx, i, j);
      builder.Add(RouteSpec(HostnamesOf(r)[i], path, pathMatch,
                            Target(endpoints, CompileRewrite(rule.filters, path), RouteName(r, ruleIdx))));
    }
    HostNext(st, r, ruleIdx, i);
  }

  method AddRoute(builder: RouteTableBuilder, cfg: Config, st: ClusterState, r: StoredRoute)
    requires builder.Valid()
    modifies builder
    ensures builder.Valid() && builder.added == old(builder.added) + RouteSpecs(cfg, st, r)
  {
    if RouteIsOurs(cfg, r) {
      AddRules(builder, st, r);
    }
  }

  lemma RulesSnoc(st: ClusterState, r: StoredRoute, i: nat, base: seq<RouteSpec>, a: seq<RouteSpec>, b: seq<RouteSpec>)
    requires i < |r.rules| && a == base + RulesSpecs(st, r, i) && b == a + RuleSpecs(st, r, i)
    ensures b == base + RulesSpecs(st, r, i + 1)
  {
  }

  method AddRules(builder: RouteTableBuilder, st: ClusterState, r: StoredRoute)
    requires builder.Valid()
    modifies builder
    ensures builder.Valid() && builder.added == old(builder.added) + RulesSpecs(st, r, |r.rules|)
  {
    for i := 0 to |r.rules|
      invariant builder.Valid() && builder.added == old(builder.added) + RulesSpecs(st, r, i)
    {
      ghost var sofar := builder.added;
      AddRule(builder, st, r, i);
      RulesSnoc(st, r, i, old(builder.added), sofar, builder.added);
    }
  }

  method CompileState(cfg: Config, st: ClusterState, order: seq<Key>) returns (table: Table)
    requires Enumerates(order, st)
    ensures table == TableOf(SpecsOf(cfg, st, order))
  {
    var builder := new RouteTableBuilder();
    for i := 0 to |order|
      invariant fresh(builder) && builder.Valid()
      invariant builder.added == SpecsOf(cfg, st, order[..i])
    {
      assert order[..i + 1][..i] == order[..i];
      AddRoute(builder, cfg, st, st.routes[order[i]]);
    }
    assert order[..|order|] == order;
    table := builder.Build();
  }

  // ----- what a lookup can find --------------------------------------------

  /** The target under a pattern of a host class: that of the first spec expanding to it. */
  function TargetIn(specs: seq<RouteSpec>, h: HostClass, pat: Pattern): Option<Target> {
    if specs == [] then None
    else
      var n := |specs| - 1;
      var front := TargetIn(specs[..n], h, pat);
      if front.Some? then front
      else if ClassOf(specs[n].hostname) == h && pat in Patterns(specs[n]) then Some(specs[n].target)
      else None
  }

  lemma {:induction false} TargetInOwner(specs: seq<RouteSpec>, h: HostClass, pat: Pattern)
    ensures TargetIn(specs, h, pat).None? ==> forall i: nat :: !Owns(specs, h, pat, i)
    ensures TargetIn(specs, h, pat).Some? ==>
              exists i: nat :: Owns(specs, h, pat, i) && TargetIn(specs, h, pat) == Some(specs[i].target)
                               && forall j: nat :: j < i ==> !Owns(specs, h, pat, j)
  {
    if specs != [] {
      var n := |specs| - 1;
      var front := specs[..n];
      TargetInOwner(front, h, pat);
      assert forall i: nat :: i < n ==> (Owns(front, h, pat, i) <==> Owns(specs, h, pat, i));
      if TargetIn(front, h, pat).Some? {
        var i: nat :| Owns(front, h, pat, i) && TargetIn(front, h, pat) == Some(front[i].target)
                      && forall j: nat :: j < i ==> !Owns(front, h, pat, j);
        assert Owns(specs, h, pat, i) && specs[i].target == front[i].target;
        assert forall j: nat :: j < i ==> !Owns(specs, h, pat, j);
      } else if Owns(specs, h, pat, n) {
        assert forall j: nat :: j < n ==> !Owns(specs, h, pat, j);
      } else {
        forall i: nat ensures !Owns(specs, h, pat, i) {
          if i < n { assert !Owns(front, h, pat, i); }
        }
      }
    }
  }

  /** A compiled router holds exactly the first targets. */
  lemma RouterTargets(specs: seq<RouteSpec>, h: HostClass, pat: Pattern)
    ensures pat in RouterOf(specs, h) <==> TargetIn(specs, h, pat).Some?
    ensures pat in RouterOf(specs, h) ==> TargetIn(specs, h, pat) == Some(RouterOf(specs, h)[pat].target)
  {
    RouterOwner(specs, h, pat);
    TargetInOwner(specs, h, pat);
    if pat in RouterOf(specs, h) {
      var g := RouterOf(specs, h)[pat].group;
      assert Owns(specs, h, pat, g);
      var i: nat :| Owns(specs, h, pat, i) && TargetIn(specs, h, pat) == Some(specs[i].target)
                    && forall j: nat :: j < i ==> !Owns(specs, h, pat, j);
      assert i == g;
    }
  }

  lemma {:induction false} TargetInConcat(a: seq<RouteSpec>, b: seq<RouteSpec>, h: HostClass, pat: Pattern)
    ensures TargetIn(a + b, h, pat) == if TargetIn(a, h, pat).Some? then TargetIn(a, h, pat) else TargetIn(b, h, pat)
  {
    if b == [] {
      assert a + b == a;
    } else {
      var n := |b| - 1;
      TargetInConcat(a, b[..n], h, pat);
      assert (a + b)[..|a + b| - 1] == a + b[..n];
    }
  }

  /** What one stored route on its own puts under a pattern of a host class. */
  function RouteTarget(cfg: Config, st: ClusterState, k: Key, h: HostClass, pat: Pattern): Option<Target>
    requires k in st.routes
  {
    TargetIn(RouteSpecs(cfg, st, st.routes[k]), h, pat)
  }

  /** No two different routes produce the same host class and pattern. */
  ghost predicate NoCollision(cfg: Config, st: ClusterState) {
    forall h, pat :: SoleOwner(cfg, st, h, pat)
  }

  ghost predicate SoleOwner(cfg: Config, st: ClusterState, h: HostClass, pat: Pattern) {
    forall k, l | k in st.routes && l in st.routes && k != l ::
      RouteTarget(cfg, st, k, h, pat).None? || RouteTarget(cfg, st, l, h, pat).None?
  }

  lemma {:induction false} UnownedPattern(cfg: Config, st: ClusterState, order: seq<Key>, h: HostClass, pat: Pattern)
    requires forall k :: k in order ==> k in st.routes && RouteTarget(cfg, st, k, h, pat).None?
    ensures TargetIn(SpecsOf(cfg, st, order), h, pat).None?
  {
    if order != [] {
      var n := |order| - 1;
      UnownedPattern(cfg, st, order[..n], h, pat);
      TargetInConcat(SpecsOf(cfg, st, order[..n]), RouteSpecs(cfg, st, st.routes[order[n]]), h, pat);
      assert order[n] in order;
    }
  }

  /** Without collisions the compiled target depends on the owning route alone, not on the order. */
  lemma {:induction false} OwnedPattern(cfg: Config, st: ClusterState, order: seq<Key>, k: Key, h: HostClass, pat: Pattern)
    requires k in order && forall l :: l in order ==> l in st.routes
    requires SoleOwner(cfg, st, h, pat) && RouteTarget(cfg, st, k, h, pat).Some?
    ensures TargetIn(SpecsOf(cfg, st, order), h, pat) == RouteTarget(cfg, st, k, h, pat)
  {
    var n := |order| - 1;
    var front, last := order[..n], order[n];
    assert order == front + [last];
    TargetInConcat(SpecsOf(cfg, st, front), RouteSpecs(cfg, st, st.routes[last]), h, pat);
    if k in front {
      OwnedPattern(cfg, st, front, k, h, pat);
    } else {
      assert k == last;
      forall l | l in front ensures RouteTarget(cfg, st, l, h, pat).None? {
        assert l in order && l != k;
      }
      UnownedPattern(cfg, st, front, h, pat);
    }
  }

  lemma SameTargets(cfg: Config, st: ClusterState, o1: seq<Key>, o2: seq<Key>, h: HostClass, pat: Pattern)
    requires Enumerates(o1, st) && Enumerates(o2, st) && SoleOwner(cfg, st, h, pat)
    ensures TargetIn(SpecsOf(cfg, st, o1), h, pat) == TargetIn(SpecsOf(cfg, st, o2), h, pat)
  {
    if k :| k in st.routes && RouteTarget(cfg, st, k, h, pat).Some? {
      OwnedPattern(cfg, st, o1, k, h, pat);
      OwnedPattern(cfg, st, o2, k, h, pat);
    } else {
      UnownedPattern(cfg, st, o1, h, pat);
      UnownedPattern(cfg, st, o2, h, pat);
    }
  }

  // ----- lookups only depend on targets ------------------------------------

  function TargetOf(a: Option<RouteAction>): Option<Target> {
    if a.Some? then Some(a.value.target) else None
  }

  ghost predicate SameRouters(r1: Router, r2: Router) {
    forall pat :: (pat in r1 <==> pat in r2) && (pat in r1 ==> r1[pat].target == r2[pat].target)
  }

  lemma {:induction false} SameCatchAll(r1: Router, r2: Router, p: string, n: nat)
    requires SameRouters(r1, r2) && n <= |p|
    ensures TargetOf(CatchAllAt(r1, p, n)) == TargetOf(CatchAllAt(r2, p, n))
  {
    if n > 0 { SameCatchAll(r1, r2, p, n - 1); }
  }

  lemma SameAt(r1: Router, r2: Router, p: string)
    requires SameRouters(r1, r2)
    ensures TargetOf(At(r1, p)) == TargetOf(At(r2, p))
  {
    SameCatchAll(r1, r2, p, |p|);
  }

  ghost predicate SameSpecs(s1: seq<RouteSpec>, s2: seq<RouteSpec>) {
    forall h :: SameRouters(RouterOf(s1, h), RouterOf(s2, h))
  }

  lemma {:induction false} SameWalk(s1: seq<RouteSpec>, s2: seq<RouteSpec>, name: string, d: nat, p: string)
    requires SameSpecs(s1, s2) && d <= |name|
    ensures TargetOf(WalkSuffixes(TableOf(s1).wildcard, name, d, p)) == TargetOf(WalkSuffixes(TableOf(s2).wildcard, name, d, p))
    decreases |name| - d
  {
    if d < |name| {
      SameWalk(s1, s2, name, d + 1, p);
      WildcardTier(s1, name[d..], p);
      WildcardTier(s2, name[d..], p);
      SameAt(RouterOf(s1, WildcardHost(name[d..])), RouterOf(s2, WildcardHost(name[d..])), p);
    }
  }

  lemma SameLookups(s1: seq<RouteSpec>, s2: seq<RouteSpec>, host: Option<string>, path: string)
    requires SameSpecs(s1, s2)
    ensures TargetOf(TieredLookup(TableOf(s1), host, path)) == TargetOf(TieredLookup(TableOf(s2), host, path))
  {
    var p := CleanPath(path);
    SameAt(RouterOf(s1, AnyHost), RouterOf(s2, AnyHost), p);
    if host.Some? {
      var name := Normalize(host.value);
      ExactTier(s1, name, p);
      ExactTier(s2, name, p);
      SameAt(RouterOf(s1, ExactHost(name)), RouterOf(s2, ExactHost(name)), p);
      SameWalk(s1, s2, name, 0, p);
    }
  }

  /**
   * Order independence: when no two routes collide on a host class and pattern,
   * every iteration order of the route map compiles to a table that answers
   * every lookup with the same endpoints, rewrite and route name.
   */
  lemma CompileOrderIrrelevant(cfg: Config, st: ClusterState, o1: seq<Key>, o2: seq<Key>, host: Option<string>, path: string)
    requires Enumerates(o1, st) && Enumerates(o2, st) && NoCollision(cfg, st)
    ensures TargetOf(TieredLookup(TableOf(SpecsOf(cfg, st, o1)), host, path))
         == TargetOf(TieredLookup(TableOf(SpecsOf(cfg, st, o2)), host, path))
  {
    var s1, s2 := SpecsOf(cfg, st, o1), SpecsOf(cfg, st, o2);
    forall h ensures SameRouters(RouterOf(s1, h), RouterOf(s2, h)) {
      forall pat
        ensures (pat in RouterOf(s1, h) <==> pat in RouterOf(s2, h))
             && (pat in RouterOf(s1, h) ==> RouterOf(s1, h)[pat].target == RouterOf(s2, h)[pat].target)
      {
        RouterTargets(s1, h, pat);
        RouterTargets(s2, h, pat);
        SameTargets(cfg, st, o1, o2, h, pat);
      }
    }
    SameLookups(s1, s2, host, path);
  }

  // ----- ownership ---------------------------------------------------------

  /** `spec` comes from rule `ruleIdx` of a stored route that attaches to our Gateway. */
  ghost predicate ComesFrom(cfg: Config, st: ClusterState, spec: RouteSpec, k: Key, ruleIdx: nat) {
    && k in st.routes && RouteIsOurs(cfg, st.routes[k]) && ruleIdx < |st.routes[k].rules|
    && spec.target.routeName == RouteName(st.routes[k], ruleIdx)
    && spec.target.endpoints == ResolveAll(st, st.routes[k].namespace, st.routes[k].rules[ruleIdx].backendRefs)
    && spec.target.endpoints != []
    && spec.target.rewrite == CompileRewrite(st.routes[k].rules[ruleIdx].filters, spec.path)
    && spec.hostname in HostnamesOf(st.routes[k])
    && (spec.path, spec.pathMatch) in MatchesOf(st.routes[k].rules[ruleIdx])
  }

  lemma {:induction false} HostSpecsOrigin(cfg: Config, st: ClusterState, k: Key, ruleIdx: nat, i: nat, j: nat, s: RouteSpec)
    requires k in st.routes && RouteIsOurs(cfg, st.routes[k]) && ruleIdx < |st.routes[k].rules|
    requires ResolveAll(st, st.routes[k].namespace, st.routes[k].rules[ruleIdx].backendRefs) != []
    requires i <= |HostnamesOf(st.routes[k])| && j <= |MatchesOf(st.routes[k].rules[ruleIdx])|
    requires i == |HostnamesOf(st.routes[k])| ==> j == 0
    requires s in HostSpecs(st, st.routes[k], ruleIdx, i, j)
    ensures ComesFrom(cfg, st, s, k, ruleIdx)
    decreases i, j
  {
    var r := st.routes[k];
    if j > 0 {
      if s in HostSpecs(st, r, ruleIdx, i, j - 1) {
        HostSpecsOrigin(cfg, st, k, ruleIdx, i, j - 1, s);
      } else {
        assert s == SpecFor(st, r, ruleIdx, HostnamesOf(r)[i], MatchesOf(r.rules[ruleIdx])[j - 1]);
      }
    } else if i > 0 {
      HostSpecsOrigin(cfg, st, k, ruleIdx, i - 1, |MatchesOf(r.rules[ruleIdx])|, s);
    }
  }

  lemma {:induction false} RulesSpecsOrigin(cfg: Config, st: ClusterState, k: Key, n: nat, s: RouteSpec)
    requires k in st.routes && RouteIsOurs(cfg, st.routes[k]) && n <= |st.routes[k].rules|
    requires s in RulesSpecs(st, st.routes[k], n)
    ensures exists ruleIdx :: ComesFrom(cfg, st, s, k, ruleIdx)
  {
    var r := st.routes[k];
    if s in RulesSpecs(st, r, n - 1) {
      RulesSpecsOrigin(cfg, st, k, n - 1, s);
    } else {
      assert s in RuleSpecs(st, r, n - 1);
      HostSpecsOrigin(cfg, st, k, n - 1, |HostnamesOf(r)|, 0, s);
    }
  }

  lemma {:induction false} SpecOrigin(cfg: Config, st: ClusterState, order: seq<Key>, s: RouteSpec)
    requires forall k :: k in order ==> k in st.routes
    requires s in SpecsOf(cfg, st, order)
    ensures exists k, ruleIdx :: ComesFrom(cfg, st, s, k, ruleIdx)
  {
    var n := |order| - 1;
    if s in SpecsOf(cfg, st, order[..n]) {
      SpecOrigin(cfg, st, order[..n], s);
    } else {
      assert s in RouteSpecs(cfg, st, st.routes[order[n]]);
      RulesSpecsOrigin(cfg, st, order[n], |st.routes[order[n]].rules|, s);
    }
  }

  /** Every action a compiled table returns belongs to a rule of an attached route that matches the request. */
  lemma LookupIsOurs(cfg: Config, st: ClusterState, order: seq<Key>, host: Option<string>, path: string)
    requires Enumerates(order, st)
    requires TieredLookup(TableOf(SpecsOf(cfg, st, order)), host, path).Some?
    ensures var a := TieredLookup(TableOf(SpecsOf(cfg, st, order)), host, path).value;
            exists s, k, ruleIdx :: ComesFrom(cfg, st, s, k, ruleIdx) && s.target == a.target
                                    && RankOf(s, NameOf(host), CleanPath(path)).Some?
  {
    var specs := SpecsOf(cfg, st, order);
    LookupRefinesScan(specs, host, path);
    var i := Scan(specs, NameOf(host), CleanPath(path)).value;
    assert Ranks(specs, NameOf(host), CleanPath(path))[i].Some?;
    SpecOrigin(cfg, st, order, specs[i]);
  }
}
