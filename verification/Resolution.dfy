/**
 * What the compiled specs of a cluster state are, said on the objects of the state:
 * which routes take part, which requests their rules claim, which endpoints serve
 * them and how their paths are rewritten.
 */
module Resolution {
  import opened Text
  import opened RouteTable
  import opened RouteScan
  import opened Gateway
  import opened Selection

  // ----- endpoints -----------------------------------------------------------------

  /** A backend reference with its defaults filled in. */
  datatype Backend = Backend(ns: string, name: string, port: int, weight: int)

  ghost predicate Means(routeNs: string, b: BackendRef, be: Backend) {
    && be.name == b.name
    && (match b.namespace case Some(ns) => be.ns == ns case None => be.ns == routeNs)
    && (match b.port case Some(p) => be.port == p case None => be.port == 80)
    && (match b.weight
        case None => be.weight == 1
        case Some(w) =>
          && (0 <= w <= 1_000_000 ==> be.weight == w)
          && (w < 0 ==> be.weight == 0)
          && (w > 1_000_000 ==> be.weight == 1_000_000))
  }

  ghost predicate ReadyOn(st: ClusterState, be: Backend) {
    (be.ns, be.name) in st.endpoints && exists i :: OnThePort(st.endpoints[(be.ns, be.name)], i, be.port)
  }

  ghost predicate OnThePort(eps: seq<ReadyEndpoint>, i: nat, port: int) {
    i < |eps| && eps[i].port == port
  }

  ghost predicate Increasing(idx: seq<nat>) {
    forall a, b :: 0 <= a < b < |idx| ==> idx[a] < idx[b]
  }

  /** `es` are the ready endpoints on the port, each once and in order, as `address:port`. */
  ghost predicate PicksOut(eps: seq<ReadyEndpoint>, be: Backend, idx: seq<nat>, es: seq<Endpoint>) {
    && |idx| == |es| && Increasing(idx)
    && (forall k :: 0 <= k < |idx| ==> OnThePort(eps, idx[k], be.port) && Addresses(eps[idx[k]], be, es[k]))
    && (forall i: nat :: OnThePort(eps, i, be.port) ==> i in idx)
  }

  /** A ready endpoint as the proxy addresses it. */
  ghost predicate Addresses(ep: ReadyEndpoint, be: Backend, e: Endpoint) {
    e.address == ep.address + ":" + Decimal(be.port) && e.weight == be.weight
  }

  /** What one backend reference resolves to. */
  ghost predicate ResolvesTo(st: ClusterState, be: Backend, es: seq<Endpoint>) {
    if ReadyOn(st, be) then exists idx :: PicksOut(st.endpoints[(be.ns, be.name)], be, idx, es)
    else
      && |es| == 1 && es[0].weight == be.weight
      && es[0].address == be.name + "." + be.ns + ".svc.cluster.local:" + Decimal(be.port)
  }

  /** What a list of backend references resolves to: each in turn. */
  ghost predicate AllResolveTo(st: ClusterState, routeNs: string, bs: seq<BackendRef>, es: seq<Endpoint>) {
    if bs == [] then es == []
    else exists n: nat, be :: Segment(st, routeNs, bs[0], be, es, n) && AllResolveTo(st, routeNs, bs[1..], es[n..])
  }

  ghost predicate Segment(st: ClusterState, routeNs: string, b: BackendRef, be: Backend, es: seq<Endpoint>, n: nat) {
    n <= |es| && Means(routeNs, b, be) && ResolvesTo(st, be, es[..n])
  }

  lemma {:induction false} OnPortPicks(eps: seq<ReadyEndpoint>, be: Backend, weight: nat) returns (idx: seq<nat>)
    requires be.weight == weight
    ensures PicksOut(eps, be, idx, OnPort(eps, be.port, weight))
  {
    if eps == [] {
      idx := [];
    } else {
      var rest := OnPortPicks(eps[1..], be, weight);
      idx := ShiftPicks(eps, be, weight, rest);
    }
  }

  function Shifted(idx: seq<nat>): (r: seq<nat>)
    ensures |r| == |idx|
  {
    seq(|idx|, k requires 0 <= k < |idx| => idx[k] + 1)
  }

  /** What the endpoints behind the first one pick out, counted from the first. */
  ghost predicate PicksBehind(eps: seq<ReadyEndpoint>, be: Backend, idx: seq<nat>, es: seq<Endpoint>) {
    && |idx| == |es| && Increasing(idx)
    && (forall k :: 0 <= k < |idx| ==> 0 < idx[k] && OnThePort(eps, idx[k], be.port) && Addresses(eps[idx[k]], be, es[k]))
    && (forall i: nat :: OnThePort(eps, i, be.port) && i > 0 ==> i in idx)
  }

  lemma ShiftBehind(eps: seq<ReadyEndpoint>, be: Backend, rest: seq<nat>, es: seq<Endpoint>)
    requires eps != [] && PicksOut(eps[1..], be, rest, es)
    ensures PicksBehind(eps, be, Shifted(rest), es)
  {
    var tail := Shifted(rest);
    forall k | 0 <= k < |tail|
      ensures 0 < tail[k] && OnThePort(eps, tail[k], be.port) && Addresses(eps[tail[k]], be, es[k])
    {
      assert OnThePort(eps[1..], rest[k], be.port) && Addresses(eps[1..][rest[k]], be, es[k]);
      OneOn(eps, rest[k], be.port);
    }
    forall i: nat | OnThePort(eps, i, be.port) && i > 0 ensures i in tail {
      OneOn(eps, i - 1, be.port);
      ShiftedHas(rest, i - 1);
    }
  }

  lemma OneOn(eps: seq<ReadyEndpoint>, i: nat, port: int)
    requires eps != []
    ensures OnThePort(eps[1..], i, port) <==> OnThePort(eps, i + 1, port)
    ensures i + 1 < |eps| ==> eps[1..][i] == eps[i + 1]
  {
  }

  lemma ShiftedHas(idx: seq<nat>, i: nat)
    requires i in idx
    ensures i + 1 in Shifted(idx)
  {
    var k :| 0 <= k < |idx| && idx[k] == i;
    assert Shifted(idx)[k] == i + 1;
  }

  lemma WithFirst(eps: seq<ReadyEndpoint>, be: Backend, tail: seq<nat>, e: Endpoint, es: seq<Endpoint>)
    requires PicksBehind(eps, be, tail, es) && OnThePort(eps, 0, be.port) && Addresses(eps[0], be, e)
    ensures PicksOut(eps, be, [0] + tail, [e] + es)
  {
    var idx := [0] + tail;
    forall i: nat | OnThePort(eps, i, be.port) ensures i in idx { if i > 0 { assert i in tail; } else { assert idx[0] == 0; } }
  }

  lemma WithoutFirst(eps: seq<ReadyEndpoint>, be: Backend, tail: seq<nat>, es: seq<Endpoint>)
    requires PicksBehind(eps, be, tail, es) && !OnThePort(eps, 0, be.port)
    ensures PicksOut(eps, be, tail, es)
  {
    forall i: nat | OnThePort(eps, i, be.port) ensures i in tail { assert i != 0; }
  }

  lemma ShiftPicks(eps: seq<ReadyEndpoint>, be: Backend, weight: nat, rest: seq<nat>) returns (idx: seq<nat>)
    requires eps != [] && be.weight == weight && PicksOut(eps[1..], be, rest, OnPort(eps[1..], be.port, weight))
    ensures PicksOut(eps, be, idx, OnPort(eps, be.port, weight))
  {
    var es := OnPort(eps[1..], be.port, weight);
    ShiftBehind(eps, be, rest, es);
    if eps[0].port == be.port {
      WithFirst(eps, be, Shifted(rest), Endpoint(eps[0].address + ":" + Decimal(be.port), weight), es);
      idx := [0] + Shifted(rest);
    } else {
      WithoutFirst(eps, be, Shifted(rest), es);
      idx := Shifted(rest);
      assert [] + es == es;
    }
  }

  lemma BackendFor(routeNs: string, b: BackendRef) returns (be: Backend)
    ensures Means(routeNs, b, be)
    ensures be == Backend(UnwrapOr(b.namespace, routeNs), b.name, UnwrapOr(b.port, 80), Clamp(UnwrapOr(b.weight, 1), 0, 1_000_000))
  {
    be := Backend(UnwrapOr(b.namespace, routeNs), b.name, UnwrapOr(b.port, 80), Clamp(UnwrapOr(b.weight, 1), 0, 1_000_000));
  }

  lemma NothingOnPort(eps: seq<ReadyEndpoint>, be: Backend, weight: nat)
    requires be.weight == weight
    ensures OnPort(eps, be.port, weight) == [] <==> forall i: nat :: !OnThePort(eps, i, be.port)
  {
    var idx := OnPortPicks(eps, be, weight);
    if OnPort(eps, be.port, weight) != [] { assert OnThePort(eps, idx[0], be.port); }
  }

  lemma ResolveIs(st: ClusterState, routeNs: string, b: BackendRef) returns (be: Backend)
    ensures Means(routeNs, b, be) && ResolvesTo(st, be, Resolve(st, routeNs, b))
  {
    be := BackendFor(routeNs, b);
    var key, weight := (be.ns, be.name), be.weight;
    if key in st.endpoints {
      var idx := OnPortPicks(st.endpoints[key], be, weight);
      NothingOnPort(st.endpoints[key], be, weight);
    }
  }

  lemma {:induction false} ResolveAllIs(st: ClusterState, routeNs: string, bs: seq<BackendRef>)
    ensures AllResolveTo(st, routeNs, bs, ResolveAll(st, routeNs, bs))
  {
    if bs != [] {
      var be := ResolveIs(st, routeNs, bs[0]);
      ResolveAllIs(st, routeNs, bs[1..]);
      var first, es := Resolve(st, routeNs, bs[0]), ResolveAll(st, routeNs, bs);
      assert es[..|first|] == first && es[|first|..] == ResolveAll(st, routeNs, bs[1..]);
      assert Segment(st, routeNs, bs[0], be, es, |first|);
    }
  }

  // ----- what a rule claims ---------------------------------------------------------

  /** Whether a route attaches to the Gateway served. */
  ghost predicate Attaches(cfg: Config, r: StoredRoute) {
    match cfg.gatewayName
    case None => true
    case Some(gateway) =>
      r.parentRefs == [] || exists p :: p in r.parentRefs && p.name == gateway && InReach(cfg, r, p)
  }

  ghost predicate InReach(cfg: Config, r: StoredRoute, p: ParentRef) {
    match (cfg.namespace, p.namespace)
    case (None, _) => true
    case (Some(ours), None) => ours == r.namespace
    case (Some(ours), Some(theirs)) => ours == theirs
  }

  lemma AttachesIs(cfg: Config, r: StoredRoute)
    ensures RouteIsOurs(cfg, r) <==> Attaches(cfg, r)
  {
    if cfg.gatewayName.Some? && r.parentRefs != [] {
      if RouteIsOurs(cfg, r) {
        var i :| 0 <= i < |r.parentRefs| && r.parentRefs[i].name == cfg.gatewayName.value &&
          (cfg.namespace.None? || UnwrapOr(r.parentRefs[i].namespace, r.namespace) == cfg.namespace.value);
        assert r.parentRefs[i] in r.parentRefs && InReach(cfg, r, r.parentRefs[i]);
      }
      if Attaches(cfg, r) {
        var p :| p in r.parentRefs && p.name == cfg.gatewayName.value && InReach(cfg, r, p);
        var i :| 0 <= i < |r.parentRefs| && r.parentRefs[i] == p;
      }
    }
  }

  /** The hostnames a route declares; none means any host. */
  ghost predicate Declares(r: StoredRoute, hostname: Option<string>) {
    if r.hostnames == [] then hostname.None? else hostname.Some? && hostname.value in r.hostnames
  }

  ghost predicate MatchSays(m: Option<HttpPathMatch>, path: string, kind: PathMatch) {
    && path == (if m.Some? && m.value.value.Some? then m.value.value.value else "/")
    && (kind == Exact <==> m.Some? && m.value.matchType == Some("Exact"))
  }

  /** The path matches a rule declares; none means every path. */
  ghost predicate Claims(rule: Rule, path: string, kind: PathMatch) {
    if rule.matches == [] then path == "/" && kind == Prefix
    else exists i :: 0 <= i < |rule.matches| && MatchSays(rule.matches[i], path, kind)
  }

  lemma DeclaresIs(r: StoredRoute, hostname: Option<string>)
    ensures hostname in HostnamesOf(r) <==> Declares(r, hostname)
  {
    if r.hostnames != [] {
      var hs := HostnamesOf(r);
      if hostname in hs {
        var i :| 0 <= i < |hs| && hs[i] == hostname;
        assert r.hostnames[i] in r.hostnames;
      }
      if Declares(r, hostname) {
        var i :| 0 <= i < |r.hostnames| && r.hostnames[i] == hostname.value;
        assert hs[i] == hostname;
      }
    }
  }

  lemma ClaimsIs(rule: Rule, path: PlainPath, kind: PathMatch)
    ensures (path, kind) in MatchesOf(rule) <==> Claims(rule, path, kind)
  {
    if rule.matches != [] {
      var ms := MatchesOf(rule);
      if (path, kind) in ms {
        var i :| 0 <= i < |ms| && ms[i] == (path, kind);
        assert MatchSays(rule.matches[i], path, kind);
      }
      if Claims(rule, path, kind) {
        var i :| 0 <= i < |rule.matches| && MatchSays(rule.matches[i], path, kind);
        assert ms[i] == (path, kind);
      }
    }
  }

  // ----- rewrites --------------------------------------------------------------------

  /** Filter `i` is a URLRewrite filter that carries a path. */
  ghost predicate Rewrites(filters: seq<RouteFilter>, i: nat) {
    i < |filters| && filters[i].filterType == "URLRewrite" && filters[i].rewritePath.Some?
  }

  ghost predicate LastRewrite(filters: seq<RouteFilter>, i: nat) {
    Rewrites(filters, i) && forall j: nat :: i < j ==> !Rewrites(filters, j)
  }

  ghost predicate ReplacesPrefix(rp: RewritePath) {
    rp.pathType == "ReplacePrefixMatch" && rp.replacePrefixMatch.Some?
  }

  ghost predicate ReplacesPath(rp: RewritePath) {
    rp.pathType == "ReplaceFullPath" && rp.replaceFullPath.Some?
  }

  ghost predicate RewriteSays(rp: RewritePath, matched: string, rw: Option<UrlRewrite>) {
    && (ReplacesPrefix(rp) ==> rw == Some(ReplacePrefix(TrimEnd(matched, '/'), rp.replacePrefixMatch.value)))
    && (ReplacesPath(rp) ==> rw == Some(ReplaceFull(rp.replaceFullPath.value)))
    && (!ReplacesPrefix(rp) && !ReplacesPath(rp) ==> rw == None)
  }

  lemma PathTypesDiffer()
    ensures "ReplacePrefixMatch" != "ReplaceFullPath"
  {
    assert |"ReplacePrefixMatch"| == 18 && |"ReplaceFullPath"| == 15;
  }

  /** The last URLRewrite filter with a path decides; without one there is no rewrite. */
  lemma {:induction false} RewriteIs(filters: seq<RouteFilter>, matched: string)
    ensures (forall i: nat :: !Rewrites(filters, i)) ==> CompileRewrite(filters, matched) == None
    ensures forall i: nat :: LastRewrite(filters, i) ==>
              RewriteSays(filters[i].rewritePath.value, matched, CompileRewrite(filters, matched))
  {
    if filters != [] {
      var n := |filters| - 1;
      var front := filters[..n];
      RewriteIs(front, matched);
      PathTypesDiffer();
      assert forall i: nat :: i < n ==> (Rewrites(front, i) <==> Rewrites(filters, i));
      forall i: nat | LastRewrite(filters, i)
        ensures RewriteSays(filters[i].rewritePath.value, matched, CompileRewrite(filters, matched))
      {
        if i < n {
          assert !Rewrites(filters, n);
          assert LastRewrite(front, i);
        }
      }
      if forall i: nat :: !Rewrites(filters, i) { assert !Rewrites(filters, n); }
    }
  }

  // ----- whole compilations ------------------------------------------------------------

  /** A spec is what rule `ruleIdx` of the attached route `k` asks for. */
  ghost predicate AskedFor(cfg: Config, st: ClusterState, spec: RouteSpec, k: Key, ruleIdx: nat) {
    && k in st.routes && Attaches(cfg, st.routes[k]) && ruleIdx < |st.routes[k].rules|
    && var r := st.routes[k];
       var rule := r.rules[ruleIdx];
       && spec.target.routeName == r.namespace + "/" + r.name + "#" + Decimal(ruleIdx)
       && Declares(r, spec.hostname) && Claims(rule, spec.path, spec.pathMatch)
       && spec.target.endpoints != [] && AllResolveTo(st, r.namespace, rule.backendRefs, spec.target.endpoints)
       && ((forall i: nat :: !Rewrites(rule.filters, i)) ==> spec.target.rewrite == None)
       && forall i: nat :: LastRewrite(rule.filters, i) ==>
            RewriteSays(rule.filters[i].rewritePath.value, spec.path, spec.target.rewrite)
  }

  lemma AskedForIs(cfg: Config, st: ClusterState, spec: RouteSpec, k: Key, ruleIdx: nat)
    requires ComesFrom(cfg, st, spec, k, ruleIdx)
    ensures AskedFor(cfg, st, spec, k, ruleIdx)
  {
    var r := st.routes[k];
    var rule := r.rules[ruleIdx];
    AttachesIs(cfg, r);
    DeclaresIs(r, spec.hostname);
    ClaimsIs(rule, spec.path, spec.pathMatch);
    ResolveAllIs(st, r.namespace, rule.backendRefs);
    RewriteIs(rule.filters, spec.path);
  }

  /** Everything a lookup finds is what some rule of an attached route asked for. */
  lemma FoundWasAskedFor(cfg: Config, st: ClusterState, order: seq<Key>, host: Option<string>, path: string)
    returns (spec: RouteSpec, k: Key, ruleIdx: nat)
    requires Enumerates(order, st)
    requires TieredLookup(TableOf(SpecsOf(cfg, st, order)), host, path).Some?
    ensures spec.target == TieredLookup(TableOf(SpecsOf(cfg, st, order)), host, path).value.target
    ensures AskedFor(cfg, st, spec, k, ruleIdx) && RankOf(spec, NameOf(host), CleanPath(path)).Some?
  {
    var found := TieredLookup(TableOf(SpecsOf(cfg, st, order)), host, path).value;
    LookupIsOurs(cfg, st, order, host, path);
    spec, k, ruleIdx :| ComesFrom(cfg, st, spec, k, ruleIdx) && spec.target == found.target
                        && RankOf(spec, NameOf(host), CleanPath(path)).Some?;
    AskedForIs(cfg, st, spec, k, ruleIdx);
  }

  // ----- nothing asked for is left out ---------------------------------------------------

  lemma {:induction false} InHostSpecs(st: ClusterState, r: StoredRoute, ruleIdx: nat, i: nat, j: nat, a: nat, b: nat, s: RouteSpec)
    requires ruleIdx < |r.rules|
    requires i <= |HostnamesOf(r)| && j <= |MatchesOf(r.rules[ruleIdx])| && (i == |HostnamesOf(r)| ==> j == 0)
    requires b < |MatchesOf(r.rules[ruleIdx])| && (a < i || (a == i && b < j)) && a < |HostnamesOf(r)|
    requires s == SpecFor(st, r, ruleIdx, HostnamesOf(r)[a], MatchesOf(r.rules[ruleIdx])[b])
    ensures s in HostSpecs(st, r, ruleIdx, i, j)
    decreases i, j
  {
    if j > 0 {
      var last := SpecFor(st, r, ruleIdx, HostnamesOf(r)[i], MatchesOf(r.rules[ruleIdx])[j - 1]);
      MatchNext(st, r, ruleIdx, i, j - 1);
      if a == i && b == j - 1 {
        InSnoc(HostSpecs(st, r, ruleIdx, i, j - 1), last, s);
      } else {
        InHostSpecs(st, r, ruleIdx, i, j - 1, a, b, s);
        InSnoc(HostSpecs(st, r, ruleIdx, i, j - 1), last, s);
      }
    } else {
      HostNext(st, r, ruleIdx, i - 1);
      InHostSpecs(st, r, ruleIdx, i - 1, |MatchesOf(r.rules[ruleIdx])|, a, b, s);
    }
  }

  lemma InSnoc(front: seq<RouteSpec>, last: RouteSpec, s: RouteSpec)
    requires s in front || s == last
    ensures s in front + [last]
  {
  }

  lemma {:induction false} InRulesSpecs(st: ClusterState, r: StoredRoute, n: nat, ruleIdx: nat, s: RouteSpec)
    requires ruleIdx < n <= |r.rules| && s in RuleSpecs(st, r, ruleIdx)
    ensures s in RulesSpecs(st, r, n)
  {
    RulesGrow(st, r, n);
    if ruleIdx < n - 1 { InRulesSpecs(st, r, n - 1, ruleIdx, s); }
    InConcat(RulesSpecs(st, r, n - 1), RuleSpecs(st, r, n - 1), s);
  }

  lemma RulesGrow(st: ClusterState, r: StoredRoute, n: nat)
    requires 0 < n <= |r.rules|
    ensures RulesSpecs(st, r, n) == RulesSpecs(st, r, n - 1) + RuleSpecs(st, r, n - 1)
  {
  }

  lemma InConcat(a: seq<RouteSpec>, b: seq<RouteSpec>, s: RouteSpec)
    ensures s in a + b <==> s in a || s in b
  {
  }

  lemma {:induction false} InSpecsOf(cfg: Config, st: ClusterState, order: seq<Key>, k: Key, s: RouteSpec)
    requires (forall x :: x in order ==> x in st.routes) && k in order && s in RouteSpecs(cfg, st, st.routes[k])
    ensures s in SpecsOf(cfg, st, order)
  {
    var n := |order| - 1;
    if order[n] != k {
      assert k in order[..n];
      InSpecsOf(cfg, st, order[..n], k, s);
    }
  }

  lemma ReferencesResolve(st: ClusterState, routeNs: string, bs: seq<BackendRef>)
    requires bs != []
    ensures ResolveAll(st, routeNs, bs) != []
  {
    assert Resolve(st, routeNs, bs[0]) != [];
  }

  /** Every hostname and match of every rule with a backend, in every attached route, has its spec. */
  lemma EverythingServed(cfg: Config, st: ClusterState, order: seq<Key>, k: Key, ruleIdx: nat,
                         hostname: Option<string>, path: PlainPath, kind: PathMatch) returns (spec: RouteSpec)
    requires Enumerates(order, st) && k in st.routes && Attaches(cfg, st.routes[k]) && ruleIdx < |st.routes[k].rules|
    requires st.routes[k].rules[ruleIdx].backendRefs != []
    requires Declares(st.routes[k], hostname) && Claims(st.routes[k].rules[ruleIdx], path, kind)
    ensures spec in SpecsOf(cfg, st, order)
    ensures spec.hostname == hostname && spec.path == path && spec.pathMatch == kind && AskedFor(cfg, st, spec, k, ruleIdx)
  {
    var r := st.routes[k];
    var rule := r.rules[ruleIdx];
    AttachesIs(cfg, r);
    DeclaresIs(r, hostname);
    ClaimsIs(rule, path, kind);
    ReferencesResolve(st, r.namespace, rule.backendRefs);
    var a :| 0 <= a < |HostnamesOf(r)| && HostnamesOf(r)[a] == hostname;
    var b :| 0 <= b < |MatchesOf(rule)| && MatchesOf(rule)[b] == (path, kind);
    spec := SpecFor(st, r, ruleIdx, hostname, (path, kind));
    InHostSpecs(st, r, ruleIdx, |HostnamesOf(r)|, 0, a, b, spec);
    InRulesSpecs(st, r, |r.rules|, ruleIdx, spec);
    InSpecsOf(cfg, st, order, k, spec);
    HostSpecsOrigin(cfg, st, k, ruleIdx, |HostnamesOf(r)|, 0, spec);
    AskedForIs(cfg, st, spec, k, ruleIdx);
  }
}
