/**
 * Route compilation and lookup: route specs are expanded to trie patterns,
 * bucketed by host class, compiled first-wins and queried tier by tier.
 */
module RouteTable {
  import opened Text
  import Selection
  import Simd

  const MAX_HOST_LEN: nat := 256

  datatype PathMatch = Prefix | Exact

  /** Control-plane paths; braces are trie syntax and are outside the model. */
  type PlainPath = s: string | '{' !in s && '}' !in s

  datatype UrlRewrite =
    | ReplacePrefix(prefix: string, replacement: string)
    | ReplaceFull(path: string)

  /** What a matched route does, apart from its shared cursor. */
  datatype Target = Target(endpoints: seq<Selection.Endpoint>, rewrite: Option<UrlRewrite>, routeName: string)

  /** `group` identifies the target group, hence the cursor, made by one `add`. */
  datatype RouteAction = RouteAction(group: nat, target: Target)

  datatype RouteSpec = RouteSpec(hostname: Option<string>, path: PlainPath, pathMatch: PathMatch, target: Target)

  // ----- path patterns -----------------------------------------------------

  /** A trie pattern: a literal path, or `base/{*catchall}` with a non-empty remainder. */
  datatype Pattern = Static(path: string) | CatchAll(base: string)

  function StripSuffix(s: string, suffix: string): Option<string> {
    if EndsWith(s, suffix) then Some(s[..|s| - |suffix|]) else None
  }

  // The base path, and whether a "/*" shorthand forces prefix matching.
  function BaseOf(path: string): (string, bool) {
    if path == "/*" then ("/", true)
    else
      var stripped :=
        if StripSuffix(path, "/*catchall").Some? then StripSuffix(path, "/*catchall")
        else if StripSuffix(path, "/*path").Some? then StripSuffix(path, "/*path")
        else StripSuffix(path, "/*");
      match stripped
      case Some(s) => (if s == "" then "/" else s, true)
      case None => (if path == "" then "/" else path, false)
  }

  function ExpandPattern(path: string, kind: PathMatch): seq<Pattern> {
    var (base, forcedPrefix) := BaseOf(path);
    if kind == Exact && !forcedPrefix then
      [Static(base)]
    else
      var trimmed := TrimEnd(base, '/');
      if trimmed == "" then
        [Static("/"), CatchAll("")]
      else
        [Static(trimmed), Static(trimmed + "/"), CatchAll(trimmed)]
  }

  // ----- host classes ------------------------------------------------------

  datatype HostClass = AnyHost | WildcardHost(suffix: string) | ExactHost(name: string)

  function ClassOf(hostname: Option<string>): HostClass {
    match hostname
    case None => AnyHost
    case Some(h) =>
      if h == "*" then AnyHost
      else if "*." <= h then WildcardHost(Lower(h[1..]))
      else ExactHost(Lower(h))
  }

  // ----- compiled tables ---------------------------------------------------

  type Entry = (Pattern, RouteAction)
  type Router = map<Pattern, RouteAction>

  datatype Table = Table(exact: map<string, Router>, wildcard: map<string, Router>, fallback: Router, routeCount: nat)

  /** First-wins compilation of one bucket. */
  function Compile(entries: seq<Entry>): Router {
    if entries == [] then map[]
    else
      var r := Compile(entries[..|entries| - 1]);
      var (p, a) := entries[|entries| - 1];
      if p in r then r else r[p := a]
  }

  /** The longest catch-all base shorter than `n` that leaves a non-empty remainder. */
  function CatchAllAt(r: Router, path: string, n: nat): Option<RouteAction>
    requires n <= |path|
  {
    if n == 0 then None
    else if n < |path| && path[n - 1] == '/' && CatchAll(path[..n - 1]) in r then Some(r[CatchAll(path[..n - 1])])
    else CatchAllAt(r, path, n - 1)
  }

  /** Trie lookup: a literal pattern wins, then the longest catch-all. */
  function At(r: Router, path: string): Option<RouteAction> {
    if Static(path) in r then Some(r[Static(path)]) else CatchAllAt(r, path, |path|)
  }

  // ----- specification of the builder --------------------------------------

  function EntriesOf(spec: RouteSpec, group: nat): seq<Entry> {
    var ps := ExpandPattern(spec.path, spec.pathMatch);
    seq(|ps|, i requires 0 <= i < |ps| => (ps[i], RouteAction(group, spec.target)))
  }

  /** All entries of one host class, in insertion order. */
  function Bucket(specs: seq<RouteSpec>, h: HostClass): seq<Entry> {
    if specs == [] then []
    else
      var n := |specs| - 1;
      Bucket(specs[..n], h) + (if ClassOf(specs[n].hostname) == h then EntriesOf(specs[n], n) else [])
  }

  function Classes(specs: seq<RouteSpec>): set<HostClass> {
    set i | 0 <= i < |specs| :: ClassOf(specs[i].hostname)
  }

  function ExactBuckets(specs: seq<RouteSpec>): map<string, seq<Entry>> {
    var names := set h | h in Classes(specs) && h.ExactHost? :: h.name;
    map k | k in names :: Bucket(specs, ExactHost(k))
  }

  function WildcardBuckets(specs: seq<RouteSpec>): map<string, seq<Entry>> {
    var suffixes := set h | h in Classes(specs) && h.WildcardHost? :: h.suffix;
    map k | k in suffixes :: Bucket(specs, WildcardHost(k))
  }

  function CompileEach(buckets: map<string, seq<Entry>>): map<string, Router> {
    map k | k in buckets :: Compile(buckets[k])
  }

  function TableOf(specs: seq<RouteSpec>): Table {
    Table(CompileEach(ExactBuckets(specs)), CompileEach(WildcardBuckets(specs)),
          Compile(Bucket(specs, AnyHost)), |specs|)
  }

  class RouteTableBuilder {
    var exact: map<string, seq<Entry>>
    var wildcard: map<string, seq<Entry>>
    var defaultRoutes: seq<Entry>
    var routeCount: nat
    ghost var added: seq<RouteSpec>

    ghost predicate Valid()
      reads this
    {
      && routeCount == |added|
      && defaultRoutes == Bucket(added, AnyHost)
      && exact == ExactBuckets(added)
      && wildcard == WildcardBuckets(added)
    }

    constructor ()
      ensures Valid() && added == []
    {
      exact, wildcard, defaultRoutes, routeCount, added := map[], map[], [], 0, [];
    }

    method Add(spec: RouteSpec)
      requires Valid()
      modifies this
      ensures Valid() && added == old(added) + [spec]
    {
      var patterns := ExpandPattern(spec.path, spec.pathMatch);
      var action := RouteAction(routeCount, spec.target);
      var h := ClassOf(spec.hostname);
      ExactSnoc(added, spec);
      WildcardSnoc(added, spec);
      BucketSnoc(added, spec, AnyHost);
      match h {
        case AnyHost =>
          defaultRoutes := PushPatterns(defaultRoutes, patterns, action);
        case WildcardHost(suffix) =>
          var bucket := PushPatterns(Existing(wildcard, suffix), patterns, action);
          wildcard := wildcard[suffix := bucket];
        case ExactHost(name) =>
          var bucket := PushPatterns(Existing(exact, name), patterns, action);
          exact := exact[name := bucket];
      }
      routeCount := routeCount + 1;
      added := added + [spec];
    }

    /** Duplicate patterns are skipped, never an error. */
    method Build() returns (table: Table)
      requires Valid()
      ensures table == TableOf(added)
    {
      var exactHosts := CompileAll(exact);
      var wildcardHosts := CompileAll(wildcard);
      var default := CompileRoutes(defaultRoutes);
      table := Table(exactHosts, wildcardHosts, default, routeCount);
    }
  }

  /** Push one copy of the action under every pattern of a route. */
  method PushPatterns(bucket: seq<Entry>, patterns: seq<Pattern>, action: RouteAction) returns (r: seq<Entry>)
    ensures r == bucket + seq(|patterns|, i requires 0 <= i < |patterns| => (patterns[i], action))
  {
    r := bucket;
    for i := 0 to |patterns|
      invariant r == bucket + seq(i, k requires 0 <= k < i => (patterns[k], action))
    {
      r := r + [(patterns[i], action)];
    }
  }

  lemma {:induction false} EmptyBucket(specs: seq<RouteSpec>, h: HostClass)
    requires h !in Classes(specs)
    ensures Bucket(specs, h) == []
  {
    if specs != [] {
      var n := |specs| - 1;
      assert ClassOf(specs[n].hostname) in Classes(specs);
      forall k | k in Classes(specs[..n]) ensures k in Classes(specs) {
        var i :| 0 <= i < n && k == ClassOf(specs[..n][i].hostname);
        assert ClassOf(specs[i].hostname) == k;
      }
      EmptyBucket(specs[..n], h);
    }
  }

  lemma BucketSnoc(specs: seq<RouteSpec>, spec: RouteSpec, h: HostClass)
    ensures Bucket(specs + [spec], h)
         == Bucket(specs, h) + (if ClassOf(spec.hostname) == h then EntriesOf(spec, |specs|) else [])
  {
    assert (specs + [spec])[..|specs|] == specs;
  }

  lemma ClassesSnoc(specs: seq<RouteSpec>, spec: RouteSpec)
    ensures Classes(specs + [spec]) == Classes(specs) + {ClassOf(spec.hostname)}
  {
    var all := specs + [spec];
    forall k | k in Classes(specs) ensures k in Classes(all) {
      var i :| 0 <= i < |specs| && k == ClassOf(specs[i].hostname);
      assert ClassOf(all[i].hostname) == k;
    }
    assert ClassOf(all[|specs|].hostname) == ClassOf(spec.hostname);
  }

  /** The bucket a push starts from: absent keys stand for the empty bucket. */
  function Existing(buckets: map<string, seq<Entry>>, key: string): seq<Entry> {
    if key in buckets then buckets[key] else []
  }

  lemma ExactKeys(specs: seq<RouteSpec>, k: string)
    ensures k in ExactBuckets(specs) <==> ExactHost(k) in Classes(specs)
    ensures Existing(ExactBuckets(specs), k) == Bucket(specs, ExactHost(k))
  {
    assert ExactHost(k).name == k;
    if ExactHost(k) !in Classes(specs) { EmptyBucket(specs, ExactHost(k)); }
  }

  lemma WildcardKeys(specs: seq<RouteSpec>, k: string)
    ensures k in WildcardBuckets(specs) <==> WildcardHost(k) in Classes(specs)
    ensures Existing(WildcardBuckets(specs), k) == Bucket(specs, WildcardHost(k))
  {
    assert WildcardHost(k).suffix == k;
    if WildcardHost(k) !in Classes(specs) { EmptyBucket(specs, WildcardHost(k)); }
  }

  lemma ExactSnoc(specs: seq<RouteSpec>, spec: RouteSpec)
    ensures var h, es, before := ClassOf(spec.hostname), EntriesOf(spec, |specs|), ExactBuckets(specs);
            ExactBuckets(specs + [spec])
            == if h.ExactHost? then before[h.name := Existing(before, h.name) + es] else before
  {
    var h, es, before := ClassOf(spec.hostname), EntriesOf(spec, |specs|), ExactBuckets(specs);
    var after := if h.ExactHost? then before[h.name := Existing(before, h.name) + es] else before;
    var all := specs + [spec];
    ClassesSnoc(specs, spec);
    forall k
      ensures (k in ExactBuckets(all) <==> k in after) && Existing(ExactBuckets(all), k) == Existing(after, k)
    {
      ExactKeys(specs, k);
      ExactKeys(all, k);
      BucketSnoc(specs, spec, ExactHost(k));
      assert Existing(before, k) + [] == Existing(before, k);
    }
    SameBuckets(ExactBuckets(all), after);
  }

  lemma WildcardSnoc(specs: seq<RouteSpec>, spec: RouteSpec)
    ensures var h, es, before := ClassOf(spec.hostname), EntriesOf(spec, |specs|), WildcardBuckets(specs);
            WildcardBuckets(specs + [spec])
            == if h.WildcardHost? then before[h.suffix := Existing(before, h.suffix) + es] else before
  {
    var h, es, before := ClassOf(spec.hostname), EntriesOf(spec, |specs|), WildcardBuckets(specs);
    var after := if h.WildcardHost? then before[h.suffix := Existing(before, h.suffix) + es] else before;
    var all := specs + [spec];
    ClassesSnoc(specs, spec);
    forall k
      ensures (k in WildcardBuckets(all) <==> k in after) && Existing(WildcardBuckets(all), k) == Existing(after, k)
    {
      WildcardKeys(specs, k);
      WildcardKeys(all, k);
      BucketSnoc(specs, spec, WildcardHost(k));
      assert Existing(before, k) + [] == Existing(before, k);
    }
    SameBuckets(WildcardBuckets(all), after);
  }

  lemma SameBuckets(a: map<string, seq<Entry>>, b: map<string, seq<Entry>>)
    requires forall k :: (k in a <==> k in b) && Existing(a, k) == Existing(b, k)
    ensures a == b
  {
    forall k | k in a ensures a[k] == b[k] { assert Existing(a, k) == Existing(b, k); }
  }

  method CompileRoutes(routes: seq<Entry>) returns (router: Router)
    ensures router == Compile(routes)
  {
    router := map[];
    for i := 0 to |routes|
      invariant router == Compile(routes[..i])
    {
      var (pattern, action) := routes[i];
      assert routes[..i + 1][..i] == routes[..i];
      if pattern !in router {
        router := router[pattern := action];
      }
    }
    assert routes[..|routes|] == routes;
  }

  method CompileAll(buckets: map<string, seq<Entry>>) returns (routers: map<string, Router>)
    ensures routers == CompileEach(buckets)
  {
    routers := map[];
    var todo := buckets.Keys;
    while todo != {}
      invariant todo <= buckets.Keys
      invariant routers == map k | k in buckets && k !in todo :: Compile(buckets[k])
    {
      var k :| k in todo;
      var r := CompileRoutes(buckets[k]);
      routers := routers[k := r];
      todo := todo - {k};
    }
  }

  // ----- lookup ------------------------------------------------------------

  /** Strip an optional port; an IPv6 literal keeps its brackets. */
  function HostWithoutPort(host: string): string {
    if host != "" && host[0] == '[' then
      var close := IndexOf(host, ']');
      if close < |host| then host[..close + 1] else host
    else
      host[..IndexOf(host, ':')]
  }

  /** Hosts over the stack buffer are matched as they came. */
  function Normalize(host: string): string {
    var stripped := HostWithoutPort(host);
    if |stripped| <= MAX_HOST_LEN then Lower(stripped) else stripped
  }

  function CleanPath(path: string): string {
    if path == "" then "/" else path
  }

  /** The router's answer for a key that may be absent. */
  function HostAt(hosts: map<string, Router>, key: string, path: string): Option<RouteAction> {
    if key in hosts then At(hosts[key], path) else None
  }

  /** Wildcard suffixes of `name` that start at a dot at or after `d`, longest first. */
  function WalkSuffixes(hosts: map<string, Router>, name: string, d: nat, path: string): Option<RouteAction>
    requires d <= |name|
    decreases |name| - d
  {
    if d == |name| then None
    else if name[d] == '.' && HostAt(hosts, name[d..], path).Some? then HostAt(hosts, name[d..], path)
    else WalkSuffixes(hosts, name, d + 1, path)
  }

  function TieredLookup(t: Table, host: Option<string>, path: string): Option<RouteAction> {
    var p := CleanPath(path);
    var tiered :=
      if host.None? then None
      else
        var name := Normalize(host.value);
        var hit := HostAt(t.exact, name, p);
        if hit.Some? then hit else WalkSuffixes(t.wildcard, name, 0, p);
    if tiered.Some? then tiered else At(t.fallback, p)
  }

  lemma {:induction false} WalkSkips(hosts: map<string, Router>, name: string, d: nat, e: nat, path: string)
    requires d <= e <= |name|
    requires forall j :: d <= j < e ==> name[j] != '.' || HostAt(hosts, name[j..], path).None?
    ensures WalkSuffixes(hosts, name, d, path) == WalkSuffixes(hosts, name, e, path)
    decreases e - d
  {
    if d < e { WalkSkips(hosts, name, d + 1, e, path); }
  }

  /** The suffix walk: one step per dot, longest suffix first. */
  method WalkWildcards(hosts: map<string, Router>, normalized: string, path: string) returns (result: Option<RouteAction>)
    ensures result == WalkSuffixes(hosts, normalized, 0, path)
  {
    var current := normalized;
    ghost var off := 0;
    var dot := IndexOf(current, '.');
    while dot < |current|
      invariant 0 <= off <= |normalized| && current == normalized[off..]
      invariant dot == IndexOf(current, '.')
      invariant WalkSuffixes(hosts, normalized, 0, path) == WalkSuffixes(hosts, normalized, off, path)
      decreases |current|
    {
      var suffix := current[dot..];
      TailOfTail(normalized, off, dot);
      OneDot(hosts, normalized, off, dot, path);
      result := HostAt(hosts, suffix, path);
      if result.Some? || |suffix| <= 1 {
        return;
      }
      off := off + dot + 1;
      current := suffix[1..];
      dot := IndexOf(current, '.');
    }
    NoMoreDots(hosts, normalized, off, path);
    result := None;
  }

  lemma TailOfTail(name: string, off: nat, dot: nat)
    requires off + dot < |name|
    ensures name[off..][dot..] == name[off + dot..] && name[off + dot..][1..] == name[off + dot + 1..]
  {
  }

  /** One step of the walk: the suffix at the next dot answers, or the walk goes on behind that dot. */
  lemma OneDot(hosts: map<string, Router>, name: string, off: nat, dot: nat, path: string)
    requires off + dot < |name| && dot == IndexOf(name[off..], '.')
    ensures var hit := HostAt(hosts, name[off + dot..], path);
            WalkSuffixes(hosts, name, off, path) == if hit.Some? then hit else WalkSuffixes(hosts, name, off + dot + 1, path)
    ensures off + dot + 1 == |name| ==> WalkSuffixes(hosts, name, off + dot + 1, path).None?
  {
    NoDotBetween(name, off, dot);
    WalkSkips(hosts, name, off, off + dot, path);
    assert name[off + dot] == name[off..][dot] == '.';
  }

  lemma NoMoreDots(hosts: map<string, Router>, name: string, off: nat, path: string)
    requires off <= |name| && IndexOf(name[off..], '.') == |name| - off
    ensures WalkSuffixes(hosts, name, off, path).None?
  {
    NoDotBetween(name, off, |name| - off);
    WalkSkips(hosts, name, off, |name|, path);
  }

  lemma NoDotBetween(name: string, off: nat, dot: nat)
    requires off <= |name| && dot == IndexOf(name[off..], '.')
    ensures forall j :: off <= j < off + dot ==> name[j] != '.'
  {
    forall j | off <= j < off + dot ensures name[j] != '.' { assert name[j] == name[off..][j - off]; }
  }

  /**
   * Fold the host into a 256-byte stack buffer with the vector routine of the
   * instruction set at hand, or keep it as it came when it does not fit.
   */
  method NormalizeHost(isa: Simd.Isa, host: string) returns (name: string)
    requires Octets(host)
    ensures name == Normalize(host)
  {
    var stripped := HostWithoutPort(host);
    var lower := new Simd.Byte[MAX_HOST_LEN];
    var bytes := Simd.BytesOf(stripped);
    var ok := Simd.LowercaseInto(isa, bytes, lower);
    if ok {
      assert lower[..|bytes|] == Simd.Fold(bytes);
      Simd.FoldText(bytes);
      Simd.BytesBack(stripped);
      name := Simd.TextOf(lower[..|bytes|]);
    } else {
      name := stripped;
    }
  }

  /**
   * Two hosts get the same routing name exactly when, ports aside, they have one
   * length and are equal: up to ASCII case if they fit the buffer, else as they came.
   */
  lemma SameName(h1: string, h2: string)
    ensures Normalize(h1) == Normalize(h2) <==>
            var a, b := HostWithoutPort(h1), HostWithoutPort(h2);
            |a| == |b| && if |a| <= MAX_HOST_LEN then EqCi(a, b) else a == b
  {
    var a, b := HostWithoutPort(h1), HostWithoutPort(h2);
    assert |Normalize(h1)| == |a| && |Normalize(h2)| == |b|;
  }

  method Lookup(t: Table, isa: Simd.Isa, host: Option<string>, path: string) returns (result: Option<RouteAction>)
    requires host.Some? ==> Octets(host.value)
    ensures result == TieredLookup(t, host, path)
  {
    var cleanPath := CleanPath(path);
    if host.Some? {
      var normalized := NormalizeHost(isa, host.value);
      result := HostAt(t.exact, normalized, cleanPath);
      if result.Some? {
        return;
      }
      if t.wildcard != map[] {
        result := WalkWildcards(t.wildcard, normalized, cleanPath);
        if result.Some? {
          return;
        }
      } else {
        WalkSkips(t.wildcard, normalized, 0, |normalized|, cleanPath);
      }
    }
    result := At(t.fallback, cleanPath);
  }
}
