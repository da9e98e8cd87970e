/**
 * The compiled table answers like one pass over the route list: among the specs
 * whose host and path both match, the one with the most specific host, then the
 * most specific path, then the earliest insertion.
 */
module RouteScan {
  import opened Text
  import opened RouteTable
  import Simd

  // ----- the naive reference -----------------------------------------------

  /** How specifically a host class matches a normalized host, if it does. */
  function HostRank(h: HostClass, name: Option<string>): Option<nat> {
    match h
    case AnyHost => Some(0)
    case WildcardHost(s) => if name.Some? && EndsWith(name.value, s) then Some(|s|) else None
    case ExactHost(n) => if name == Some(n) then Some(|n| + 1) else None
  }

  /**
   * How specifically a route path matches a request path: a whole-path match
   * ranks above everything, otherwise the length of the segment-aligned base.
   */
  function PathRank(path: string, kind: PathMatch, p: string): Option<nat> {
    var (base, shorthand) := BaseOf(path);
    var t := TrimEnd(base, '/');
    if kind == Exact && !shorthand then (if p == base then Some(|p| + 1) else None)
    else if p == t || p == t + "/" then Some(|p| + 1)
    else if t + "/" <= p then Some(|t|)
    else None
  }

  function SpecHost(s: RouteSpec, name: Option<string>): Option<nat> {
    HostRank(ClassOf(s.hostname), name)
  }

  function SpecPath(s: RouteSpec, p: string): Option<nat> {
    PathRank(s.path, s.pathMatch, p)
  }

  /** Host specificity first, then path specificity; absent when either misses. */
  type Rank = Option<(nat, nat)>

  function RankOf(s: RouteSpec, name: Option<string>, p: string): Rank {
    match (SpecHost(s, name), SpecPath(s, p))
    case (Some(h), Some(q)) => Some((h, q))
    case _ => None
  }

  predicate Above(a: (nat, nat), b: (nat, nat)) {
    a.0 > b.0 || (a.0 == b.0 && a.1 > b.1)
  }

  /** One pass over the ranks, keeping the first highest. */
  function FirstHighest(ranks: seq<Rank>): (r: Option<nat>)
    ensures r.Some? ==> r.value < |ranks| && ranks[r.value].Some?
  {
    if ranks == [] then None
    else
      var n := |ranks| - 1;
      var best := FirstHighest(ranks[..n]);
      if ranks[n].Some? && (best.None? || Above(ranks[n].value, ranks[best.value].value)) then Some(n) else best
  }

  function Ranks(specs: seq<RouteSpec>, name: Option<string>, p: string): (r: seq<Rank>)
    ensures |r| == |specs|
  {
    seq(|specs|, i requires 0 <= i < |specs| => RankOf(specs[i], name, p))
  }

  /** The route list scanned once. */
  function Scan(specs: seq<RouteSpec>, name: Option<string>, p: string): (r: Option<nat>)
    ensures r.Some? ==> r.value < |specs|
  {
    FirstHighest(Ranks(specs, name, p))
  }

  ghost predicate Best(ranks: seq<Rank>, i: nat) {
    && i < |ranks| && ranks[i].Some?
    && forall j :: 0 <= j < |ranks| && ranks[j].Some? ==>
         !Above(ranks[j].value, ranks[i].value) && (j < i ==> Above(ranks[i].value, ranks[j].value))
  }

  ghost predicate NoMatch(ranks: seq<Rank>) {
    forall j :: 0 <= j < |ranks| ==> ranks[j].None?
  }

  /** The scan's answer is the one best match, or there is none. */
  lemma {:induction false} ScanIsBest(ranks: seq<Rank>)
    ensures FirstHighest(ranks).None? ==> NoMatch(ranks)
    ensures FirstHighest(ranks).Some? ==> Best(ranks, FirstHighest(ranks).value)
    ensures forall i: nat :: Best(ranks, i) ==> FirstHighest(ranks) == Some(i)
  {
    if ranks != [] {
      var n := |ranks| - 1;
      ScanIsBest(ranks[..n]);
    }
  }

  // ----- routers against the spec list -------------------------------------

  function Patterns(s: RouteSpec): seq<Pattern> {
    ExpandPattern(s.path, s.pathMatch)
  }

  function RouterOf(specs: seq<RouteSpec>, h: HostClass): Router {
    Compile(Bucket(specs, h))
  }

  ghost predicate Owns(specs: seq<RouteSpec>, h: HostClass, pat: Pattern, i: nat) {
    i < |specs| && ClassOf(specs[i].hostname) == h && pat in Patterns(specs[i])
  }

  lemma {:induction false} CompileConcat(a: seq<Entry>, b: seq<Entry>, pat: Pattern)
    ensures pat in Compile(a + b) <==> pat in Compile(a) || pat in Compile(b)
    ensures pat in Compile(a) ==> Compile(a + b)[pat] == Compile(a)[pat]
    ensures pat !in Compile(a) && pat in Compile(b) ==> Compile(a + b)[pat] == Compile(b)[pat]
  {
    if b == [] {
      assert a + b == a;
    } else {
      var n := |b| - 1;
      CompileConcat(a, b[..n], pat);
      assert (a + b)[..|a + b| - 1] == a + b[..n];
    }
  }

  lemma {:induction false} CompileOne(entries: seq<Entry>, a: RouteAction, pat: Pattern)
    requires forall k :: 0 <= k < |entries| ==> entries[k].1 == a
    ensures pat in Compile(entries) <==> exists k :: 0 <= k < |entries| && entries[k].0 == pat
    ensures pat in Compile(entries) ==> Compile(entries)[pat] == a
  {
    if entries != [] {
      var n := |entries| - 1;
      CompileOne(entries[..n], a, pat);
    }
  }

  /** The last spec adds its patterns where no earlier spec has them. */
  lemma RouterSnoc(specs: seq<RouteSpec>, h: HostClass, pat: Pattern)
    requires specs != []
    ensures var n := |specs| - 1;
            var before, after := RouterOf(specs[..n], h), RouterOf(specs, h);
            && (pat in after <==> pat in before || Owns(specs, h, pat, n))
            && (pat in before ==> after[pat] == before[pat])
            && (pat in after && pat !in before ==> after[pat] == RouteAction(n, specs[n].target))
  {
    var n := |specs| - 1;
    var es := if ClassOf(specs[n].hostname) == h then EntriesOf(specs[n], n) else [];
    CompileConcat(Bucket(specs[..n], h), es, pat);
    CompileOne(es, RouteAction(n, specs[n].target), pat);
    OwnsLast(specs, h, pat);
  }

  /** A router maps a pattern to the first spec of its class that expands to it. */
  lemma {:induction false} RouterOwner(specs: seq<RouteSpec>, h: HostClass, pat: Pattern)
    ensures pat in RouterOf(specs, h) <==> exists i :: Owns(specs, h, pat, i)
    ensures pat in RouterOf(specs, h) ==>
              var g := RouterOf(specs, h)[pat].group;
              && Owns(specs, h, pat, g)
              && RouterOf(specs, h)[pat] == RouteAction(g, specs[g].target)
              && forall j :: 0 <= j < g ==> !Owns(specs, h, pat, j)
  {
    if specs != [] {
      var n := |specs| - 1;
      RouterOwner(specs[..n], h, pat);
      RouterSnoc(specs, h, pat);
      OwnedStep(specs, n, h, pat, RouterOf(specs[..n], h), RouterOf(specs, h));
    } else {
      assert Bucket(specs, h) == [];
    }
  }

  /** The router has the pattern exactly if some spec owns it, and then from the first that does. */
  ghost predicate OwnedIn(specs: seq<RouteSpec>, h: HostClass, pat: Pattern, r: Router) {
    && (pat in r <==> exists i :: Owns(specs, h, pat, i))
    && (pat in r ==>
          var g := r[pat].group;
          && Owns(specs, h, pat, g)
          && r[pat] == RouteAction(g, specs[g].target)
          && forall j :: 0 <= j < g ==> !Owns(specs, h, pat, j))
  }

  lemma OwnedStep(specs: seq<RouteSpec>, n: nat, h: HostClass, pat: Pattern, before: Router, after: Router)
    requires |specs| == n + 1 && OwnedIn(specs[..n], h, pat, before)
    requires pat in after <==> pat in before || Owns(specs, h, pat, n)
    requires pat in before ==> pat in after && after[pat] == before[pat]
    requires pat in after && pat !in before ==> after[pat] == RouteAction(n, specs[n].target)
    ensures OwnedIn(specs, h, pat, after)
  {
    forall i: nat | i < n ensures Owns(specs[..n], h, pat, i) <==> Owns(specs, h, pat, i) { OwnsFront(specs, n, h, pat, i); }
    if pat in before {
      assert Owns(specs, h, pat, before[pat].group);
    } else if Owns(specs, h, pat, n) {
      assert forall j: nat :: j < n ==> !Owns(specs[..n], h, pat, j);
    } else {
      assert forall i: nat :: !Owns(specs, h, pat, i);
    }
  }

  lemma OwnsFront(specs: seq<RouteSpec>, n: nat, h: HostClass, pat: Pattern, i: nat)
    requires i < n <= |specs|
    ensures Owns(specs[..n], h, pat, i) <==> Owns(specs, h, pat, i)
  {
  }

  lemma OwnsLast(specs: seq<RouteSpec>, h: HostClass, pat: Pattern)
    requires specs != []
    ensures var n := |specs| - 1;
            var es := if ClassOf(specs[n].hostname) == h then EntriesOf(specs[n], n) else [];
            Owns(specs, h, pat, n) <==> exists k :: 0 <= k < |es| && es[k].0 == pat
  {
    var n := |specs| - 1;
    if Owns(specs, h, pat, n) {
      var ps := Patterns(specs[n]);
      var k :| 0 <= k < |ps| && ps[k] == pat;
      assert EntriesOf(specs[n], n)[k].0 == pat;
    }
  }

  // ----- expansion against ranking -----------------------------------------

  /** The expanded patterns hit a path exactly where the naive ranking says. */
  lemma ExpandRank(path: string, kind: PathMatch, p: string)
    requires p != ""
    ensures Static(p) in ExpandPattern(path, kind) <==> PathRank(path, kind, p) == Some(|p| + 1)
    ensures forall k :: 0 <= k < |p| ==>
      ((Static(p) !in ExpandPattern(path, kind) && k + 1 < |p| && p[k] == '/' && CatchAll(p[..k]) in ExpandPattern(path, kind))
       <==> PathRank(path, kind, p) == Some(k))
    ensures PathRank(path, kind, p).Some? ==> PathRank(path, kind, p).value < |p| || PathRank(path, kind, p).value == |p| + 1
  {
    var (base, shorthand) := BaseOf(path);
    var t := TrimEnd(base, '/');
    if !(kind == Exact && !shorthand) {
      assert t + "/" == "/" <==> t == "";
      forall k | 0 <= k < |p|
        ensures (k + 1 < |p| && p[k] == '/' && p[..k] == t) <==> (t + "/" <= p && p != t + "/" && k == |t|)
      {
        SlashAfter(t, p, k);
      }
    }
  }

  lemma SlashAfter(t: string, p: string, k: nat)
    requires k < |p|
    ensures (k + 1 < |p| && p[k] == '/' && p[..k] == t) <==> (t + "/" <= p && p != t + "/" && k == |t|)
  {
    if t + "/" <= p && k == |t| {
      assert p[..k] == (t + "/")[..k] == t;
      assert p[k] == (t + "/")[k];
      if k + 1 == |p| { assert p == t + "/"; }
    }
    if p[k] == '/' && p[..k] == t {
      assert p[..k + 1] == t + "/";
    }
  }

  /** The largest base length below `n` whose catch-all is present decides the catch-all lookup. */
  lemma {:induction false} CatchAllChoice(r: Router, path: string, n: nat)
    requires n <= |path|
    ensures CatchAllAt(r, path, n).None? ==>
              forall k :: 0 <= k < n && k + 1 < |path| && path[k] == '/' ==> CatchAll(path[..k]) !in r
    ensures CatchAllAt(r, path, n).Some? ==> exists k :: CatchAllHit(r, path, n, k)
  {
    if n > 0 {
      if n < |path| && path[n - 1] == '/' && CatchAll(path[..n - 1]) in r {
        assert CatchAllHit(r, path, n, n - 1);
      } else {
        CatchAllChoice(r, path, n - 1);
        if CatchAllAt(r, path, n - 1).Some? {
          var k :| CatchAllHit(r, path, n - 1, k);
          assert CatchAllHit(r, path, n, k);
        }
      }
    }
  }

  ghost predicate CatchAllHit(r: Router, path: string, n: nat, k: nat)
    requires n <= |path|
  {
    && k < n && k + 1 < |path| && path[k] == '/' && CatchAll(path[..k]) in r
    && CatchAllAt(r, path, n) == Some(r[CatchAll(path[..k])])
    && forall j :: k < j < n && j + 1 < |path| && path[j] == '/' ==> CatchAll(path[..j]) !in r
  }

  ghost predicate BestInClass(specs: seq<RouteSpec>, h: HostClass, p: string, i: nat) {
    && i < |specs| && ClassOf(specs[i].hostname) == h && SpecPath(specs[i], p).Some?
    && forall j :: 0 <= j < |specs| && ClassOf(specs[j].hostname) == h && SpecPath(specs[j], p).Some? ==>
         SpecPath(specs[j], p).value <= SpecPath(specs[i], p).value
         && (j < i ==> SpecPath(specs[j], p).value < SpecPath(specs[i], p).value)
  }

  ghost predicate ClassMisses(specs: seq<RouteSpec>, h: HostClass, p: string) {
    forall j :: 0 <= j < |specs| && ClassOf(specs[j].hostname) == h ==> SpecPath(specs[j], p).None?
  }

  ghost predicate Answers(specs: seq<RouteSpec>, r: Option<RouteAction>, i: nat) {
    i < |specs| && r == Some(RouteAction(i, specs[i].target))
  }

  lemma StaticHitIsBest(specs: seq<RouteSpec>, h: HostClass, p: string)
    requires p != "" && Static(p) in RouterOf(specs, h)
    ensures var i := RouterOf(specs, h)[Static(p)].group; BestInClass(specs, h, p, i) && Answers(specs, At(RouterOf(specs, h), p), i)
  {
    RouterOwner(specs, h, Static(p));
    forall j | 0 <= j < |specs| && ClassOf(specs[j].hostname) == h
      ensures Owns(specs, h, Static(p), j) <==> SpecPath(specs[j], p) == Some(|p| + 1)
      ensures SpecPath(specs[j], p).Some? ==> SpecPath(specs[j], p).value <= |p| + 1
    {
      ExpandRank(specs[j].path, specs[j].pathMatch, p);
    }
  }

  lemma TierRank(specs: seq<RouteSpec>, h: HostClass, p: string, j: nat)
    requires p != "" && Static(p) !in RouterOf(specs, h)
    requires j < |specs| && ClassOf(specs[j].hostname) == h
    ensures SpecPath(specs[j], p).Some? ==>
              var k := SpecPath(specs[j], p).value;
              k + 1 < |p| && p[k] == '/' && Owns(specs, h, CatchAll(p[..k]), j) && CatchAll(p[..k]) in RouterOf(specs, h)
    ensures forall k :: 0 <= k && k + 1 < |p| && p[k] == '/' && Owns(specs, h, CatchAll(p[..k]), j) ==> SpecPath(specs[j], p) == Some(k)
  {
    RouterOwner(specs, h, Static(p));
    ExpandRank(specs[j].path, specs[j].pathMatch, p);
    assert !Owns(specs, h, Static(p), j);
    if SpecPath(specs[j], p).Some? {
      var k := SpecPath(specs[j], p).value;
      assert Owns(specs, h, CatchAll(p[..k]), j);
      RouterOwner(specs, h, CatchAll(p[..k]));
    }
  }

  /** One tier's trie lookup is that tier's best spec, or a miss when none matches the path. */
  lemma TierIsBest(specs: seq<RouteSpec>, h: HostClass, p: string)
    requires p != ""
    ensures At(RouterOf(specs, h), p).None? ==> ClassMisses(specs, h, p)
    ensures At(RouterOf(specs, h), p).Some? ==>
              var i := At(RouterOf(specs, h), p).value.group;
              BestInClass(specs, h, p, i) && Answers(specs, At(RouterOf(specs, h), p), i)
  {
    var r := RouterOf(specs, h);
    if Static(p) in r {
      StaticHitIsBest(specs, h, p);
    } else {
      CatchAllChoice(r, p, |p|);
      if CatchAllAt(r, p, |p|).None? {
        forall j | 0 <= j < |specs| && ClassOf(specs[j].hostname) == h ensures SpecPath(specs[j], p).None? {
          TierRank(specs, h, p, j);
        }
      } else {
        var k :| CatchAllHit(r, p, |p|, k);
        CatchAllIsBest(specs, h, p, k);
      }
    }
  }

  lemma CatchAllIsBest(specs: seq<RouteSpec>, h: HostClass, p: string, k: nat)
    requires p != "" && Static(p) !in RouterOf(specs, h)
    requires CatchAllHit(RouterOf(specs, h), p, |p|, k)
    ensures var i := RouterOf(specs, h)[CatchAll(p[..k])].group;
            BestInClass(specs, h, p, i) && Answers(specs, At(RouterOf(specs, h), p), i)
  {
    var r := RouterOf(specs, h);
    RouterOwner(specs, h, CatchAll(p[..k]));
    var i := r[CatchAll(p[..k])].group;
    TierRank(specs, h, p, i);
    forall j | 0 <= j < |specs| && ClassOf(specs[j].hostname) == h && SpecPath(specs[j], p).Some?
      ensures SpecPath(specs[j], p).value <= k && (j < i ==> SpecPath(specs[j], p).value < k)
    {
      TierRank(specs, h, p, j);
    }
  }

  // ----- tiers -------------------------------------------------------------

  lemma {:induction false} EmptyRouterMisses(p: string, n: nat)
    requires n <= |p|
    ensures CatchAllAt(map[], p, n).None?
  {
    if n > 0 { EmptyRouterMisses(p, n - 1); }
  }

  lemma ExactTier(specs: seq<RouteSpec>, k: string, p: string)
    ensures HostAt(TableOf(specs).exact, k, p) == At(RouterOf(specs, ExactHost(k)), p)
  {
    ExactKeys(specs, k);
    EmptyRouterMisses(p, |p|);
  }

  lemma WildcardTier(specs: seq<RouteSpec>, k: string, p: string)
    ensures HostAt(TableOf(specs).wildcard, k, p) == At(RouterOf(specs, WildcardHost(k)), p)
  {
    WildcardKeys(specs, k);
    EmptyRouterMisses(p, |p|);
  }

  ghost predicate MissesBetween(specs: seq<RouteSpec>, name: string, d: nat, e: nat, p: string) {
    forall j :: d <= j < e && j < |name| && name[j] == '.' ==> ClassMisses(specs, WildcardHost(name[j..]), p)
  }

  /** The walk stops at the first dot, hence the longest suffix, whose tier matches the path. */
  lemma {:induction false} WalkIsBest(specs: seq<RouteSpec>, name: string, d: nat, p: string)
    requires d <= |name| && p != ""
    ensures var r := WalkSuffixes(TableOf(specs).wildcard, name, d, p);
            && (r.None? ==> MissesBetween(specs, name, d, |name|, p))
            && (r.Some? ==> exists e :: WalkHit(specs, name, d, e, p, r))
    decreases |name| - d
  {
    var hosts := TableOf(specs).wildcard;
    var r := WalkSuffixes(hosts, name, d, p);
    if d < |name| {
      WildcardTier(specs, name[d..], p);
      TierIsBest(specs, WildcardHost(name[d..]), p);
      if name[d] == '.' && HostAt(hosts, name[d..], p).Some? {
        assert WalkHit(specs, name, d, d, p, r);
      } else {
        WalkIsBest(specs, name, d + 1, p);
        if r.Some? {
          var e :| WalkHit(specs, name, d + 1, e, p, r);
          assert WalkHit(specs, name, d, e, p, r);
        }
      }
    }
  }

  ghost predicate WalkHit(specs: seq<RouteSpec>, name: string, d: nat, e: nat, p: string, r: Option<RouteAction>) {
    && d <= e < |name| && name[e] == '.' && r.Some?
    && MissesBetween(specs, name, d, e, p)
    && BestInClass(specs, WildcardHost(name[e..]), p, r.value.group)
    && Answers(specs, r, r.value.group)
  }

  lemma WildcardStartsAtDot(hostname: Option<string>)
    requires ClassOf(hostname).WildcardHost?
    ensures var s := ClassOf(hostname).suffix; |s| >= 1 && s[0] == '.'
  {
  }

  /** Any wildcard spec matching the host sits at one of its dots. */
  lemma SuffixPosition(s: RouteSpec, name: string)
    requires ClassOf(s.hostname).WildcardHost? && SpecHost(s, Some(name)).Some?
    ensures var e := |name| - SpecHost(s, Some(name)).value;
            0 <= e < |name| && name[e] == '.' && ClassOf(s.hostname) == WildcardHost(name[e..])
  {
    WildcardStartsAtDot(s.hostname);
  }

  lemma ExactAnswer(specs: seq<RouteSpec>, name: string, p: string, i: nat)
    requires p != "" && BestInClass(specs, ExactHost(name), p, i)
    ensures Best(Ranks(specs, Some(name), p), i)
  {
    forall j | 0 <= j < |specs| && RankOf(specs[j], Some(name), p).Some?
      ensures var a, b := RankOf(specs[i], Some(name), p).value, RankOf(specs[j], Some(name), p).value;
              !Above(b, a) && (j < i ==> Above(a, b))
    {
      HostAtMost(specs[j], name);
    }
  }

  /** Only a spec for the exact name ranks as high as the name's length and one. */
  lemma HostAtMost(s: RouteSpec, name: string)
    requires SpecHost(s, Some(name)).Some?
    ensures ClassOf(s.hostname) == ExactHost(name) || SpecHost(s, Some(name)).value <= |name|
  {
    if ClassOf(s.hostname).WildcardHost? { SuffixPosition(s, name); }
  }

  lemma WildcardAnswer(specs: seq<RouteSpec>, name: string, e: nat, p: string, i: nat)
    requires p != "" && e < |name| && name[e] == '.'
    requires BestInClass(specs, WildcardHost(name[e..]), p, i)
    requires ClassMisses(specs, ExactHost(name), p) && MissesBetween(specs, name, 0, e, p)
    ensures Best(Ranks(specs, Some(name), p), i)
  {
    assert EndsWith(name, name[e..]);
    forall j | 0 <= j < |specs| && RankOf(specs[j], Some(name), p).Some?
      ensures var a, b := RankOf(specs[i], Some(name), p).value, RankOf(specs[j], Some(name), p).value;
              !Above(b, a) && (j < i ==> Above(a, b))
    {
      if ClassOf(specs[j].hostname).WildcardHost? { SuffixPosition(specs[j], name); }
    }
  }

  lemma DefaultAnswer(specs: seq<RouteSpec>, name: Option<string>, p: string)
    requires p != ""
    requires name.Some? ==> ClassMisses(specs, ExactHost(name.value), p) && MissesBetween(specs, name.value, 0, |name.value|, p)
    ensures ClassMisses(specs, AnyHost, p) ==> NoMatch(Ranks(specs, name, p))
    ensures forall i: nat :: BestInClass(specs, AnyHost, p, i) ==> Best(Ranks(specs, name, p), i)
  {
    forall j | 0 <= j < |specs| && RankOf(specs[j], name, p).Some? ensures ClassOf(specs[j].hostname) == AnyHost {
      if ClassOf(specs[j].hostname).WildcardHost? { SuffixPosition(specs[j], name.value); }
    }
  }

  function NameOf(host: Option<string>): Option<string> {
    if host.Some? then Some(Normalize(host.value)) else None
  }

  /** The answer of the two tiers that look at the host name. */
  function NamedTiers(t: Table, name: string, p: string): Option<RouteAction> {
    var hit := HostAt(t.exact, name, p);
    if hit.Some? then hit else WalkSuffixes(t.wildcard, name, 0, p)
  }

  /** The answer is the best-ranked spec, or no spec matches. */
  ghost predicate Decided(specs: seq<RouteSpec>, name: Option<string>, p: string, r: Option<RouteAction>) {
    match r
    case None => NoMatch(Ranks(specs, name, p))
    case Some(a) => Best(Ranks(specs, name, p), a.group) && a.group < |specs| && a == RouteAction(a.group, specs[a.group].target)
  }

  lemma NamedAnswer(specs: seq<RouteSpec>, name: string, p: string)
    requires p != ""
    ensures var r := NamedTiers(TableOf(specs), name, p);
            && (r.Some? ==> Decided(specs, Some(name), p, r))
            && (r.None? ==> ClassMisses(specs, ExactHost(name), p) && MissesBetween(specs, name, 0, |name|, p))
  {
    var t := TableOf(specs);
    ExactTier(specs, name, p);
    TierIsBest(specs, ExactHost(name), p);
    var exact, walk := HostAt(t.exact, name, p), WalkSuffixes(t.wildcard, name, 0, p);
    if exact.Some? {
      ExactAnswer(specs, name, p, exact.value.group);
    } else {
      WalkIsBest(specs, name, 0, p);
      if walk.Some? {
        var e :| WalkHit(specs, name, 0, e, p, walk);
        WildcardAnswer(specs, name, e, p, walk.value.group);
      }
    }
  }

  lemma FallbackAnswer(specs: seq<RouteSpec>, name: Option<string>, p: string)
    requires p != ""
    requires name.Some? ==> ClassMisses(specs, ExactHost(name.value), p) && MissesBetween(specs, name.value, 0, |name.value|, p)
    ensures Decided(specs, name, p, At(TableOf(specs).fallback, p))
  {
    TierIsBest(specs, AnyHost, p);
    DefaultAnswer(specs, name, p);
  }

  lemma DecidedIsScan(specs: seq<RouteSpec>, name: Option<string>, p: string, r: Option<RouteAction>)
    requires Decided(specs, name, p, r)
    ensures r == match Scan(specs, name, p)
                 case None => None
                 case Some(i) => Some(RouteAction(i, specs[i].target))
  {
    ScanIsBest(Ranks(specs, name, p));
  }

  lemma TiersOf(t: Table, host: Option<string>, path: string)
    ensures var p := CleanPath(path);
            TieredLookup(t, host, path) ==
            if host.Some? && NamedTiers(t, Normalize(host.value), p).Some? then NamedTiers(t, Normalize(host.value), p)
            else At(t.fallback, p)
  {
  }

  /**
   * Refinement: for every route list, host and path, the compiled and tiered
   * lookup returns exactly the route the one-pass scan selects.
   */
  lemma LookupRefinesScan(specs: seq<RouteSpec>, host: Option<string>, path: string)
    ensures TieredLookup(TableOf(specs), host, path)
         == match Scan(specs, NameOf(host), CleanPath(path))
            case None => None
            case Some(i) => Some(RouteAction(i, specs[i].target))
  {
    var t, p, name := TableOf(specs), CleanPath(path), NameOf(host);
    TiersOf(t, host, path);
    if name.Some? {
      NamedAnswer(specs, name.value, p);
    }
    if name.None? || NamedTiers(t, name.value, p).None? {
      FallbackAnswer(specs, name, p);
    }
    DecidedIsScan(specs, name, p, TieredLookup(t, host, path));
  }

  /**
   * Hosts whose bytes agree after port stripping and ASCII folding, within the
   * stack buffer, route alike in every table: the comparison is the byte-wise one,
   * and the folding the lookup performs is the vector one.
   */
  lemma HostFolding(t: Table, h1: string, h2: string, path: string)
    requires Octets(HostWithoutPort(h1)) && Octets(HostWithoutPort(h2))
    requires Simd.EqScalar(Simd.BytesOf(HostWithoutPort(h1)), Simd.BytesOf(HostWithoutPort(h2)))
    requires |HostWithoutPort(h1)| <= MAX_HOST_LEN
    ensures TieredLookup(t, Some(h1), path) == TieredLookup(t, Some(h2), path)
  {
    Simd.EqTexts(HostWithoutPort(h1), HostWithoutPort(h2));
    SameName(h1, h2);
  }

  /** The table with one route, for one exact hostname. */
  function OneHost(name: string, target: Target): (specs: seq<RouteSpec>) {
    [RouteSpec(Some(name), "/", Prefix, target)]
  }

  /**
   * Conversely, hosts that do not fold alike are told apart by some table: folding
   * ignores exactly ASCII case, and only up to the buffer's length.
   */
  lemma HostsToldApart(h1: string, h2: string, target: Target)
    requires Normalize(h1) != Normalize(h2)
    requires ClassOf(Some(Normalize(h1))) == ExactHost(Normalize(h1))
    ensures var t := TableOf(OneHost(Normalize(h1), target));
            TieredLookup(t, Some(h1), "/").Some? && TieredLookup(t, Some(h2), "/").None?
  {
    var specs := OneHost(Normalize(h1), target);
    LookupRefinesScan(specs, Some(h1), "/");
    LookupRefinesScan(specs, Some(h2), "/");
    ScanOne(specs[0], Some(Normalize(h1)));
    ScanOne(specs[0], Some(Normalize(h2)));
    assert specs == [specs[0]];
  }

  lemma ScanOne(s: RouteSpec, name: Option<string>)
    ensures Scan([s], name, "/") == if RankOf(s, name, "/").Some? then Some(0) else None
  {
    var ranks := Ranks([s], name, "/");
    assert ranks[..0] == [] && FirstHighest(ranks[..0]).None?;
  }
}
