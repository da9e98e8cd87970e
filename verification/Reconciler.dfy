/**
 * The reconciler as interleaved steps of two watch tasks, a stored-permit
 * notifier and the debounced rebuild task.
 */
module Reconciler {
  import opened Text
  import opened RouteTable
  import opened RouteScan
  import opened Gateway

  /** `Wrote`: the map has been changed under the lock, `notify_one` is still to come. */
  datatype Phase = Idle | Wrote

  /** `cleared`: an Init emptied this watcher's map and nothing was notified since. */
  datatype Watcher = Watcher(phase: Phase, cleared: bool)

  /** `Holding`: a table was compiled under the read lock and is about to be stored. */
  datatype Rebuild = Waiting | Debouncing | Holding(table: Table)

  datatype Sys = Sys(cluster: ClusterState, permit: bool, rebuild: Rebuild, published: Table,
                     routesWatch: Watcher, slicesWatch: Watcher)

  datatype Step =
    | RouteApply(key: Key, route: StoredRoute)
    | RouteDelete(key: Key)
    | RouteInit
    | RouteInitDone
    | RouteNotify
    | SliceApply(key: Key, eps: seq<ReadyEndpoint>)
    | SliceDelete(key: Key)
    | SliceInit
    | SliceInitDone
    | SliceNotify
    | IgnoredEvent
    | Wake
    | CompileTable(order: seq<Key>)
    | Store

  const EMPTY_TABLE := Table(map[], map[], map[], 0)

  ghost predicate Start(s: Sys) {
    s == Sys(ClusterState(map[], map[]), false, Waiting, EMPTY_TABLE, Watcher(Idle, false), Watcher(Idle, false))
  }

  ghost predicate Enabled(s: Sys, a: Step) {
    match a
    case RouteApply(_, _) => s.routesWatch.phase.Idle?
    case RouteDelete(_) => s.routesWatch.phase.Idle?
    case RouteInit => s.routesWatch.phase.Idle?
    case RouteInitDone => s.routesWatch.phase.Idle?
    case RouteNotify => s.routesWatch.phase.Wrote?
    case SliceApply(_, _) => s.slicesWatch.phase.Idle?
    case SliceDelete(_) => s.slicesWatch.phase.Idle?
    case SliceInit => s.slicesWatch.phase.Idle?
    case SliceInitDone => s.slicesWatch.phase.Idle?
    case SliceNotify => s.slicesWatch.phase.Wrote?
    case IgnoredEvent => true
    case Wake => s.rebuild.Waiting? && s.permit
    case CompileTable(order) => s.rebuild.Debouncing? && Enumerates(order, s.cluster)
    case Store => s.rebuild.Holding?
  }

  ghost function Apply(cfg: Config, s: Sys, a: Step): Sys
    requires Enabled(s, a)
  {
    match a
    case RouteApply(k, r) =>
      s.(cluster := s.cluster.(routes := s.cluster.routes[k := r]), routesWatch := s.routesWatch.(phase := Wrote))
    case RouteDelete(k) =>
      s.(cluster := s.cluster.(routes := s.cluster.routes - {k}), routesWatch := s.routesWatch.(phase := Wrote))
    case RouteInit =>
      s.(cluster := s.cluster.(routes := map[]), routesWatch := Watcher(Idle, true))
    case RouteInitDone =>
      s.(permit := true, routesWatch := Watcher(Idle, false))
    case RouteNotify =>
      s.(permit := true, routesWatch := Watcher(Idle, false))
    case SliceApply(k, eps) =>
      s.(cluster := s.cluster.(endpoints := s.cluster.endpoints[k := eps]), slicesWatch := s.slicesWatch.(phase := Wrote))
    case SliceDelete(k) =>
      s.(cluster := s.cluster.(endpoints := s.cluster.endpoints - {k}), slicesWatch := s.slicesWatch.(phase := Wrote))
    case SliceInit =>
      s.(cluster := s.cluster.(endpoints := map[]), slicesWatch := Watcher(Idle, true))
    case SliceInitDone =>
      s.(permit := true, slicesWatch := Watcher(Idle, false))
    case SliceNotify =>
      s.(permit := true, slicesWatch := Watcher(Idle, false))
    case IgnoredEvent => s
    case Wake =>
      s.(permit := false, rebuild := Debouncing)
    case CompileTable(order) =>
      s.(rebuild := Holding(TableOf(SpecsOf(cfg, s.cluster, order))))
    case Store =>
      s.(published := s.rebuild.table, rebuild := Waiting)
  }

  /** A run: `states[i + 1]` is `states[i]` after `steps[i]`. */
  ghost predicate Run(cfg: Config, states: seq<Sys>, steps: seq<Step>) {
    && |states| == |steps| + 1
    && forall i :: 0 <= i < |steps| ==> Enabled(states[i], steps[i]) && states[i + 1] == Apply(cfg, states[i], steps[i])
  }

  /** A table compiled from this cluster state, in some iteration order. */
  ghost predicate IsCompile(cfg: Config, st: ClusterState, t: Table) {
    exists order :: Enumerates(order, st) && t == TableOf(SpecsOf(cfg, st, order))
  }

  ghost predicate Announced(s: Sys) {
    s.routesWatch == Watcher(Idle, false) && s.slicesWatch == Watcher(Idle, false)
  }

  /** Either something still has to trigger a rebuild, or the newest table is a compile of the cluster. */
  ghost predicate Inv(cfg: Config, s: Sys) {
    || !Announced(s) || s.permit || s.rebuild.Debouncing?
    || (s.rebuild.Holding? && IsCompile(cfg, s.cluster, s.rebuild.table))
    || (s.rebuild.Waiting? && IsCompile(cfg, s.cluster, s.published))
  }

  lemma StartInv(cfg: Config, s: Sys)
    requires Start(s)
    ensures Inv(cfg, s)
  {
    assert Enumerates([], s.cluster);
    assert TableOf(SpecsOf(cfg, s.cluster, [])) == EMPTY_TABLE;
  }

  lemma StepInv(cfg: Config, s: Sys, a: Step)
    requires Inv(cfg, s) && Enabled(s, a)
    ensures Inv(cfg, Apply(cfg, s, a))
  {
  }

  lemma {:induction false} RunInv(cfg: Config, states: seq<Sys>, steps: seq<Step>, k: nat)
    requires Run(cfg, states, steps) && Start(states[0]) && k < |states|
    ensures Inv(cfg, states[k])
  {
    if k == 0 {
      StartInv(cfg, states[0]);
    } else {
      RunInv(cfg, states, steps, k - 1);
      StepInv(cfg, states[k - 1], steps[k - 1]);
      assert states[k - 1 + 1] == states[k];
    }
  }

  ghost predicate Quiet(s: Sys) {
    s.rebuild.Waiting? && !s.permit && Announced(s)
  }

  /**
   * No lost update: in every interleaving, whenever the rebuild task waits
   * without a stored permit and no watcher has an unannounced change, the
   * published table is a compile of the current cluster state.
   */
  lemma NoLostUpdate(cfg: Config, states: seq<Sys>, steps: seq<Step>, k: nat)
    requires Run(cfg, states, steps) && Start(states[0]) && k < |states|
    requires Quiet(states[k])
    ensures IsCompile(cfg, states[k].cluster, states[k].published)
  {
    RunInv(cfg, states, steps, k);
  }

  /** Hence requests are then routed as any compile of the current state routes them. */
  lemma QuietLookups(cfg: Config, states: seq<Sys>, steps: seq<Step>, k: nat, order: seq<Key>,
                     host: Option<string>, path: string)
    requires Run(cfg, states, steps) && Start(states[0]) && k < |states|
    requires Quiet(states[k]) && NoCollision(cfg, states[k].cluster) && Enumerates(order, states[k].cluster)
    ensures TargetOf(TieredLookup(states[k].published, host, path))
         == TargetOf(TieredLookup(TableOf(SpecsOf(cfg, states[k].cluster, order)), host, path))
  {
    NoLostUpdate(cfg, states, steps, k);
    var s := states[k];
    var used :| Enumerates(used, s.cluster) && s.published == TableOf(SpecsOf(cfg, s.cluster, used));
    CompileOrderIrrelevant(cfg, s.cluster, used, order, host, path);
  }

  // ----- published tables are whole snapshots, in order ----------------------

  /** The index of the state whose cluster the held table was compiled from. */
  ghost function CompiledAt(steps: seq<Step>, k: nat): nat
    requires k <= |steps|
  {
    if k == 0 then 0
    else if steps[k - 1].CompileTable? then k - 1
    else CompiledAt(steps, k - 1)
  }

  /** The index of the state whose cluster the published table was compiled from. */
  ghost function PublishedFrom(steps: seq<Step>, k: nat): nat
    requires k <= |steps|
  {
    if k == 0 then 0
    else if steps[k - 1].Store? then CompiledAt(steps, k - 1)
    else PublishedFrom(steps, k - 1)
  }

  lemma {:induction false} SnapshotBounds(steps: seq<Step>, k: nat)
    requires k <= |steps|
    ensures PublishedFrom(steps, k) <= CompiledAt(steps, k) <= k
  {
    if k > 0 { SnapshotBounds(steps, k - 1); }
  }

  /** Where the held and the published table of a state come from, one step later. */
  lemma TableFlow(cfg: Config, s: Sys, a: Step, s': Sys, from: ClusterState, held: ClusterState)
    requires Enabled(s, a) && s' == Apply(cfg, s, a)
    requires IsCompile(cfg, from, s.published)
    requires s.rebuild.Holding? ==> IsCompile(cfg, held, s.rebuild.table)
    ensures IsCompile(cfg, if a.Store? then held else from, s'.published)
    ensures s'.rebuild.Holding? ==> IsCompile(cfg, if a.CompileTable? then s.cluster else held, s'.rebuild.table)
  {
  }

  ghost predicate Snapshots(cfg: Config, states: seq<Sys>, steps: seq<Step>, k: nat)
    requires k <= |steps| && |states| == |steps| + 1
  {
    && PublishedFrom(steps, k) <= CompiledAt(steps, k) <= k
    && IsCompile(cfg, states[PublishedFrom(steps, k)].cluster, states[k].published)
    && (states[k].rebuild.Holding? ==> IsCompile(cfg, states[CompiledAt(steps, k)].cluster, states[k].rebuild.table))
  }

  lemma SnapshotStep(cfg: Config, states: seq<Sys>, steps: seq<Step>, k: nat)
    requires k < |steps| && |states| == |steps| + 1
    requires Enabled(states[k], steps[k]) && states[k + 1] == Apply(cfg, states[k], steps[k])
    requires Snapshots(cfg, states, steps, k)
    ensures Snapshots(cfg, states, steps, k + 1)
  {
    SnapshotBounds(steps, k + 1);
    var from, held := PublishedFrom(steps, k), CompiledAt(steps, k);
    assert PublishedFrom(steps, k + 1) == if steps[k].Store? then held else from;
    assert CompiledAt(steps, k + 1) == if steps[k].CompileTable? then k else held;
    TableFlow(cfg, states[k], steps[k], states[k + 1], states[from].cluster, states[held].cluster);
  }

  lemma {:induction false} SnapshotTables(cfg: Config, states: seq<Sys>, steps: seq<Step>, k: nat)
    requires Run(cfg, states, steps) && Start(states[0]) && k <= |steps|
    ensures Snapshots(cfg, states, steps, k)
  {
    if k == 0 {
      StartInv(cfg, states[0]);
    } else {
      SnapshotTables(cfg, states, steps, k - 1);
      SnapshotStep(cfg, states, steps, k - 1);
    }
  }

  lemma {:induction false} PublishedMonotone(steps: seq<Step>, j: nat, k: nat)
    requires j <= k <= |steps|
    ensures PublishedFrom(steps, j) <= PublishedFrom(steps, k)
    decreases k
  {
    if j < k {
      PublishedMonotone(steps, j, k - 1);
      SnapshotBounds(steps, k - 1);
    }
  }

  /** Every published table is a compile of a cluster state that really existed, and publication never goes back. */
  lemma PublishedSnapshots(cfg: Config, states: seq<Sys>, steps: seq<Step>, j: nat, k: nat)
    requires Run(cfg, states, steps) && Start(states[0]) && j <= k <= |steps|
    ensures PublishedFrom(steps, j) <= PublishedFrom(steps, k) <= k
    ensures IsCompile(cfg, states[PublishedFrom(steps, k)].cluster, states[k].published)
  {
    SnapshotTables(cfg, states, steps, k);
    PublishedMonotone(steps, j, k);
  }

  // ----- settling ------------------------------------------------------------

  ghost predicate RebuildStep(a: Step) {
    a.Wake? || a.CompileTable? || a.Store?
  }

  /** How many rebuild steps are left once the watchers fall silent. */
  ghost function Remaining(s: Sys): nat {
    (if s.permit then 3 else 0) + (match s.rebuild case Waiting => 0 case Debouncing => 2 case Holding(_) => 1)
  }

  /** Any set of keys can be listed, so a compile is never blocked. */
  lemma ListKeys(keys: set<Key>) returns (order: seq<Key>)
    ensures Distinct(order) && forall k :: k in order <==> k in keys
    decreases keys
  {
    if keys == {} {
      order := [];
    } else {
      var k :| k in keys;
      var rest := ListKeys(keys - {k});
      order := rest + [k];
    }
  }

  lemma NeverBlocked(s: Sys)
    requires Remaining(s) > 0
    ensures exists a :: RebuildStep(a) && Enabled(s, a)
  {
    match s.rebuild
    case Waiting => assert RebuildStep(Wake) && Enabled(s, Wake);
    case Debouncing =>
      var order := ListKeys(s.cluster.routes.Keys);
      assert RebuildStep(CompileTable(order)) && Enabled(s, CompileTable(order));
    case Holding(_) => assert RebuildStep(Store) && Enabled(s, Store);
  }

  /**
   * Settling: after announced changes, the rebuild task on its own takes exactly
   * `Remaining` further steps, is never blocked before that, and ends with the
   * published table a compile of the unchanged cluster.
   */
  lemma {:induction false} Settles(cfg: Config, states: seq<Sys>, steps: seq<Step>)
    requires Run(cfg, states, steps) && Inv(cfg, states[0]) && Announced(states[0])
    requires forall i :: 0 <= i < |steps| ==> RebuildStep(steps[i])
    ensures |steps| <= Remaining(states[0])
    ensures states[|steps|].cluster == states[0].cluster
    ensures |steps| < Remaining(states[0]) ==> exists a :: RebuildStep(a) && Enabled(states[|steps|], a)
    ensures |steps| == Remaining(states[0]) ==>
              Quiet(states[|steps|]) && IsCompile(cfg, states[0].cluster, states[|steps|].published)
    decreases |steps|
  {
    if steps == [] {
      if Remaining(states[0]) > 0 { NeverBlocked(states[0]); }
    } else {
      var rest, acts := states[1..], steps[1..];
      assert states[0 + 1] == Apply(cfg, states[0], steps[0]);
      StepInv(cfg, states[0], steps[0]);
      RunTail(cfg, states, steps);
      Settles(cfg, rest, acts);
    }
  }

  lemma RunTail(cfg: Config, states: seq<Sys>, steps: seq<Step>)
    requires Run(cfg, states, steps) && steps != []
    ensures Run(cfg, states[1..], steps[1..])
  {
    var rest, acts := states[1..], steps[1..];
    forall i | 0 <= i < |acts|
      ensures Enabled(rest[i], acts[i]) && rest[i + 1] == Apply(cfg, rest[i], acts[i])
    {
      assert acts[i] == steps[i + 1] && rest[i] == states[i + 1] && rest[i + 1] == states[i + 1 + 1];
    }
  }

  // ----- the cluster state mirrors the watch events ------------------------------

  /** The step decides what is known of route `k`. */
  ghost predicate TouchesRoute(a: Step, k: Key) {
    (a.RouteApply? && a.key == k) || (a.RouteDelete? && a.key == k) || a.RouteInit?
  }

  ghost predicate TouchesSlice(a: Step, k: Key) {
    (a.SliceApply? && a.key == k) || (a.SliceDelete? && a.key == k) || a.SliceInit?
  }

  ghost function OnRoute(k: Key): Step -> bool {
    a => TouchesRoute(a, k)
  }

  ghost function OnSlice(k: Key): Step -> bool {
    a => TouchesSlice(a, k)
  }

  /** Step `i` is the last of the first `n` that `touches` names. */
  ghost predicate LastOf(touches: Step -> bool, steps: seq<Step>, n: nat, i: nat) {
    i < n <= |steps| && touches(steps[i]) && forall j :: i < j < n ==> !touches(steps[j])
  }

  lemma LastNow(touches: Step -> bool, steps: seq<Step>, n: nat, next: nat)
    requires next == n + 1 <= |steps|
    ensures touches(steps[n]) ==> forall i: nat :: LastOf(touches, steps, next, i) <==> i == n
    ensures !touches(steps[n]) ==> forall i: nat :: LastOf(touches, steps, next, i) <==> LastOf(touches, steps, n, i)
  {
  }

  /** After `n` steps the state knows route `k` as `r`: the last step on it applied `r`. */
  ghost predicate RouteKnown(steps: seq<Step>, n: nat, k: Key, r: StoredRoute) {
    exists i: nat :: LastOf(OnRoute(k), steps, n, i) && steps[i] == RouteApply(k, r)
  }

  ghost predicate SliceKnown(steps: seq<Step>, n: nat, k: Key, eps: seq<ReadyEndpoint>) {
    exists i: nat :: LastOf(OnSlice(k), steps, n, i) && steps[i] == SliceApply(k, eps)
  }

  lemma RouteKnownNext(steps: seq<Step>, n: nat, k: Key, r: StoredRoute)
    requires n < |steps|
    ensures RouteKnown(steps, n + 1, k, r) <==>
            if TouchesRoute(steps[n], k) then steps[n] == RouteApply(k, r) else RouteKnown(steps, n, k, r)
  {
    LastNow(OnRoute(k), steps, n, n + 1);
  }

  lemma SliceKnownNext(steps: seq<Step>, n: nat, k: Key, eps: seq<ReadyEndpoint>)
    requires n < |steps|
    ensures SliceKnown(steps, n + 1, k, eps) <==>
            if TouchesSlice(steps[n], k) then steps[n] == SliceApply(k, eps) else SliceKnown(steps, n, k, eps)
  {
    LastNow(OnSlice(k), steps, n, n + 1);
  }

  /**
   * In every interleaving the cluster state is what the watch events said last: a
   * route, or a slice, is known exactly as the last event on it applied it, and not
   * at all after its deletion or an Init.
   */
  lemma {:induction false} StateMirrorsEvents(cfg: Config, states: seq<Sys>, steps: seq<Step>, n: nat, k: Key,
                                              r: StoredRoute, eps: seq<ReadyEndpoint>)
    requires Run(cfg, states, steps) && Start(states[0]) && n <= |steps|
    ensures var st := states[n].cluster;
            && (k in st.routes && st.routes[k] == r <==> RouteKnown(steps, n, k, r))
            && (k in st.endpoints && st.endpoints[k] == eps <==> SliceKnown(steps, n, k, eps))
  {
    if n > 0 {
      StateMirrorsEvents(cfg, states, steps, n - 1, k, r, eps);
      RouteKnownNext(steps, n - 1, k, r);
      SliceKnownNext(steps, n - 1, k, eps);
      assert states[n - 1 + 1] == Apply(cfg, states[n - 1], steps[n - 1]);
      MirrorsStep(cfg, states[n - 1], steps[n - 1], k);
    }
  }

  /** What one step does to one route and one slice. */
  lemma MirrorsStep(cfg: Config, s: Sys, a: Step, k: Key)
    requires Enabled(s, a)
    ensures var before, after := s.cluster, Apply(cfg, s, a).cluster;
            && (TouchesRoute(a, k) ==> (k in after.routes <==> a.RouteApply?) && (a.RouteApply? ==> after.routes[k] == a.route))
            && (!TouchesRoute(a, k) ==> (k in after.routes <==> k in before.routes) && (k in before.routes ==> after.routes[k] == before.routes[k]))
            && (TouchesSlice(a, k) ==> (k in after.endpoints <==> a.SliceApply?) && (a.SliceApply? ==> after.endpoints[k] == a.eps))
            && (!TouchesSlice(a, k) ==> (k in after.endpoints <==> k in before.endpoints)
                                        && (k in before.endpoints ==> after.endpoints[k] == before.endpoints[k]))
  {
  }

  // ----- the announcement condition cannot be dropped ------------------------

  /**
   * An Init clears the routes without a notification: this run ends with the
   * rebuild task waiting, no permit and both watchers idle, yet the published
   * table is not a compile of the cluster state.
   */
  lemma InitLeavesStaleTable(cfg: Config, ns: string, name: string) returns (states: seq<Sys>, steps: seq<Step>)
    ensures Run(cfg, states, steps) && Start(states[0])
    ensures var s := states[|steps|];
            && s.rebuild.Waiting? && !s.permit
            && s.routesWatch.phase.Idle? && s.slicesWatch.phase.Idle?
            && !IsCompile(cfg, s.cluster, s.published)
  {
    var k := (ns, name);
    states, steps := OneRoutePublished(cfg, k);
    RouteInitStale(cfg, states[|steps|], [k]);
    states, steps := Extend(cfg, states, steps, RouteInit);
  }

  function OneRoute(k: Key): StoredRoute {
    StoredRoute(k.0, k.1, [], [], [Rule([], [BackendRef(k.1, None, None, None)], [])])
  }

  /** A run that learns of one route and publishes its table. */
  lemma OneRoutePublished(cfg: Config, k: Key) returns (states: seq<Sys>, steps: seq<Step>)
    ensures Run(cfg, states, steps) && Start(states[0])
    ensures Settled(cfg, states[|steps|], k)
  {
    states, steps := OneRouteLearned(cfg, k);
    var st := states[|steps|].cluster;
    assert Enumerates([k], st);
    states, steps := Extend(cfg, states, steps, CompileTable([k]));
    states, steps := Extend(cfg, states, steps, Store);
    OneSpec(cfg, st, k, OneRoute(k));
  }

  ghost predicate Settled(cfg: Config, s: Sys, k: Key) {
    && s.rebuild.Waiting? && !s.permit && s.routesWatch.phase.Idle? && s.slicesWatch.phase.Idle?
    && Enumerates([k], s.cluster) && s.published == TableOf(SpecsOf(cfg, s.cluster, [k]))
    && SpecsOf(cfg, s.cluster, [k]) != []
  }

  lemma OneRouteLearned(cfg: Config, k: Key) returns (states: seq<Sys>, steps: seq<Step>)
    ensures Run(cfg, states, steps) && Start(states[0])
    ensures states[|steps|] == Sys(ClusterState(map[k := OneRoute(k)], map[]), false, Debouncing, EMPTY_TABLE,
                                   Watcher(Idle, false), Watcher(Idle, false))
  {
    var s0 := Sys(ClusterState(map[], map[]), false, Waiting, EMPTY_TABLE, Watcher(Idle, false), Watcher(Idle, false));
    states, steps := [s0], [];
    states, steps := Extend(cfg, states, steps, RouteApply(k, OneRoute(k)));
    states, steps := Extend(cfg, states, steps, RouteNotify);
    states, steps := Extend(cfg, states, steps, Wake);
  }

  /** A run can take any enabled step. */
  lemma Extend(cfg: Config, states: seq<Sys>, steps: seq<Step>, a: Step) returns (states': seq<Sys>, steps': seq<Step>)
    requires Run(cfg, states, steps) && Enabled(states[|steps|], a)
    ensures Run(cfg, states', steps') && |steps'| == |steps| + 1
    ensures states'[0] == states[0] && states'[|steps'|] == Apply(cfg, states[|steps|], a)
  {
    states', steps' := states + [Apply(cfg, states[|steps|], a)], steps + [a];
    forall i | 0 <= i < |steps'|
      ensures Enabled(states'[i], steps'[i]) && states'[i + 1] == Apply(cfg, states'[i], steps'[i])
    {
      if i < |steps| { assert steps'[i] == steps[i] && states'[i] == states[i] && states'[i + 1] == states[i + 1]; }
    }
  }

  /** With the routes cleared only the empty table is a compile. */
  lemma NoRoutesNoTable(cfg: Config, st: ClusterState, t: Table)
    requires st.routes == map[] && t != TableOf([])
    ensures !IsCompile(cfg, st, t)
  {
    forall order | Enumerates(order, st) ensures t != TableOf(SpecsOf(cfg, st, order)) {
      EmptyOrListed(order);
    }
  }

  /**
   * Exactly when an Init of the routes leaves a stale table: with the table
   * compiled from the present state in some order, what is published after the
   * Init is current if and only if the present state compiled to no route at all.
   */
  lemma RouteInitStale(cfg: Config, s: Sys, order: seq<Key>)
    requires Enabled(s, RouteInit) && Enumerates(order, s.cluster)
    requires s.published == TableOf(SpecsOf(cfg, s.cluster, order))
    ensures var s' := Apply(cfg, s, RouteInit);
            IsCompile(cfg, s'.cluster, s'.published) <==> SpecsOf(cfg, s.cluster, order) == []
  {
    var s' := Apply(cfg, s, RouteInit);
    if SpecsOf(cfg, s.cluster, order) == [] {
      assert Enumerates([], s'.cluster) && SpecsOf(cfg, s'.cluster, []) == [];
    } else {
      assert TableOf([]).routeCount == 0;
      NoRoutesNoTable(cfg, s'.cluster, s'.published);
    }
  }

  // ----- an Init of the endpoint slices ------------------------------------------

  /** The same matches, in the same order, with possibly different targets. */
  ghost predicate SameMatches(a: seq<RouteSpec>, b: seq<RouteSpec>) {
    Matches(a) == Matches(b)
  }

  ghost function Matches(specs: seq<RouteSpec>): (r: seq<(Option<string>, PlainPath, PathMatch)>)
    ensures |r| == |specs|
  {
    seq(|specs|, i requires 0 <= i < |specs| => (specs[i].hostname, specs[i].path, specs[i].pathMatch))
  }

  lemma MatchAt(a: seq<RouteSpec>, b: seq<RouteSpec>, i: nat)
    requires SameMatches(a, b) && i < |a|
    ensures |b| == |a| && a[i].hostname == b[i].hostname && a[i].path == b[i].path && a[i].pathMatch == b[i].pathMatch
  {
    assert Matches(a)[i] == Matches(b)[i];
  }

  /** The first spec to own some pattern: a lookup can find it. */
  ghost predicate InForce(specs: seq<RouteSpec>, i: nat) {
    exists h, pat :: FirstOwner(specs, h, pat, i)
  }

  ghost predicate FirstOwner(specs: seq<RouteSpec>, h: HostClass, pat: Pattern, i: nat) {
    Owns(specs, h, pat, i) && forall j :: 0 <= j < i ==> !Owns(specs, h, pat, j)
  }

  lemma OwnerRouter(specs: seq<RouteSpec>, h: HostClass, pat: Pattern, i: nat)
    requires FirstOwner(specs, h, pat, i)
    ensures pat in RouterOf(specs, h) && RouterOf(specs, h)[pat] == RouteAction(i, specs[i].target)
  {
    RouterOwner(specs, h, pat);
    var g := RouterOf(specs, h)[pat].group;
    assert Owns(specs, h, pat, g);
  }

  lemma SameOwner(a: seq<RouteSpec>, b: seq<RouteSpec>, h: HostClass, pat: Pattern, i: nat)
    requires SameMatches(a, b)
    ensures Owns(a, h, pat, i) <==> Owns(b, h, pat, i)
  {
    assert |Matches(a)| == |Matches(b)|;
    if i < |a| { MatchAt(a, b, i); }
  }

  lemma SameFirstOwner(a: seq<RouteSpec>, b: seq<RouteSpec>, h: HostClass, pat: Pattern, i: nat)
    requires SameMatches(a, b) && FirstOwner(a, h, pat, i)
    ensures FirstOwner(b, h, pat, i)
  {
    SameOwner(a, b, h, pat, i);
    forall j | 0 <= j < i ensures !Owns(b, h, pat, j) { SameOwner(a, b, h, pat, j); }
  }

  /** A pattern of a router belongs to some first owner. */
  lemma HasFirstOwner(specs: seq<RouteSpec>, h: HostClass, pat: Pattern) returns (i: nat)
    requires pat in RouterOf(specs, h)
    ensures FirstOwner(specs, h, pat, i)
  {
    RouterOwner(specs, h, pat);
    i := RouterOf(specs, h)[pat].group;
  }

  ghost predicate SameInForce(a: seq<RouteSpec>, b: seq<RouteSpec>)
    requires |a| == |b|
  {
    forall i :: 0 <= i < |a| && InForce(a, i) ==> a[i].target == b[i].target
  }

  lemma RouterIncluded(a: seq<RouteSpec>, b: seq<RouteSpec>, h: HostClass, pat: Pattern)
    requires SameMatches(a, b) && |a| == |b| && SameInForce(a, b) && pat in RouterOf(a, h)
    ensures pat in RouterOf(b, h) && RouterOf(b, h)[pat] == RouterOf(a, h)[pat]
  {
    var i := HasFirstOwner(a, h, pat);
    OwnerRouter(a, h, pat, i);
    SameFirstOwner(a, b, h, pat, i);
    OwnerRouter(b, h, pat, i);
    assert InForce(a, i);
  }

  lemma SymmetricInForce(a: seq<RouteSpec>, b: seq<RouteSpec>)
    requires SameMatches(a, b) && |a| == |b| && SameInForce(a, b)
    ensures SameMatches(b, a) && |a| == |b| && SameInForce(b, a)
  {
    forall i | 0 <= i < |b| && InForce(b, i) ensures b[i].target == a[i].target {
      var h, pat :| FirstOwner(b, h, pat, i);
      SameFirstOwner(b, a, h, pat, i);
      assert InForce(a, i);
    }
  }

  lemma SameRouter(a: seq<RouteSpec>, b: seq<RouteSpec>, h: HostClass)
    requires SameMatches(a, b) && |a| == |b| && SameInForce(a, b)
    ensures RouterOf(a, h) == RouterOf(b, h)
  {
    forall pat | pat in RouterOf(a, h) ensures pat in RouterOf(b, h) && RouterOf(b, h)[pat] == RouterOf(a, h)[pat] {
      RouterIncluded(a, b, h, pat);
    }
    SymmetricInForce(a, b);
    forall pat | pat in RouterOf(b, h) ensures pat in RouterOf(a, h) { RouterIncluded(b, a, h, pat); }
    SameMap(RouterOf(a, h), RouterOf(b, h));
  }

  lemma SameMap<K, V>(a: map<K, V>, b: map<K, V>)
    requires forall k :: k in a ==> k in b && b[k] == a[k]
    requires forall k :: k in b ==> k in a
    ensures a == b
  {
  }

  lemma SameClasses(a: seq<RouteSpec>, b: seq<RouteSpec>)
    requires SameMatches(a, b)
    ensures Classes(a) == Classes(b)
  {
    forall h | h in Classes(a) ensures h in Classes(b) {
      var i :| 0 <= i < |a| && ClassOf(a[i].hostname) == h;
      MatchAt(a, b, i);
      assert ClassOf(b[i].hostname) == h;
    }
    forall h | h in Classes(b) ensures h in Classes(a) {
      var i :| 0 <= i < |b| && ClassOf(b[i].hostname) == h;
      MatchAt(b, a, i);
      assert ClassOf(a[i].hostname) == h;
    }
  }

  lemma SameTable(a: seq<RouteSpec>, b: seq<RouteSpec>)
    requires SameMatches(a, b) && |a| == |b| && SameInForce(a, b)
    ensures TableOf(a) == TableOf(b)
  {
    SameClasses(a, b);
    forall h ensures RouterOf(a, h) == RouterOf(b, h) { SameRouter(a, b, h); }
    SameExact(a, b);
    SameWildcard(a, b);
    assert RouterOf(a, AnyHost) == RouterOf(b, AnyHost);
  }

  lemma SameExact(a: seq<RouteSpec>, b: seq<RouteSpec>)
    requires Classes(a) == Classes(b) && forall h :: RouterOf(a, h) == RouterOf(b, h)
    ensures CompileEach(ExactBuckets(a)) == CompileEach(ExactBuckets(b))
  {
    forall k | k in ExactBuckets(a) ensures Compile(ExactBuckets(a)[k]) == Compile(ExactBuckets(b)[k]) {
      assert RouterOf(a, ExactHost(k)) == RouterOf(b, ExactHost(k));
    }
  }

  lemma SameWildcard(a: seq<RouteSpec>, b: seq<RouteSpec>)
    requires Classes(a) == Classes(b) && forall h :: RouterOf(a, h) == RouterOf(b, h)
    ensures CompileEach(WildcardBuckets(a)) == CompileEach(WildcardBuckets(b))
  {
    forall k | k in WildcardBuckets(a) ensures Compile(WildcardBuckets(a)[k]) == Compile(WildcardBuckets(b)[k]) {
      assert RouterOf(a, WildcardHost(k)) == RouterOf(b, WildcardHost(k));
    }
  }

  /** The router a table holds for a class some spec belongs to. */
  ghost function RouterIn(t: Table, h: HostClass): Option<Router> {
    match h
    case AnyHost => Some(t.fallback)
    case ExactHost(k) => if k in t.exact then Some(t.exact[k]) else None
    case WildcardHost(k) => if k in t.wildcard then Some(t.wildcard[k]) else None
  }

  lemma TableHolds(specs: seq<RouteSpec>, i: nat)
    requires i < |specs|
    ensures var h := ClassOf(specs[i].hostname); RouterIn(TableOf(specs), h) == Some(RouterOf(specs, h))
  {
    assert ClassOf(specs[i].hostname) in Classes(specs);
  }

  /** Specs with the same matches compile to one table exactly when those in force have the same targets. */
  lemma TablesDiffer(a: seq<RouteSpec>, b: seq<RouteSpec>)
    requires SameMatches(a, b)
    ensures |a| == |b| && (TableOf(a) == TableOf(b) <==> SameInForce(a, b))
  {
    assert |Matches(a)| == |Matches(b)|;
    if SameInForce(a, b) {
      SameTable(a, b);
    } else {
      var i :| 0 <= i < |a| && InForce(a, i) && a[i].target != b[i].target;
      var h, pat :| FirstOwner(a, h, pat, i);
      SameFirstOwner(a, b, h, pat, i);
      OwnerRouter(a, h, pat, i);
      OwnerRouter(b, h, pat, i);
      TableHolds(a, i);
      TableHolds(b, i);
    }
  }

  lemma ResolvesAlike(st: ClusterState, st': ClusterState, ns: string, refs: seq<BackendRef>)
    ensures ResolveAll(st, ns, refs) == [] <==> ResolveAll(st', ns, refs) == []
  {
    if refs != [] { assert Resolve(st, ns, refs[0]) != [] && Resolve(st', ns, refs[0]) != []; }
  }

  lemma MatchesConcat(a: seq<RouteSpec>, b: seq<RouteSpec>, c: seq<RouteSpec>, d: seq<RouteSpec>)
    requires SameMatches(a, c) && SameMatches(b, d)
    ensures SameMatches(a + b, c + d)
  {
    MatchesAppend(a, b);
    MatchesAppend(c, d);
  }

  lemma MatchesAppend(a: seq<RouteSpec>, b: seq<RouteSpec>)
    ensures Matches(a + b) == Matches(a) + Matches(b)
  {
  }

  lemma SpecMatches(st: ClusterState, st': ClusterState, r: StoredRoute, ruleIdx: nat, host: Option<string>, m: (PlainPath, PathMatch))
    requires ruleIdx < |r.rules|
    ensures SameMatches([SpecFor(st, r, ruleIdx, host, m)], [SpecFor(st', r, ruleIdx, host, m)])
  {
  }

  lemma {:induction false} HostMatches(st: ClusterState, st': ClusterState, r: StoredRoute, ruleIdx: nat, i: nat, j: nat)
    requires ruleIdx < |r.rules|
    requires i <= |HostnamesOf(r)| && j <= |MatchesOf(r.rules[ruleIdx])| && (i == |HostnamesOf(r)| ==> j == 0)
    ensures SameMatches(HostSpecs(st, r, ruleIdx, i, j), HostSpecs(st', r, ruleIdx, i, j))
    decreases i, j
  {
    if j > 0 {
      var host, m := HostnamesOf(r)[i], MatchesOf(r.rules[ruleIdx])[j - 1];
      HostMatches(st, st', r, ruleIdx, i, j - 1);
      MatchNext(st, r, ruleIdx, i, j - 1);
      MatchNext(st', r, ruleIdx, i, j - 1);
      SpecMatches(st, st', r, ruleIdx, host, m);
      MatchesConcat(HostSpecs(st, r, ruleIdx, i, j - 1), [SpecFor(st, r, ruleIdx, host, m)],
                    HostSpecs(st', r, ruleIdx, i, j - 1), [SpecFor(st', r, ruleIdx, host, m)]);
    } else if i > 0 {
      HostMatches(st, st', r, ruleIdx, i - 1, |MatchesOf(r.rules[ruleIdx])|);
      HostNext(st, r, ruleIdx, i - 1);
      HostNext(st', r, ruleIdx, i - 1);
    } else {
      assert HostSpecs(st, r, ruleIdx, 0, 0) == [];
    }
  }

  lemma RuleMatches(st: ClusterState, st': ClusterState, r: StoredRoute, ruleIdx: nat)
    requires ruleIdx < |r.rules|
    ensures SameMatches(RuleSpecs(st, r, ruleIdx), RuleSpecs(st', r, ruleIdx))
  {
    ResolvesAlike(st, st', r.namespace, r.rules[ruleIdx].backendRefs);
    HostMatches(st, st', r, ruleIdx, |HostnamesOf(r)|, 0);
  }

  lemma RulesNext(st: ClusterState, r: StoredRoute, n: nat)
    requires 0 < n <= |r.rules|
    ensures RulesSpecs(st, r, n) == RulesSpecs(st, r, n - 1) + RuleSpecs(st, r, n - 1)
  {
  }

  /** Lists built piece by piece from pieces with the same matches have the same matches. */
  lemma {:induction false} PiecewiseMatches(whole: nat -> seq<RouteSpec>, piece: nat -> seq<RouteSpec>,
                                            whole': nat -> seq<RouteSpec>, piece': nat -> seq<RouteSpec>, n: nat)
    requires whole(0) == whole'(0)
    requires forall k: nat :: k < n ==>
      whole(k + 1) == whole(k) + piece(k) && whole'(k + 1) == whole'(k) + piece'(k) && SameMatches(piece(k), piece'(k))
    ensures SameMatches(whole(n), whole'(n))
  {
    if n > 0 {
      PiecewiseMatches(whole, piece, whole', piece', n - 1);
      var k := n - 1;
      assert SameMatches(piece(k), piece'(k));
      MatchesJoin(whole(k), piece(k), whole(k + 1), whole'(k), piece'(k), whole'(k + 1));
    }
  }

  ghost function RulesOf(st: ClusterState, r: StoredRoute): nat -> seq<RouteSpec> {
    (n: nat) => if n <= |r.rules| then RulesSpecs(st, r, n) else []
  }

  ghost function RuleOf(st: ClusterState, r: StoredRoute): nat -> seq<RouteSpec> {
    (n: nat) => if n < |r.rules| then RuleSpecs(st, r, n) else []
  }

  lemma RulesMatches(st: ClusterState, st': ClusterState, r: StoredRoute, n: nat)
    requires n <= |r.rules|
    ensures SameMatches(RulesSpecs(st, r, n), RulesSpecs(st', r, n))
  {
    var w, p, w', p' := RulesOf(st, r), RuleOf(st, r), RulesOf(st', r), RuleOf(st', r);
    forall k: nat | k < n
      ensures w(k + 1) == w(k) + p(k) && w'(k + 1) == w'(k) + p'(k) && SameMatches(p(k), p'(k))
    {
      RulePiece(st, r, k);
      RulePiece(st', r, k);
      PieceMatches(st, st', r, k);
    }
    NoPiece(st, r);
    NoPiece(st', r);
    PiecewiseMatches(w, p, w', p', n);
    WholeRules(st, r, n);
    WholeRules(st', r, n);
  }

  lemma RulePiece(st: ClusterState, r: StoredRoute, k: nat)
    requires k < |r.rules|
    ensures RulesOf(st, r)(k + 1) == RulesOf(st, r)(k) + RuleOf(st, r)(k)
  {
    RulesNext(st, r, k + 1);
  }

  lemma PieceMatches(st: ClusterState, st': ClusterState, r: StoredRoute, k: nat)
    requires k < |r.rules|
    ensures SameMatches(RuleOf(st, r)(k), RuleOf(st', r)(k))
  {
    RuleMatches(st, st', r, k);
  }

  lemma NoPiece(st: ClusterState, r: StoredRoute)
    ensures RulesOf(st, r)(0) == []
  {
    NoRules(st, r);
  }

  lemma WholeRules(st: ClusterState, r: StoredRoute, n: nat)
    requires n <= |r.rules|
    ensures RulesOf(st, r)(n) == RulesSpecs(st, r, n)
  {
  }

  lemma NoRules(st: ClusterState, r: StoredRoute)
    ensures RulesSpecs(st, r, 0) == []
  {
  }

  lemma MatchesJoin(a: seq<RouteSpec>, b: seq<RouteSpec>, ab: seq<RouteSpec>, c: seq<RouteSpec>, d: seq<RouteSpec>, cd: seq<RouteSpec>)
    requires SameMatches(a, c) && SameMatches(b, d) && ab == a + b && cd == c + d
    ensures SameMatches(ab, cd)
  {
    MatchesConcat(a, b, c, d);
  }

  /** Endpoints decide targets only: what the routes match does not depend on them. */
  lemma {:induction false} EndpointsKeepMatches(cfg: Config, st: ClusterState, st': ClusterState, order: seq<Key>)
    requires st.routes == st'.routes && forall k :: k in order ==> k in st.routes
    ensures SameMatches(SpecsOf(cfg, st, order), SpecsOf(cfg, st', order))
  {
    if order != [] {
      var front, r := order[..|order| - 1], st.routes[order[|order| - 1]];
      EndpointsKeepMatches(cfg, st, st', front);
      RulesMatches(st, st', r, |r.rules|);
      MatchesConcat(SpecsOf(cfg, st, front), RouteSpecs(cfg, st, r), SpecsOf(cfg, st', front), RouteSpecs(cfg, st', r));
    }
  }

  /**
   * Exactly when an Init of the endpoint slices leaves a stale table. The routes
   * and so their iteration order stay as they are; what is published is the
   * compile of the new state if and only if every spec in force resolves, without
   * any slice, to the targets it had.
   */
  lemma SliceInitStale(cfg: Config, s: Sys, order: seq<Key>)
    requires Enabled(s, SliceInit) && Enumerates(order, s.cluster)
    requires s.published == TableOf(SpecsOf(cfg, s.cluster, order))
    ensures var s' := Apply(cfg, s, SliceInit);
            && Enumerates(order, s'.cluster)
            && var before, after := SpecsOf(cfg, s.cluster, order), SpecsOf(cfg, s'.cluster, order);
               && SameMatches(before, after) && |before| == |after|
               && (s'.published == TableOf(after) <==> SameInForce(before, after))
  {
    var s' := Apply(cfg, s, SliceInit);
    EndpointsKeepMatches(cfg, s.cluster, s'.cluster, order);
    TablesDiffer(SpecsOf(cfg, s.cluster, order), SpecsOf(cfg, s'.cluster, order));
  }

  lemma EmptyOrListed(order: seq<Key>)
    ensures order == [] || exists k :: k in order
  {
    if order != [] { assert order[0] in order; }
  }

  lemma OneSpec(cfg: Config, st: ClusterState, k: Key, r: StoredRoute)
    requires k in st.routes && st.routes[k] == r && r.parentRefs == [] && r.hostnames == []
    requires exists b :: r.rules == [Rule([], [b], [])]
    ensures |SpecsOf(cfg, st, [k])| == 1
  {
    var b :| r.rules == [Rule([], [b], [])];
    assert [k][..0] == [];
    assert ResolveAll(st, r.namespace, [b]) != [];
    assert HostSpecs(st, r, 0, 0, 0) == [];
    assert |HostSpecs(st, r, 0, 0, 1)| == 1;
    assert HostSpecs(st, r, 0, 1, 0) == HostSpecs(st, r, 0, 0, 1);
    assert RulesSpecs(st, r, 0) == [];
    assert RulesSpecs(st, r, 1) == RulesSpecs(st, r, 0) + RuleSpecs(st, r, 0);
  }
}
