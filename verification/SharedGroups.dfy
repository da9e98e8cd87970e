/**
 * Requests of many clients through one route table: every route has one target
 * group, whichever of its expanded patterns a request comes in by, and hence one
 * cursor that all these requests share.
 */
module SharedGroups {
  import opened Text
  import opened WeightedTable
  import opened Selection
  import opened RouteTable
  import opened RouteScan

  /** A request is routed and draws a ticket, or a thread holding a ticket of group `g` serves it. */
  datatype Event = Request(host: Option<string>, path: string) | Serves(g: nat)

  /** One cursor, with the selections in flight and finished, for each route. */
  type Fleet = seq<System>

  ghost predicate OnlyChanges(f: Fleet, f': Fleet, g: nat) {
    && g < |f| && |f'| == |f|
    && forall j :: 0 <= j < |f| && j != g ==> f'[j] == f[j]
  }

  /** A lookup hit draws a ticket from the cursor of the action's group; a miss changes nothing. */
  ghost predicate Step(specs: seq<RouteSpec>, f: Fleet, e: Event, f': Fleet) {
    match e
    case Request(host, path) =>
      (match TieredLookup(TableOf(specs), host, path)
       case None => f' == f
       case Some(action) => OnlyChanges(f, f', action.group) && Fetch(f[action.group], f'[action.group]))
    case Serves(g) => OnlyChanges(f, f', g) && Finish(f[g], f'[g])
  }

  ghost predicate FleetRun(specs: seq<RouteSpec>, starts: seq<nat>, states: seq<Fleet>, events: seq<Event>) {
    && |starts| == |specs| && |states| == |events| + 1
    && (forall k :: 0 <= k < |states| ==> |states[k]| == |specs|)
    && (forall g :: 0 <= g < |specs| ==> starts[g] < WRAP && states[0][g] == System(starts[g], multiset{}, []))
    && (forall k :: 0 <= k < |events| ==> Step(specs, states[k], events[k], states[k + 1]))
  }

  /** Whether the scan of the route list sends this event to route `g`. */
  predicate SentTo(specs: seq<RouteSpec>, e: Event, g: nat) {
    e.Request? && Scan(specs, NameOf(e.host), CleanPath(e.path)) == Some(g)
  }

  /** How many requests of a run the route list sends to route `g`. */
  function Routed(specs: seq<RouteSpec>, events: seq<Event>, g: nat): nat {
    if events == [] then 0
    else Routed(specs, events[..|events| - 1], g) + (if SentTo(specs, events[|events| - 1], g) then 1 else 0)
  }

  /** The group's books: its tickets are those of its own requests, each drawn once. */
  ghost predicate Books(s: System, start: nat, drawn: nat) {
    Conserved(s, start) && |s.pending| + |s.done| == drawn
  }

  lemma DrawsTicket(s: System, s': System, start: nat, drawn: nat)
    requires Books(s, start, drawn) && Fetch(s, s')
    ensures Books(s', start, drawn + 1)
  {
    FetchConserves(s, s', start);
    AddOne(s.pending, s.done, s.cursor);
  }

  lemma ServesTicket(s: System, s': System, start: nat, drawn: nat)
    requires Books(s, start, drawn) && Finish(s, s')
    ensures Books(s', start, drawn)
  {
    FinishConserves(s, s', start);
    var t :| t in s.pending && s' == System(s.cursor, s.pending - multiset{t}, s.done + [t]);
    MoveOne(s.pending, s.done, t);
  }

  /** A lookup reaches group `g` exactly when the scan of the route list picks route `g`. */
  lemma ReachesGroup(specs: seq<RouteSpec>, host: Option<string>, path: string, g: nat)
    ensures SentTo(specs, Request(host, path), g) <==>
            var hit := TieredLookup(TableOf(specs), host, path); hit.Some? && hit.value.group == g
  {
    LookupRefinesScan(specs, host, path);
  }

  lemma StepKeepsBooks(specs: seq<RouteSpec>, f: Fleet, e: Event, f': Fleet, g: nat, start: nat, drawn: nat)
    requires |f| == |specs| && g < |f| && Step(specs, f, e, f') && Books(f[g], start, drawn)
    ensures |f'| == |f| && Books(f'[g], start, drawn + (if SentTo(specs, e, g) then 1 else 0))
  {
    match e
    case Request(host, path) =>
      ReachesGroup(specs, host, path, g);
      var hit := TieredLookup(TableOf(specs), host, path);
      if hit.Some? && hit.value.group == g { DrawsTicket(f[g], f'[g], start, drawn); }
    case Serves(h) =>
      if h == g { ServesTicket(f[g], f'[g], start, drawn); }
  }

  lemma {:induction false} RunKeepsTickets(specs: seq<RouteSpec>, starts: seq<nat>, states: seq<Fleet>, events: seq<Event>, g: nat, k: nat)
    requires FleetRun(specs, starts, states, events) && g < |specs| && k <= |events|
    ensures Books(states[k][g], starts[g], Routed(specs, events[..k], g))
  {
    if k == 0 {
      assert Issued(starts[g], 0) == [];
    } else {
      RunKeepsTickets(specs, starts, states, events, g, k - 1);
      assert events[..k][..k - 1] == events[..k - 1];
      assert Step(specs, states[k - 1], events[k - 1], states[k - 1 + 1]);
      StepKeepsBooks(specs, states[k - 1], events[k - 1], states[k], g, starts[g], Routed(specs, events[..k - 1], g));
    }
  }

  /** A quiescent group served exactly the tickets of the requests routed to it. */
  lemma GroupHits(specs: seq<RouteSpec>, starts: seq<nat>, states: seq<Fleet>, events: seq<Event>, g: nat, slots: seq<nat>, i: nat)
    requires FleetRun(specs, starts, states, events) && g < |specs| && |slots| > 0
    requires states[|events|][g].pending == multiset{}
    ensures var done := states[|events|][g].done;
            |done| == Routed(specs, events, g) && Hits(slots, done, i) == Hits(slots, Issued(starts[g], |done|), i)
  {
    RunKeepsTickets(specs, starts, states, events, g, |events|);
    assert events[..|events|] == events;
    var s := states[|events|][g];
    assert s.pending + multiset(s.done) == multiset(s.done);
    HitsPermute(slots, s.done, Issued(starts[g], |s.done|), i);
  }

  /**
   * Fair selection per route: whatever the other traffic and however the threads
   * interleave, once the requests sent to route `g`, by any of its patterns, make
   * up `m` turns and have been served, member `i` of its group was picked exactly
   * `m` times its share.
   */
  lemma RouteFair(specs: seq<RouteSpec>, starts: seq<nat>, states: seq<Fleet>, events: seq<Event>, g: nat, m: nat, i: nat)
    requires FleetRun(specs, starts, states, events) && g < |specs|
    requires states[|events|][g].pending == multiset{}
    requires PolicyOf(specs[g].target.endpoints).Weighted? ==> |Live(specs[g].target.endpoints)| <= INDEX_LIMIT
    requires i < |PolicyOf(specs[g].target.endpoints).Members()|
    requires Routed(specs, events, g) == m * |PolicyOf(specs[g].target.endpoints).Slots()|
    requires starts[g] + Routed(specs, events, g) <= WRAP
    ensures |PolicyOf(specs[g].target.endpoints).Slots()| > 0
    ensures Hits(PolicyOf(specs[g].target.endpoints).Slots(), states[|events|][g].done, i)
         == m * Share(specs[g].target.endpoints, i)
  {
    var es := specs[g].target.endpoints;
    PolicyShares(es);
    TurnsOf(specs, starts, states, events, g, PolicyOf(es).Slots(), m, i);
  }

  /** The same in terms of the route's endpoint list, without the compiled shares. */
  lemma RouteFollowsWeights(specs: seq<RouteSpec>, starts: seq<nat>, states: seq<Fleet>, events: seq<Event>, g: nat, m: nat, i: nat)
    requires FleetRun(specs, starts, states, events) && g < |specs|
    requires states[|events|][g].pending == multiset{}
    requires PolicyOf(specs[g].target.endpoints).Weighted? ==> |Live(specs[g].target.endpoints)| <= INDEX_LIMIT
    requires i < |PolicyOf(specs[g].target.endpoints).Members()|
    requires Routed(specs, events, g) == m * |PolicyOf(specs[g].target.endpoints).Slots()|
    requires starts[g] + Routed(specs, events, g) <= WRAP
    ensures |PolicyOf(specs[g].target.endpoints).Slots()| > 0
    ensures var es := specs[g].target.endpoints;
            OwedInTurns(Hits(PolicyOf(es).Slots(), states[|events|][g].done, i), m, es, PolicyOf(es).Members()[i].weight)
  {
    var es := specs[g].target.endpoints;
    SharesFollowWeights(es, i);
    TurnsOf(specs, starts, states, events, g, PolicyOf(es).Slots(), m, i);
    TurnsOwe(Count(PolicyOf(es).Slots(), i), m, es, PolicyOf(es).Members()[i].weight);
  }

  lemma TurnsOf(specs: seq<RouteSpec>, starts: seq<nat>, states: seq<Fleet>, events: seq<Event>, g: nat, slots: seq<nat>, m: nat, i: nat)
    requires FleetRun(specs, starts, states, events) && g < |specs| && |slots| > 0
    requires states[|events|][g].pending == multiset{}
    requires Routed(specs, events, g) == m * |slots| && starts[g] + Routed(specs, events, g) <= WRAP
    ensures Hits(slots, states[|events|][g].done, i) == m * Count(slots, i)
  {
    GroupHits(specs, starts, states, events, g, slots, i);
    var n := |states[|events|][g].done|;
    IssuedNoWrap(starts[g], n);
    FullTurns(slots, starts[g], m, n, i);
  }

  lemma TicketsBegun(specs: seq<RouteSpec>, starts: seq<nat>, states: seq<Fleet>, events: seq<Event>, g: nat, k: nat)
    requires FleetRun(specs, starts, states, events) && g < |specs| && k <= |events|
    requires starts[g] + |Begun(states[k][g])| <= WRAP
    ensures Begun(states[k][g]) == multiset(Range(starts[g], |Begun(states[k][g])|))
  {
    RunKeepsTickets(specs, starts, states, events, g, k);
    BooksRange(states[k][g], starts[g], Routed(specs, events[..k], g));
  }

  lemma BooksRange(s: System, start: nat, drawn: nat)
    requires Books(s, start, drawn) && start + |Begun(s)| <= WRAP
    ensures Begun(s) == multiset(Range(start, |Begun(s)|))
  {
    IssuedNoWrap(start, |Begun(s)|);
  }

  /**
   * Round robin per route: between any two moments of any run, the selections
   * begun for the requests sent to route `g`, by any of its patterns, spread over
   * its members to within one.
   */
  lemma RouteBalanced(specs: seq<RouteSpec>, starts: seq<nat>, states: seq<Fleet>, events: seq<Event>, g: nat,
                      k: nat, l: nat, served: seq<nat>, i: nat, j: nat)
    requires FleetRun(specs, starts, states, events) && g < |specs| && k <= |events| && l <= |events|
    requires PolicyOf(specs[g].target.endpoints).RoundRobin?
    requires i < |PolicyOf(specs[g].target.endpoints).Members()| && j < |PolicyOf(specs[g].target.endpoints).Members()|
    requires Begun(states[l][g]) == Begun(states[k][g]) + multiset(served)
    requires starts[g] + |Begun(states[l][g])| <= WRAP
    ensures var slots := PolicyOf(specs[g].target.endpoints).Slots();
            |slots| > 0 && -1 <= Hits(slots, served, i) - Hits(slots, served, j) <= 1
  {
    var p := PolicyOf(specs[g].target.endpoints);
    TicketsBegun(specs, starts, states, events, g, k);
    TicketsBegun(specs, starts, states, events, g, l);
    PolicyBalanced(p, starts[g], |Begun(states[k][g])|, served, i, j);
  }

  lemma PolicyBalanced(p: Policy, start: nat, a: nat, served: seq<nat>, i: nat, j: nat)
    requires p.RoundRobin? && i < |p.Members()| && j < |p.Members()|
    requires multiset(Range(start, a + |served|)) == multiset(Range(start, a)) + multiset(served)
    ensures |p.Slots()| > 0 && -1 <= Hits(p.Slots(), served, i) - Hits(p.Slots(), served, j) <= 1
  {
    Balanced(|p.Members()|, start, a, served, i);
    Balanced(|p.Members()|, start, a, served, j);
  }

  /** All patterns of a route that are in force lead to its one group. */
  lemma PatternsShareGroup(specs: seq<RouteSpec>, g: nat, pat: Pattern)
    requires g < |specs| && pat in Patterns(specs[g])
    requires forall j :: 0 <= j < g ==> !Owns(specs, ClassOf(specs[g].hostname), pat, j)
    ensures var r := RouterOf(specs, ClassOf(specs[g].hostname));
            pat in r && r[pat] == RouteAction(g, specs[g].target)
  {
    var h := ClassOf(specs[g].hostname);
    assert Owns(specs, h, pat, g);
    RouterOwner(specs, h, pat);
    var owner := RouterOf(specs, h)[pat].group;
    assert Owns(specs, h, pat, owner);
  }
}
