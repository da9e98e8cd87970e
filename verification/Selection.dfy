/** Target groups: policy choice and endpoint selection through one shared atomic cursor. */
module Selection {
  import opened WeightedTable

  /** The cursor is an `AtomicUsize`: `fetch_add` wraps here. */
  const WRAP: nat := 0x1_0000_0000_0000_0000

  datatype Endpoint = Endpoint(address: string, weight: nat)

  datatype Policy =
    | Single(endpoint: Endpoint)
    | RoundRobin(endpoints: seq<Endpoint>)
    | Weighted(endpoints: seq<Endpoint>, table: seq<nat>)
  {
    function Members(): seq<Endpoint> {
      if Single? then [endpoint] else endpoints
    }

    /** The cycle of member indices that tickets are served from. */
    function Slots(): seq<nat> {
      match this
      case Single(_) => [0]
      case RoundRobin(es) => Identity(|es|)
      case Weighted(_, t) => t
    }

    ghost predicate Valid() {
      && |Slots()| > 0
      && forall k :: 0 <= k < |Slots()| ==> Slots()[k] < |Members()|
    }
  }

  const PLACEHOLDER := Endpoint("127.0.0.1:80", 1)

  function Identity(n: nat): seq<nat> {
    seq(n, i requires 0 <= i < n => i)
  }

  function Live(es: seq<Endpoint>): (r: seq<Endpoint>)
    ensures forall e :: e in r <==> e in es && e.weight > 0
  {
    if es == [] then []
    else if es[0].weight > 0 then [es[0]] + Live(es[1..]) else Live(es[1..])
  }

  predicate Uniform(es: seq<Endpoint>) {
    forall i :: 0 <= i < |es| - 1 ==> es[i].weight == es[i + 1].weight
  }

  function Weights(es: seq<Endpoint>): (w: seq<nat>)
    ensures |w| == |es|
  {
    seq(|es|, i requires 0 <= i < |es| => es[i].weight)
  }

  function PolicyOf(es: seq<Endpoint>): Policy {
    var live := Live(es);
    if |live| == 0 then Single(PLACEHOLDER)
    else if |live| == 1 then Single(live[0])
    else if Uniform(live) then RoundRobin(live)
    else Weighted(live, Table(Weights(live)))
  }

  /** How many of every full turn of the cycle member `i` is owed. */
  function Share(es: seq<Endpoint>, i: nat): nat {
    var live := Live(es);
    if |live| <= 1 || Uniform(live) || i >= |live| then 1 else Scaled(Weights(live))[i]
  }

  /**
   * The compiled cycle is well formed, gives every live endpoint exactly its
   * share, and no zero-weight endpoint is a member.
   */
  lemma PolicyShares(es: seq<Endpoint>)
    requires PolicyOf(es).Weighted? ==> |Live(es)| <= INDEX_LIMIT
    ensures PolicyOf(es).Valid()
    ensures forall i :: 0 <= i < |PolicyOf(es).Members()| ==> Count(PolicyOf(es).Slots(), i) == Share(es, i)
    ensures forall e :: e in PolicyOf(es).Members() ==> e.weight > 0 && (e in es || Live(es) == [])
  {
    var live, p := Live(es), PolicyOf(es);
    if |live| <= 1 {
      assert p.Slots()[..0] == [];
    } else if Uniform(live) {
      forall i | 0 <= i < |live| ensures Count(p.Slots(), i) == 1 { CountIdentity(|live|, i); }
    } else {
      var w := Weights(live);
      StoredTableExact(w);
      TableShape(w);
    }
  }

  // ----- shares follow the weights ------------------------------------------

  /** The sum of all weights; endpoints of weight zero add nothing. */
  function WeightSum(es: seq<Endpoint>): nat {
    if es == [] then 0 else es[0].weight + WeightSum(es[1..])
  }

  ghost predicate SameWeights(es: seq<Endpoint>) {
    forall e, f :: e in es && f in es && e.weight > 0 && f.weight > 0 ==> e.weight == f.weight
  }

  lemma {:induction false} UniformWeights(es: seq<Endpoint>, i: nat, j: nat)
    requires Uniform(es) && i <= j < |es|
    ensures es[i].weight == es[j].weight
    decreases j - i
  {
    if i < j { UniformWeights(es, i, j - 1); }
  }

  lemma {:induction false} LiveSum(es: seq<Endpoint>)
    ensures WeightSum(Live(es)) == WeightSum(es)
  {
    if es != [] {
      LiveSum(es[1..]);
      if es[0].weight > 0 { assert ([es[0]] + Live(es[1..]))[1..] == Live(es[1..]); }
    }
  }

  lemma {:induction false} SumSnoc(es: seq<Endpoint>, e: Endpoint)
    ensures WeightSum(es + [e]) == WeightSum(es) + e.weight
  {
    if es == [] {
      assert es + [e] == [e] && [e][1..] == [];
    } else {
      assert (es + [e])[1..] == es[1..] + [e];
      SumSnoc(es[1..], e);
    }
  }

  lemma {:induction false} SumOfWeights(es: seq<Endpoint>)
    ensures TotalWeight(Weights(es)) == WeightSum(es)
  {
    if es != [] {
      var n := |es| - 1;
      SumOfWeights(es[..n]);
      SumSnoc(es[..n], es[n]);
      assert es[..n] + [es[n]] == es && Weights(es)[..n] == Weights(es[..n]);
    }
  }

  /** What one turn of the cycle owes a member of weight `w` when all weights add up to `total`. */
  ghost predicate Owed(count: nat, w: nat, total: nat) {
    if total <= MAX_WEIGHT_TABLE then count == w
    else w * MAX_WEIGHT_TABLE - total <= count * total <= w * MAX_WEIGHT_TABLE + total
  }

  lemma TableOwes(live: seq<Endpoint>, i: nat)
    requires i < |live| && forall e :: e in live ==> e.weight > 0
    ensures Owed(Scaled(Weights(live))[i], live[i].weight, WeightSum(live))
  {
    SumOfWeights(live);
    var w, total := Weights(live), TotalWeight(Weights(live));
    assert live[i] in live && w[i] == live[i].weight;
    if total > MAX_WEIGHT_TABLE { ScaleWeightError(w[i], total); }
  }

  /**
   * What the cycle gives each member, in terms of the endpoint list alone. Its
   * members are the endpoints of positive weight, in order, or the placeholder if
   * there is none. Equal weights give equal turns; otherwise a member gets as many
   * slots as its weight, scaled to within one slot when the weights exceed the cap.
   */
  lemma SharesFollowWeights(es: seq<Endpoint>, i: nat)
    requires PolicyOf(es).Weighted? ==> |Live(es)| <= INDEX_LIMIT
    requires i < |PolicyOf(es).Members()|
    ensures var p := PolicyOf(es);
            && |p.Slots()| > 0
            && (SameWeights(es) ==> Count(p.Slots(), i) == 1)
            && (!SameWeights(es) ==> Owed(Count(p.Slots(), i), p.Members()[i].weight, WeightSum(es)))
  {
    var live := Live(es);
    PolicyShares(es);
    if |live| >= 2 {
      assert SameWeights(es) <==> Uniform(live) by { UniformIsSame(es); }
      if !Uniform(live) {
        LiveSum(es);
        TableOwes(live, i);
      }
    } else {
      forall e, f | e in es && f in es && e.weight > 0 && f.weight > 0 ensures e.weight == f.weight {
        assert e in live && f in live;
      }
    }
  }

  lemma UniformIsSame(es: seq<Endpoint>)
    ensures SameWeights(es) <==> Uniform(Live(es))
  {
    var live := Live(es);
    if Uniform(live) {
      forall e, f | e in es && f in es && e.weight > 0 && f.weight > 0 ensures e.weight == f.weight {
        assert e in live && f in live;
        var i :| 0 <= i < |live| && live[i] == e;
        var j :| 0 <= j < |live| && live[j] == f;
        if i <= j { UniformWeights(live, i, j); } else { UniformWeights(live, j, i); }
      }
    } else {
      var i :| 0 <= i < |live| - 1 && live[i].weight != live[i + 1].weight;
      assert live[i] in live && live[i + 1] in live;
    }
  }

  lemma MembersAre(es: seq<Endpoint>)
    ensures (forall e :: e in es ==> e.weight == 0) ==> PolicyOf(es).Members() == [Endpoint("127.0.0.1:80", 1)]
    ensures (exists e :: e in es && e.weight > 0) ==> forall e :: e in PolicyOf(es).Members() <==> e in es && e.weight > 0
    ensures (exists e :: e in es && e.weight > 0) ==> PolicyOf(es).Members() == Live(es)
  {
    var live := Live(es);
    if live != [] { assert live[0] in live; }
    if |live| == 1 { assert live == [live[0]]; }
  }

  lemma {:induction false} LiveKeepsOrder(es: seq<Endpoint>, more: seq<Endpoint>)
    ensures Live(es + more) == Live(es) + Live(more)
  {
    if es == [] {
      assert es + more == more;
    } else {
      assert (es + more)[1..] == es[1..] + more;
      LiveKeepsOrder(es[1..], more);
    }
  }

  /** Up to the cap, turns are in exact proportion to the weights. */
  lemma Proportional(es: seq<Endpoint>, i: nat, j: nat)
    requires PolicyOf(es).Weighted? ==> |Live(es)| <= INDEX_LIMIT
    requires i < |PolicyOf(es).Members()| && j < |PolicyOf(es).Members()| && WeightSum(es) <= 4096
    ensures var p := PolicyOf(es);
            Count(p.Slots(), i) * p.Members()[j].weight == Count(p.Slots(), j) * p.Members()[i].weight
  {
    var p := PolicyOf(es);
    SharesFollowWeights(es, i);
    SharesFollowWeights(es, j);
    if SameWeights(es) { EqualMembers(es, i, j); }
  }

  lemma EqualMembers(es: seq<Endpoint>, i: nat, j: nat)
    requires SameWeights(es) && i < |PolicyOf(es).Members()| && j < |PolicyOf(es).Members()|
    ensures PolicyOf(es).Members()[i].weight == PolicyOf(es).Members()[j].weight
  {
    var m := PolicyOf(es).Members();
    if exists e :: e in es && e.weight > 0 {
      MembersAre(es);
      assert m[i] in m && m[j] in m;
    } else {
      MembersAre(es);
    }
  }

  lemma TableShape(w: seq<nat>)
    requires 0 < |w| <= INDEX_LIMIT
    ensures |Table(w)| > 0 && forall k :: 0 <= k < |Table(w)| ==> Table(w)[k] < |w|
  {
    ExactShare(Scaled(w));
    PicksInRange(Scaled(w), Sum(Scaled(w)));
  }

  lemma {:induction false} CountIdentity(n: nat, i: nat)
    ensures Count(Identity(n), i) == if i < n then 1 else 0
  {
    if n > 0 {
      assert Identity(n)[..n - 1] == Identity(n - 1);
      CountIdentity(n - 1, i);
    }
  }

  /** A target group: clones share one group object, hence one cursor. */
  class TargetGroup {
    const policy: Policy
    var cursor: nat

    constructor (es: seq<Endpoint>)
      ensures policy == PolicyOf(es) && cursor == 0
    {
      var live := Live(es);
      if |live| == 0 {
        policy := Single(PLACEHOLDER);
      } else if |live| == 1 {
        policy := Single(live[0]);
      } else if Uniform(live) {
        policy := RoundRobin(live);
      } else {
        var table := ExpandWeights(Weights(live));
        policy := Weighted(live, table);
      }
      cursor := 0;
    }

    /** One `fetch_add` and one index; a single endpoint touches no cursor. */
    method Select() returns (e: Endpoint)
      requires policy.Valid()
      modifies this`cursor
      ensures e == Serve(policy, old(cursor))
      ensures cursor == if policy.Single? then old(cursor) else (old(cursor) + 1) % WRAP
    {
      match policy {
        case Single(ep) =>
          e := ep;
        case RoundRobin(es) =>
          var idx := cursor;
          cursor := (cursor + 1) % WRAP;
          e := es[idx % |es|];
        case Weighted(es, table) =>
          var idx := cursor;
          cursor := (cursor + 1) % WRAP;
          var slot := table[idx % |table|];
          e := es[slot];
      }
    }
  }

  function Slot(slots: seq<nat>, ticket: nat): nat
    requires |slots| > 0
  {
    slots[ticket % |slots|]
  }

  function Serve(p: Policy, ticket: nat): Endpoint
    requires p.Valid()
  {
    p.Members()[Slot(p.Slots(), ticket)]
  }

  // ----- how often a run of tickets hits one member ------------------------

  function Hits(slots: seq<nat>, tickets: seq<nat>, i: nat): nat
    requires |slots| > 0
  {
    if tickets == [] then 0
    else Hits(slots, tickets[1..], i) + Hit(slots, tickets[0], i)
  }

  function Hit(slots: seq<nat>, ticket: nat, i: nat): nat
    requires |slots| > 0
  {
    if Slot(slots, ticket) == i then 1 else 0
  }

  function Range(a: nat, n: nat): (r: seq<nat>)
    ensures |r| == n
  {
    seq(n, k requires 0 <= k < n => a + k)
  }

  lemma {:induction false} HitsConcat(slots: seq<nat>, s: seq<nat>, t: seq<nat>, i: nat)
    requires |slots| > 0
    ensures Hits(slots, s + t, i) == Hits(slots, s, i) + Hits(slots, t, i)
  {
    if s == [] {
      assert s + t == t;
    } else {
      HitsConcat(slots, s[1..], t, i);
      assert (s + t)[1..] == s[1..] + t;
    }
  }

  lemma HitsSplit(slots: seq<nat>, a: nat, n: nat, m: nat, i: nat)
    requires |slots| > 0
    ensures Hits(slots, Range(a, n + m), i) == Hits(slots, Range(a, n), i) + Hits(slots, Range(a + n, m), i)
  {
    assert Range(a, n + m) == Range(a, n) + Range(a + n, m);
    HitsConcat(slots, Range(a, n), Range(a + n, m), i);
  }

  lemma HitsOne(slots: seq<nat>, a: nat, i: nat)
    requires |slots| > 0
    ensures Hits(slots, Range(a, 1), i) == Hit(slots, a, i)
  {
    assert Range(a, 1) == [a];
    assert Range(a, 1)[1..] == [];
  }

  lemma {:induction false} FirstTurn(slots: seq<nat>, n: nat, i: nat)
    requires 0 < |slots| && n <= |slots|
    ensures Hits(slots, Range(0, n), i) == Count(slots[..n], i)
  {
    if n > 0 {
      FirstTurn(slots, n - 1, i);
      HitsSplit(slots, 0, n - 1, 1, i);
      HitsOne(slots, n - 1, i);
      SmallMod(n - 1, |slots|);
      assert slots[..n][..n - 1] == slots[..n - 1];
    } else {
      assert Range(0, 0) == [];
    }
  }

  lemma SmallMod(k: nat, d: nat)
    requires k < d
    ensures k % d == k
  {
  }

  lemma NextTurn(slots: seq<nat>, ticket: nat)
    requires |slots| > 0
    ensures Slot(slots, ticket + |slots|) == Slot(slots, ticket)
  {
    var d := |slots|;
    var q, r := Divide(ticket, d);
    Distribute(q, 1, d);
    ModUnique(ticket + d, d, q + 1, r);
  }

  /** Any window of one full turn, wherever it starts, hits `i` as often as the cycle lists it. */
  lemma {:induction false} AnyTurn(slots: seq<nat>, a: nat, i: nat)
    requires |slots| > 0
    ensures Hits(slots, Range(a, |slots|), i) == Count(slots, i)
  {
    var d := |slots|;
    if a == 0 {
      FirstTurn(slots, d, i);
      assert slots[..d] == slots;
    } else {
      AnyTurn(slots, a - 1, i);
      HitsSplit(slots, a - 1, 1, d, i);
      HitsSplit(slots, a - 1, d, 1, i);
      assert 1 + d == d + 1;
      HitsOne(slots, a - 1, i);
      HitsOne(slots, a - 1 + d, i);
      NextTurn(slots, a - 1);
    }
  }

  lemma {:induction false} FullTurns(slots: seq<nat>, a: nat, m: nat, n: nat, i: nat)
    requires |slots| > 0 && n == m * |slots|
    ensures Hits(slots, Range(a, n), i) == m * Count(slots, i)
    decreases m
  {
    var d := |slots|;
    if m == 0 {
      assert Range(a, n) == [];
    } else {
      Distribute(m, 1, d);
      Distribute(m, 1, Count(slots, i));
      MulMonotone(0, m - 1, d);
      AnyTurn(slots, a, i);
      FullTurns(slots, a + d, m - 1, n - d, i);
      HitsSplit(slots, a, d, n - d, i);
    }
  }

  lemma HitsGrow(slots: seq<nat>, a: nat, n: nat, m: nat, i: nat)
    requires |slots| > 0 && n <= m
    ensures Hits(slots, Range(a, n), i) <= Hits(slots, Range(a, m), i)
  {
    HitsSplit(slots, a, n, m - n, i);
  }

  /** Over any window of tickets the round-robin counts of two endpoints differ by at most one. */
  lemma RoundRobinBalanced(n: nat, a: nat, w: nat, i: nat, j: nat)
    requires i < n && j < n
    ensures -1 <= Hits(Identity(n), Range(a, w), i) - Hits(Identity(n), Range(a, w), j) <= 1
  {
    var q := w / n;
    RoundRobinWindow(n, a, w, i);
    RoundRobinWindow(n, a, w, j);
  }

  lemma RoundRobinWindow(n: nat, a: nat, w: nat, i: nat)
    requires i < n
    ensures w / n <= Hits(Identity(n), Range(a, w), i) <= w / n + 1
  {
    var slots := Identity(n);
    var q, r := Divide(w, n);
    var full := q * n;
    CountIdentity(n, i);
    FullTurns(slots, a, q, full, i);
    HitsSplit(slots, a, full, r, i);
    HitsGrow(slots, a + full, r, n, i);
    AnyTurn(slots, a + full, i);
  }

  // ----- any number of threads, interleaved --------------------------------

  /**
   * Tickets handed out by `fetch_add` but not yet used to index the cycle are
   * pending, in whichever threads hold them; `done` lists finished selections
   * in completion order.
   */
  datatype System = System(cursor: nat, pending: multiset<nat>, done: seq<nat>)

  ghost predicate Fetch(s: System, s': System) {
    s' == System((s.cursor + 1) % WRAP, s.pending + multiset{s.cursor}, s.done)
  }

  ghost predicate Finish(s: System, s': System) {
    exists t :: t in s.pending && s' == System(s.cursor, s.pending - multiset{t}, s.done + [t])
  }

  ghost predicate Run(states: seq<System>, start: nat) {
    && |states| > 0
    && start < WRAP
    && states[0] == System(start, multiset{}, [])
    && forall k :: 0 <= k < |states| - 1 ==> Fetch(states[k], states[k + 1]) || Finish(states[k], states[k + 1])
  }

  /** The tickets issued by `n` wrapping increments from `start`. */
  function Issued(start: nat, n: nat): (r: seq<nat>)
    ensures |r| == n
  {
    seq(n, k requires 0 <= k < n => (start + k) % WRAP)
  }

  ghost predicate Conserved(s: System, start: nat) {
    var n := |s.pending| + |s.done|;
    && s.cursor == (start + n) % WRAP
    && s.pending + multiset(s.done) == multiset(Issued(start, n))
  }

  lemma FetchConserves(s: System, s': System, start: nat)
    requires Conserved(s, start) && Fetch(s, s')
    ensures Conserved(s', start)
  {
    var n := |s.pending| + |s.done|;
    IssuedSnoc(start, n, s.cursor);
    NextCursor(start + n);
    AddOne(s.pending, s.done, s.cursor);
  }

  lemma AddOne(pending: multiset<nat>, done: seq<nat>, t: nat)
    ensures |pending + multiset{t}| == |pending| + 1
    ensures (pending + multiset{t}) + multiset(done) == (pending + multiset(done)) + multiset{t}
  {
  }

  lemma FinishConserves(s: System, s': System, start: nat)
    requires Conserved(s, start) && Finish(s, s')
    ensures Conserved(s', start)
  {
    var t :| t in s.pending && s' == System(s.cursor, s.pending - multiset{t}, s.done + [t]);
    MoveOne(s.pending, s.done, t);
    SameTickets(s, s', start);
  }

  lemma SameTickets(s: System, s': System, start: nat)
    requires Conserved(s, start) && s'.cursor == s.cursor
    requires |s'.pending| + |s'.done| == |s.pending| + |s.done|
    requires s'.pending + multiset(s'.done) == s.pending + multiset(s.done)
    ensures Conserved(s', start)
  {
  }

  lemma MoveOne(pending: multiset<nat>, done: seq<nat>, t: nat)
    requires t in pending
    ensures |pending - multiset{t}| == |pending| - 1
    ensures (pending - multiset{t}) + multiset(done + [t]) == pending + multiset(done)
  {
    var rest := pending - multiset{t};
    assert pending == rest + multiset{t};
  }

  lemma NextCursor(k: nat)
    ensures (k % WRAP + 1) % WRAP == (k + 1) % WRAP
  {
  }

  lemma IssuedSnoc(start: nat, n: nat, t: nat)
    requires t == (start + n) % WRAP
    ensures multiset(Issued(start, n + 1)) == multiset(Issued(start, n)) + multiset{t}
  {
    assert Issued(start, n + 1) == Issued(start, n) + [t];
  }

  lemma {:induction false} RunConserves(states: seq<System>, start: nat, k: nat)
    requires Run(states, start) && k < |states|
    ensures Conserved(states[k], start)
  {
    if k == 0 {
      assert Issued(start, 0) == [];
    } else {
      RunConserves(states, start, k - 1);
      assert Fetch(states[k - 1], states[k - 1 + 1]) || Finish(states[k - 1], states[k - 1 + 1]);
      if Fetch(states[k - 1], states[k]) {
        FetchConserves(states[k - 1], states[k], start);
      } else {
        FinishConserves(states[k - 1], states[k], start);
      }
    }
  }

  /** Moving one ticket to the front changes neither the multiset nor the hits. */
  lemma MoveToFront(slots: seq<nat>, t: seq<nat>, j: nat, i: nat) returns (rest: seq<nat>)
    requires |slots| > 0 && j < |t|
    ensures multiset(t) == multiset{t[j]} + multiset(rest)
    ensures Hits(slots, t, i) == Hit(slots, t[j], i) + Hits(slots, rest, i)
  {
    var front, back := t[..j], t[j + 1..];
    rest := front + back;
    assert t == front + ([t[j]] + back);
    HitsConcat(slots, front, [t[j]] + back, i);
    HitsConcat(slots, front, back, i);
    assert ([t[j]] + back)[1..] == back;
  }

  lemma CancelOne(x: nat, a: multiset<nat>, b: multiset<nat>)
    requires multiset{x} + a == multiset{x} + b
    ensures a == b
  {
    assert a == multiset{x} + a - multiset{x};
    assert b == multiset{x} + b - multiset{x};
  }

  lemma {:induction false} HitsPermute(slots: seq<nat>, s: seq<nat>, t: seq<nat>, i: nat)
    requires |slots| > 0 && multiset(s) == multiset(t)
    ensures Hits(slots, s, i) == Hits(slots, t, i)
    decreases |s|
  {
    if s == [] {
      assert |multiset(t)| == 0;
    } else {
      assert s[0] in multiset(t);
      var j :| 0 <= j < |t| && t[j] == s[0];
      var rest := MoveToFront(slots, t, j, i);
      assert s == [s[0]] + s[1..];
      CancelOne(s[0], multiset(s[1..]), multiset(rest));
      HitsPermute(slots, s[1..], rest, i);
    }
  }

  /** What any quiescent run selected is, up to order, the block of tickets it was issued. */
  lemma QuiescentHits(slots: seq<nat>, states: seq<System>, start: nat, i: nat)
    requires |slots| > 0 && Run(states, start)
    requires states[|states| - 1].pending == multiset{}
    ensures var done := states[|states| - 1].done;
            Hits(slots, done, i) == Hits(slots, Issued(start, |done|), i)
  {
    var last := states[|states| - 1];
    RunConserves(states, start, |states| - 1);
    assert last.pending + multiset(last.done) == multiset(last.done);
    HitsPermute(slots, last.done, Issued(start, |last.done|), i);
  }

  /**
   * Fair selection: in every interleaving of any number of threads that does
   * not wrap the counter, `m` full turns of selections pick each member exactly
   * `m` times its multiplicity in the cycle.
   */
  lemma FairSelection(slots: seq<nat>, states: seq<System>, start: nat, m: nat, i: nat)
    requires |slots| > 0 && Run(states, start)
    requires states[|states| - 1].pending == multiset{}
    requires |states[|states| - 1].done| == m * |slots|
    requires start + m * |slots| <= WRAP
    ensures Hits(slots, states[|states| - 1].done, i) == m * Count(slots, i)
  {
    var n := |states[|states| - 1].done|;
    QuiescentHits(slots, states, start, i);
    IssuedNoWrap(start, n);
    FullTurns(slots, start, m, n, i);
  }

  /** The same for the group compiled from any endpoint list: member `i` gets `m` times its share. */
  lemma GroupFair(es: seq<Endpoint>, states: seq<System>, start: nat, m: nat, i: nat)
    requires (PolicyOf(es).Weighted? ==> |Live(es)| <= INDEX_LIMIT) && i < |PolicyOf(es).Members()|
    requires Run(states, start) && states[|states| - 1].pending == multiset{}
    requires |states[|states| - 1].done| == m * |PolicyOf(es).Slots()|
    requires start + m * |PolicyOf(es).Slots()| <= WRAP
    ensures |PolicyOf(es).Slots()| > 0
    ensures Hits(PolicyOf(es).Slots(), states[|states| - 1].done, i) == m * Share(es, i)
  {
    PolicyShares(es);
    FairSelection(PolicyOf(es).Slots(), states, start, m, i);
  }

  /**
   * Fair selection in terms of the endpoint list: in any interleaving of `m` turns,
   * members of equal weights are picked `m` times each, and otherwise each as often
   * as `m` times its weight, to within `m` slots when the weights exceed the cap.
   */
  lemma GroupFollowsWeights(es: seq<Endpoint>, states: seq<System>, start: nat, m: nat, i: nat)
    requires (PolicyOf(es).Weighted? ==> |Live(es)| <= INDEX_LIMIT) && i < |PolicyOf(es).Members()|
    requires Run(states, start) && states[|states| - 1].pending == multiset{}
    requires |states[|states| - 1].done| == m * |PolicyOf(es).Slots()|
    requires start + m * |PolicyOf(es).Slots()| <= WRAP
    ensures |PolicyOf(es).Slots()| > 0
    ensures OwedInTurns(Hits(PolicyOf(es).Slots(), states[|states| - 1].done, i), m, es, PolicyOf(es).Members()[i].weight)
  {
    SharesFollowWeights(es, i);
    FairSelection(PolicyOf(es).Slots(), states, start, m, i);
    TurnsOwe(Count(PolicyOf(es).Slots(), i), m, es, PolicyOf(es).Members()[i].weight);
  }

  /** What `m` turns owe a member of weight `w`. */
  ghost predicate OwedInTurns(hits: nat, m: nat, es: seq<Endpoint>, w: nat) {
    if SameWeights(es) then hits == m
    else if WeightSum(es) <= MAX_WEIGHT_TABLE then hits == m * w
    else
      var total := WeightSum(es);
      m * (w * MAX_WEIGHT_TABLE - total) <= hits * total <= m * (w * MAX_WEIGHT_TABLE + total)
  }

  lemma TurnsOwe(count: nat, m: nat, es: seq<Endpoint>, w: nat)
    requires if SameWeights(es) then count == 1 else Owed(count, w, WeightSum(es))
    ensures OwedInTurns(m * count, m, es, w)
  {
    var total := WeightSum(es);
    if !SameWeights(es) && total > MAX_WEIGHT_TABLE {
      ScaleBounds(w * MAX_WEIGHT_TABLE - total, count, total, w * MAX_WEIGHT_TABLE + total, m);
    }
  }

  lemma ScaleBounds(a: int, count: nat, total: nat, c: int, m: nat)
    requires a <= count * total <= c
    ensures m * a <= (m * count) * total <= m * c
  {
    Associate(m, count, total);
    MulMonotone(a, count * total, m);
    MulMonotone(count * total, c, m);
  }

  /**
   * Round robin under interleaving: take any two moments of any run that has not
   * wrapped. The selections begun in between, however they finish, are spread over
   * the endpoints to within one.
   */
  lemma RoundRobinRun(n: nat, states: seq<System>, start: nat, k: nat, l: nat, served: seq<nat>, i: nat, j: nat)
    requires i < n && j < n && Run(states, start) && k < |states| && l < |states|
    requires Begun(states[l]) == Begun(states[k]) + multiset(served)
    requires start + |Begun(states[l])| <= WRAP
    ensures |served| / n <= Hits(Identity(n), served, i) <= |served| / n + 1
    ensures -1 <= Hits(Identity(n), served, i) - Hits(Identity(n), served, j) <= 1
  {
    BegunRange(states, start, k);
    BegunRange(states, start, l);
    Balanced(n, start, |Begun(states[k])|, served, i);
    Balanced(n, start, |Begun(states[k])|, served, j);
  }

  lemma Balanced(n: nat, start: nat, a: nat, served: seq<nat>, i: nat)
    requires i < n && multiset(Range(start, a + |served|)) == multiset(Range(start, a)) + multiset(served)
    ensures |served| / n <= Hits(Identity(n), served, i) <= |served| / n + 1
  {
    WindowTickets(start, a, served);
    HitsPermute(Identity(n), served, Range(start + a, |served|), i);
    RoundRobinWindow(n, start + a, |served|, i);
  }

  /** All tickets handed out so far, finished or not. */
  ghost function Begun(s: System): multiset<nat> {
    s.pending + multiset(s.done)
  }

  lemma BegunRange(states: seq<System>, start: nat, k: nat)
    requires Run(states, start) && k < |states| && start + |Begun(states[k])| <= WRAP
    ensures Begun(states[k]) == multiset(Range(start, |Begun(states[k])|))
  {
    RunConserves(states, start, k);
    IssuedNoWrap(start, |Begun(states[k])|);
  }

  lemma WindowTickets(start: nat, a: nat, served: seq<nat>)
    requires multiset(Range(start, a + |served|)) == multiset(Range(start, a)) + multiset(served)
    ensures multiset(served) == multiset(Range(start + a, |served|))
  {
    var front, back := Range(start, a), Range(start + a, |served|);
    assert Range(start, a + |served|) == front + back;
    assert multiset(front) + multiset(served) == multiset(front) + multiset(back);
    CancelAll(multiset(front), multiset(served), multiset(back));
  }

  lemma CancelAll(x: multiset<nat>, a: multiset<nat>, b: multiset<nat>)
    requires x + a == x + b
    ensures a == b
  {
    assert a == x + a - x;
    assert b == x + b - x;
  }

  lemma IssuedNoWrap(start: nat, n: nat)
    requires start + n <= WRAP
    ensures Issued(start, n) == Range(start, n)
  {
    forall k | 0 <= k < n ensures Issued(start, n)[k] == start + k { SmallMod(start + k, WRAP); }
  }

  // ----- exactly when a wrapping counter stays fair ------------------------

  lemma IssuedWrap(start: nat, n: nat)
    requires start < WRAP < start + n <= 2 * WRAP
    ensures Issued(start, n) == Range(start, WRAP - start) + Range(0, start + n - WRAP)
  {
    forall k | 0 <= k < n
      ensures Issued(start, n)[k] == (Range(start, WRAP - start) + Range(0, start + n - WRAP))[k]
    {
      if start + k < WRAP {
        SmallMod(start + k, WRAP);
      } else {
        ModUnique(start + k, WRAP, 1, start + k - WRAP);
      }
    }
  }

  lemma HitAt(n: nat, a: nat, w: nat, t: nat)
    requires n > 0 && a <= t < a + w
    ensures Hits(Identity(n), Range(a, w), t % n) >= 1
  {
    var slots := Identity(n);
    HitsSplit(slots, a, t - a, a + w - t, t % n);
    HitsSplit(slots, t, 1, a + w - t - 1, t % n);
    HitsOne(slots, t, t % n);
  }

  /** Hits of a window, split into its leading odd part and full turns. */
  lemma OddPart(n: nat, a: nat, w: nat, i: nat)
    requires i < n
    ensures Hits(Identity(n), Range(a, w), i) == Hits(Identity(n), Range(a, w % n), i) + w / n
  {
    var slots := Identity(n);
    var q, r := Divide(w, n);
    CountIdentity(n, i);
    FullTurns(slots, a + r, q, q * n, i);
    HitsSplit(slots, a, r, q * n, i);
  }

  // ----- the same for any cycle -------------------------------------------------

  /** Hits of a window of any cycle: its leading odd part, then full turns. */
  lemma OddPartOf(slots: seq<nat>, a: nat, w: nat, i: nat)
    requires |slots| > 0
    ensures Hits(slots, Range(a, w), i) == Hits(slots, Range(a, w % |slots|), i) + (w / |slots|) * Count(slots, i)
  {
    var q, r := Divide(w, |slots|);
    FullTurns(slots, a + r, q, q * |slots|, i);
    HitsSplit(slots, a, r, q * |slots|, i);
  }

  ghost predicate FairTurns(slots: seq<nat>, start: nat, m: nat)
    requires |slots| > 0
  {
    forall i :: FairFor(slots, start, m, i)
  }

  ghost predicate FairFor(slots: seq<nat>, start: nat, m: nat, i: nat)
    requires |slots| > 0
  {
    Hits(slots, Issued(start, m * |slots|), i) == m * Count(slots, i)
  }

  /** The first `w` tickets after the wrap hit `i` as often as if the counter had gone on. */
  predicate SameOdd(slots: seq<nat>, w: nat, i: nat)
    requires |slots| > 0
  {
    Hits(slots, Range(0, w), i) == Hits(slots, Range(WRAP, w), i)
  }

  /** Hits of `m` turns around a wrap: what the tickets before it and those after it give. */
  lemma WrapHits(slots: seq<nat>, start: nat, m: nat, i: nat)
    requires |slots| > 0 && start < WRAP < start + m * |slots| <= 2 * WRAP
    ensures var rb := (start + m * |slots| - WRAP) % |slots|;
            Hits(slots, Issued(start, m * |slots|), i) + Hits(slots, Range(WRAP, rb), i)
            == m * Count(slots, i) + Hits(slots, Range(0, rb), i)
  {
    var n := m * |slots|;
    var a, b := WRAP - start, start + n - WRAP;
    IssuedWrap(start, n);
    HitsConcat(slots, Range(start, a), Range(0, b), i);
    HitsSplit(slots, start, a, b, i);
    FullTurns(slots, start, m, n, i);
    OddPartOf(slots, 0, b, i);
    OddPartOf(slots, WRAP, b, i);
  }

  /**
   * Any policy's cycle, weighted tables included: when the counter wraps inside
   * `m` turns, selection stays exact if and only if the odd tickets left over after
   * the wrap find, at the front of the cycle, the same members they would have
   * found had the counter gone on.
   */
  lemma WrapFairnessOf(slots: seq<nat>, start: nat, m: nat)
    requires |slots| > 0 && start < WRAP < start + m * |slots| <= 2 * WRAP
    ensures var rb := (start + m * |slots| - WRAP) % |slots|;
            FairTurns(slots, start, m) <==> forall i :: SameOdd(slots, rb, i)
  {
    var rb := (start + m * |slots| - WRAP) % |slots|;
    forall i ensures FairFor(slots, start, m, i) <==> SameOdd(slots, rb, i) { WrapHits(slots, start, m, i); }
    if FairTurns(slots, start, m) {
      forall i ensures SameOdd(slots, rb, i) { assert FairFor(slots, start, m, i); }
    } else {
      var i :| !FairFor(slots, start, m, i);
      assert !SameOdd(slots, rb, i);
    }
  }

  /** A cycle whose length divides the counter range never notices a wrap, however many there are. */
  lemma {:induction false} DivisibleRange(slots: seq<nat>, start: nat, n: nat, i: nat)
    requires |slots| > 0 && WRAP % |slots| == 0
    ensures Hits(slots, Issued(start, n), i) == Hits(slots, Range(start, n), i)
  {
    if n == 0 {
      assert Issued(start, 0) == Range(start, 0);
    } else {
      DivisibleRange(slots, start, n - 1, i);
      var t := start + (n - 1);
      assert Issued(start, n) == Issued(start, n - 1) + [t % WRAP];
      assert Range(start, n) == Range(start, n - 1) + [t];
      HitsSnoc(slots, Issued(start, n - 1), t % WRAP, i);
      HitsSnoc(slots, Range(start, n - 1), t, i);
      WrapKeepsResidue(|slots|, t);
    }
  }

  lemma HitsSnoc(slots: seq<nat>, s: seq<nat>, t: nat, i: nat)
    requires |slots| > 0
    ensures Hits(slots, s + [t], i) == Hits(slots, s, i) + Hit(slots, t, i)
  {
    HitsConcat(slots, s, [t], i);
    assert [t][1..] == [];
  }

  lemma WrapKeepsResidue(d: nat, t: nat)
    requires d > 0 && WRAP % d == 0
    ensures (t % WRAP) % d == t % d
  {
    var q, r := Divide(t, WRAP);
    var c, _ := Divide(WRAP, d);
    Associate(q, c, d);
    SameResidue(d, r, q * c, t);
  }

  lemma Associate(q: nat, c: nat, d: nat)
    ensures q * (c * d) == (q * c) * d
  {
  }

  lemma DivisibleFair(slots: seq<nat>, start: nat, m: nat, i: nat)
    requires |slots| > 0 && WRAP % |slots| == 0
    ensures Hits(slots, Issued(start, m * |slots|), i) == m * Count(slots, i)
  {
    DivisibleRange(slots, start, m * |slots|, i);
    FullTurns(slots, start, m, m * |slots|, i);
  }

  ghost predicate FairIssue(n: nat, start: nat, m: nat) {
    forall i :: 0 <= i < n ==> Hits(Identity(n), Issued(start, m * n), i) == m
  }

  /**
   * When the counter does wrap inside `m` turns of a round robin over `n`
   * endpoints, selection stays exactly fair if and only if the wrap falls on a
   * turn boundary or `n` divides the counter range.
   */
  lemma WrapFairness(n: nat, start: nat, m: nat)
    requires n > 0 && start < WRAP < start + m * n <= 2 * WRAP
    ensures FairIssue(n, start, m) <==> (WRAP - start) % n == 0 || WRAP % n == 0
  {
    var slots, total := Identity(n), m * n;
    var a, b := WRAP - start, start + total - WRAP;
    var ra, rb := a % n, b % n;
    IssuedWrap(start, total);
    forall i | 0 <= i < n
      ensures Hits(slots, Issued(start, total), i)
           == Hits(slots, Range(start, ra), i) + Hits(slots, Range(0, rb), i) + a / n + b / n
    {
      HitsConcat(slots, Range(start, a), Range(0, b), i);
      OddPart(n, start, a, i);
      OddPart(n, 0, b, i);
    }
    Remainders(n, m, a, b);
    if ra == 0 {
      forall i | 0 <= i < n ensures Hits(slots, Issued(start, total), i) == m {
        assert Range(start, 0) == [] && Range(0, 0) == [];
      }
    } else {
      var x := start % n;
      WrapResidue(n, start, a, rb, x);
      if x == rb {
        forall i | 0 <= i < n ensures Hits(slots, Issued(start, total), i) == m {
          AlignedOdd(n, start, ra, rb, i);
        }
      } else if x < rb {
        // Residue x is hit by the first ticket and again after the wrap.
        HitAt(n, start, ra, start);
        SmallMod(x, n);
        HitAt(n, 0, rb, x);
        assert Hits(slots, Issued(start, total), x) > m;
      } else {
        // The odd part before the wrap already comes back round to residue 0.
        var t := start + (n - x);
        ZeroResidue(n, start, x);
        HitAt(n, start, ra, t);
        HitAt(n, 0, rb, 0);
        assert Hits(slots, Issued(start, total), 0) > m;
      }
    }
  }

  /** An instance: one turn of three endpoints that starts on the last ticket is not fair. */
  lemma WrapInstance()
    ensures !FairIssue(3, WRAP - 1, 1)
  {
    WrapFairness(3, WRAP - 1, 1);
  }

  lemma Remainders(n: nat, m: nat, a: nat, b: nat)
    requires n > 0 && a + b == m * n
    ensures a % n == 0 ==> b % n == 0 && a / n + b / n == m
    ensures a % n != 0 ==> a % n + b % n == n && a / n + b / n == m - 1
  {
    var qa, ra := Divide(a, n);
    if ra == 0 {
      Distribute(m, qa, n);
      ModUnique(b, n, m - qa, 0);
    } else {
      Distribute(m, qa, n);
      Distribute(m - qa, 1, n);
      ModUnique(b, n, m - qa - 1, n - ra);
    }
  }

  /** The wrap point is a multiple of n exactly when the start sits at residue n - ra. */
  lemma WrapResidue(n: nat, start: nat, a: nat, rb: nat, x: nat)
    requires n > 0 && start + a == WRAP && x == start % n && a % n != 0 && rb == n - a % n
    ensures WRAP % n == 0 <==> x == rb
  {
    var qs, _ := Divide(start, n);
    var qa, ra := Divide(a, n);
    Distribute(qs, qa, n);
    if x == rb {
      Distribute(qs + qa, 1, n);
      ModUnique(WRAP, n, qs + qa + 1, 0);
    } else if x + ra < n {
      ModUnique(WRAP, n, qs + qa, x + ra);
    } else {
      Distribute(qs + qa, 1, n);
      ModUnique(WRAP, n, qs + qa + 1, x + ra - n);
    }
  }

  lemma ZeroResidue(n: nat, start: nat, x: nat)
    requires n > 0 && x == start % n
    ensures (start + (n - x)) % n == 0 && 0 % n == 0
  {
    var q, _ := Divide(start, n);
    Distribute(q, 1, n);
    ModUnique(start + (n - x), n, q + 1, 0);
  }

  /** A start at residue rb makes the two odd parts together one full turn. */
  lemma AlignedOdd(n: nat, start: nat, ra: nat, rb: nat, i: nat)
    requires i < n && ra + rb == n && start % n == rb
    ensures Hits(Identity(n), Range(start, ra), i) + Hits(Identity(n), Range(0, rb), i) == 1
  {
    var slots := Identity(n);
    var q, _ := Divide(start, n);
    ShiftTurns(n, rb, q, ra, start, i);
    HitsSplit(slots, 0, rb, ra, i);
    AnyTurn(slots, 0, i);
    CountIdentity(n, i);
  }

  lemma {:induction false} ShiftTurns(n: nat, a: nat, q: nat, w: nat, b: nat, i: nat)
    requires i < n && b == q * n + a
    ensures Hits(Identity(n), Range(b, w), i) == Hits(Identity(n), Range(a, w), i)
    decreases w
  {
    var slots := Identity(n);
    if w > 0 {
      ShiftTurns(n, a, q, w - 1, b, i);
      HitsSplit(slots, b, w - 1, 1, i);
      HitsSplit(slots, a, w - 1, 1, i);
      HitsOne(slots, b + (w - 1), i);
      HitsOne(slots, a + (w - 1), i);
      SameResidue(n, a + (w - 1), q, b + (w - 1));
    } else {
      assert Range(b, 0) == Range(a, 0);
    }
  }

  lemma SameResidue(n: nat, a: nat, q: nat, b: nat)
    requires n > 0 && b == q * n + a
    ensures b % n == a % n
  {
    var qa, ra := Divide(a, n);
    Distribute(q, qa, n);
    ModUnique(b, n, q + qa, ra);
  }
}
