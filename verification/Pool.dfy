/** The per-worker pool of idle upstream connections. */
module Pool {
  import opened Text

  const MAX_IDLE_PER_HOST: nat := 8192
  /** 45 seconds, in nanoseconds. */
  const MAX_IDLE_AGE: nat := 45_000_000_000

  type Conn = nat
  datatype Pooled = Pooled(conn: Conn, parkedAt: nat)
  type Stacks = map<string, seq<Pooled>>

  predicate Fresh(e: Pooled, now: nat) {
    now < e.parkedAt + MAX_IDLE_AGE
  }

  /** Pop until a fresh entry comes up; `clock(k)` is the clock at the k-th look. */
  function PopFresh(entries: seq<Pooled>, clock: nat -> nat, k: nat): (Option<Conn>, seq<Pooled>) {
    if entries == [] then (None, [])
    else
      var n := |entries| - 1;
      if Fresh(entries[n], clock(k)) then (Some(entries[n].conn), entries[..n])
      else PopFresh(entries[..n], clock, k + 1)
  }

  function StackOf(s: Stacks, address: string): seq<Pooled> {
    if address in s then s[address] else []
  }

  function Taken(s: Stacks, address: string, clock: nat -> nat): (Option<Conn>, Stacks) {
    if address !in s then (None, s)
    else
      var (c, rest) := PopFresh(s[address], clock, 0);
      (c, s[address := rest])
  }

  function Parked(s: Stacks, address: string, c: Conn, now: nat): Stacks {
    var entries := StackOf(s, address);
    s[address := if |entries| < MAX_IDLE_PER_HOST then entries + [Pooled(c, now)] else entries]
  }

  /** The fresh entries in order; `look(i)` is the clock when entry `i` is looked at. */
  function Retained(entries: seq<Pooled>, look: nat -> nat): seq<Pooled> {
    if entries == [] then []
    else
      var n := |entries| - 1;
      Retained(entries[..n], look) + (if Fresh(entries[n], look(n)) then [entries[n]] else [])
  }

  function Evicted(s: Stacks, look: string -> nat -> nat): Stacks {
    map a | a in s && Retained(s[a], look(a)) != [] :: Retained(s[a], look(a))
  }

  /** Eviction done for every address outside `todo`. */
  ghost function EvictedOutside(s: Stacks, look: string -> nat -> nat, todo: set<string>): Stacks {
    map a | a in s && a !in todo && Retained(s[a], look(a)) != [] :: Retained(s[a], look(a))
  }

  lemma EvictOne(s: Stacks, look: string -> nat -> nat, todo: set<string>, a: string)
    requires a in todo && todo <= s.Keys
    ensures var kept, entries := EvictedOutside(s, look, todo), Retained(s[a], look(a));
            EvictedOutside(s, look, todo - {a}) == if entries != [] then kept[a := entries] else kept
  {
  }

  class ConnectionPool {
    var inner: Stacks

    constructor ()
      ensures inner == map[]
    {
      inner := map[];
    }

    method Take(address: string, clock: nat -> nat) returns (c: Option<Conn>)
      modifies this
      ensures (c, inner) == Taken(old(inner), address, clock)
    {
      if address !in inner {
        return None;
      }
      var entries := inner[address];
      var k := 0;
      while entries != []
        invariant inner == old(inner) && address in inner
        invariant PopFresh(entries, clock, k) == PopFresh(inner[address], clock, 0)
        decreases |entries|
      {
        var entry := entries[|entries| - 1];
        entries := entries[..|entries| - 1];
        if Fresh(entry, clock(k)) {
          inner := inner[address := entries];
          return Some(entry.conn);
        }
        k := k + 1;
      }
      inner := inner[address := []];
      c := None;
    }

    method Put(address: string, c: Conn, now: nat)
      modifies this
      ensures inner == Parked(old(inner), address, c, now)
    {
      var entries := StackOf(inner, address);
      if |entries| < MAX_IDLE_PER_HOST {
        entries := entries + [Pooled(c, now)];
      }
      inner := inner[address := entries];
    }

    method EvictExpired(look: string -> nat -> nat)
      modifies this
      ensures inner == Evicted(old(inner), look)
    {
      var kept: Stacks := map[];
      var todo := inner.Keys;
      while todo != {}
        invariant inner == old(inner) && todo <= inner.Keys
        invariant kept == EvictedOutside(inner, look, todo)
      {
        var a :| a in todo;
        EvictOne(inner, look, todo, a);
        var entries := RetainFresh(inner[a], look(a));
        if entries != [] {
          kept := kept[a := entries];
        }
        todo := todo - {a};
      }
      inner := kept;
    }
  }

  method RetainFresh(entries: seq<Pooled>, look: nat -> nat) returns (r: seq<Pooled>)
    ensures r == Retained(entries, look)
  {
    r := [];
    for i := 0 to |entries|
      invariant r == Retained(entries[..i], look)
    {
      assert entries[..i + 1][..i] == entries[..i];
      if Fresh(entries[i], look(i)) {
        r := r + [entries[i]];
      }
    }
    assert entries[..|entries|] == entries;
  }

  // ----- stacks stay sorted and bounded ---------------------------------------

  ghost predicate Sorted(entries: seq<Pooled>, now: nat) {
    && |entries| <= MAX_IDLE_PER_HOST
    && (forall i, j :: 0 <= i < j < |entries| ==> entries[i].parkedAt <= entries[j].parkedAt)
    && (forall i :: 0 <= i < |entries| ==> entries[i].parkedAt <= now)
  }

  ghost predicate Monotone(clock: nat -> nat) {
    forall i, j :: i <= j ==> clock(i) <= clock(j)
  }

  /** `take` hands out the newest connection if it is still fresh, and otherwise empties the stack. */
  lemma {:induction false} NewestOrNothing(entries: seq<Pooled>, now: nat, clock: nat -> nat, k: nat)
    requires Sorted(entries, now) && Monotone(clock)
    ensures PopFresh(entries, clock, k) ==
            if entries != [] && Fresh(entries[|entries| - 1], clock(k))
            then (Some(entries[|entries| - 1].conn), entries[..|entries| - 1])
            else (None, [])
    decreases |entries|
  {
    if entries != [] && !Fresh(entries[|entries| - 1], clock(k)) {
      var front := entries[..|entries| - 1];
      NewestOrNothing(front, now, clock, k + 1);
      if front != [] {
        assert front[|front| - 1].parkedAt <= entries[|entries| - 1].parkedAt;
        assert clock(k) <= clock(k + 1);
      }
    }
  }

  lemma {:induction false} RetainedShape(entries: seq<Pooled>, look: nat -> nat, now: nat)
    requires Sorted(entries, now)
    ensures Sorted(Retained(entries, look), now)
    ensures |Retained(entries, look)| <= |entries|
    ensures forall e :: e in Retained(entries, look) ==> e in entries
    ensures entries != [] && Retained(entries, look) != [] ==>
              Retained(entries, look)[|Retained(entries, look)| - 1].parkedAt <= entries[|entries| - 1].parkedAt
  {
    if entries != [] {
      var n := |entries| - 1;
      RetainedShape(entries[..n], look, now);
      var r := Retained(entries[..n], look);
      forall i | 0 <= i < |r| ensures r[i].parkedAt <= entries[n].parkedAt {
        assert r[i] in entries[..n];
      }
    }
  }

  /** Evicting first never changes what a later `take` returns. */
  lemma EvictThenTake(s: Stacks, a: string, now: nat, look: string -> nat -> nat, clock: nat -> nat)
    requires Sorted(StackOf(s, a), now) && Monotone(clock)
    requires forall i :: 0 <= i < |StackOf(s, a)| ==> look(a)(i) <= clock(0)
    ensures Taken(Evicted(s, look), a, clock).0 == Taken(s, a, clock).0
  {
    var entries := StackOf(s, a);
    var kept := Retained(entries, look(a));
    RetainedShape(entries, look(a), now);
    NewestOrNothing(entries, now, clock, 0);
    NewestOrNothing(kept, now, clock, 0);
    if a in s {
      assert StackOf(Evicted(s, look), a) == kept;
    }
  }

  // ----- every connection is in exactly one place -------------------------------

  /** The pool, the connections handed out, and those dropped, at some instant. */
  datatype Ledger = Ledger(pool: Stacks, out: set<Conn>, gone: set<Conn>, now: nat)

  ghost function ConnsOf(entries: seq<Pooled>): set<Conn> {
    set i | 0 <= i < |entries| :: entries[i].conn
  }

  ghost function Idle(s: Stacks): set<Conn> {
    set a, c | a in s && c in ConnsOf(s[a]) :: c
  }

  ghost predicate Unique(entries: seq<Pooled>) {
    forall i, j :: 0 <= i < j < |entries| ==> entries[i].conn != entries[j].conn
  }

  ghost predicate Apart(s: Stacks) {
    && (forall a :: a in s ==> Unique(s[a]))
    && (forall a, b, c :: a in s && b in s && c in ConnsOf(s[a]) && c in ConnsOf(s[b]) ==> a == b)
  }

  ghost predicate Inv(l: Ledger) {
    && (forall a :: a in l.pool ==> Sorted(l.pool[a], l.now))
    && Apart(l.pool)
    && Idle(l.pool) !! l.out && Idle(l.pool) !! l.gone && l.out !! l.gone
  }

  ghost function All(l: Ledger): set<Conn> {
    Idle(l.pool) + l.out + l.gone
  }

  datatype Op =
    | Dial(c: Conn)
    | Put(address: string, conn: Conn)
    | Take(address: string, clock: nat -> nat)
    | Evict(look: string -> nat -> nat)

  /** What one operation does to the books; whatever leaves the pool without being handed out is dropped. */
  ghost predicate Step(l: Ledger, op: Op, l': Ledger) {
    && l.now <= l'.now
    && match op
       case Dial(c) =>
         c !in All(l) && l'.pool == l.pool && l'.out == l.out + {c} && l'.gone == l.gone
       case Put(a, c) =>
         && c in l.out && l'.pool == Parked(l.pool, a, c, l'.now) && l'.out == l.out - {c}
         && l'.gone == l.gone + ({c} - Idle(l'.pool))
       case Take(a, clock) =>
         && Monotone(clock) && l.now <= clock(0) && clock(|StackOf(l.pool, a)|) <= l'.now
         && l'.pool == Taken(l.pool, a, clock).1
         && var got := Taken(l.pool, a, clock).0;
            var handed := if got.Some? then {got.value} else {};
            l'.out == l.out + handed && l'.gone == l.gone + (Idle(l.pool) - Idle(l'.pool) - handed)
       case Evict(look) =>
         && l'.pool == Evicted(l.pool, look) && l'.out == l.out && l'.gone == l.gone + (Idle(l.pool) - Idle(l'.pool))
  }

  lemma LaterSorted(entries: seq<Pooled>, now: nat, later: nat)
    requires Sorted(entries, now) && now <= later
    ensures Sorted(entries, later)
  {
  }

  /** Replacing one stack by part of itself keeps stacks apart and only removes connections. */
  lemma ShrinkStack(s: Stacks, t: Stacks)
    requires Apart(s)
    requires forall a :: a in t ==> a in s && ConnsOf(t[a]) <= ConnsOf(s[a])
    requires forall a :: a in t ==> Unique(t[a])
    ensures Apart(t) && Idle(t) <= Idle(s)
  {
  }

  lemma PrefixConns(entries: seq<Pooled>, n: nat)
    requires n <= |entries|
    ensures ConnsOf(entries[..n]) <= ConnsOf(entries)
  {
    forall c | c in ConnsOf(entries[..n]) ensures c in ConnsOf(entries) {
      var i :| 0 <= i < n && entries[..n][i].conn == c;
      assert entries[i].conn == c;
    }
  }

  lemma {:induction false} RetainedConns(entries: seq<Pooled>, look: nat -> nat)
    requires Unique(entries)
    ensures Unique(Retained(entries, look)) && ConnsOf(Retained(entries, look)) <= ConnsOf(entries)
  {
    if entries != [] {
      var n := |entries| - 1;
      RetainedConns(entries[..n], look);
      PrefixConns(entries, n);
      var r := Retained(entries[..n], look);
      assert entries[n].conn in ConnsOf(entries);
      forall i | 0 <= i < |r| ensures r[i].conn != entries[n].conn {
        assert r[i].conn in ConnsOf(r);
        var j :| 0 <= j < n && entries[..n][j].conn == r[i].conn;
        assert entries[j].conn == r[i].conn;
      }
      forall c | c in ConnsOf(Retained(entries, look)) ensures c in ConnsOf(entries) {
        if c != entries[n].conn {
          var i :| 0 <= i < |Retained(entries, look)| && Retained(entries, look)[i].conn == c;
          assert r[i].conn == c;
          assert c in ConnsOf(r);
        }
      }
    }
  }

  /** The books stay balanced when connections leave the pool, handed out or dropped. */
  lemma BalanceOut(idle: set<Conn>, idle': set<Conn>, out: set<Conn>, gone: set<Conn>, handed: set<Conn>)
    requires idle !! out && idle !! gone && out !! gone
    requires idle' <= idle && handed <= idle && handed !! idle'
    ensures var out', gone' := out + handed, gone + (idle - idle' - handed);
            idle' !! out' && idle' !! gone' && out' !! gone' && idle' + out' + gone' == idle + out + gone
  {
  }

  lemma PutApart(s: Stacks, t: Stacks, a: string, c: Conn)
    requires Apart(s) && c !in Idle(s) && a in t && t.Keys == s.Keys + {a}
    requires forall b :: b in t && b != a ==> t[b] == s[b]
    requires |t[a]| == |StackOf(s, a)| + 1 && t[a][..|StackOf(s, a)|] == StackOf(s, a) && t[a][|StackOf(s, a)|].conn == c
    ensures Apart(t) && Idle(t) == Idle(s) + {c}
  {
    var entries := StackOf(s, a);
    SnocConns(entries, t[a][|entries|]);
    assert t[a] == entries + [t[a][|entries|]];
    PutIdle(s, t, a, c);
    assert c !in ConnsOf(entries) && Unique(entries);
    PutUnique(entries, t[a][|entries|]);
    PutOthers(s, t, a, c);
    ApartAgain(s, t, a);
  }

  lemma ApartAgain(s: Stacks, t: Stacks, a: string)
    requires Apart(s) && a in t && t.Keys == s.Keys + {a} && Unique(t[a])
    requires forall b :: b in t && b != a ==> t[b] == s[b] && ConnsOf(t[b]) !! ConnsOf(t[a])
    ensures Apart(t)
  {
  }

  lemma PutUnique(entries: seq<Pooled>, e: Pooled)
    requires Unique(entries) && e.conn !in ConnsOf(entries)
    ensures Unique(entries + [e])
  {
    forall i | 0 <= i < |entries| ensures entries[i].conn != e.conn {
      assert entries[i].conn in ConnsOf(entries);
    }
  }

  lemma PutOthers(s: Stacks, t: Stacks, a: string, c: Conn)
    requires Apart(s) && c !in Idle(s) && a in t && t.Keys == s.Keys + {a}
    requires forall b :: b in t && b != a ==> t[b] == s[b]
    requires ConnsOf(t[a]) == ConnsOf(StackOf(s, a)) + {c}
    ensures forall b :: b in t && b != a ==> ConnsOf(t[b]) !! ConnsOf(t[a])
  {
    assert ConnsOf([]) == {};
    forall b | b in t && b != a ensures ConnsOf(t[b]) !! ConnsOf(t[a]) {
      assert ConnsOf(t[b]) <= Idle(s);
    }
  }

  lemma PutSorted(entries: seq<Pooled>, c: Conn, now: nat, later: nat)
    requires Sorted(entries, now) && now <= later
    ensures |entries| < MAX_IDLE_PER_HOST ==> Sorted(entries + [Pooled(c, later)], later)
    ensures Sorted(entries, later)
  {
  }

  lemma PutSortedAll(s: Stacks, a: string, c: Conn, now: nat, later: nat)
    requires (forall b :: b in s ==> Sorted(s[b], now)) && now <= later
    ensures forall b :: b in Parked(s, a, c, later) ==> Sorted(Parked(s, a, c, later)[b], later)
  {
    PutSorted(StackOf(s, a), c, now, later);
    forall b | b in s ensures Sorted(s[b], later) { LaterSorted(s[b], now, later); }
  }

  lemma PutConns(s: Stacks, a: string, c: Conn, later: nat)
    requires Apart(s) && c !in Idle(s)
    ensures var t := Parked(s, a, c, later);
            Apart(t) && Idle(t) == if |StackOf(s, a)| < MAX_IDLE_PER_HOST then Idle(s) + {c} else Idle(s)
  {
    var entries, t := StackOf(s, a), Parked(s, a, c, later);
    if |entries| < MAX_IDLE_PER_HOST {
      assert t[a] == entries + [Pooled(c, later)];
      PutApart(s, t, a, c);
    } else {
      assert t == s;
    }
  }

  lemma PutStep(l: Ledger, a: string, c: Conn, l': Ledger)
    requires Inv(l) && Step(l, Put(a, c), l')
    ensures Inv(l') && All(l') == All(l)
  {
    PutSortedAll(l.pool, a, c, l.now, l'.now);
    PutConns(l.pool, a, c, l'.now);
  }

  lemma SnocConns(entries: seq<Pooled>, e: Pooled)
    ensures ConnsOf(entries + [e]) == ConnsOf(entries) + {e.conn}
  {
    var all := entries + [e];
    forall c | c in ConnsOf(entries) ensures c in ConnsOf(all) {
      var i :| 0 <= i < |entries| && entries[i].conn == c;
      assert all[i].conn == c;
    }
    assert all[|entries|].conn == e.conn;
  }

  lemma PutIdle(s: Stacks, t: Stacks, a: string, c: Conn)
    requires a in t && t.Keys == s.Keys + {a}
    requires forall b :: b in t && b != a ==> t[b] == s[b]
    requires ConnsOf(t[a]) == ConnsOf(StackOf(s, a)) + {c}
    ensures Idle(t) == Idle(s) + {c}
  {
    assert ConnsOf([]) == {};
  }

  lemma TakeStep(l: Ledger, a: string, clock: nat -> nat, l': Ledger)
    requires Inv(l) && Step(l, Take(a, clock), l')
    ensures Inv(l') && All(l') == All(l)
  {
    forall b | b in l.pool ensures Sorted(l.pool[b], l'.now) { LaterSorted(l.pool[b], l.now, l'.now); }
    if a in l.pool {
      var entries := l.pool[a];
      NewestOrNothing(entries, l.now, clock, 0);
      TakeShrinks(l.pool, l'.pool, a, |PopFresh(entries, clock, 0).1|);
      var got := Taken(l.pool, a, clock).0;
      if got.Some? { HandedOut(l.pool, l'.pool, a); }
      BalanceOut(Idle(l.pool), Idle(l'.pool), l.out, l.gone, if got.Some? then {got.value} else {});
    }
  }

  lemma TakeShrinks(s: Stacks, t: Stacks, a: string, m: nat)
    requires Apart(s) && a in s && m <= |s[a]| && t == s[a := s[a][..m]]
    ensures Apart(t) && Idle(t) <= Idle(s)
  {
    PrefixConns(s[a], m);
    ShrinkStack(s, t);
  }

  lemma HandedOut(s: Stacks, t: Stacks, a: string)
    requires Apart(s) && a in s && s[a] != [] && t == s[a := s[a][..|s[a]| - 1]]
    ensures s[a][|s[a]| - 1].conn in Idle(s) && s[a][|s[a]| - 1].conn !in Idle(t)
  {
    var n, c := |s[a]| - 1, s[a][|s[a]| - 1].conn;
    assert c in ConnsOf(s[a]);
    forall b | b in t ensures c !in ConnsOf(t[b]) {
      if b == a {
        assert forall i :: 0 <= i < n ==> t[a][i].conn == s[a][i].conn != c;
      }
    }
  }

  lemma EvictStep(l: Ledger, look: string -> nat -> nat, l': Ledger)
    requires Inv(l) && Step(l, Evict(look), l')
    ensures Inv(l') && All(l') == All(l)
  {
    forall b | b in l'.pool
      ensures Sorted(l'.pool[b], l'.now) && Unique(l'.pool[b]) && ConnsOf(l'.pool[b]) <= ConnsOf(l.pool[b])
    {
      RetainedShape(l.pool[b], look(b), l.now);
      LaterSorted(l'.pool[b], l.now, l'.now);
      RetainedConns(l.pool[b], look(b));
    }
    ShrinkStack(l.pool, l'.pool);
    BalanceOut(Idle(l.pool), Idle(l'.pool), l.out, l.gone, {});
  }

  /**
   * Over any run of dialling, parking, taking and evicting with a monotone
   * clock, every connection ever dialled is in exactly one of pooled, handed out
   * and dropped, and every stack stays sorted by park time and bounded.
   */
  lemma {:induction false} RunKeepsBooks(ls: seq<Ledger>, ops: seq<Op>, k: nat)
    requires |ls| == |ops| + 1 && k <= |ops|
    requires ls[0].pool == map[] && ls[0].out == {} && ls[0].gone == {}
    requires forall i :: 0 <= i < |ops| ==> Step(ls[i], ops[i], ls[i + 1])
    ensures Inv(ls[k])
    ensures All(ls[k]) == set i | 0 <= i < k && ops[i].Dial? :: ops[i].c
  {
    if k > 0 {
      RunKeepsBooks(ls, ops, k - 1);
      var l, op, l' := ls[k - 1], ops[k - 1], ls[k];
      assert Step(l, op, ls[k - 1 + 1]);
      match op {
        case Dial(c) =>
          forall b | b in l.pool ensures Sorted(l.pool[b], l'.now) { LaterSorted(l.pool[b], l.now, l'.now); }
          assert ops[k - 1].Dial?;
        case Put(a, c) => PutStep(l, a, c, l');
        case Take(a, clock) => TakeStep(l, a, clock, l');
        case Evict(look) => EvictStep(l, look, l');
      }
    }
  }

  /**
   * Park and take: with room on the stack, a connection parked at `t` comes back
   * first within 45 seconds; later nothing does, since everything below it is older.
   * A stack of 8192 is full, and what is then put is dropped.
   */
  lemma ParkAndTake(s: Stacks, a: string, c: Conn, t: nat, now: nat)
    requires Sorted(StackOf(s, a), t) && t <= now
    ensures |StackOf(s, a)| < 8_192 ==>
              Taken(Parked(s, a, c, t), a, _ => now).0 == if now - t < 45_000_000_000 then Some(c) else None
    ensures |StackOf(s, a)| >= 8_192 ==> StackOf(Parked(s, a, c, t), a) == StackOf(s, a)
  {
    var entries := StackOf(s, a);
    if |entries| < 8_192 {
      var after := entries + [Pooled(c, t)];
      assert StackOf(Parked(s, a, c, t), a) == after;
      PutSorted(entries, c, t, t);
      NewestOrNothing(after, t, _ => now, 0);
      assert after[|after| - 1] == Pooled(c, t);
    }
  }
}
