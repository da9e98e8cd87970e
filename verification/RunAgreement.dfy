/**
 * What a connection does is decided by its byte stream and its environment, not
 * by how the bytes happened to be read: two runs agree on everything.
 */
module RunAgreement {
  import opened Text
  import opened Http1
  import opened Http1Writer
  import opened Http1Framing
  import opened Connection
  import opened ConnectionRuns

  /** Ends that the bytes decide: no failed read or write, and no head caught by its size. */
  ghost predicate Decisive(env: Env, end: End) {
    !end.IoFailed? && !end.BodyBroken? && !end.HeadTooLarge? && (end.ReplyBroken? ==> env.reliable)
  }

  ghost predicate NoChunked(xs: seq<Exchange>) {
    forall i :: 0 <= i < |xs| ==> !xs[i].head.body.Chunked?
  }

  // ----- one response ----------------------------------------------------------------

  /** A relayed head is the one at the front of the upstream's stream. */
  lemma ReplyHead(stream: string, requestMethod: string, r: Reply)
    requires r.Relayed? && ReplyFaithful(stream, requestMethod, r)
    ensures ResponseOf(stream, requestMethod) == Complete(r.head)
    ensures r.head.headLen == |r.raw| <= |stream| && r.raw == stream[..r.head.headLen] && r.raw + r.sentBody <= stream
  {
    FrontSlices(stream, r.raw, r.sentBody);
    StableInFront(stream, requestMethod, r.raw);
  }

  lemma StableInFront(stream: string, requestMethod: string, raw: string)
    requires |raw| <= |stream| && stream == raw + stream[|raw|..] && ResponseOf(raw, requestMethod).Complete?
    ensures ResponseOf(stream, requestMethod) == ResponseOf(raw, requestMethod) && raw <= stream
  {
    ResponseStable(raw, stream[|raw|..], requestMethod);
  }

  /** The same reply; a chunked body is cut where a read happened to show its terminator. */
  ghost predicate SameReply(r: Reply, q: Reply) {
    if r.Silent? || q.Silent? then r == q
    else r == q.(sentBody := r.sentBody) && (r.sentBody == q.sentBody || r.head.body.Chunked?)
  }

  /** The reply came to an end of its own: complete, or cut by the upstream. */
  ghost predicate Settled(stream: string, r: Reply) {
    r.Relayed? && (r.finished || ReplyCut(stream, r))
  }

  lemma SameHeads(stream: string, requestMethod: string, r: Reply, q: Reply)
    requires r.Relayed? && q.Relayed? && ReplyFaithful(stream, requestMethod, r) && ReplyFaithful(stream, requestMethod, q)
    ensures r.head == q.head && r.raw == q.raw
  {
    ReplyHead(stream, requestMethod, r);
    ReplyHead(stream, requestMethod, q);
  }

  /** Two prefixes of one length are one. */
  lemma SameLength(raw: string, a: string, b: string, stream: string)
    requires raw + a <= stream && raw + b <= stream && |a| == |b|
    ensures a == b
  {
    assert a == (raw + a)[|raw|..] && b == (raw + b)[|raw|..];
  }

  /** A Content-Length reply is complete or cut, not one in one run and the other in another. */
  lemma SameFinish(stream: string, r: Reply, q: Reply)
    requires r.Relayed? && q.Relayed? && r.raw == q.raw && r.head == q.head
    requires r.raw + r.sentBody <= stream && q.raw + q.sentBody <= stream
    requires (r.finished ==> ReplyDone(stream, r)) && (q.finished ==> ReplyDone(stream, q))
    requires Settled(stream, r) && Settled(stream, q)
    ensures ReplyCut(stream, r) <==> ReplyCut(stream, q)
    ensures r.sentBody == q.sentBody || r.head.body.Chunked?
  {
    match r.head.body {
      case Empty =>
      case Fixed(n) =>
        if |r.sentBody| == |q.sentBody| { SameLength(r.raw, r.sentBody, q.sentBody, stream); }
      case Chunked =>
      case UntilClose =>
        assert r.raw + r.sentBody == stream == q.raw + q.sentBody;
        SameLength(r.raw, r.sentBody, q.sentBody, stream);
    }
  }

  lemma RepliesSettle(stream: string, requestMethod: string, r: Reply, q: Reply)
    requires r.Relayed? && q.Relayed? && ReplyFaithful(stream, requestMethod, r) && ReplyFaithful(stream, requestMethod, q)
    requires r.keepAlive == q.keepAlive && r.finished == q.finished && Settled(stream, r) && Settled(stream, q)
    ensures SameReply(r, q)
  {
    SameHeads(stream, requestMethod, r, q);
    SameFinish(stream, r, q);
  }

  // ----- one exchange ------------------------------------------------------------------

  /** Both forward the request at the front of `before`, whatever they then do. */
  ghost predicate Paired(env: Env, i: nat, x: Exchange, y: Exchange, before: string) {
    && Answers(env, i, x) && Answers(env, i, y)
    && x.head == y.head && x.raw == y.raw && !x.head.body.Chunked?
    && x.raw + x.sentBody <= before && y.raw + y.sentBody <= before
  }

  lemma Swapped(env: Env, i: nat, x: Exchange, y: Exchange, before: string)
    requires Paired(env, i, x, y, before)
    ensures Paired(env, i, y, x, before)
  {
  }

  lemma SameBodies(env: Env, i: nat, x: Exchange, y: Exchange, before: string)
    requires Paired(env, i, x, y, before)
    requires BodyDone(x.head.body, x.sentBody) && BodyDone(y.head.body, y.sentBody)
    ensures x.sentBody == y.sentBody
  {
    if x.head.body.Fixed? { SameLength(x.raw, x.sentBody, y.sentBody, before); }
  }

  /** A body cut short in one run is not complete in another. */
  lemma CutBody(env: Env, i: nat, x: Exchange, y: Exchange, before: string, rest: string)
    requires Paired(env, i, x, y, before) && Ends(BodyCut, env, i, x, rest) && x.raw + x.sentBody + rest == before
    ensures x.reply.Silent? && !BodyDone(y.head.body, y.sentBody)
  {
    assert |before| == |x.raw| + |x.sentBody|;
  }

  /** Whether a relayed reply keeps the connection is decided by the request and the upstream's stream. */
  lemma SameKeep(env: Env, i: nat, x: Exchange, y: Exchange, before: string)
    requires Paired(env, i, x, y, before) && x.reply.Relayed? && y.reply.Relayed?
    ensures x.reply.keepAlive == y.reply.keepAlive && x.reply.head == y.reply.head && x.reply.raw == y.reply.raw
  {
    SameHeads(env.replies(i), x.head.method_, x.reply, y.reply);
  }

  lemma RelayedIsComplete(env: Env, i: nat, y: Exchange)
    requires Answers(env, i, y) && y.reply.Relayed?
    ensures ResponseOf(env.replies(i), y.head.method_).Complete? && BodyDone(y.head.body, y.sentBody)
  {
    ReplyHead(env.replies(i), y.head.method_, y.reply);
  }

  /** An exchange that ends one run is not one after which another run goes on. */
  lemma EndedNotKept(env: Env, i: nat, x: Exchange, y: Exchange, before: string, end: End, rest: string)
    requires Paired(env, i, x, y, before) && Decisive(env, end)
    requires Ends(end, env, i, x, rest) && x.raw + x.sentBody + rest == before
    ensures !(Finished(y) && y.reply.keepAlive)
  {
    if y.reply.Relayed? { RelayedIsComplete(env, i, y); }
    match end {
      case BodyCut => CutBody(env, i, x, y, before, rest);
      case BadUpstream =>
      case UpstreamGone =>
      case AnnouncedClose => if y.reply.Relayed? { SameKeep(env, i, x, y, before); }
      case ReplyBroken => if y.reply.Relayed? { CutNotFinished(env, i, x, y, before); }
    }
  }

  lemma CutNotFinished(env: Env, i: nat, x: Exchange, y: Exchange, before: string)
    requires Paired(env, i, x, y, before) && y.reply.Relayed?
    requires x.reply.Relayed? && ReplyCut(env.replies(i), x.reply)
    ensures !y.reply.finished
  {
    SameKeep(env, i, x, y, before);
    var r, q := x.reply, y.reply;
    assert |q.raw + q.sentBody| <= |env.replies(i)| == |r.raw + r.sentBody|;
  }

  /** An exchange that ends both runs ends them alike. */
  lemma SameEnding(env: Env, i: nat, x: Exchange, y: Exchange, before: string, e: End, r: string, f: End, q: string)
    requires Paired(env, i, x, y, before) && Decisive(env, e) && Decisive(env, f)
    requires Ends(e, env, i, x, r) && x.raw + x.sentBody + r == before
    requires Ends(f, env, i, y, q) && y.raw + y.sentBody + q == before
    ensures e == f
  {
    if e.BodyCut? && !f.BodyCut? {
      CutBody(env, i, x, y, before, r);
      EndedAfterBody(env, i, y, f, q);
    } else if f.BodyCut? && !e.BodyCut? {
      Swapped(env, i, x, y, before);
      CutBody(env, i, y, x, before, q);
      EndedAfterBody(env, i, x, e, r);
    } else if !e.BodyCut? {
      SameReplyEnding(env, i, x, y, before, e, r, f, q);
    }
  }

  lemma EndedAfterBody(env: Env, i: nat, y: Exchange, f: End, q: string)
    requires Ends(f, env, i, y, q) && !f.BodyCut? && Decisive(env, f)
    ensures BodyDone(y.head.body, y.sentBody)
  {
  }

  lemma SameReplyEnding(env: Env, i: nat, x: Exchange, y: Exchange, before: string, e: End, r: string, f: End, q: string)
    requires Paired(env, i, x, y, before) && Decisive(env, e) && Decisive(env, f) && !e.BodyCut? && !f.BodyCut?
    requires Ends(e, env, i, x, r) && Ends(f, env, i, y, q)
    ensures e == f
  {
    if x.reply.Relayed? { RelayedIsComplete(env, i, x); }
    if y.reply.Relayed? { RelayedIsComplete(env, i, y); }
    if e.ReplyBroken? && f.AnnouncedClose? { CutNotFinished(env, i, x, y, before); }
    if f.ReplyBroken? && e.AnnouncedClose? {
      Swapped(env, i, x, y, before);
      CutNotFinished(env, i, y, x, before);
    }
  }

  // ----- the exchanges two runs share -----------------------------------------------------

  lemma ReplyBothFinished(env: Env, i: nat, x: Exchange, y: Exchange, before: string)
    requires Paired(env, i, x, y, before) && Finished(x) && Finished(y)
    ensures SameReply(x.reply, y.reply)
  {
    SameKeep(env, i, x, y, before);
    RepliesSettle(env.replies(i), x.head.method_, x.reply, y.reply);
  }

  lemma ReplyBothEnded(env: Env, i: nat, x: Exchange, y: Exchange, before: string, end: End, r: string, q: string)
    requires Paired(env, i, x, y, before) && Decisive(env, end)
    requires Ends(end, env, i, x, r) && x.raw + x.sentBody + r == before
    requires Ends(end, env, i, y, q) && y.raw + y.sentBody + q == before
    ensures SameReply(x.reply, y.reply) && x.sentBody == y.sentBody
  {
    if end.BodyCut? {
      CutBody(env, i, x, y, before, r);
      Swapped(env, i, x, y, before);
      CutBody(env, i, y, x, before, q);
      SameLength(x.raw, x.sentBody, y.sentBody, before);
    } else {
      EndedAfterBody(env, i, x, end, r);
      EndedAfterBody(env, i, y, end, q);
      SameBodies(env, i, x, y, before);
      if end.AnnouncedClose? {
        ReplyBothFinished(env, i, x, y, before);
      } else if end.ReplyBroken? {
        SameKeep(env, i, x, y, before);
        RepliesSettle(env.replies(i), x.head.method_, x.reply, y.reply);
      }
    }
  }

  /** All but the last exchange finished; the last one ended the run, or finished too. */
  lemma Framings(env: Env, stream: string, xs: seq<Exchange>, end: End, rest: string, k: nat)
    requires Course(env, stream, xs, end, rest) && NoChunked(xs) && k < |xs|
    requires k < |xs| - 1 || BeforeNext(end)
    ensures Framed(xs[k]) && Finished(xs[k]) && xs[k].reply.keepAlive
  {
    if BeforeNext(end) { KeptAliveAt(xs, k); } else { KeptAliveAt(xs[..|xs| - 1], k); }
  }

  lemma {:induction false} SameConsumed(xs: seq<Exchange>, ys: seq<Exchange>, k: nat)
    requires k <= |xs| && k <= |ys|
    requires forall i :: 0 <= i < k ==> xs[i].raw == ys[i].raw && xs[i].sentBody == ys[i].sentBody
    ensures Consumed(xs[..k]) == Consumed(ys[..k])
  {
    if k > 0 {
      SameConsumed(xs, ys, k - 1);
      ConsumedNext(xs, k - 1, k);
      ConsumedNext(ys, k - 1, k);
    }
  }

  /** What is left of the stream before exchange `k`. */
  ghost function Left(stream: string, xs: seq<Exchange>, k: nat): string
    requires k <= |xs| && |Consumed(xs[..k])| <= |stream|
  {
    stream[|Consumed(xs[..k])|..]
  }

  /** Exchange `k` takes the request at the front of what is left. */
  lemma TakesNext(env: Env, stream: string, xs: seq<Exchange>, k: nat)
    requires AllFaithful(env, xs) && Consumed(xs) <= stream && k < |xs|
    ensures |Consumed(xs[..k])| <= |stream|
    ensures var before := Left(stream, xs, k);
            && RequestOf(before) == Complete(xs[k].head) && xs[k].head.headLen == |xs[k].raw|
            && xs[k].raw + xs[k].sentBody <= before
  {
    ConsumedTake(xs, k + 1);
    ConsumedNext(xs, k, k + 1);
    TakenPrefix(stream, Consumed(xs[..k]), xs[k].raw, xs[k].sentBody);
    HeadAt(env, xs, k);
    var before := Left(stream, xs, k);
    FrontSlices(before, xs[k].raw, xs[k].sentBody);
    RequestInFront(before, xs[k].raw);
  }

  lemma RequestInFront(stream: string, raw: string)
    requires |raw| <= |stream| && stream == raw + stream[|raw|..] && RequestOf(raw).Complete?
    ensures RequestOf(stream) == RequestOf(raw)
  {
    RequestStable(raw, stream[|raw|..]);
  }

  /** Two runs that have consumed the same bytes forward the same request next. */
  lemma SameNext(env: Env, stream: string, xs: seq<Exchange>, ys: seq<Exchange>, k: nat)
    requires AllFaithful(env, xs) && Consumed(xs) <= stream && k < |xs|
    requires AllFaithful(env, ys) && Consumed(ys) <= stream && k < |ys|
    requires Consumed(xs[..k]) == Consumed(ys[..k]) && !xs[k].head.body.Chunked?
    ensures |Consumed(xs[..k])| <= |stream|
    ensures Paired(env, k, xs[k], ys[k], Left(stream, xs, k)) && xs[k].sentHead == ys[k].sentHead
  {
    TakesNext(env, stream, xs, k);
    TakesNext(env, stream, ys, k);
    SameFront(Left(stream, xs, k), xs[k], ys[k]);
    AnswersAt(env, xs, k);
    AnswersAt(env, ys, k);
    SentAt(env, xs, ys, k);
  }

  lemma SameFront(before: string, x: Exchange, y: Exchange)
    requires x.head == y.head && x.head.headLen == |x.raw| && y.head.headLen == |y.raw|
    requires x.raw + x.sentBody <= before && y.raw + y.sentBody <= before
    ensures x.raw == y.raw
  {
    FrontSlices(before, x.raw, x.sentBody);
    FrontSlices(before, y.raw, y.sentBody);
  }

  lemma AnswersAt(env: Env, xs: seq<Exchange>, k: nat)
    requires AllFaithful(env, xs) && k < |xs|
    ensures Answers(env, k, xs[k])
  {
    FaithfulAt(env, xs, k);
  }

  lemma SentAt(env: Env, xs: seq<Exchange>, ys: seq<Exchange>, k: nat)
    requires AllFaithful(env, xs) && AllFaithful(env, ys) && k < |xs| && k < |ys|
    requires xs[k].raw == ys[k].raw && xs[k].head == ys[k].head
    ensures xs[k].sentHead == ys[k].sentHead
  {
    FaithfulAt(env, xs, k);
    FaithfulAt(env, ys, k);
  }

  // ----- whole runs -------------------------------------------------------------------------

  /** What a run of the connection leaves: its exchanges, why it ended, the bytes left and the client's log. */
  datatype Result = Result(xs: seq<Exchange>, end: End, rest: string, log: string)

  ghost predicate IsRun(env: Env, stream: string, a: Result) {
    Outcome(env, stream, a.xs, a.end, a.rest, a.log) && NoChunked(a.xs) && Decisive(env, a.end)
  }

  /** A run without regard to what the client was sent. */
  ghost predicate Reads(env: Env, stream: string, a: Result) {
    Course(env, stream, a.xs, a.end, a.rest) && NoChunked(a.xs) && Decisive(env, a.end)
  }

  ghost predicate SameRequest(x: Exchange, y: Exchange) {
    x.head == y.head && x.raw == y.raw && x.sentHead == y.sentHead && x.sentBody == y.sentBody
  }

  lemma History(env: Env, stream: string, a: Result)
    requires Reads(env, stream, a)
    ensures AllFaithful(env, a.xs) && Consumed(a.xs) <= stream && Consumed(a.xs) + a.rest == stream
  {
  }

  /** Runs agree on their first `k` requests if both sent these completely. */
  lemma AgreeUpTo(env: Env, stream: string, a: Result, b: Result, k: nat)
    requires Reads(env, stream, a) && Reads(env, stream, b) && k <= |a.xs| && k <= |b.xs|
    requires forall i :: 0 <= i < k ==> Framed(a.xs[i]) && Framed(b.xs[i])
    ensures forall i :: 0 <= i < k ==> SameRequest(a.xs[i], b.xs[i])
    ensures Consumed(a.xs[..k]) == Consumed(b.xs[..k])
  {
    History(env, stream, a);
    History(env, stream, b);
    forall i | 0 <= i < k ensures SameRequest(a.xs[i], b.xs[i]) {
      SameForwards(env, stream, a.xs, b.xs, i);
    }
    SameConsumed(a.xs, b.xs, k);
  }

  /** Whether exchange `k` of a run left the connection open. */
  ghost predicate WentOn(a: Result, k: nat) {
    k < |a.xs| - 1 || (k < |a.xs| && BeforeNext(a.end))
  }

  lemma WentOnFramed(env: Env, stream: string, a: Result, k: nat)
    requires Reads(env, stream, a) && WentOn(a, k)
    ensures k < |a.xs| && Framed(a.xs[k]) && Finished(a.xs[k]) && a.xs[k].reply.keepAlive
  {
    Framings(env, stream, a.xs, a.end, a.rest, k);
  }

  lemma AgreeWhileOpen(env: Env, stream: string, a: Result, b: Result, k: nat)
    requires Reads(env, stream, a) && Reads(env, stream, b) && k <= |a.xs| && k <= |b.xs|
    requires forall i :: 0 <= i < k ==> WentOn(a, i) && WentOn(b, i)
    ensures forall i :: 0 <= i < k ==> SameRequest(a.xs[i], b.xs[i])
    ensures Consumed(a.xs[..k]) == Consumed(b.xs[..k])
  {
    forall i | 0 <= i < k ensures Framed(a.xs[i]) && Framed(b.xs[i]) {
      WentOnFramed(env, stream, a, i);
      WentOnFramed(env, stream, b, i);
    }
    AgreeUpTo(env, stream, a, b, k);
  }

  lemma RestIsLeft(env: Env, stream: string, a: Result)
    requires Reads(env, stream, a)
    ensures |Consumed(a.xs[..|a.xs|])| <= |stream| && Left(stream, a.xs, |a.xs|) == a.rest
  {
    assert a.xs[..|a.xs|] == a.xs;
    History(env, stream, a);
    assert stream[|Consumed(a.xs)|..] == a.rest;
  }

  /** The last exchange of a run that did not go back to reading. */
  lemma LastEnds(env: Env, stream: string, a: Result)
    requires Reads(env, stream, a) && !BeforeNext(a.end)
    ensures |a.xs| > 0 && Ends(a.end, env, |a.xs| - 1, a.xs[|a.xs| - 1], a.rest)
    ensures var k := |a.xs| - 1;
            |Consumed(a.xs[..k])| <= |stream| && a.xs[k].raw + a.xs[k].sentBody + a.rest == Left(stream, a.xs, k)
  {
    var k := |a.xs| - 1;
    History(env, stream, a);
    ConsumedNext(a.xs, k, k + 1);
    assert a.xs[..k + 1] == a.xs;
    BehindDone(stream, Consumed(a.xs[..k]), a.xs[k].raw, a.xs[k].sentBody, a.rest);
  }

  lemma BehindDone(stream: string, done: string, raw: string, body: string, rest: string)
    requires done + raw + body + rest == stream
    ensures |done| <= |stream| && raw + body + rest == stream[|done|..]
  {
    assert done + raw + body + rest == done + (raw + body + rest);
  }

  lemma WholePreface(s: string)
    requires DetectH2(s) == Some(true)
    ensures H2_PREFACE <= s
  {
    var n := |H2_PREFACE|;
    assert H2_PREFACE[..n] == H2_PREFACE;
  }

  /** A full preface is no HTTP/1.1 request either. */
  lemma WholePrefaceIsNoRequest(s: string)
    requires DetectH2(s) == Some(true)
    ensures !RequestOf(s).Complete?
  {
    PrefaceLine();
    WholePreface(s);
    PrefixCrlf(H2_PREFACE, s);
    if ReadLines(s).Ready? { FirstLine(s); }
    BadFirstLine(s);
  }

  lemma EmptyIsNoRequest()
    ensures RequestOf("").Partial? && DetectH2("").None?
  {
    assert H2_PREFACE[..0] == "";
  }

  /** An end between two requests leaves no request that could have been forwarded. */
  lemma NothingToServe(env: Env, xs: seq<Exchange>, end: End, rest: string)
    requires Explains(end, env, xs, rest) && BeforeNext(end) && Decisive(env, end)
    ensures RequestOf(rest).Complete? ==> RouteFor(env, |xs|, RequestOf(rest).head).None? || !env.connects(|xs|)
  {
    EmptyIsNoRequest();
    if end.ClientClosed? && DetectH2(rest).None? { PrefaceIsNoRequest(rest); }
    if end.Http2Upgrade? { WholePrefaceIsNoRequest(rest); }
  }

  lemma RouteAt(env: Env, xs: seq<Exchange>, k: nat)
    requires AllFaithful(env, xs) && k < |xs|
    ensures RouteFor(env, k, xs[k].head).Some? && env.connects(k)
  {
    FaithfulAt(env, xs, k);
  }

  /** Neither run is shorter than the other. */
  lemma NotShorter(env: Env, stream: string, a: Result, b: Result)
    requires Reads(env, stream, a) && Reads(env, stream, b)
    ensures |a.xs| >= |b.xs|
  {
    if |a.xs| < |b.xs| {
      if BeforeNext(a.end) {
        StopsTooEarly(env, stream, a, b);
      } else {
        EndsTooEarly(env, stream, a, b);
      }
    }
  }

  lemma StopsTooEarly(env: Env, stream: string, a: Result, b: Result)
    requires Reads(env, stream, a) && Reads(env, stream, b) && BeforeNext(a.end)
    ensures |a.xs| >= |b.xs|
  {
    var n := |a.xs|;
    NothingToServe(env, a.xs, a.end, a.rest);
    RestIsLeft(env, stream, a);
    History(env, stream, b);
    if n < |b.xs| {
      AgreeWhileOpen(env, stream, a, b, n);
      TakesNext(env, stream, b.xs, n);
      RouteAt(env, b.xs, n);
    }
  }

  lemma EndsTooEarly(env: Env, stream: string, a: Result, b: Result)
    requires Reads(env, stream, a) && Reads(env, stream, b) && !BeforeNext(a.end)
    ensures |a.xs| >= |b.xs|
  {
    var k := LastNotKept(env, stream, a, b);
    if k < |b.xs| - 1 { WentOnFramed(env, stream, b, k); }
  }

  /** What ended one run did not keep the other going. */
  lemma LastNotKept(env: Env, stream: string, a: Result, b: Result) returns (k: nat)
    requires Reads(env, stream, a) && Reads(env, stream, b) && !BeforeNext(a.end)
    ensures k == |a.xs| - 1
    ensures k < |b.xs| ==> !(Finished(b.xs[k]) && b.xs[k].reply.keepAlive)
  {
    LastEnds(env, stream, a);
    k := |a.xs| - 1;
    if k < |b.xs| {
      LastPaired(env, stream, a, b);
      EndedNotKept(env, k, a.xs[k], b.xs[k], Left(stream, a.xs, k), a.end, a.rest);
    }
  }

  /** The last exchange of one run has its counterpart in the other. */
  lemma LastPaired(env: Env, stream: string, a: Result, b: Result)
    requires Reads(env, stream, a) && Reads(env, stream, b) && 0 < |a.xs| <= |b.xs|
    ensures var k := |a.xs| - 1;
            && |Consumed(a.xs[..k])| <= |stream| && Consumed(a.xs[..k]) == Consumed(b.xs[..k])
            && Paired(env, k, a.xs[k], b.xs[k], Left(stream, a.xs, k)) && a.xs[k].sentHead == b.xs[k].sentHead
  {
    var k := |a.xs| - 1;
    History(env, stream, a);
    History(env, stream, b);
    AgreeWhileOpen(env, stream, a, b, k);
    SameNext(env, stream, a.xs, b.xs, k);
  }

  /** The exchanges that end two runs of one length, and the bytes both start from. */
  lemma LastBoth(env: Env, stream: string, a: Result, b: Result) returns (before: string)
    requires Reads(env, stream, a) && Reads(env, stream, b) && |a.xs| == |b.xs|
    requires !BeforeNext(a.end) && !BeforeNext(b.end)
    ensures |a.xs| > 0
    ensures var x, y := a.xs[|a.xs| - 1], b.xs[|a.xs| - 1];
            && Paired(env, |a.xs| - 1, x, y, before) && x.sentHead == y.sentHead
            && Ends(a.end, env, |a.xs| - 1, x, a.rest) && x.raw + x.sentBody + a.rest == before
            && Ends(b.end, env, |a.xs| - 1, y, b.rest) && y.raw + y.sentBody + b.rest == before
  {
    LastEnds(env, stream, a);
    LastEnds(env, stream, b);
    LastPaired(env, stream, a, b);
    before := Left(stream, a.xs, |a.xs| - 1);
  }

  /** Runs that stop between two requests at the same bytes stop for the same reason. */
  lemma SameStop(env: Env, xs: seq<Exchange>, ys: seq<Exchange>, e: End, f: End, rest: string)
    requires |xs| == |ys| && Explains(e, env, xs, rest) && Explains(f, env, ys, rest)
    requires BeforeNext(e) && BeforeNext(f) && Decisive(env, e) && Decisive(env, f)
    ensures e == f
  {
    EmptyIsNoRequest();
  }

  lemma SameEnds(env: Env, stream: string, a: Result, b: Result)
    requires Reads(env, stream, a) && Reads(env, stream, b) && |a.xs| == |b.xs|
    ensures a.end == b.end && (BeforeNext(a.end) ==> a.rest == b.rest)
  {
    var n := |a.xs|;
    if BeforeNext(a.end) && BeforeNext(b.end) {
      AgreeWhileOpen(env, stream, a, b, n);
      RestIsLeft(env, stream, a);
      RestIsLeft(env, stream, b);
      SameStop(env, a.xs, b.xs, a.end, b.end, a.rest);
    } else if !BeforeNext(a.end) && !BeforeNext(b.end) {
      var before := LastBoth(env, stream, a, b);
      SameEnding(env, n - 1, a.xs[n - 1], b.xs[n - 1], before, a.end, a.rest, b.end, b.rest);
    } else if BeforeNext(b.end) {
      NotBothWays(env, stream, a, b);
    } else {
      NotBothWays(env, stream, b, a);
    }
  }

  lemma NotBothWays(env: Env, stream: string, a: Result, b: Result)
    requires Reads(env, stream, a) && Reads(env, stream, b) && |a.xs| == |b.xs| && !BeforeNext(a.end)
    ensures !BeforeNext(b.end)
  {
    var k := LastNotKept(env, stream, a, b);
    if BeforeNext(b.end) { WentOnFramed(env, stream, b, k); }
  }

  ghost predicate SameExchange(x: Exchange, y: Exchange) {
    SameRequest(x, y) && SameReply(x.reply, y.reply)
  }

  lemma SameOpenExchange(env: Env, stream: string, a: Result, b: Result, k: nat)
    requires Reads(env, stream, a) && Reads(env, stream, b) && |a.xs| == |b.xs| && a.end == b.end
    requires k < |a.xs| && WentOn(a, k)
    ensures SameExchange(a.xs[k], b.xs[k])
  {
    History(env, stream, a);
    History(env, stream, b);
    WentOnFramed(env, stream, a, k);
    WentOnFramed(env, stream, b, k);
    AgreeWhileOpen(env, stream, a, b, k + 1);
    AgreeWhileOpen(env, stream, a, b, k);
    SameNext(env, stream, a.xs, b.xs, k);
    ReplyBothFinished(env, k, a.xs[k], b.xs[k], Left(stream, a.xs, k));
  }

  lemma SameLastExchange(env: Env, stream: string, a: Result, b: Result)
    requires Reads(env, stream, a) && Reads(env, stream, b) && |a.xs| == |b.xs| && !BeforeNext(a.end) && !BeforeNext(b.end)
    ensures |a.xs| > 0 && SameExchange(a.xs[|a.xs| - 1], b.xs[|a.xs| - 1])
  {
    var before := LastBoth(env, stream, a, b);
    LastAlike(env, a, b, before);
  }

  lemma LastAlike(env: Env, a: Result, b: Result, before: string)
    requires |a.xs| == |b.xs| > 0 && Decisive(env, a.end) && Decisive(env, b.end)
    requires var x, y := a.xs[|a.xs| - 1], b.xs[|a.xs| - 1];
             && Paired(env, |a.xs| - 1, x, y, before) && x.sentHead == y.sentHead
             && Ends(a.end, env, |a.xs| - 1, x, a.rest) && x.raw + x.sentBody + a.rest == before
             && Ends(b.end, env, |a.xs| - 1, y, b.rest) && y.raw + y.sentBody + b.rest == before
    ensures SameExchange(a.xs[|a.xs| - 1], b.xs[|a.xs| - 1])
  {
    var k := |a.xs| - 1;
    EndedAlike(env, k, a.xs[k], b.xs[k], before, a.end, a.rest, b.end, b.rest);
  }

  lemma EndedAlike(env: Env, i: nat, x: Exchange, y: Exchange, before: string, e: End, r: string, f: End, q: string)
    requires Paired(env, i, x, y, before) && Decisive(env, e) && Decisive(env, f) && x.sentHead == y.sentHead
    requires Ends(e, env, i, x, r) && x.raw + x.sentBody + r == before
    requires Ends(f, env, i, y, q) && y.raw + y.sentBody + q == before
    ensures e == f && SameExchange(x, y)
  {
    SameEnding(env, i, x, y, before, e, r, f, q);
    ReplyBothEnded(env, i, x, y, before, e, r, q);
  }

  /**
   * Two runs over one stream in one environment, however their reads fell, serve
   * the same number of requests, forward and return the same bytes for each, and
   * end for the same reason with the same bytes left. Chunked bodies, whose end the
   * code looks for inside single reads, are the exception.
   */
  lemma RunsAgree(env: Env, stream: string, a: Result, b: Result)
    requires IsRun(env, stream, a) && IsRun(env, stream, b)
    ensures |a.xs| == |b.xs| && a.end == b.end && a.rest == b.rest
    ensures forall k :: 0 <= k < |a.xs| ==> SameExchange(a.xs[k], b.xs[k])
  {
    ReadingsAgree(env, stream, a, b);
  }

  lemma ReadingsAgree(env: Env, stream: string, a: Result, b: Result)
    requires Reads(env, stream, a) && Reads(env, stream, b)
    ensures |a.xs| == |b.xs| && a.end == b.end && a.rest == b.rest
    ensures forall k :: 0 <= k < |a.xs| ==> SameExchange(a.xs[k], b.xs[k])
  {
    NotShorter(env, stream, a, b);
    NotShorter(env, stream, b, a);
    SameEnds(env, stream, a, b);
    forall k | 0 <= k < |a.xs| ensures SameExchange(a.xs[k], b.xs[k]) {
      if WentOn(a, k) { SameOpenExchange(env, stream, a, b, k); } else { SameLastExchange(env, stream, a, b); }
    }
    SameConsumed(a.xs, b.xs, |a.xs|);
    RestIsLeft(env, stream, a);
    RestIsLeft(env, stream, b);
  }

  // ----- what the client sees ------------------------------------------------------------------

  lemma {:induction false} SameReplies(xs: seq<Exchange>, ys: seq<Exchange>)
    requires |xs| == |ys| && forall k :: 0 <= k < |xs| ==> ReplyBytes(xs[k].reply) == ReplyBytes(ys[k].reply)
    ensures Replies(xs) == Replies(ys)
  {
    if xs != [] {
      var n := |xs| - 1;
      SameReplies(xs[..n], ys[..n]);
    }
  }

  /** Where nothing fails and no reply is chunked, the client is sent the same bytes. */
  lemma ClientSeesTheSame(env: Env, stream: string, a: Result, b: Result)
    requires IsRun(env, stream, a) && IsRun(env, stream, b) && env.reliable
    requires forall k :: 0 <= k < |a.xs| && a.xs[k].reply.Relayed? ==> !a.xs[k].reply.head.body.Chunked?
    ensures a.log == b.log
  {
    RunsAgree(env, stream, a, b);
    forall k | 0 <= k < |a.xs| ensures ReplyBytes(a.xs[k].reply) == ReplyBytes(b.xs[k].reply) {
      assert SameExchange(a.xs[k], b.xs[k]);
    }
    SameReplies(a.xs, b.xs);
    ReliableRun(env, stream, a.xs, a.end, a.rest, a.log);
    ReliableRun(env, stream, b.xs, b.end, b.rest, b.log);
  }
}
