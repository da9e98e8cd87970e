/**
 * Whole-connection results: the exchanges of any run are the messages of the
 * byte stream, the upstream sees the same message boundaries, and the announced
 * disposition is honoured.
 */
module ConnectionRuns {
  import opened Text
  import opened Http1
  import opened Http1Writer
  import opened Http1Framing
  import opened Connection

  // ----- the messages of a byte stream, without any buffer ---------------------

  /** One request of a stream: its head, and its body as Content-Length frames it. */
  datatype Message = Message(raw: string, body: string)

  function BodySize(body: BodyLength): nat {
    if body.Fixed? then body.length else 0
  }

  function Cut(s: string, a: nat, b: nat): (m: Option<Message>)
    requires a <= b
    ensures m.Some? ==> |m.value.raw| == a && |m.value.raw| + |m.value.body| == b <= |s|
  {
    if b <= |s| then Some(Message(s[..a], s[a..b])) else None
  }

  /** The message a parse result frames, when it is whole and not chunked. */
  function FrameBy(s: string, parsed: Parsed<RequestHead>): (m: Option<Message>)
    ensures m.Some? ==> 0 < |m.value.raw| && |m.value.raw| + |m.value.body| <= |s|
  {
    if !parsed.Complete? || parsed.head.body.Chunked? || parsed.head.headLen == 0 then None
    else Cut(s, parsed.head.headLen, parsed.head.headLen + BodySize(parsed.head.body))
  }

  /** The request at the front of a stream. */
  function NextMessage(s: string): (m: Option<Message>)
    ensures m.Some? ==> 0 < |m.value.raw| && |m.value.raw| + |m.value.body| <= |s|
  {
    FrameBy(s, RequestOf(s))
  }

  ghost predicate Advances(next: string -> Option<Message>) {
    forall s :: next(s).Some? ==> 0 < |next(s).value.raw| && |next(s).value.raw| + |next(s).value.body| <= |s|
  }

  function MessagesBy(s: string, next: string -> Option<Message>): seq<Message>
    requires Advances(next)
    decreases |s|
  {
    match next(s)
    case None => []
    case Some(m) => [m] + MessagesBy(s[|m.raw| + |m.body|..], next)
  }

  /** All whole requests of a stream, one after the other. */
  function Messages(s: string): seq<Message> {
    MessagesBy(s, NextMessage)
  }

  // ----- runs forward the stream's messages --------------------------------------

  ghost predicate Framed(x: Exchange) {
    !x.head.body.Chunked? && BodyDone(x.head.body, x.sentBody)
  }

  lemma FrontSlices(s: string, raw: string, body: string)
    requires raw + body <= s
    ensures |raw| + |body| <= |s| && s == raw + s[|raw|..]
    ensures s[..|raw|] == raw && s[|raw|..|raw| + |body|] == body
  {
    assert s[..|raw| + |body|] == raw + body;
  }

  lemma FrontFrame(s: string, x: Exchange)
    requires 0 < x.head.headLen == |x.raw| && x.raw + x.sentBody <= s && Framed(x)
    ensures FrameBy(s, Complete(x.head)) == Some(Message(x.raw, x.sentBody))
  {
    FrontSlices(s, x.raw, x.sentBody);
  }

  lemma FrontMessage(s: string, x: Exchange)
    requires RequestOf(x.raw) == Complete(x.head) && x.head.headLen == |x.raw|
    requires x.raw + x.sentBody <= s && Framed(x)
    ensures NextMessage(s) == Some(Message(x.raw, x.sentBody))
  {
    HeadAlone(x.raw);
    FrontSlices(s, x.raw, x.sentBody);
    ParseStable(x.raw, s[|x.raw|..], "");
    FrontFrame(s, x);
  }

  lemma {:induction false} ConsumedTake(xs: seq<Exchange>, k: nat)
    requires k <= |xs|
    ensures Consumed(xs[..k]) <= Consumed(xs)
    decreases |xs| - k
  {
    if k == |xs| {
      assert xs[..k] == xs;
    } else {
      ConsumedTake(xs, k + 1);
      assert xs[..k + 1][..k] == xs[..k];
    }
  }

  /** After `k` exchanges the messages still to come are those of the bytes still to come. */
  lemma RunFollowsMessages(env: Env, stream: string, xs: seq<Exchange>, k: nat)
    requires AllFaithful(env, xs) && Consumed(xs) <= stream && k <= |xs|
    requires forall i :: 0 <= i < k ==> Framed(xs[i])
    ensures Consumed(xs[..k]) <= stream
    ensures Follows(Messages(stream), stream, xs, k)
  {
    forall i | 0 <= i < k ensures Sound(xs[i]) { HeadAt(env, xs, i); }
    FollowsStart(stream, xs);
    RunFollows(Messages(stream), stream, xs, k);
  }

  lemma FollowsStart(stream: string, xs: seq<Exchange>)
    ensures Follows(Messages(stream), stream, xs, 0)
  {
    assert stream[0..] == stream && Consumed(xs[..0]) == "";
  }

  lemma HeadAt(env: Env, xs: seq<Exchange>, k: nat)
    requires AllFaithful(env, xs) && k < |xs|
    ensures RequestOf(xs[k].raw) == Complete(xs[k].head) && xs[k].head.headLen == |xs[k].raw|
  {
    FaithfulAt(env, xs, k);
  }

  /** The head is parsed from its own bytes and the body is the one it frames. */
  ghost predicate Sound(x: Exchange) {
    RequestOf(x.raw) == Complete(x.head) && x.head.headLen == |x.raw| && Framed(x)
  }

  lemma {:induction false} RunFollows(all: seq<Message>, stream: string, xs: seq<Exchange>, k: nat)
    requires Consumed(xs) <= stream && k <= |xs|
    requires forall i :: 0 <= i < k ==> Sound(xs[i])
    requires Follows(all, stream, xs, 0)
    ensures Consumed(xs[..k]) <= stream && Follows(all, stream, xs, k)
  {
    if k > 0 {
      RunFollows(all, stream, xs, k - 1);
      ConsumedTake(xs, k);
      assert Sound(xs[k - 1]);
      FollowsStep(all, stream, xs, k - 1, k);
    }
  }

  ghost predicate Follows(all: seq<Message>, stream: string, xs: seq<Exchange>, k: nat) {
    && k <= |all| && k <= |xs| && Consumed(xs[..k]) <= stream
    && StillToCome(all, stream, Consumed(xs[..k]), k)
    && Taken(all, xs, k)
  }

  ghost predicate StillToCome(all: seq<Message>, stream: string, done: string, k: nat)
    requires k <= |all| && |done| <= |stream|
  {
    all[k..] == Messages(stream[|done|..])
  }

  ghost predicate Taken(all: seq<Message>, xs: seq<Exchange>, k: nat)
    requires k <= |all| && k <= |xs|
  {
    forall i :: 0 <= i < k ==> all[i] == Message(xs[i].raw, xs[i].sentBody)
  }

  lemma TakenStep(all: seq<Message>, xs: seq<Exchange>, k: nat, next: nat)
    requires next == k + 1 <= |all| && next <= |xs| && Taken(all, xs, k) && all[k] == Message(xs[k].raw, xs[k].sentBody)
    ensures Taken(all, xs, next)
  {
  }

  lemma ConsumedNext(xs: seq<Exchange>, k: nat, next: nat)
    requires next == k + 1 <= |xs|
    ensures Consumed(xs[..next]) == Consumed(xs[..k]) + xs[k].raw + xs[k].sentBody
  {
    assert xs[..next][..k] == xs[..k];
  }

  lemma FollowsStep(all: seq<Message>, stream: string, xs: seq<Exchange>, k: nat, next: nat)
    requires Follows(all, stream, xs, k) && next == k + 1 <= |xs| && Consumed(xs[..next]) <= stream
    requires Sound(xs[k])
    ensures Follows(all, stream, xs, next)
  {
    var done := Consumed(xs[..k]);
    ConsumedNext(xs, k, next);
    NextInRun(all, stream, done, xs[k], k, next);
    TakenStep(all, xs, k, next);
  }

  lemma NextInRun(all: seq<Message>, stream: string, done: string, x: Exchange, k: nat, next: nat)
    requires k <= |all| && done + x.raw + x.sentBody <= stream && next == k + 1
    requires StillToCome(all, stream, done, k)
    requires Sound(x)
    ensures |all| > k && all[k] == Message(x.raw, x.sentBody)
    ensures StillToCome(all, stream, done + x.raw + x.sentBody, next)
  {
    TakenPrefix(stream, done, x.raw, x.sentBody);
    FrontMessage(stream[|done|..], x);
    NextBy(all, stream, done, Message(x.raw, x.sentBody), k, NextMessage);
  }

  lemma NextBy(all: seq<Message>, stream: string, done: string, m: Message, k: nat, next: string -> Option<Message>)
    requires Advances(next) && k <= |all| && done + m.raw + m.body <= stream
    requires all[k..] == MessagesBy(stream[|done|..], next) && next(stream[|done|..]) == Some(m)
    ensures |all| > k && all[k] == m
    ensures all[k + 1..] == MessagesBy(stream[|done + m.raw + m.body|..], next)
  {
    TakenPrefix(stream, done, m.raw, m.body);
    UnfoldMessages(all[k..], stream[|done|..], m, next);
    assert all[k] == all[k..][0] && all[k + 1..] == all[k..][1..];
  }

  lemma TakenPrefix(stream: string, done: string, raw: string, body: string)
    requires done + raw + body <= stream
    ensures raw + body <= stream[|done|..]
    ensures stream[|done|..][|raw| + |body|..] == stream[|done + raw + body|..]
  {
    assert done + raw + body == done + (raw + body);
    assert stream[..|done| + |raw + body|] == done + (raw + body);
    assert stream[|done|..][..|raw + body|] == raw + body;
  }

  lemma UnfoldMessages(ms: seq<Message>, s: string, m: Message, next: string -> Option<Message>)
    requires Advances(next) && ms == MessagesBy(s, next) && next(s) == Some(m)
    ensures |ms| > 0 && ms[0] == m && ms[1..] == MessagesBy(s[|m.raw| + |m.body|..], next)
  {
  }

  /**
   * Conservation: in every run, for every way the reads were cut, each exchange
   * up to the first chunked or unfinished body forwards exactly the stream's next
   * message; no byte is lost, repeated or moved to another message.
   */
  lemma ForwardsMessages(env: Env, stream: string, xs: seq<Exchange>, end: End, rest: string, log: string, k: nat)
    requires Outcome(env, stream, xs, end, rest, log) && k <= |xs|
    requires forall i :: 0 <= i < k ==> Framed(xs[i])
    ensures |Messages(stream)| >= k
    ensures forall i :: 0 <= i < k ==> Messages(stream)[i] == Message(xs[i].raw, xs[i].sentBody)
  {
    RunFollowsMessages(env, stream, xs, k);
  }

  /** Sniffing: HTTP/2 if the whole preface is there, undecided while the bytes are a part of it, else not. */
  lemma PrefaceSniffed(s: string)
    ensures var preface := "PRI * HTTP/2.0\r\n\r\nSM\r\n\r\n";
            && (DetectH2(s) == Some(true) <==> preface <= s)
            && (DetectH2(s) == None <==> s <= preface && s != preface)
            && (DetectH2(s) == Some(false) <==> !(preface <= s) && !(s <= preface))
  {
    SniffedBy(s, H2_PREFACE);
  }

  lemma SniffedBy(s: string, preface: string)
    ensures var n := if |s| < |preface| then |s| else |preface|;
            s[..n] == preface[..n] <==> preface <= s || s <= preface
  {
    if |s| < |preface| { assert s[..|s|] == s; } else { assert preface[..|preface|] == preface; }
  }

  /** Only a head of which 65536 bytes have arrived without its end is refused for its size. */
  lemma RefusedForSize(env: Env, stream: string, xs: seq<Exchange>, end: End, rest: string, log: string)
    requires Outcome(env, stream, xs, end, rest, log) && end == HeadTooLarge
    ensures exists n :: 65_536 <= n <= |rest| && RequestOf(rest[..n]).Partial?
  {
    var n: nat :| Overlong(rest, n);
  }

  // ----- nothing is dropped --------------------------------------------------------

  lemma BadFirstLine(s: string)
    requires ReadLines(s).Ready? ==> ReadLines(s).lines == [] || ParseRequestLine(ReadLines(s).lines[0]).None?
    ensures !RequestOf(s).Complete?
  {
  }

  lemma PrefixCrlf(s: string, whole: string)
    requires s <= whole && FindCrlf(s) < |s|
    ensures FindCrlf(whole) == FindCrlf(s) && s[..FindCrlf(s)] == whole[..FindCrlf(s)]
  {
    FindCrlfExtend(s, whole[|s|..]);
    assert s + whole[|s|..] == whole;
  }

  /** A prefix that holds a line holds the first line of the whole. */
  lemma SameFirstLine(s: string, whole: string)
    requires s <= whole && ReadLines(s).Ready? && 0 < FindCrlf(whole)
    ensures FindCrlf(whole) < |whole|
    ensures ReadLines(s).lines != [] && ReadLines(s).lines[0] == whole[..FindCrlf(whole)]
  {
    assert FindCrlf(s) < |s|;
    PrefixCrlf(s, whole);
    FirstLine(s);
  }

  /** Bytes that may still become the HTTP/2 preface frame no HTTP/1.1 request. */
  lemma PrefaceIsNoRequest(s: string)
    requires DetectH2(s).None?
    ensures !RequestOf(s).Complete?
  {
    PrefaceLine();
    PrefaceUndecided(s);
    if ReadLines(s).Ready? { SameFirstLine(s, H2_PREFACE); }
    BadFirstLine(s);
  }

  lemma PrefaceUndecided(s: string)
    requires DetectH2(s).None?
    ensures s <= H2_PREFACE
  {
    assert s[..|s|] == s;
  }

  const PREFACE_LINE := "PRI" + " " + ("*" + " " + "HTTP/2.0")

  lemma PrefaceText()
    ensures H2_PREFACE == PREFACE_LINE + CRLF + "\r\nSM\r\n\r\n"
    ensures |PREFACE_LINE| == 14 && '\r' !in PREFACE_LINE
  {
  }

  lemma LineOf(line: string, rest: string, whole: string)
    requires whole == line + CRLF + rest && '\r' !in line
    ensures FindCrlf(whole) == |line| && whole[..|line|] == line
  {
    FindCrlfLine(line, rest);
    CutLine(line, rest);
  }

  lemma PrefaceLine()
    ensures FindCrlf(H2_PREFACE) == 14
    ensures ParseRequestLine(H2_PREFACE[..14]).None?
  {
    PrefaceText();
    LineOf(PREFACE_LINE, "\r\nSM\r\n\r\n", H2_PREFACE);
    PrefaceVersion();
  }

  lemma PrefaceVersion()
    ensures ParseRequestLine(PREFACE_LINE).None?
  {
    WrongVersion("PRI", "*", "HTTP/2.0");
  }

  lemma WrongVersion(m: string, target: string, version: string)
    requires forall i :: 0 <= i < |m| ==> m[i] != ' '
    requires forall i :: 0 <= i < |target| ==> target[i] != ' '
    requires version != "HTTP/1.1" && version != "HTTP/1.0"
    ensures ParseRequestLine(m + " " + (target + " " + version)).None?
  {
    SpaceBetween(m, target + " " + version);
    SpaceBetween(target, version);
  }

  lemma NoMessages(s: string)
    requires !RequestOf(s).Complete?
    ensures Messages(s) == []
  {
  }

  lemma RestHoldsNone(rest: string, end: End, env: Env, xs: seq<Exchange>)
    requires Explains(end, env, xs, rest) && (end == ClientClosed || end == BadRequest)
    ensures Messages(rest) == []
  {
    if DetectH2(rest).None? { PrefaceIsNoRequest(rest); }
    NoMessages(rest);
  }

  /**
   * Nothing is dropped: a run without chunked bodies that ends because the client
   * closed, or sent something malformed, has forwarded every message of the stream.
   */
  lemma ForwardsAll(env: Env, stream: string, xs: seq<Exchange>, end: End, rest: string, log: string)
    requires Outcome(env, stream, xs, end, rest, log) && (end == ClientClosed || end == BadRequest)
    requires forall i :: 0 <= i < |xs| ==> Framed(xs[i])
    ensures |Messages(stream)| == |xs|
    ensures forall i :: 0 <= i < |xs| ==> Messages(stream)[i] == Message(xs[i].raw, xs[i].sentBody)
  {
    RunFollowsMessages(env, stream, xs, |xs|);
    RestHoldsNone(rest, end, env, xs);
    AllTaken(Messages(stream), stream, xs, rest);
  }

  lemma AllTaken(all: seq<Message>, stream: string, xs: seq<Exchange>, rest: string)
    requires Follows(all, stream, xs, |xs|) && Consumed(xs) + rest == stream && Messages(rest) == []
    ensures |all| == |xs|
  {
    assert xs[..|xs|] == xs;
    assert stream[|Consumed(xs)|..] == rest;
  }

  /** Two runs over the same stream and environment send the same bytes upstream, however they were read. */
  lemma ReadsDoNotMatter(env: Env, stream: string, xs: seq<Exchange>, e1: End, r1: string, l1: string,
                         ys: seq<Exchange>, e2: End, r2: string, l2: string, k: nat)
    requires Outcome(env, stream, xs, e1, r1, l1) && Outcome(env, stream, ys, e2, r2, l2) && k < |xs| && k < |ys|
    requires forall i :: 0 <= i <= k ==> Framed(xs[i]) && Framed(ys[i])
    ensures xs[k].raw == ys[k].raw && xs[k].head == ys[k].head
    ensures xs[k].sentHead == ys[k].sentHead && xs[k].sentBody == ys[k].sentBody
  {
    SameForwards(env, stream, xs, ys, k);
  }

  lemma SameForwards(env: Env, stream: string, xs: seq<Exchange>, ys: seq<Exchange>, k: nat)
    requires AllFaithful(env, xs) && Consumed(xs) <= stream && k < |xs|
    requires AllFaithful(env, ys) && Consumed(ys) <= stream && k < |ys|
    requires forall i :: 0 <= i <= k ==> Framed(xs[i]) && Framed(ys[i])
    ensures xs[k].raw == ys[k].raw && xs[k].head == ys[k].head
    ensures xs[k].sentHead == ys[k].sentHead && xs[k].sentBody == ys[k].sentBody
  {
    RunFollowsMessages(env, stream, xs, k + 1);
    RunFollowsMessages(env, stream, ys, k + 1);
    assert Message(xs[k].raw, xs[k].sentBody) == Messages(stream)[k] == Message(ys[k].raw, ys[k].sentBody);
    FaithfulAt(env, xs, k);
    FaithfulAt(env, ys, k);
  }

  // ----- the upstream sees the same message ---------------------------------------

  ghost predicate Forwardable(env: Env, i: nat, x: Exchange)
    requires Forwarded(env, i, x)
  {
    var route, lines := RouteFor(env, i, x.head).value, BlockLines(x.raw, x.head.headLen);
    && route.target != "" && TargetText(route.target) && Addressable(route.address, env.peer)
    && FitsForward(lines, Nominated(lines), env.peer)
    && !NominatesFraming(Nominated(lines), x.head.body)
  }

  /** Head rewriting and body relay together: the upstream reads exactly one message, with the same body. */
  lemma UpstreamSeesMessage(env: Env, i: nat, x: Exchange)
    requires Forwarded(env, i, x) && Forwardable(env, i, x) && Framed(x)
    ensures NextMessage(x.sentHead + x.sentBody) == Some(Message(x.sentHead, x.sentBody))
  {
    var route := RouteFor(env, i, x.head).value;
    ForwardPreservesFraming(x.raw, route.target, route.address, env.peer);
    var again := RequestOf(x.sentHead).head;
    FrontMessage(x.sentHead + x.sentBody, Exchange(again, x.sentHead, "", x.sentBody, Silent));
  }

  // ----- the announced disposition --------------------------------------------------

  /** The rewritten response head fits what a client parses. */
  ghost predicate Returnable(r: Reply) {
    && r.Relayed? && r.head.headLen <= |r.raw|
    && var lines := BlockLines(r.raw, r.head.headLen); FitsReturn(lines, Nominated(lines))
  }

  /**
   * A client that reads the response head of a finished exchange sees close
   * exactly when the connection then ends by announcement, and keep-alive exactly
   * when the loop goes back to reading: another exchange follows, or the run ends
   * between requests. The head is where the client's log says it is.
   */
  lemma DispositionHonoured(env: Env, stream: string, xs: seq<Exchange>, end: End, rest: string, log: string, i: nat)
    requires Outcome(env, stream, xs, end, rest, log) && i < |xs| && Returnable(xs[i].reply) && xs[i].reply.finished
    ensures Replies(xs[..i]) + xs[i].reply.sentHead + xs[i].reply.sentBody <= log
    ensures var parsed := ResponseOf(xs[i].reply.sentHead, xs[i].head.method_);
            && parsed.Complete?
            && parsed.head.status == xs[i].reply.head.status
            && (parsed.head.closeRequested <==> end == AnnouncedClose && i == |xs| - 1)
            && (!parsed.head.closeRequested <==> i < |xs| - 1 || BeforeNext(end))
    ensures i == MAX_REQUESTS - 1 ==> end == AnnouncedClose
  {
    HeadAsAnnounced(env, xs, i);
    AnswerFacts(env, xs, i);
    LastDecides(xs, end, i);
    InLog(env, xs, end, log, i);
  }

  /** A finished reply is in the client's log, behind the replies before it. */
  lemma InLog(env: Env, xs: seq<Exchange>, end: End, log: string, i: nat)
    requires Wrote(env, xs, end, log) && i < |xs| && xs[i].reply.Relayed?
    ensures Replies(xs[..i]) + xs[i].reply.sentHead + xs[i].reply.sentBody <= log
  {
    RepliesTake(xs, i + 1);
    assert xs[..i + 1][..i] == xs[..i];
    var r := xs[i].reply;
    assert Replies(xs[..i]) + (r.sentHead + r.sentBody) == Replies(xs[..i]) + r.sentHead + r.sentBody;
  }

  /** Whether the connection must close after a reply: asked for, the last allowed, or unframed. */
  ghost predicate CloseDue(request: RequestHead, i: nat, reply: ResponseHead) {
    request.closeRequested || i == 99_999 || reply.body.UntilClose?
  }

  /**
   * Which announcement is due: after a finished exchange the connection ends, and
   * the returned head says close, if and only if the client asked for it, the reply
   * runs to the end of the upstream's connection, or it was the 100000th request.
   */
  lemma DispositionDue(env: Env, stream: string, xs: seq<Exchange>, end: End, rest: string, log: string, i: nat)
    requires Outcome(env, stream, xs, end, rest, log) && i < |xs| && xs[i].reply.Relayed? && xs[i].reply.finished
    ensures RequestOf(xs[i].raw).Complete? && ResponseOf(xs[i].reply.raw, RequestOf(xs[i].raw).head.method_).Complete?
    ensures var request := RequestOf(xs[i].raw).head;
            var due := CloseDue(request, i, ResponseOf(xs[i].reply.raw, request.method_).head);
            && (due <==> end == AnnouncedClose && i == |xs| - 1)
            && (Returnable(xs[i].reply) ==>
                  && ResponseOf(xs[i].reply.sentHead, request.method_).Complete?
                  && (ResponseOf(xs[i].reply.sentHead, request.method_).head.closeRequested <==> due))
  {
    AnswerFacts(env, xs, i);
    LastDecides(xs, end, i);
    AnnouncedAsDue(env, xs, i);
    if Returnable(xs[i].reply) { HeadAsAnnounced(env, xs, i); }
  }

  lemma AnnouncedAsDue(env: Env, xs: seq<Exchange>, i: nat)
    requires AllFaithful(env, xs) && i < |xs| <= MAX_REQUESTS && xs[i].reply.Relayed?
    ensures RequestOf(xs[i].raw) == Complete(xs[i].head)
    ensures ResponseOf(xs[i].reply.raw, xs[i].head.method_) == Complete(xs[i].reply.head)
    ensures xs[i].reply.keepAlive <==> !CloseDue(xs[i].head, i, xs[i].reply.head)
  {
    FaithfulAt(env, xs, i);
  }

  /** The head written parses as announced. */
  lemma HeadAsAnnounced(env: Env, xs: seq<Exchange>, i: nat)
    requires AllFaithful(env, xs) && i < |xs| && Returnable(xs[i].reply)
    ensures var parsed := ResponseOf(xs[i].reply.sentHead, xs[i].head.method_);
            && parsed.Complete? && parsed.head.status == xs[i].reply.head.status
            && parsed.head.closeRequested == !xs[i].reply.keepAlive
  {
    FaithfulAt(env, xs, i);
    ReturnPreservesFraming(xs[i].reply.raw, xs[i].head.method_, xs[i].reply.keepAlive);
  }

  lemma AnswerFacts(env: Env, xs: seq<Exchange>, i: nat)
    requires AllFaithful(env, xs) && i < |xs| && xs[i].reply.Relayed?
    ensures BodyDone(xs[i].head.body, xs[i].sentBody)
    ensures xs[i].reply.keepAlive ==> i + 1 < MAX_REQUESTS
  {
    FaithfulAt(env, xs, i);
  }

  /** What the run did after a finished exchange is what the exchange announced. */
  lemma LastDecides(xs: seq<Exchange>, end: End, i: nat)
    requires i < |xs| <= MAX_REQUESTS && AllKeptAlive(xs[..|xs| - 1])
    requires (AllKeptAlive(xs) <==> BeforeNext(end)) && (end == AnnouncedClose <==> LastAnnouncesClose(xs))
    requires Finished(xs[i]) && (xs[i].reply.keepAlive ==> i + 1 < MAX_REQUESTS)
    ensures !xs[i].reply.keepAlive <==> end == AnnouncedClose && i == |xs| - 1
    ensures xs[i].reply.keepAlive <==> i < |xs| - 1 || BeforeNext(end)
    ensures i == MAX_REQUESTS - 1 ==> end == AnnouncedClose
  {
    if i < |xs| - 1 {
      KeptAliveAt(xs[..|xs| - 1], i);
    }
  }

  lemma {:induction false} RepliesTake(xs: seq<Exchange>, k: nat)
    requires k <= |xs|
    ensures Replies(xs[..k]) <= Replies(xs)
    decreases |xs| - k
  {
    if k == |xs| {
      assert xs[..k] == xs;
    } else {
      RepliesTake(xs, k + 1);
      assert xs[..k + 1][..k] == xs[..k];
    }
  }

  // ----- proxy-made errors ------------------------------------------------------------

  ghost function ErrorStatus(end: End): nat {
    match end
    case BadRequest => 400
    case HeadTooLarge => 431
    case NotFound => 404
    case _ => 502
  }

  lemma StatusOf(code: string)
    requires |code| > 4 && IsDigit(code[0]) && IsDigit(code[1]) && IsDigit(code[2]) && code[3] == ' '
    requires forall i :: 4 <= i < |code| ==> ' ' <= code[i] <= '~'
    ensures StatusText(code) && StatusValue(code) == 100 * Digit(code[0]) + 10 * Digit(code[1]) + Digit(code[2])
  {
  }

  lemma ErrorTexts(end: End)
    requires ErrorCode(end).Some?
    ensures StatusText(ErrorCode(end).value) && StatusValue(ErrorCode(end).value) == ErrorStatus(end)
  {
    Text400();
    Text404();
    Text431();
    Text502();
  }

  lemma Text400()
    ensures StatusText("400 Bad Request") && StatusValue("400 Bad Request") == 400
  {
    StatusOf("400 Bad Request");
  }

  lemma Text404()
    ensures StatusText("404 Not Found") && StatusValue("404 Not Found") == 404
  {
    StatusOf("404 Not Found");
  }

  lemma Text431()
    ensures StatusText("431 Request Header Fields Too Large") && StatusValue("431 Request Header Fields Too Large") == 431
  {
    StatusOf("431 Request Header Fields Too Large");
  }

  lemma Text502()
    ensures StatusText("502 Bad Gateway") && StatusValue("502 Bad Gateway") == 502
  {
    StatusOf("502 Bad Gateway");
  }

  /** Where no read or write fails, no run ends in a failure, and the client gets every due byte. */
  lemma ReliableRun(env: Env, stream: string, xs: seq<Exchange>, end: End, rest: string, log: string)
    requires Outcome(env, stream, xs, end, rest, log) && env.reliable
    ensures end != IoFailed && end != BodyBroken
    ensures log == Replies(xs) + ErrorBytes(end) && Consumed(xs) + rest == stream
  {
  }

  /**
   * A run that ends in a proxy-made error sent the client, after the replies and
   * before closing, nothing but that error: all of it if writing does not fail, and
   * otherwise as much as was written. Whatever the request method, it reads as its
   * status, without a body, announcing close.
   */
  lemma ErrorsClose(env: Env, stream: string, xs: seq<Exchange>, end: End, rest: string, log: string, requestMethod: string)
    requires Outcome(env, stream, xs, end, rest, log) && ErrorCode(end).Some?
    ensures Replies(xs) <= log <= Replies(xs) + ErrorBytes(end)
    ensures env.reliable ==> log == Replies(xs) + ErrorBytes(end)
    ensures ResponseOf(ErrorBytes(end), requestMethod)
         == Complete(ResponseHead(|ErrorBytes(end)|, ErrorStatus(end), Empty, true))
    ensures end.BadUpstream? || AllKeptAlive(xs)
  {
    ErrorReads(end, requestMethod);
    ErrorEnds(end);
    ErrorLogged(env, xs, end, log);
  }

  lemma ErrorEnds(end: End)
    requires ErrorCode(end).Some?
    ensures !end.ReplyBroken? && (end.BadUpstream? || BeforeNext(end))
  {
  }

  lemma ErrorReads(end: End, requestMethod: string)
    requires ErrorCode(end).Some?
    ensures ResponseOf(ErrorBytes(end), requestMethod)
         == Complete(ResponseHead(|ErrorBytes(end)|, ErrorStatus(end), Empty, true))
  {
    ErrorTexts(end);
    ErrorResponseCloses(ErrorCode(end).value, requestMethod);
  }

  lemma ErrorLogged(env: Env, xs: seq<Exchange>, end: End, log: string)
    requires Wrote(env, xs, end, log) && !end.ReplyBroken?
    ensures Replies(xs) <= log <= Replies(xs) + ErrorBytes(end)
    ensures env.reliable ==> log == Replies(xs) + ErrorBytes(end)
  {
  }
}
